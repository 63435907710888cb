/**
 Demo files: messages written one behind the other, played forwards with the file positions pushed
 on a stack, and backwards by popping them.
 */
module Demo {
  import opened Wire

  const SIGNONS := 4
  const ANGLE_BYTES := 12
  const HEADER := 16

  /** A message with the three view angles stored in front of it, as the bytes of three floats. */
  datatype Frame = Frame(angles: Bytes, data: Bytes)

  // ----- The file -----------------------------------------------------------------------------------

  function Encoded(f: Frame): Bytes { LongOf(|f.data|) + f.angles + f.data }

  datatype FrameRead = EndOfFile | TooLong | Frame_(frame: Frame, next: nat)

  /** The message at a file position.  A message of no bytes counts as the end of the file. */
  function FrameAt(file: Bytes, p: nat): (r: FrameRead)
    requires p <= |file|
    ensures r.Frame_? ==> p < r.next <= |file|
  {
    if |file| - p < 4 then EndOfFile
    else
      var n := Signed32(file[p], file[p + 1], file[p + 2], file[p + 3]);
      if n > MAX_MSGLEN then TooLong
      else if n <= 0 || |file| - p - HEADER < n then EndOfFile
      else Frame_(Frame(file[p + 4..p + HEADER], file[p + HEADER..p + HEADER + n]), p + HEADER + n)
  }

  /** The length in front of a message, lowest byte first. */
  ghost function LengthAt(file: Bytes, p: nat): int
    requires p + 4 <= |file|
  {
    file[p] as int + 256 * file[p + 1] as int + 65536 * file[p + 2] as int + 16777216 * file[p + 3] as int
  }

  /** There is a whole message of an allowed length at a file position. */
  ghost predicate WholeAt(file: Bytes, p: nat)
  {
    p + 16 <= |file| && 0 < LengthAt(file, p) <= 8000 && p + 16 + LengthAt(file, p) <= |file|
  }

  /** What is found at a file position, by the bytes there: a length with the top bit set is negative. */
  lemma FrameAtIs(file: Bytes, p: nat)
    requires p <= |file|
    ensures FrameAt(file, p) == TooLong <==> p + 4 <= |file| && 8000 < LengthAt(file, p) < 0x8000_0000
    ensures FrameAt(file, p).Frame_? <==> WholeAt(file, p)
    ensures WholeAt(file, p) ==>
      var end := p + 16 + LengthAt(file, p);
      FrameAt(file, p) == Frame_(Frame(file[p + 4..p + 16], file[p + 16..end]), end)
  {
  }

  ghost predicate WellFormed(f: Frame) { |f.angles| == ANGLE_BYTES && |f.data| < 0x8000_0000 }

  /** A written message is read back, exactly if it has between one byte and the most a message may have. */
  lemma FrameBack(before: Bytes, f: Frame, more: Bytes)
    requires WellFormed(f)
    ensures FrameAt(before + Encoded(f) + more, |before|) ==
      if |f.data| > MAX_MSGLEN then TooLong
      else if |f.data| == 0 then EndOfFile
      else Frame_(f, |before| + |Encoded(f)|)
  {
    hide LongOf, Signed32;
    var file, p := before + Encoded(f) + more, |before|;
    LengthBack(|f.data|);
    assert file == before + (LongOf(|f.data|) + f.angles + f.data + more);
    FrameParts(before, LongOf(|f.data|), f.angles, f.data, more);
  }

  lemma LengthBack(n: nat)
    requires n < 0x8000_0000
    ensures var b := LongOf(n); |b| == 4 && Signed32(b[0], b[1], b[2], b[3]) == n
  {
    hide Signed32;
    LongValue(n);
  }

  lemma FrameParts(before: Bytes, length: Bytes, angles: Bytes, data: Bytes, more: Bytes)
    requires |length| == 4 && |angles| == ANGLE_BYTES
    ensures var file, p := before + (length + angles + data + more), |before|;
      && file[p] == length[0] && file[p + 1] == length[1] && file[p + 2] == length[2] && file[p + 3] == length[3]
      && file[p + 4..p + HEADER] == angles && file[p + HEADER..p + HEADER + |data|] == data
  {
  }

  /** Where the messages from `p` on start, and at last where no further message is. */
  ghost function Starts(file: Bytes, p: nat): (s: seq<nat>)
    requires p <= |file|
    ensures |s| > 0 && s[0] == p && forall i :: 0 <= i < |s| ==> s[i] <= |file|
    decreases |file| - p
  {
    match FrameAt(file, p)
    case Frame_(_, next) => [p] + Starts(file, next)
    case _ => [p]
  }

  lemma {:induction false} StartsAreConsecutive(file: Bytes, p: nat, i: nat)
    requires p <= |file| && i < |Starts(file, p)|
    ensures var s := Starts(file, p); var f := FrameAt(file, s[i]);
      if i < |s| - 1 then f.Frame_? && f.next == s[i + 1] else !f.Frame_?
    decreases |file| - p
  {
    hide FrameAt;
    var f := FrameAt(file, p);
    if f.Frame_? && i > 0 { StartsAreConsecutive(file, f.next, i - 1); }
  }

  /** The number of messages, and the message of a number. */
  ghost function Total(file: Bytes, p: nat): nat
    requires p <= |file|
  {
    |Starts(file, p)| - 1
  }

  ghost function Nth(file: Bytes, p: nat, i: nat): Frame
    requires p <= |file| && i < Total(file, p)
  {
    StartsAreConsecutive(file, p, i);
    FrameAt(file, Starts(file, p)[i]).frame
  }

  ghost function EncodedAll(fs: seq<Frame>): Bytes {
    if fs == [] then [] else Encoded(fs[0]) + EncodedAll(fs[1..])
  }

  ghost predicate Playable(f: Frame) { |f.angles| == ANGLE_BYTES && 0 < |f.data| <= MAX_MSGLEN }

  /** From `p` on the file holds these messages and no more. */
  ghost predicate Holds(file: Bytes, p: nat, fs: seq<Frame>) {
    p <= |file| && Total(file, p) == |fs| && forall i :: 0 <= i < |fs| ==> Nth(file, p, i) == fs[i]
  }

  /** What was recorded is what there is to play. */
  lemma {:induction false} RecordedIsPlayed(before: Bytes, fs: seq<Frame>)
    requires forall i :: 0 <= i < |fs| ==> Playable(fs[i])
    ensures Holds(before + EncodedAll(fs), |before|, fs)
    decreases |fs|
  {
    hide FrameAt, Holds, Encoded;
    if fs == [] {
      assert before + EncodedAll(fs) == before;
      HoldsNothing(before);
    } else {
      var f, more := fs[0], EncodedAll(fs[1..]);
      var before' := before + Encoded(f);
      assert before + (Encoded(f) + more) == before' + more;
      FrameBack(before, f, more);
      RecordedIsPlayed(before', fs[1..]);
      HoldsOneMore(before' + more, |before|, fs);
    }
  }

  lemma HoldsNothing(file: Bytes)
    ensures Holds(file, |file|, [])
  {
  }

  lemma HoldsOneMore(file: Bytes, p: nat, fs: seq<Frame>)
    requires p <= |file| && fs != [] && FrameAt(file, p).Frame_? && FrameAt(file, p).frame == fs[0]
    requires Holds(file, FrameAt(file, p).next, fs[1..])
    ensures Holds(file, p, fs)
  {
    hide FrameAt, Starts, Total, Nth;
    NthOfRest(file, p, 0);
    forall i | 0 <= i < |fs| ensures Nth(file, p, i) == fs[i] {
      NthOfRest(file, p, i);
      if i > 0 { assert fs[i] == fs[1..][i - 1]; }
    }
  }

  lemma NthOfRest(file: Bytes, p: nat, i: nat)
    requires p <= |file| && FrameAt(file, p).Frame_? && i <= Total(file, FrameAt(file, p).next)
    ensures var f := FrameAt(file, p);
      && Total(file, p) == Total(file, f.next) + 1
      && Nth(file, p, i) == if i == 0 then f.frame else Nth(file, f.next, i - 1)
  {
    var f := FrameAt(file, p);
    assert Starts(file, p) == [p] + Starts(file, f.next);
  }

  // ----- The player ---------------------------------------------------------------------------------

  datatype Reply = Nothing | Message(frame: Frame) | Fatal | NoPosition

  /** `stack` has the newest position first; `start` blocks rewinding at the start of the demo. */
  datatype Player = Player(pos: nat, stack: seq<nat>, start: bool, playing: bool)

  /** One request for a message.  `due` tells whether the clock asks for another message. */
  function Get(file: Bytes, s: Player, rewind: bool, signon: nat, due: bool): (Player, Reply)
    requires s.pos <= |file|
  {
    if !s.playing || (s.start && rewind) then (s, Nothing)
    else
      var s1 := if signon < SIGNONS then s.(stack := []) else s;
      if signon == SIGNONS && !due then (s1, Nothing)
      else
        var s2 := if signon == SIGNONS && !rewind
                  then s1.(stack := [s1.pos] + s1.stack, start := if s1.stack == [] then false else s1.start) else s1;
        match FrameAt(file, s2.pos)
        case TooLong => (s2.(playing := false), Fatal)
        case EndOfFile => (s2.(playing := false), Nothing)
        case Frame_(f, next) =>
          if !rewind then (s2.(pos := next), Message(f))
          else if s2.stack == [] then (s2.(pos := next), NoPosition)
          else (s2.(pos := s2.stack[0], stack := s2.stack[1..], start := s2.start || |s2.stack| == 1), Message(f))
  }

  /**
   While playing, the stack holds the starts of the messages before the current one, newest first;
   and rewinding is blocked exactly when it is empty.
   */
  ghost predicate Inv(file: Bytes, first: nat, s: Player)
    requires first <= |file|
  {
    var starts := Starts(file, first);
    && |s.stack| < |starts| && s.pos == starts[|s.stack|]
    && (forall i :: 0 <= i < |s.stack| ==> s.stack[i] == starts[|s.stack| - 1 - i])
    && (s.start <==> s.stack == [])
    && s.playing
  }

  /** The number of the next message, whether playing goes on, and the numbers delivered so far. */
  datatype Track = Track(k: nat, playing: bool, out: seq<nat>)

  datatype Move = Move(rewind: bool, due: bool)

  /**
   The reference, for a demo of `n` messages: forwards delivers the current message and goes to the
   next; backwards also delivers the current message, and goes to the one before.
   */
  ghost function TrackStep(n: nat, t: Track, m: Move): Track {
    if !t.playing || !m.due || (m.rewind && t.k == 0) then t
    else if t.k >= n then t.(playing := false)
    else Track(if m.rewind then t.k - 1 else t.k + 1, true, t.out + [t.k])
  }

  ghost function TrackRun(n: nat, t: Track, ms: seq<Move>): Track {
    if ms == [] then t else TrackStep(n, TrackRun(n, t, ms[..|ms| - 1]), ms[|ms| - 1])
  }

  /** The player runs with the reference: same message next, and the last reply is the last number delivered. */
  ghost predicate Agrees(file: Bytes, first: nat, s: Player, t: Track)
    requires first <= |file|
  {
    s.playing == t.playing && (s.playing ==> Inv(file, first, s) && |s.stack| == t.k)
  }

  ghost predicate ReplyAgrees(file: Bytes, first: nat, t: Track, t': Track, r: Reply)
    requires first <= |file|
  {
    && r != NoPosition
    && (r.Message? <==> |t'.out| > |t.out|)
    && (r.Message? ==> t.k < Total(file, first) && r.frame == Nth(file, first, t.k) && t'.out == t.out + [t.k])
  }

  lemma ForwardAgrees(file: Bytes, first: nat, s: Player, t: Track)
    requires first <= |file| && Inv(file, first, s) && |s.stack| == t.k && t.playing
    ensures var t' := TrackStep(Total(file, first), t, Move(false, true));
      var (s', r) := Get(file, s, false, SIGNONS, true);
      Agrees(file, first, s', t') && s'.pos <= |file| && ReplyAgrees(file, first, t, t', r)
  {
    hide FrameAt, Starts;
    StartsAreConsecutive(file, first, t.k);
  }

  lemma RewindAgrees(file: Bytes, first: nat, s: Player, t: Track)
    requires first <= |file| && Inv(file, first, s) && |s.stack| == t.k && t.playing
    ensures var t' := TrackStep(Total(file, first), t, Move(true, true));
      var (s', r) := Get(file, s, true, SIGNONS, true);
      Agrees(file, first, s', t') && s'.pos <= |file| && ReplyAgrees(file, first, t, t', r)
  {
    hide FrameAt, Starts;
    StartsAreConsecutive(file, first, t.k);
  }

  lemma GetAgrees(file: Bytes, first: nat, s: Player, t: Track, m: Move)
    requires first <= |file| && Agrees(file, first, s, t) && s.pos <= |file|
    ensures var t' := TrackStep(Total(file, first), t, m); var (s', r) := Get(file, s, m.rewind, SIGNONS, m.due);
      Agrees(file, first, s', t') && s'.pos <= |file| && ReplyAgrees(file, first, t, t', r)
  {
    if s.playing && m.due {
      if m.rewind { RewindAgrees(file, first, s, t); } else { ForwardAgrees(file, first, s, t); }
    }
  }

  /** When rewinding finds no position to go to: before any message was pushed, and only then. */
  lemma NoPositionIff(file: Bytes, s: Player, rewind: bool, signon: nat, due: bool)
    requires s.pos <= |file|
    ensures Get(file, s, rewind, signon, due).1 == NoPosition <==>
      && s.playing && rewind && !s.start && FrameAt(file, s.pos).Frame_?
      && (signon < SIGNONS || (s.stack == [] && (signon == SIGNONS ==> due)))
  {
  }

  /** Requests while connecting, at any stage before the last and whether or not the clock asks for more. */
  ghost function Connecting(file: Bytes, s: Player, stages: seq<(nat, bool)>): (Player, seq<Reply>)
    requires s.pos <= |file|
  {
    if stages == [] then (s, [])
    else
      var (t, rs) := Connecting(file, s, stages[..|stages| - 1]);
      var (signon, due) := stages[|stages| - 1];
      if t.pos <= |file| then var (u, r) := Get(file, t, false, signon, due); (u, rs + [r]) else (t, rs)
  }

  /** Until the connection is complete every request delivers the next message, and no position is kept. */
  lemma {:induction false} ConnectingDelivers(file: Bytes, s: Player, stages: seq<(nat, bool)>)
    requires s.pos <= |file| && s.playing && |stages| <= Total(file, s.pos)
    requires forall i :: 0 <= i < |stages| ==> stages[i].0 < SIGNONS
    ensures var (t, rs) := Connecting(file, s, stages);
      && t == s.(pos := Starts(file, s.pos)[|stages|], stack := if stages == [] then s.stack else [])
      && |rs| == |stages| && forall i :: 0 <= i < |rs| ==> rs[i] == Message(Nth(file, s.pos, i))
  {
    hide FrameAt, Starts;
    if stages != [] {
      var k := |stages| - 1;
      ConnectingDelivers(file, s, stages[..k]);
      StartsAreConsecutive(file, s.pos, k);
    }
  }

  /** The first message after the connection is complete sets up the invariant. */
  lemma FirstForward(file: Bytes, s: Player)
    requires s.pos <= |file| && s.playing && s.stack == [] && FrameAt(file, s.pos).Frame_?
    ensures var (s', r) := Get(file, s, false, SIGNONS, true);
      Inv(file, s.pos, s') && s'.stack == [s.pos] && r == Message(FrameAt(file, s.pos).frame)
  {
    StartsAreConsecutive(file, s.pos, 0);
  }

  /** A step back undoes a step forward. */
  lemma ForwardThenRewind(file: Bytes, first: nat, s: Player)
    requires first <= |file| && Inv(file, first, s) && |s.stack| + 1 < Total(file, first)
    ensures var (s1, r1) := Get(file, s, false, SIGNONS, true);
      && s1.pos <= |file|
      && var (s2, r2) := Get(file, s1, true, SIGNONS, true);
        && s2 == s && r1 == Message(Nth(file, first, |s.stack|)) && r2 == Message(Nth(file, first, |s.stack| + 1))
  {
    StartsAreConsecutive(file, first, |s.stack|);
    StartsAreConsecutive(file, first, |s.stack| + 1);
    assert ([s.pos] + s.stack)[1..] == s.stack;
  }

  /** ... and a step forward undoes a step back. */
  lemma RewindThenForward(file: Bytes, first: nat, s: Player)
    requires first <= |file| && Inv(file, first, s) && 0 < |s.stack| < Total(file, first)
    ensures var (s1, r1) := Get(file, s, true, SIGNONS, true);
      && s1.pos <= |file|
      && var (s2, r2) := Get(file, s1, false, SIGNONS, true);
        && s2 == s && r1 == Message(Nth(file, first, |s.stack|)) && r2 == Message(Nth(file, first, |s.stack| - 1))
  {
    StartsAreConsecutive(file, first, |s.stack|);
    StartsAreConsecutive(file, first, |s.stack| - 1);
    assert [s.stack[0]] + s.stack[1..] == s.stack;
  }

  // ----- Runs ---------------------------------------------------------------------------------------

  ghost function Run(file: Bytes, s: Player, ms: seq<Move>): (Player, seq<Reply>)
    requires s.pos <= |file|
  {
    if ms == [] then (s, [])
    else
      var (s1, rs) := Run(file, s, ms[..|ms| - 1]);
      var m := ms[|ms| - 1];
      if s1.pos <= |file| then var (s2, r) := Get(file, s1, m.rewind, SIGNONS, m.due); (s2, rs + [r]) else (s1, rs)
  }

  /** The messages among the replies. */
  ghost function Delivered(rs: seq<Reply>): seq<Frame> {
    if rs == [] then []
    else Delivered(rs[..|rs| - 1]) + match rs[|rs| - 1] case Message(f) => [f] case _ => []
  }

  ghost predicate Matches(file: Bytes, first: nat, fs: seq<Frame>, out: seq<nat>)
    requires first <= |file|
  {
    && |fs| == |out|
    && forall i :: 0 <= i < |out| ==> out[i] < Total(file, first) && fs[i] == Nth(file, first, out[i])
  }

  lemma AgreesAtFirst(file: Bytes, first: nat, s: Player)
    requires first <= |file| && Inv(file, first, s)
    ensures Agrees(file, first, s, Track(|s.stack|, true, [])) && s.pos <= |file|
  {
  }

  lemma ReplyAgreesMeans(file: Bytes, first: nat, t: Track, t': Track, r: Reply)
    requires first <= |file| && ReplyAgrees(file, first, t, t', r)
    ensures r != NoPosition && (r.Message? <==> |t'.out| > |t.out|)
    ensures r.Message? ==> t.k < Total(file, first) && r.frame == Nth(file, first, t.k) && t'.out == t.out + [t.k]
  {
  }

  /** Over any mixture of steps forwards and backwards the player delivers what the reference says. */
  lemma {:induction false} RunFollowsTrack(file: Bytes, first: nat, s: Player, ms: seq<Move>)
    requires first <= |file| && Inv(file, first, s)
    ensures var (s', rs) := Run(file, s, ms); var t := TrackRun(Total(file, first), Track(|s.stack|, true, []), ms);
      && Agrees(file, first, s', t) && s'.pos <= |file| && NoPosition !in rs
      && Matches(file, first, Delivered(rs), t.out)
  {
    hide Get, Inv, Nth, Total, Agrees, ReplyAgrees;
    AgreesAtFirst(file, first, s);
    if ms != [] {
      var n, t0, init, m := Total(file, first), Track(|s.stack|, true, []), ms[..|ms| - 1], ms[|ms| - 1];
      RunFollowsTrack(file, first, s, init);
      var (s1, rs) := Run(file, s, init);
      var t1 := TrackRun(n, t0, init);
      GetAgrees(file, first, s1, t1, m);
      ReplyAgreesMeans(file, first, t1, TrackStep(n, t1, m), Get(file, s1, m.rewind, SIGNONS, m.due).1);
      var (s2, r) := Get(file, s1, m.rewind, SIGNONS, m.due);
      var rs' := rs + [r];
      assert rs'[..|rs|] == rs;
    }
  }

  ghost function Rewinds(j: nat): seq<Move> { seq(j, _ => Move(true, true)) }

  lemma {:induction false} TrackCountsDown(n: nat, k: nat, j: nat)
    requires j <= k < n
    ensures var t := TrackRun(n, Track(k, true, []), Rewinds(j));
      t.playing && t.k == k - j && |t.out| == j && forall i :: 0 <= i < j ==> t.out[i] == k - i
  {
    if j > 0 {
      TrackCountsDown(n, k, j - 1);
      assert Rewinds(j)[..j - 1] == Rewinds(j - 1);
    }
  }

  /** j steps back from message k deliver k, k - 1, ..., k - j + 1. */
  lemma RewindsCountDown(file: Bytes, first: nat, s: Player, j: nat)
    requires first <= |file| && Inv(file, first, s) && j <= |s.stack| < Total(file, first)
    ensures var (s', rs) := Run(file, s, Rewinds(j)); var out := Delivered(rs);
      && Inv(file, first, s') && |s'.stack| == |s.stack| - j
      && |out| == j && forall i :: 0 <= i < j ==> out[i] == Nth(file, first, |s.stack| - i)
  {
    hide Run, TrackRun, Inv, Nth, Total, Delivered, Rewinds;
    TrackCountsDown(Total(file, first), |s.stack|, j);
    RunFollowsTrack(file, first, s, Rewinds(j));
  }

  /** At the start of the demo steps back deliver nothing and change nothing. */
  lemma {:induction false} BlockedAtStart(file: Bytes, first: nat, s: Player, j: nat)
    requires first <= |file| && Inv(file, first, s) && s.stack == []
    ensures var (s', rs) := Run(file, s, Rewinds(j)); s' == s && Delivered(rs) == []
  {
    hide Inv, Get, FrameAt;
    BlockedStep(file, first, s);
    if j > 0 {
      BlockedAtStart(file, first, s, j - 1);
      assert Rewinds(j)[..j - 1] == Rewinds(j - 1);
      var rs := Run(file, s, Rewinds(j - 1)).1;
      assert (rs + [Nothing])[..|rs|] == rs;
    }
  }

  lemma BlockedStep(file: Bytes, first: nat, s: Player)
    requires first <= |file| && Inv(file, first, s) && s.stack == []
    ensures s.pos <= |file| && Get(file, s, true, SIGNONS, true) == (s, Nothing)
  {
    hide FrameAt;
  }

  ghost function Forwards(j: nat): seq<Move> { seq(j, _ => Move(false, true)) }

  lemma {:induction false} TrackCountsUp(n: nat, k: nat, j: nat)
    requires k + j <= n
    ensures var t := TrackRun(n, Track(k, true, []), Forwards(j));
      t.playing && t.k == k + j && |t.out| == j && forall i :: 0 <= i < j ==> t.out[i] == k + i
  {
    if j > 0 {
      TrackCountsUp(n, k, j - 1);
      assert Forwards(j)[..j - 1] == Forwards(j - 1);
    }
  }

  /** Playing forwards delivers the messages in order. */
  lemma ForwardsCountUp(file: Bytes, first: nat, s: Player, j: nat)
    requires first <= |file| && Inv(file, first, s) && |s.stack| + j <= Total(file, first)
    ensures var (s', rs) := Run(file, s, Forwards(j)); var out := Delivered(rs);
      && Inv(file, first, s') && |s'.stack| == |s.stack| + j
      && |out| == j && forall i :: 0 <= i < j ==> out[i] == Nth(file, first, |s.stack| + i)
  {
    hide Run, TrackRun, Inv, Nth, Total, Delivered, Forwards;
    TrackCountsUp(Total(file, first), |s.stack|, j);
    RunFollowsTrack(file, first, s, Forwards(j));
  }

  /** While playing, the number of the next message determines the whole state of the player. */
  lemma SameNumberSameState(file: Bytes, first: nat, s: Player, s': Player)
    requires first <= |file| && Inv(file, first, s) && Inv(file, first, s') && |s.stack| == |s'.stack|
    ensures s == s'
  {
    assert s.stack == s'.stack;
  }

  /** Rewinding by as many messages as were played restores the player, unless the demo was played to its end. */
  lemma ThereAndBack(file: Bytes, first: nat, s: Player, j: nat)
    requires first <= |file| && Inv(file, first, s) && |s.stack| + j < Total(file, first)
    ensures var s1 := Run(file, s, Forwards(j)).0;
      s1.pos <= |file| && Run(file, s1, Rewinds(j)).0 == s
  {
    hide Run, Inv, Nth, Total, Delivered;
    AgreesAtFirst(file, first, s);
    ForwardsCountUp(file, first, s, j);
    var s1 := Run(file, s, Forwards(j)).0;
    AgreesAtFirst(file, first, s1);
    RewindsCountDown(file, first, s1, j);
    SameNumberSameState(file, first, s, Run(file, s1, Rewinds(j)).0);
  }

  /**
   A step that is due, in either direction, ends the demo exactly behind the last message: so a demo
   played to its end cannot be rewound.  At the start a step back is no step.
   */
  lemma StepEndsIff(file: Bytes, first: nat, s: Player, rewind: bool)
    requires first <= |file| && Inv(file, first, s) && (rewind ==> s.stack != [])
    ensures !Get(file, s, rewind, SIGNONS, true).0.playing <==> |s.stack| == Total(file, first)
  {
    hide FrameAt, Starts;
    StartsAreConsecutive(file, first, |s.stack|);
  }

  // ----- The program --------------------------------------------------------------------------------

  class Recorder {
    var file: Bytes

    constructor (file: Bytes)
      ensures this.file == file
    {
      this.file := file;
    }

    /** Write the length, the view angles and the message. */
    method WriteDemoMessage(angles: Bytes, data: Bytes)
      requires |angles| == ANGLE_BYTES && |data| <= MAX_MSGLEN
      modifies this
      ensures file == old(file) + Encoded(Frame(angles, data))
      ensures FrameAt(file, |old(file)|) ==
        if data == [] then EndOfFile else Frame_(Frame(angles, data), |file|)
    {
      file := file + LongOf(|data|);
      file := file + angles;
      file := file + data;
      ghost var f := Frame(angles, data);
      assert file == old(file) + Encoded(f) + [];
      FrameBack(old(file), f, []);
    }
  }

  class Entry {
    const baz: nat
    const next: Entry?

    constructor (baz: nat, next: Entry?)
      ensures this.baz == baz && this.next == next
    {
      this.baz, this.next := baz, next;
    }
  }

  /** The linked entries, newest first, spell the stack. */
  ghost predicate Spells(e: Entry?, stack: seq<nat>) {
    if stack == [] then e == null else e != null && e.baz == stack[0] && Spells(e.next, stack[1..])
  }

  class Playback {
    const file: Bytes
    var pos: nat
    var framepos: Entry?
    var startOfDemo: bool
    var demoplayback: bool
    ghost var stack: seq<nat>

    constructor (file: Bytes, pos: nat)
      requires pos <= |file|
      ensures Valid() && this.file == file && Value() == Player(pos, [], false, true)
    {
      this.file, this.pos, framepos, startOfDemo, demoplayback := file, pos, null, false, true;
      stack := [];
    }

    ghost predicate Valid()
      reads this
    {
      pos <= |file| && Spells(framepos, stack) && forall i :: 0 <= i < |stack| ==> stack[i] <= |file|
    }

    ghost function Value(): Player
      reads this
    {
      Player(pos, stack, startOfDemo, demoplayback)
    }

    method PushFrameposEntry(fbaz: nat)
      requires Valid() && fbaz <= |file|
      modifies `framepos, `startOfDemo, `stack
      ensures Valid() && stack == [fbaz] + old(stack)
      ensures startOfDemo == if old(stack) == [] then false else old(startOfDemo)
    {
      if framepos == null { startOfDemo := false; }
      framepos := new Entry(fbaz, framepos);
      stack := [fbaz] + stack;
    }

    method EraseTopEntry()
      requires Valid() && stack != []
      modifies `framepos, `stack
      ensures Valid() && stack == old(stack)[1..]
    {
      framepos := framepos.next;
      stack := stack[1..];
    }

    method EraseAll()
      requires Valid()
      modifies `framepos, `stack
      ensures Valid() && stack == []
    {
      while framepos != null
        invariant Valid()
        decreases |stack|
      {
        EraseTopEntry();
      }
    }

    /** Ask for a message. */
    method GetMessage(rewind: bool, signon: nat, due: bool) returns (r: Reply)
      requires Valid()
      modifies this
      ensures Valid() && (Value(), r) == Get(file, old(Value()), rewind, signon, due)
    {
      hide FrameAt;
      if !demoplayback { return Nothing; }
      if startOfDemo && rewind { return Nothing; }
      if signon < SIGNONS { EraseAll(); }
      if signon == SIGNONS {
        if !due { return Nothing; }
        if !rewind { PushFrameposEntry(pos); }
      }
      match FrameAt(file, pos)
      case TooLong =>
        demoplayback := false;
        return Fatal;
      case EndOfFile =>
        demoplayback := false;
        return Nothing;
      case Frame_(f, next) =>
        pos := next;
        if rewind {
          if framepos == null { return NoPosition; }
          pos := framepos.baz;
          EraseTopEntry();
          if framepos == null { startOfDemo := true; }
        }
        return Message(f);
    }
  }
}
