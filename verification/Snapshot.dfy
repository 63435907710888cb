/**
 The state of a client, written as a message at the start of a demo recorded while connected, and
 the part of the server message parser that reads it back.
 */
module Snapshot {
  import opened Basics
  import opened Wire

  const MAX_SCOREBOARD := 16
  const MAX_SCOREBOARDNAME := 32
  const MAX_LIGHTSTYLES := 64
  const MAX_STYLESTRING := 64
  const MAX_CL_STATS := 32

  const STAT_TOTALSECRETS := 11
  const STAT_TOTALMONSTERS := 12
  const STAT_SECRETS := 13
  const STAT_MONSTERS := 14

  const SVC_NOP: byte := 1
  const SVC_UPDATESTAT: byte := 3
  const SVC_SETVIEW: byte := 5
  const SVC_LIGHTSTYLE: byte := 12
  const SVC_UPDATENAME: byte := 13
  const SVC_UPDATEFRAGS: byte := 14
  const SVC_UPDATECOLORS: byte := 17
  const SVC_SIGNONNUM: byte := 25
  const SVC_KILLEDMONSTER: byte := 27
  const SVC_FOUNDSECRET: byte := 28

  datatype Score = Score(name: Bytes, frags: int, colors: int)

  datatype Client = Client(scores: seq<Score>, styles: seq<Bytes>, stats: seq<int>, viewEntity: int, signon: int)

  ghost predicate Shaped(c: Client) {
    |c.scores| <= MAX_SCOREBOARD && |c.styles| == MAX_LIGHTSTYLES && |c.stats| == MAX_CL_STATS
  }

  // ----- Commands -----------------------------------------------------------------------------------

  datatype Command =
    | Name(i: nat, s: Bytes)
    | Frags(i: nat, n: int)
    | Colors(i: nat, n: int)
    | Style(i: nat, s: Bytes)
    | Stat(i: nat, n: int)
    | View(n: int)
    | Signon(n: int)

  function Encode(c: Command): Bytes {
    match c
    case Name(i, s) => [SVC_UPDATENAME] + (ByteOf(i) + StringOf(s))
    case Frags(i, n) => [SVC_UPDATEFRAGS] + (ByteOf(i) + ShortOf(n))
    case Colors(i, n) => [SVC_UPDATECOLORS] + (ByteOf(i) + ByteOf(n))
    case Style(i, s) => [SVC_LIGHTSTYLE] + (ByteOf(i) + StringOf(s))
    case Stat(i, n) => [SVC_UPDATESTAT] + (ByteOf(i) + LongOf(n))
    case View(n) => [SVC_SETVIEW] + ShortOf(n)
    case Signon(n) => [SVC_SIGNONNUM] + ByteOf(n)
  }

  ghost function EncodeAll(cs: seq<Command>): Bytes {
    if cs == [] then [] else EncodeAll(cs[..|cs| - 1]) + Encode(cs[|cs| - 1])
  }

  /** What a command does to the client it is meant for. */
  ghost function Apply(c: Command, d: Client): (r: Client)
    requires Meant(c, d)
    ensures |r.scores| == |d.scores| && |r.styles| == |d.styles| && |r.stats| == |d.stats|
  {
    match c
    case Name(i, s) => d.(scores := d.scores[i := d.scores[i].(name := s)])
    case Frags(i, n) => d.(scores := d.scores[i := d.scores[i].(frags := n)])
    case Colors(i, n) => d.(scores := d.scores[i := d.scores[i].(colors := n)])
    case Style(i, s) => d.(styles := d.styles[i := s])
    case Stat(i, n) => d.(stats := d.stats[i := n])
    case View(n) => d.(viewEntity := n)
    case Signon(n) => d.(signon := n)
  }

  ghost predicate Meant(c: Command, d: Client) {
    match c
    case Name(i, s) => i < |d.scores|
    case Frags(i, n) => i < |d.scores|
    case Colors(i, n) => i < |d.scores|
    case Style(i, s) => i < |d.styles|
    case Stat(i, n) => i < |d.stats|
    case View(n) => true
    case Signon(n) => true
  }

  /** The values of a command fit its fields. */
  ghost predicate Fits(c: Command) {
    match c
    case Name(i, s) => Readable(s) && |s| < MAX_SCOREBOARDNAME
    case Frags(i, n) => -0x8000 <= n < 0x8000
    case Colors(i, n) => 0 <= n < 256
    case Style(i, s) => Readable(s) && |s| < MAX_STYLESTRING
    case Stat(i, n) => -0x8000_0000 <= n < 0x8000_0000
    case View(n) => -0x8000 <= n < 0x8000
    case Signon(n) => 0 <= n < 256
  }

  // ----- The parser, as a function ------------------------------------------------------------------

  datatype Error = NoError | BadMessage | BadIndex | BadSignon | OtherCommand

  datatype Outcome = Failed(error: Error) | Next(client: Client, rest: Bytes)

  function ParseName(b: Bytes, d: Client): Outcome {
    match TakeByte(b)
    case Bad => Failed(BadMessage)
    case Got(i, b') =>
      if !(0 <= i < |d.scores|) then Failed(BadIndex)
      else match TakeString(b', STRING_ROOM)
        case Bad => Failed(BadMessage)
        case Got(s, rest) =>
          Next(d.(scores := d.scores[i := d.scores[i].(name := Truncated(s, MAX_SCOREBOARDNAME))]), rest)
  }

  function ParseFrags(b: Bytes, d: Client): Outcome {
    match TakeByte(b)
    case Bad => Failed(BadMessage)
    case Got(i, b') =>
      if !(0 <= i < |d.scores|) then Failed(BadIndex)
      else match TakeShort(b')
        case Bad => Failed(BadMessage)
        case Got(n, rest) => Next(d.(scores := d.scores[i := d.scores[i].(frags := n)]), rest)
  }

  function ParseColors(b: Bytes, d: Client): Outcome {
    match TakeByte(b)
    case Bad => Failed(BadMessage)
    case Got(i, b') =>
      if !(0 <= i < |d.scores|) then Failed(BadIndex)
      else match TakeByte(b')
        case Bad => Failed(BadMessage)
        case Got(n, rest) => Next(d.(scores := d.scores[i := d.scores[i].(colors := n)]), rest)
  }

  function ParseStyle(b: Bytes, d: Client): Outcome {
    match TakeByte(b)
    case Bad => Failed(BadMessage)
    case Got(i, b') =>
      if !(0 <= i < |d.styles|) then Failed(BadIndex)
      else match TakeString(b', STRING_ROOM)
        case Bad => Failed(BadMessage)
        case Got(s, rest) => Next(d.(styles := d.styles[i := Truncated(s, MAX_STYLESTRING)]), rest)
  }

  function ParseStat(b: Bytes, d: Client): Outcome {
    match TakeByte(b)
    case Bad => Failed(BadMessage)
    case Got(i, b') =>
      if !(0 <= i < |d.stats|) then Failed(BadIndex)
      else match TakeLong(b')
        case Bad => Failed(BadMessage)
        case Got(n, rest) => Next(d.(stats := d.stats[i := n]), rest)
  }

  function ParseView(b: Bytes, d: Client): Outcome {
    match TakeShort(b)
    case Bad => Failed(BadMessage)
    case Got(n, rest) => Next(d.(viewEntity := n), rest)
  }

  function ParseSignon(b: Bytes, d: Client): Outcome {
    match TakeByte(b)
    case Bad => Failed(BadMessage)
    case Got(n, rest) => if n <= d.signon then Failed(BadSignon) else Next(d.(signon := n), rest)
  }

  /** Count one up, or down while rewinding. */
  function Bump(d: Client, stat: nat, rewind: bool): Client {
    if stat >= |d.stats| then d
    else d.(stats := d.stats[stat := if rewind then d.stats[stat] - 1 else d.stats[stat] + 1])
  }

  /** One command; those that have nothing to do with the snapshot are not followed. */
  function ParseOne(cmd: byte, b: Bytes, d: Client, rewind: bool): Outcome {
    if cmd == SVC_NOP then Next(d, b)
    else if cmd == SVC_UPDATENAME then ParseName(b, d)
    else if cmd == SVC_UPDATEFRAGS then ParseFrags(b, d)
    else if cmd == SVC_UPDATECOLORS then ParseColors(b, d)
    else if cmd == SVC_LIGHTSTYLE then ParseStyle(b, d)
    else if cmd == SVC_UPDATESTAT then ParseStat(b, d)
    else if cmd == SVC_SETVIEW then ParseView(b, d)
    else if cmd == SVC_SIGNONNUM then ParseSignon(b, d)
    else if cmd == SVC_KILLEDMONSTER then Next(Bump(d, STAT_MONSTERS, rewind), b)
    else if cmd == SVC_FOUNDSECRET then Next(Bump(d, STAT_SECRETS, rewind), b)
    else Failed(OtherCommand)
  }

  lemma ParseOneShrinks(cmd: byte, b: Bytes, d: Client, rewind: bool)
    ensures var o := ParseOne(cmd, b, d, rewind); if o.Next? then |o.rest| <= |b| else o.error != NoError
  {
  }

  /** A whole message: command after command until no byte is left. */
  ghost function ParseAll(b: Bytes, d: Client, rewind: bool): Outcome
    decreases |b|
  {
    if b == [] then Next(d, [])
    else
      var o := ParseOne(b[0], b[1..], d, rewind);
      ParseOneShrinks(b[0], b[1..], d, rewind);
      if o.Failed? then o else ParseAll(o.rest, o.client, rewind)
  }

  lemma ParseAllStep(b: Bytes, d: Client, rewind: bool)
    requires b != []
    ensures var o := ParseOne(b[0], b[1..], d, rewind);
      ParseAll(b, d, rewind) == if o.Failed? then o else ParseAll(o.rest, o.client, rewind)
  {
  }

  lemma ParseAllEnd(b: Bytes, d: Client, rewind: bool)
    requires b == []
    ensures ParseAll(b, d, rewind) == Next(d, [])
  {
  }

  // ----- Counters -----------------------------------------------------------------------------------

  /** Monsters killed and secrets found, as a message of such commands counts them. */
  ghost function Counted(b: Bytes, d: Client, sign: int): Client
    requires |d.stats| == 32
  {
    d.(stats := d.stats[14 := d.stats[14] + sign * multiset(b)[27]][13 := d.stats[13] + sign * multiset(b)[28]])
  }

  lemma OneCounted(cmd: byte, b: Bytes, d: Client, rewind: bool)
    requires |d.stats| == 32 && (cmd == 27 || cmd == 28)
    ensures var sign := if rewind then -1 else 1; var stat := if cmd == 27 then 14 else 13;
      ParseOne(cmd, b, d, rewind) == Next(d.(stats := d.stats[stat := d.stats[stat] + sign]), b)
  {
  }

  /** Every kill and every secret of a message counts once: up, or down while rewinding; nothing else changes. */
  lemma {:induction false} CountersCount(b: Bytes, d: Client, rewind: bool)
    requires |d.stats| == 32 && forall i :: 0 <= i < |b| ==> b[i] == 27 || b[i] == 28
    ensures ParseAll(b, d, rewind) == Next(Counted(b, d, if rewind then -1 else 1), [])
    decreases |b|
  {
    hide ParseOne, ParseAll;
    if b == [] {
      ParseAllEnd(b, d, rewind);
      assert Counted(b, d, if rewind then -1 else 1).stats == d.stats;
    } else {
      ParseAllStep(b, d, rewind);
      OneCounted(b[0], b[1..], d, rewind);
      var d' := ParseOne(b[0], b[1..], d, rewind).client;
      CountersCount(b[1..], d', rewind);
      assert b == [b[0]] + b[1..];
      CountedNext(b, d, d', if rewind then -1 else 1);
    }
  }

  lemma CountedNext(b: Bytes, d: Client, d': Client, sign: int)
    requires |d.stats| == 32 && b != [] && (b[0] == 27 || b[0] == 28) && (sign == 1 || sign == -1)
    requires var stat := if b[0] == 27 then 14 else 13; d' == d.(stats := d.stats[stat := d.stats[stat] + sign])
    ensures Counted(b[1..], d', sign) == Counted(b, d, sign)
  {
    assert b == [b[0]] + b[1..];
    assert multiset(b)[27] == multiset(b[1..])[27] + if b[0] == 27 then 1 else 0;
    assert multiset(b)[28] == multiset(b[1..])[28] + if b[0] == 28 then 1 else 0;
    assert Counted(b[1..], d', sign).stats == Counted(b, d, sign).stats;
  }

  /** Rewinding over a message takes back what it counted. */
  lemma RewindUncounts(b: Bytes, d: Client)
    requires |d.stats| == 32 && forall i :: 0 <= i < |b| ==> b[i] == 27 || b[i] == 28
    ensures var o := ParseAll(b, d, false); o.Next? && ParseAll(b, o.client, true) == Next(d, [])
  {
    hide ParseAll;
    CountersCount(b, d, false);
    var d' := Counted(b, d, 1);
    CountersCount(b, d', true);
    assert Counted(b, d', -1).stats == d.stats;
  }

  // ----- Round trips --------------------------------------------------------------------------------

  lemma IndexBack(i: nat, x: Bytes, more: Bytes)
    requires i < 256
    ensures TakeByte(ByteOf(i) + x + more) == Got(i, x + more)
  {
    assert ByteOf(i) + x + more == ByteOf(i) + (x + more);
    ByteBack(i, x + more);
  }

  lemma Tagged(tag: byte, x: Bytes, more: Bytes)
    ensures var b := [tag] + x + more; b[0] == tag && b[1..] == x + more
  {
  }

  lemma NameBack(i: nat, s: Bytes, d: Client, more: Bytes)
    requires Shaped(d) && i < |d.scores| && Readable(s) && |s| < MAX_SCOREBOARDNAME
    ensures ParseName(ByteOf(i) + StringOf(s) + more, d) == Next(Apply(Name(i, s), d), more)
  {
    hide TakeByte, TakeString, ByteOf, StringOf, Readable;
    IndexBack(i, StringOf(s), more);
    StringBack(s, more, STRING_ROOM);
  }

  lemma FragsBack(i: nat, n: int, d: Client, more: Bytes)
    requires Shaped(d) && i < |d.scores| && -0x8000 <= n < 0x8000
    ensures ParseFrags(ByteOf(i) + ShortOf(n) + more, d) == Next(Apply(Frags(i, n), d), more)
  {
    hide TakeByte, TakeShort, ByteOf, ShortOf;
    IndexBack(i, ShortOf(n), more);
    ShortBack(n, more);
  }

  lemma ColorsBack(i: nat, n: int, d: Client, more: Bytes)
    requires Shaped(d) && i < |d.scores| && 0 <= n < 256
    ensures ParseColors(ByteOf(i) + ByteOf(n) + more, d) == Next(Apply(Colors(i, n), d), more)
  {
    hide TakeByte, ByteOf;
    IndexBack(i, ByteOf(n), more);
    ByteBack(n, more);
  }

  lemma StyleBack(i: nat, s: Bytes, d: Client, more: Bytes)
    requires Shaped(d) && i < |d.styles| && Readable(s) && |s| < MAX_STYLESTRING
    ensures ParseStyle(ByteOf(i) + StringOf(s) + more, d) == Next(Apply(Style(i, s), d), more)
  {
    hide TakeByte, TakeString, ByteOf, StringOf, Readable;
    IndexBack(i, StringOf(s), more);
    StringBack(s, more, STRING_ROOM);
  }

  lemma StatBack(i: nat, n: int, d: Client, more: Bytes)
    requires Shaped(d) && i < |d.stats| && -0x8000_0000 <= n < 0x8000_0000
    ensures ParseStat(ByteOf(i) + LongOf(n) + more, d) == Next(Apply(Stat(i, n), d), more)
  {
    hide TakeByte, TakeLong, ByteOf, LongOf;
    IndexBack(i, LongOf(n), more);
    LongBack(n, more);
  }

  lemma ViewBack(n: int, d: Client, more: Bytes)
    requires -0x8000 <= n < 0x8000
    ensures ParseView(ShortOf(n) + more, d) == Next(Apply(View(n), d), more)
  {
    ShortBack(n, more);
  }

  lemma SignonBack(n: int, d: Client, more: Bytes)
    requires 0 <= n < 256 && n > d.signon
    ensures ParseSignon(ByteOf(n) + more, d) == Next(Apply(Signon(n), d), more)
  {
    ByteBack(n, more);
  }

  /** An encoded command is read back as itself, whatever follows it. */
  lemma CommandBack(c: Command, d: Client, more: Bytes, rewind: bool)
    requires Shaped(d) && Meant(c, d) && Fits(c) && (c.Signon? ==> c.n > d.signon)
    ensures var b := Encode(c) + more; ParseOne(b[0], b[1..], d, rewind) == Next(Apply(c, d), more)
  {
    hide ByteOf, ShortOf, LongOf, StringOf, TakeByte, TakeShort, Apply, ParseName, ParseFrags, ParseColors;
    hide ParseStyle, ParseStat, Shaped, Readable;
    match c
    case Name(i, s) => Tagged(SVC_UPDATENAME, ByteOf(i) + StringOf(s), more); NameBack(i, s, d, more);
    case Frags(i, n) => Tagged(SVC_UPDATEFRAGS, ByteOf(i) + ShortOf(n), more); FragsBack(i, n, d, more);
    case Colors(i, n) => Tagged(SVC_UPDATECOLORS, ByteOf(i) + ByteOf(n), more); ColorsBack(i, n, d, more);
    case Style(i, s) => Tagged(SVC_LIGHTSTYLE, ByteOf(i) + StringOf(s), more); StyleBack(i, s, d, more);
    case Stat(i, n) => Tagged(SVC_UPDATESTAT, ByteOf(i) + LongOf(n), more); StatBack(i, n, d, more);
    case View(n) => Tagged(SVC_SETVIEW, ShortOf(n), more); ViewBack(n, d, more);
    case Signon(n) => Tagged(SVC_SIGNONNUM, ByteOf(n), more); SignonBack(n, d, more);
  }

  /** Commands that fit and are meant for the client, none of which changes the signon stage. */
  ghost predicate Good(cs: seq<Command>, d: Client) {
    forall i :: 0 <= i < |cs| ==> Fits(cs[i]) && Meant(cs[i], d) && !cs[i].Signon?
  }

  ghost function ApplyAll(cs: seq<Command>, d: Client): (r: Client)
    requires Good(cs, d)
    ensures |r.scores| == |d.scores| && |r.styles| == |d.styles| && |r.stats| == |d.stats| && r.signon == d.signon
  {
    if cs == [] then d else Apply(cs[|cs| - 1], ApplyAll(cs[..|cs| - 1], d))
  }

  /** Parsing encoded commands is applying them. */
  lemma {:induction false} CommandsBack(cs: seq<Command>, d: Client, more: Bytes, rewind: bool)
    requires Shaped(d) && Good(cs, d)
    ensures ParseAll(EncodeAll(cs) + more, d, rewind) == ParseAll(more, ApplyAll(cs, d), rewind)
  {
    if cs == [] {
      assert EncodeAll(cs) + more == more;
    } else {
      var init, x := cs[..|cs| - 1], cs[|cs| - 1];
      var b := Encode(x) + more;
      assert EncodeAll(cs) + more == EncodeAll(init) + b;
      CommandsBack(init, d, b, rewind);
      CommandBack(x, ApplyAll(init, d), more, rewind);
    }
  }

  /** The commands turn `d` into `e`. */
  ghost predicate Turns(cs: seq<Command>, d: Client, e: Client) { Good(cs, d) && ApplyAll(cs, d) == e }

  lemma OneMore(cs: seq<Command>, x: Command, d: Client, e: Client)
    requires Turns(cs, d, e) && Fits(x) && Meant(x, d) && !x.Signon?
    ensures Meant(x, e) && Turns(cs + [x], d, Apply(x, e))
  {
    assert (cs + [x])[..|cs|] == cs;
  }

  lemma EncodeLast(cs: seq<Command>, x: Command)
    ensures EncodeAll(cs + [x]) == EncodeAll(cs) + Encode(x)
  {
    assert (cs + [x])[..|cs|] == cs;
  }

  // ----- The snapshot -------------------------------------------------------------------------------

  /** Everything the snapshot carries fits its fields. */
  ghost predicate Sendable(c: Client) {
    && Shaped(c)
    && (forall i :: 0 <= i < |c.scores| ==>
      Fits(Name(i, c.scores[i].name)) && Fits(Frags(i, c.scores[i].frags)) && Fits(Colors(i, c.scores[i].colors)))
    && (forall i :: 0 <= i < |c.styles| ==> Fits(Style(i, c.styles[i])))
    && (forall i :: STAT_TOTALSECRETS <= i <= STAT_MONSTERS ==> Fits(Stat(i, c.stats[i])))
    && Fits(View(c.viewEntity))
  }

  ghost function ScoreCommands(c: Client, n: nat): seq<Command>
    requires n <= |c.scores|
  {
    if n == 0 then []
    else
      var x := c.scores[n - 1];
      ScoreCommands(c, n - 1) + [Name(n - 1, x.name)] + [Frags(n - 1, x.frags)] + [Colors(n - 1, x.colors)]
  }

  ghost function StyleCommands(c: Client, n: nat): seq<Command>
    requires n <= |c.styles|
  {
    if n == 0 then ScoreCommands(c, |c.scores|) else StyleCommands(c, n - 1) + [Style(n - 1, c.styles[n - 1])]
  }

  ghost function FieldCommands(c: Client): seq<Command>
    requires Shaped(c)
  {
    StyleCommands(c, MAX_LIGHTSTYLES)
    + [Stat(STAT_TOTALSECRETS, c.stats[STAT_TOTALSECRETS])] + [Stat(STAT_TOTALMONSTERS, c.stats[STAT_TOTALMONSTERS])]
    + [Stat(STAT_SECRETS, c.stats[STAT_SECRETS])] + [Stat(STAT_MONSTERS, c.stats[STAT_MONSTERS])]
    + [View(c.viewEntity)]
  }

  ghost function SnapshotBytes(c: Client): Bytes
    requires Shaped(c)
  {
    EncodeAll(FieldCommands(c) + [Signon(3)])
  }

  lemma {:induction false} ScoresArrive(c: Client, d: Client, n: nat)
    requires Sendable(c) && Shaped(d) && |c.scores| == |d.scores| && n <= |c.scores|
    ensures Turns(ScoreCommands(c, n), d, d.(scores := c.scores[..n] + d.scores[n..]))
  {
    if n == 0 {
      assert c.scores[..n] + d.scores[n..] == d.scores;
    } else {
      hide Turns, Fits, Apply;
      ScoresArrive(c, d, n - 1);
      var x, cs := c.scores[n - 1], ScoreCommands(c, n - 1);
      var a, f, k := Name(n - 1, x.name), Frags(n - 1, x.frags), Colors(n - 1, x.colors);
      var e := d.(scores := c.scores[..n - 1] + d.scores[n - 1..]);
      OneMore(cs, a, d, e);
      OneMore(cs + [a], f, d, Apply(a, e));
      OneMore(cs + [a] + [f], k, d, Apply(f, Apply(a, e)));
      OneScore(c, d, n);
    }
  }

  lemma OneScore(c: Client, d: Client, n: nat)
    requires |c.scores| == |d.scores| && 0 < n <= |c.scores|
    ensures var x, e := c.scores[n - 1], d.(scores := c.scores[..n - 1] + d.scores[n - 1..]);
      Apply(Colors(n - 1, x.colors), Apply(Frags(n - 1, x.frags), Apply(Name(n - 1, x.name), e)))
        == d.(scores := c.scores[..n] + d.scores[n..])
  {
    var x, e := c.scores[n - 1], d.(scores := c.scores[..n - 1] + d.scores[n - 1..]);
    var r := Apply(Colors(n - 1, x.colors), Apply(Frags(n - 1, x.frags), Apply(Name(n - 1, x.name), e)));
    assert r.scores == e.scores[n - 1 := x];
    assert r.scores == c.scores[..n] + d.scores[n..];
  }

  lemma {:induction false} StylesArrive(c: Client, d: Client, n: nat)
    requires Sendable(c) && Shaped(d) && |c.scores| == |d.scores| && n <= |c.styles|
    ensures Turns(StyleCommands(c, n), d, d.(scores := c.scores, styles := c.styles[..n] + d.styles[n..]))
  {
    hide Turns, Fits;
    if n == 0 {
      ScoresArrive(c, d, |c.scores|);
      assert c.styles[..n] + d.styles[n..] == d.styles && c.scores[..|c.scores|] + d.scores[|c.scores|..] == c.scores;
    } else {
      StylesArrive(c, d, n - 1);
      var e := d.(scores := c.scores, styles := c.styles[..n - 1] + d.styles[n - 1..]);
      OneMore(StyleCommands(c, n - 1), Style(n - 1, c.styles[n - 1]), d, e);
      assert e.styles[n - 1 := c.styles[n - 1]] == c.styles[..n] + d.styles[n..];
    }
  }

  /** The client after reading the snapshot of `c`, apart from the signon stage. */
  ghost function Received(c: Client, d: Client): Client
    requires Shaped(c) && Shaped(d)
  {
    d.(scores := c.scores, styles := c.styles, viewEntity := c.viewEntity, stats :=
      d.stats[..STAT_TOTALSECRETS] + c.stats[STAT_TOTALSECRETS..STAT_MONSTERS + 1] + d.stats[STAT_MONSTERS + 1..])
  }

  lemma FieldsArrive(c: Client, d: Client)
    requires Sendable(c) && Shaped(d) && |c.scores| == |d.scores|
    ensures Turns(FieldCommands(c), d, Received(c, d))
  {
    hide Turns, Fits, StyleCommands;
    StylesArrive(c, d, MAX_LIGHTSTYLES);
    var cs := StyleCommands(c, MAX_LIGHTSTYLES);
    var s0 := Stat(STAT_TOTALSECRETS, c.stats[STAT_TOTALSECRETS]);
    var s1 := Stat(STAT_TOTALMONSTERS, c.stats[STAT_TOTALMONSTERS]);
    var s2, s3 := Stat(STAT_SECRETS, c.stats[STAT_SECRETS]), Stat(STAT_MONSTERS, c.stats[STAT_MONSTERS]);
    assert c.styles[..MAX_LIGHTSTYLES] + d.styles[MAX_LIGHTSTYLES..] == c.styles;
    var e := d.(scores := c.scores, styles := c.styles);
    OneMore(cs, s0, d, e);
    OneMore(cs + [s0], s1, d, Apply(s0, e));
    OneMore(cs + [s0] + [s1], s2, d, Apply(s1, Apply(s0, e)));
    OneMore(cs + [s0] + [s1] + [s2], s3, d, Apply(s2, Apply(s1, Apply(s0, e))));
    var e' := Apply(s3, Apply(s2, Apply(s1, Apply(s0, e))));
    OneMore(cs + [s0] + [s1] + [s2] + [s3], View(c.viewEntity), d, e');
    assert e'.stats == Received(c, d).stats;
  }

  /**
   Parsing the snapshot of a client gives any other client its names, frags, colors, light styles,
   four statistics and view entity, uses up every byte, and leaves the signon stage at 3.
   */
  lemma SnapshotRoundTrip(c: Client, d: Client, rewind: bool)
    requires Sendable(c) && Shaped(d) && |c.scores| == |d.scores| && d.signon < 3
    ensures ParseAll(SnapshotBytes(c), d, rewind) == Next(Received(c, d).(signon := 3), [])
  {
    FieldsArrive(c, d);
    var cs := FieldCommands(c);
    EncodeLast(cs, Signon(3));
    var b := Encode(Signon(3));
    CommandsBack(cs, d, b, rewind);
    CommandBack(Signon(3), Received(c, d), [], rewind);
    assert b + [] == b;
  }

  /** At any later stage the snapshot is refused, and only there. */
  lemma SnapshotRefused(c: Client, d: Client, rewind: bool)
    requires Sendable(c) && Shaped(d) && |c.scores| == |d.scores| && d.signon >= 3
    ensures ParseAll(SnapshotBytes(c), d, rewind) == Failed(BadSignon)
  {
    hide FieldCommands, EncodeAll, ApplyAll, Good, ParseAll;
    FieldsArrive(c, d);
    var cs := FieldCommands(c);
    TurnsMeans(cs, d, Received(c, d));
    EncodeLast(cs, Signon(3));
    CommandsBack(cs, d, Encode(Signon(3)), rewind);
    LateSignon(Received(c, d), rewind);
  }

  lemma TurnsMeans(cs: seq<Command>, d: Client, e: Client)
    requires Turns(cs, d, e)
    ensures Good(cs, d) && ApplyAll(cs, d) == e
  {
  }

  lemma LateSignon(d: Client, rewind: bool)
    requires d.signon >= 3
    ensures ParseAll(Encode(Signon(3)), d, rewind) == Failed(BadSignon)
  {
    var b := Encode(Signon(3));
    assert b == [SVC_SIGNONNUM, 3] && b[1..] == [3];
    assert ParseOne(b[0], b[1..], d, rewind) == ParseSignon([3], d);
  }

  // ----- Recording ----------------------------------------------------------------------------------

  lemma Regroup(a: Bytes, b: Bytes, c: Bytes, d: Bytes)
    ensures ((a + b) + c) + d == a + (b + (c + d))
  {
  }

  method WriteName(m: Message, i: nat, s: Bytes)
    requires |m.data| + |s| + 3 <= MAX_MSGLEN
    modifies m`data
    ensures m.data == old(m.data) + Encode(Name(i, s)) && |m.data| == |old(m.data)| + |s| + 3
  {
    m.Write([SVC_UPDATENAME]);
    m.Write(ByteOf(i));
    m.Write(StringOf(s));
    Regroup(old(m.data), [SVC_UPDATENAME], ByteOf(i), StringOf(s));
  }

  method WriteFrags(m: Message, i: nat, n: int)
    requires |m.data| + 4 <= MAX_MSGLEN
    modifies m`data
    ensures m.data == old(m.data) + Encode(Frags(i, n)) && |m.data| == |old(m.data)| + 4
  {
    m.Write([SVC_UPDATEFRAGS]);
    m.Write(ByteOf(i));
    m.Write(ShortOf(n));
  }

  method WriteColors(m: Message, i: nat, n: int)
    requires |m.data| + 3 <= MAX_MSGLEN
    modifies m`data
    ensures m.data == old(m.data) + Encode(Colors(i, n)) && |m.data| == |old(m.data)| + 3
  {
    m.Write([SVC_UPDATECOLORS]);
    m.Write(ByteOf(i));
    m.Write(ByteOf(n));
  }

  method WriteStyle(m: Message, i: nat, s: Bytes)
    requires |m.data| + |s| + 3 <= MAX_MSGLEN
    modifies m`data
    ensures m.data == old(m.data) + Encode(Style(i, s)) && |m.data| == |old(m.data)| + |s| + 3
  {
    m.Write([SVC_LIGHTSTYLE]);
    m.Write(ByteOf(i));
    m.Write(StringOf(s));
    Regroup(old(m.data), [SVC_LIGHTSTYLE], ByteOf(i), StringOf(s));
  }

  method WriteStat(m: Message, i: nat, n: int)
    requires |m.data| + 6 <= MAX_MSGLEN
    modifies m`data
    ensures m.data == old(m.data) + Encode(Stat(i, n)) && |m.data| == |old(m.data)| + 6
  {
    m.Write([SVC_UPDATESTAT]);
    m.Write(ByteOf(i));
    m.Write(LongOf(n));
  }

  lemma ScoresFrom(c: Client)
    requires Sendable(c)
    ensures Shaped(c) && EncodeAll(ScoreCommands(c, 0)) == [] && StyleCommands(c, 0) == ScoreCommands(c, |c.scores|)
  {
  }

  lemma NextScore(c: Client, i: nat)
    requires Sendable(c) && i < |c.scores|
    ensures var x := c.scores[i];
      && |x.name| <= 31
      && EncodeAll(ScoreCommands(c, i + 1)) ==
        EncodeAll(ScoreCommands(c, i)) + Encode(Name(i, x.name)) + Encode(Frags(i, x.frags))
          + Encode(Colors(i, x.colors))
  {
    hide Encode, EncodeAll;
    var x, cs := c.scores[i], ScoreCommands(c, i);
    assert Fits(Name(i, x.name));
    EncodeLast(cs, Name(i, x.name));
    EncodeLast(cs + [Name(i, x.name)], Frags(i, x.frags));
    EncodeLast(cs + [Name(i, x.name)] + [Frags(i, x.frags)], Colors(i, x.colors));
  }

  lemma NextStyle(c: Client, i: nat)
    requires Sendable(c) && i < |c.styles|
    ensures |c.styles[i]| <= 63
    ensures EncodeAll(StyleCommands(c, i + 1)) == EncodeAll(StyleCommands(c, i)) + Encode(Style(i, c.styles[i]))
  {
    hide Encode, EncodeAll;
    assert Fits(Style(i, c.styles[i]));
    EncodeLast(StyleCommands(c, i), Style(i, c.styles[i]));
  }

  /** Current names, frags and colors: at most 41 bytes for each player. */
  method WriteScores(m: Message, c: Client)
    requires Sendable(c) && m.data == []
    modifies m`data
    ensures m.data == EncodeAll(ScoreCommands(c, |c.scores|)) && |m.data| <= 41 * |c.scores|
  {
    hide EncodeAll, Encode, Sendable, ScoreCommands;
    ScoresFrom(c);
    for i := 0 to |c.scores|
      invariant m.data == EncodeAll(ScoreCommands(c, i)) && |m.data| <= 41 * i
    {
      var x := c.scores[i];
      NextScore(c, i);
      WriteName(m, i, x.name);
      WriteFrags(m, i, x.frags);
      WriteColors(m, i, x.colors);
    }
  }

  /** All current light styles: at most 66 bytes each. */
  method WriteStyles(m: Message, c: Client)
    requires Sendable(c) && m.data == EncodeAll(ScoreCommands(c, |c.scores|)) && |m.data| <= 41 * |c.scores|
    modifies m`data
    ensures m.data == EncodeAll(StyleCommands(c, MAX_LIGHTSTYLES)) && |m.data| <= 41 * |c.scores| + 66 * MAX_LIGHTSTYLES
  {
    hide EncodeAll, Encode, Sendable, StyleCommands;
    ScoresFrom(c);
    for i := 0 to MAX_LIGHTSTYLES
      invariant m.data == EncodeAll(StyleCommands(c, i)) && |m.data| <= 41 * |c.scores| + 66 * i
    {
      NextStyle(c, i);
      WriteStyle(m, i, c.styles[i]);
    }
  }

  /** Write the snapshot.  It always fits the message buffer: 4909 bytes at most. */
  method Record(m: Message, c: Client)
    requires Sendable(c)
    modifies m`data
    ensures m.data == SnapshotBytes(c) && |m.data| <= 4909
  {
    m.data := [];
    WriteScores(m, c);
    WriteStyles(m, c);
    ghost var cs := StyleCommands(c, MAX_LIGHTSTYLES);
    ghost var s0 := Stat(STAT_TOTALSECRETS, c.stats[STAT_TOTALSECRETS]);
    ghost var s1 := Stat(STAT_TOTALMONSTERS, c.stats[STAT_TOTALMONSTERS]);
    ghost var s2, s3 := Stat(STAT_SECRETS, c.stats[STAT_SECRETS]), Stat(STAT_MONSTERS, c.stats[STAT_MONSTERS]);
    EncodeLast(cs, s0);
    EncodeLast(cs + [s0], s1);
    EncodeLast(cs + [s0] + [s1], s2);
    EncodeLast(cs + [s0] + [s1] + [s2], s3);
    EncodeLast(cs + [s0] + [s1] + [s2] + [s3], View(c.viewEntity));
    EncodeLast(FieldCommands(c), Signon(3));
    WriteStat(m, STAT_TOTALSECRETS, c.stats[STAT_TOTALSECRETS]);
    WriteStat(m, STAT_TOTALMONSTERS, c.stats[STAT_TOTALMONSTERS]);
    WriteStat(m, STAT_SECRETS, c.stats[STAT_SECRETS]);
    WriteStat(m, STAT_MONSTERS, c.stats[STAT_MONSTERS]);
    WriteRest(m, c.viewEntity);
  }

  method WriteRest(m: Message, viewEntity: int)
    requires |m.data| + 5 <= MAX_MSGLEN
    modifies m`data
    ensures m.data == old(m.data) + Encode(View(viewEntity)) + Encode(Signon(3)) && |m.data| == |old(m.data)| + 5
  {
    m.Write([SVC_SETVIEW]);
    m.Write(ShortOf(viewEntity));
    m.Write([SVC_SIGNONNUM]);
    m.Write(ByteOf(3));
  }

  // ----- Parsing ------------------------------------------------------------------------------------

  class ClientState {
    var scores: seq<Score>
    var styles: seq<Bytes>
    var stats: seq<int>
    var viewEntity: int
    var signon: int

    constructor (c: Client)
      ensures Value() == c
    {
      scores, styles, stats, viewEntity, signon := c.scores, c.styles, c.stats, c.viewEntity, c.signon;
    }

    ghost function Value(): Client
      reads this
    {
      Client(scores, styles, stats, viewEntity, signon)
    }

    /** The state after a command is what the parser function says, or the message is refused. */
    ghost predicate Did(m: Message, o: Outcome, error: Error)
      reads this, m
    {
      match o
      case Failed(e) => error == e
      case Next(c, rest) => error == NoError && Value() == c && m.Valid() && !m.badRead && m.Left() == rest
    }

    method DoName(m: Message) returns (error: Error)
      requires m.Valid() && !m.badRead
      modifies this, m`readCount, m`badRead
      ensures Did(m, ParseName(old(m.Left()), old(Value())), error)
    {
      var i := m.ReadByte();
      if m.badRead { return BadMessage; }
      if i >= |scores| { return BadIndex; }
      var s := m.ReadString();
      if m.badRead { return BadMessage; }
      scores := scores[i := scores[i].(name := Truncated(s, MAX_SCOREBOARDNAME))];
      return NoError;
    }

    method DoFrags(m: Message) returns (error: Error)
      requires m.Valid() && !m.badRead
      modifies this, m`readCount, m`badRead
      ensures Did(m, ParseFrags(old(m.Left()), old(Value())), error)
    {
      var i := m.ReadByte();
      if m.badRead { return BadMessage; }
      if i >= |scores| { return BadIndex; }
      var n := m.ReadShort();
      if m.badRead { return BadMessage; }
      scores := scores[i := scores[i].(frags := n)];
      return NoError;
    }

    method DoColors(m: Message) returns (error: Error)
      requires m.Valid() && !m.badRead
      modifies this, m`readCount, m`badRead
      ensures Did(m, ParseColors(old(m.Left()), old(Value())), error)
    {
      var i := m.ReadByte();
      if m.badRead { return BadMessage; }
      if i >= |scores| { return BadIndex; }
      var n := m.ReadByte();
      if m.badRead { return BadMessage; }
      scores := scores[i := scores[i].(colors := n)];
      return NoError;
    }

    method DoStyle(m: Message) returns (error: Error)
      requires m.Valid() && !m.badRead
      modifies this, m`readCount, m`badRead
      ensures Did(m, ParseStyle(old(m.Left()), old(Value())), error)
    {
      var i := m.ReadByte();
      if m.badRead { return BadMessage; }
      if i >= |styles| { return BadIndex; }
      var s := m.ReadString();
      if m.badRead { return BadMessage; }
      styles := styles[i := Truncated(s, MAX_STYLESTRING)];
      return NoError;
    }

    method DoStat(m: Message) returns (error: Error)
      requires m.Valid() && !m.badRead
      modifies this, m`readCount, m`badRead
      ensures Did(m, ParseStat(old(m.Left()), old(Value())), error)
    {
      var i := m.ReadByte();
      if m.badRead { return BadMessage; }
      if i < 0 || i >= |stats| { return BadIndex; }
      var n := m.ReadLong();
      if m.badRead { return BadMessage; }
      stats := stats[i := n];
      return NoError;
    }

    method DoView(m: Message) returns (error: Error)
      requires m.Valid() && !m.badRead
      modifies this, m`readCount, m`badRead
      ensures Did(m, ParseView(old(m.Left()), old(Value())), error)
    {
      var n := m.ReadShort();
      if m.badRead { return BadMessage; }
      viewEntity := n;
      return NoError;
    }

    method DoSignon(m: Message) returns (error: Error)
      requires m.Valid() && !m.badRead
      modifies this, m`readCount, m`badRead
      ensures Did(m, ParseSignon(old(m.Left()), old(Value())), error)
    {
      var n := m.ReadByte();
      if m.badRead { return BadMessage; }
      if n <= signon { return BadSignon; }
      signon := n;
      return NoError;
    }

    method Count(stat: nat, rewind: bool)
      modifies `stats
      ensures Value() == Bump(old(Value()), stat, rewind)
    {
      if stat < |stats| {
        if rewind { stats := stats[stat := stats[stat] - 1]; } else { stats := stats[stat := stats[stat] + 1]; }
      }
    }

    method DoCommand(cmd: byte, m: Message, rewind: bool) returns (error: Error)
      requires m.Valid() && !m.badRead
      modifies this, m`readCount, m`badRead
      ensures Did(m, ParseOne(cmd, old(m.Left()), old(Value()), rewind), error)
    {
      hide ParseName, ParseFrags, ParseColors, ParseStyle, ParseStat, ParseView, ParseSignon, Bump;
      if cmd == SVC_NOP { return NoError; }
      if cmd == SVC_UPDATENAME { error := DoName(m); return; }
      if cmd == SVC_UPDATEFRAGS { error := DoFrags(m); return; }
      if cmd == SVC_UPDATECOLORS { error := DoColors(m); return; }
      if cmd == SVC_LIGHTSTYLE { error := DoStyle(m); return; }
      if cmd == SVC_UPDATESTAT { error := DoStat(m); return; }
      if cmd == SVC_SETVIEW { error := DoView(m); return; }
      if cmd == SVC_SIGNONNUM { error := DoSignon(m); return; }
      if cmd == SVC_KILLEDMONSTER { Count(STAT_MONSTERS, rewind); return NoError; }
      if cmd == SVC_FOUNDSECRET { Count(STAT_SECRETS, rewind); return NoError; }
      return OtherCommand;
    }

    /** Parse a whole message. */
    method ParseServerMessage(m: Message, rewind: bool) returns (error: Error)
      modifies this, m`readCount, m`badRead
      ensures match ParseAll(m.data, old(Value()), rewind)
        case Failed(e) => error == e
        case Next(c, rest) => error == NoError && Value() == c && m.readCount == |m.data|
    {
      hide ParseOne, ParseAll;
      m.BeginReading();
      error := NoError;
      while m.readCount < |m.data|
        invariant m.Valid() && !m.badRead && error == NoError
        invariant ParseAll(m.data, old(Value()), rewind) == ParseAll(m.Left(), Value(), rewind)
        decreases |m.data| - m.readCount
      {
        ghost var b, d := m.Left(), Value();
        ParseAllStep(b, d, rewind);
        var cmd := m.ReadByte();
        assert m.Left() == b[1..] && cmd == b[0];
        ParseOneShrinks(cmd, m.Left(), d, rewind);
        error := DoCommand(cmd, m, rewind);
        if error != NoError { return; }
      }
      ParseAllEnd(m.Left(), Value(), rewind);
    }
  }

  /** Record a client and read it back into another one. */
  method RecordAndParse(from: ClientState, to: ClientState, m: Message) returns (error: Error)
    requires Sendable(from.Value()) && Shaped(to.Value()) && |from.scores| == |to.scores|
    modifies to, m
    ensures error == if old(to.signon) < 3 then NoError else BadSignon
    ensures old(to.signon) < 3 ==> to.Value() == Received(old(from.Value()), old(to.Value())).(signon := 3)
    ensures old(to.signon) < 3 ==> m.readCount == |m.data|
  {
    ghost var c, d := from.Value(), to.Value();
    Record(m, Client(from.scores, from.styles, from.stats, from.viewEntity, from.signon));
    error := to.ParseServerMessage(m, false);
    if d.signon < 3 { SnapshotRoundTrip(c, d, false); } else { SnapshotRefused(c, d, false); }
  }
}
