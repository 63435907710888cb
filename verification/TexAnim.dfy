/**
 Animated textures: those whose name starts with a plus sign are linked into rings of frames, and
 at drawing time the ring is followed to the frame of the moment.
 */
module TexAnim {

  const NONE := -1
  const MAX_FRAMES := 10
  const ANIM_CYCLE := 2

  /** The animation fields of a texture; `next` and `alternate` are texture numbers or NONE. */
  datatype Anim = Anim(total: int, min: int, max: int, next: int, alternate: int)

  const FRESH := Anim(0, 0, 0, NONE, NONE)

  /** A frame of the main ring or of the alternate one. */
  datatype Slot = Slot(alt: bool, k: nat) | BadSlot

  // ----- Names --------------------------------------------------------------------------------------

  predicate Animating(name: string) { |name| > 0 && name[0] == '+' }

  function Letter(name: string): char { if |name| > 1 then name[1] else '\0' }

  function Suffix(name: string): string { if |name| > 1 then name[2..] else "" }

  function SlotOf(name: string): (s: Slot)
    ensures s.Slot? ==> s.k < MAX_FRAMES
  {
    var c := Letter(name);
    if '0' <= c <= '9' then Slot(false, c as int - '0' as int)
    else if 'A' <= c <= 'J' then Slot(true, c as int - 'A' as int)
    else if 'a' <= c <= 'j' then Slot(true, c as int - 'a' as int)
    else BadSlot
  }

  // ----- Groups -------------------------------------------------------------------------------------

  /** Textures with the same rest of the name animate together.  A texture that is missing has an empty name. */
  predicate InGroup(names: seq<string>, j: int, suf: string) {
    0 <= j < |names| && Animating(names[j]) && Suffix(names[j]) == suf
  }

  predicate InSlot(names: seq<string>, j: int, suf: string, slot: Slot) {
    InGroup(names, j, suf) && SlotOf(names[j]) == slot
  }

  /** The last of the textures i, ..., n - 1 in a slot of a group, or NONE. */
  ghost function Last(names: seq<string>, i: nat, n: nat, suf: string, slot: Slot): (r: int)
    ensures r == NONE || (i <= r < n && InSlot(names, r, suf, slot))
    ensures forall j :: i <= j < n && InSlot(names, j, suf, slot) ==> j <= r
    decreases n
  {
    if n <= i then NONE else if InSlot(names, n - 1, suf, slot) then n - 1 else Last(names, i, n - 1, suf, slot)
  }

  /** One more than the highest slot taken by the textures i, ..., n - 1. */
  ghost function Frames(names: seq<string>, i: nat, n: nat, suf: string, alt: bool): (c: nat)
    ensures c <= MAX_FRAMES
    ensures forall j :: i <= j < n && InGroup(names, j, suf) ==>
      SlotOf(names[j]).Slot? && SlotOf(names[j]).alt == alt ==> SlotOf(names[j]).k < c
    ensures c > 0 ==> Last(names, i, n, suf, Slot(alt, c - 1)) != NONE
    decreases n
  {
    if n <= i then 0
    else
      var c := Frames(names, i, n - 1, suf, alt);
      if InGroup(names, n - 1, suf) && SlotOf(names[n - 1]).Slot? && SlotOf(names[n - 1]).alt == alt
        && SlotOf(names[n - 1]).k >= c
      then SlotOf(names[n - 1]).k + 1 else c
  }

  /** No texture of the group is in a bad slot, and no frame is missing. */
  ghost predicate NoneBad(names: seq<string>, i: nat, suf: string) {
    forall j :: i <= j < |names| && InGroup(names, j, suf) ==> SlotOf(names[j]).Slot?
  }

  ghost predicate Complete(names: seq<string>, i: nat, suf: string, alt: bool) {
    forall k: nat :: k < Frames(names, i, |names|, suf, alt) ==> Last(names, i, |names|, suf, Slot(alt, k)) != NONE
  }

  // ----- Sequencing ---------------------------------------------------------------------------------

  datatype Outcome = Ok(anim: seq<Anim>) | BadTexture | MissingFrame

  /** The slot after k in a ring of n. */
  function After(k: nat, n: nat): nat { if k + 1 < n then k + 1 else 0 }

  /** What texture t is linked to when the group is sequenced from texture i on. */
  ghost function Linked(names: seq<string>, i: nat, t: nat, was: Anim): Anim
    requires t < |names| && SlotOf(names[t]).Slot?
    requires Frames(names, i, |names|, Suffix(names[t]), SlotOf(names[t]).alt) > 0
  {
    var suf, s, n := Suffix(names[t]), SlotOf(names[t]), |names|;
    var count := Frames(names, i, n, suf, s.alt);
    Anim(count * ANIM_CYCLE, s.k * ANIM_CYCLE, (s.k + 1) * ANIM_CYCLE,
      Last(names, i, n, suf, Slot(s.alt, After(s.k, count))),
      if Frames(names, i, n, suf, !s.alt) > 0 then Last(names, i, n, suf, Slot(!s.alt, 0)) else was.alternate)
  }

  /** Texture t is the one of its slot that counts, when the group is sequenced from i on. */
  ghost predicate Chosen(names: seq<string>, i: nat, t: nat, suf: string) {
    && i <= t < |names| && InGroup(names, t, suf) && SlotOf(names[t]).Slot?
    && Last(names, i, |names|, suf, SlotOf(names[t])) == t
  }

  ghost function LinkGroup(names: seq<string>, anim: seq<Anim>, i: nat, suf: string): (r: seq<Anim>)
    requires |anim| == |names|
    ensures |r| == |names|
  {
    seq(|names|, t requires 0 <= t < |names| =>
      if Chosen(names, i, t, suf) then Linked(names, i, t, anim[t]) else anim[t])
  }

  ghost function Pass(names: seq<string>, anim: seq<Anim>, i: nat): (r: Outcome)
    requires |anim| == |names| && i < |names|
    ensures r.Ok? ==> |r.anim| == |names|
  {
    var suf := Suffix(names[i]);
    if !Animating(names[i]) || anim[i].next != NONE then Ok(anim)
    else if !NoneBad(names, i, suf) then BadTexture
    else if !Complete(names, i, suf, false) || !Complete(names, i, suf, true) then MissingFrame
    else Ok(LinkGroup(names, anim, i, suf))
  }

  /** The textures after the first n have been looked at. */
  ghost function Sequenced(names: seq<string>, n: nat): (r: Outcome)
    requires n <= |names|
    ensures r.Ok? ==> |r.anim| == |names|
  {
    if n == 0 then Ok(seq(|names|, _ => FRESH))
    else
      var r := Sequenced(names, n - 1);
      if r.Ok? then Pass(names, r.anim, n - 1) else r
  }

  // ----- When every texture animates ----------------------------------------------------------------

  /** No two textures of a group share a slot. */
  ghost predicate SlotsDistinct(names: seq<string>) {
    forall i, j :: 0 <= i < j < |names| && Animating(names[i]) && Animating(names[j])
      && Suffix(names[i]) == Suffix(names[j])
      ==> SlotOf(names[i]) != SlotOf(names[j])
  }

  /** Texture t is linked into the whole of its group. */
  ghost predicate InRing(names: seq<string>, anim: seq<Anim>, t: nat)
    requires |anim| == |names| && t < |names|
  {
    && SlotOf(names[t]).Slot? && Frames(names, 0, |names|, Suffix(names[t]), SlotOf(names[t]).alt) > 0
    && anim[t] == Linked(names, 0, t, FRESH)
    && Complete(names, 0, Suffix(names[t]), false) && Complete(names, 0, Suffix(names[t]), true)
  }

  ghost predicate AllInRings(names: seq<string>, anim: seq<Anim>) {
    |anim| == |names| && forall t {:trigger InRing(names, anim, t)} :: 0 <= t < |names| && Animating(names[t]) ==>
      InRing(names, anim, t)
  }

  /** Some texture of the group is before i. */
  ghost predicate Begun(names: seq<string>, i: nat, suf: string) { exists j :: 0 <= j < i && InGroup(names, j, suf) }

  /** The state between passes: groups met so far are linked, the others untouched. */
  ghost predicate Between(names: seq<string>, anim: seq<Anim>, i: nat) {
    |anim| == |names| && forall t :: 0 <= t < |names| ==> BetweenAt(names, anim, i, t)
  }

  ghost predicate BetweenAt(names: seq<string>, anim: seq<Anim>, i: nat, t: nat)
    requires |anim| == |names| && t < |names|
  {
    if Animating(names[t]) && Begun(names, i, Suffix(names[t])) then InRing(names, anim, t) else anim[t] == FRESH
  }

  lemma {:induction false} FromFirst(names: seq<string>, i: nat, n: nat, suf: string, slot: Slot)
    requires !Begun(names, i, suf)
    ensures Last(names, i, n, suf, slot) == Last(names, 0, n, suf, slot)
    decreases n
  {
    if n > 0 { FromFirst(names, i, n - 1, suf, slot); }
  }

  lemma {:induction false} FramesFromFirst(names: seq<string>, i: nat, n: nat, suf: string, alt: bool)
    requires !Begun(names, i, suf)
    ensures Frames(names, i, n, suf, alt) == Frames(names, 0, n, suf, alt)
    decreases n
  {
    if n > 0 { FramesFromFirst(names, i, n - 1, suf, alt); }
  }

  lemma LinkedFromFirst(names: seq<string>, i: nat, t: nat, was: Anim)
    requires t < |names| && !Begun(names, i, Suffix(names[t])) && SlotOf(names[t]).Slot?
    requires Frames(names, i, |names|, Suffix(names[t]), SlotOf(names[t]).alt) > 0
    ensures Frames(names, 0, |names|, Suffix(names[t]), SlotOf(names[t]).alt) > 0
    ensures Linked(names, i, t, was) == Linked(names, 0, t, was)
  {
    var suf, s, n := Suffix(names[t]), SlotOf(names[t]), |names|;
    FramesFromFirst(names, i, n, suf, s.alt);
    FramesFromFirst(names, i, n, suf, !s.alt);
    FromFirst(names, i, n, suf, Slot(!s.alt, 0));
    FromFirst(names, i, n, suf, Slot(s.alt, After(s.k, Frames(names, i, n, suf, s.alt))));
  }

  lemma CompleteFromFirst(names: seq<string>, i: nat, suf: string, alt: bool)
    requires !Begun(names, i, suf) && Complete(names, i, suf, alt)
    ensures Complete(names, 0, suf, alt)
  {
    FramesFromFirst(names, i, |names|, suf, alt);
    forall k: nat | k < Frames(names, 0, |names|, suf, alt) ensures Last(names, 0, |names|, suf, Slot(alt, k)) != NONE {
      FromFirst(names, i, |names|, suf, Slot(alt, k));
    }
  }

  lemma OnlyOneInSlot(names: seq<string>, i: nat, t: nat)
    requires SlotsDistinct(names) && i <= t < |names| && Animating(names[t])
    ensures Last(names, i, |names|, Suffix(names[t]), SlotOf(names[t])) == t
  {
    assert InSlot(names, t, Suffix(names[t]), SlotOf(names[t]));
  }

  lemma RingHasNext(names: seq<string>, anim: seq<Anim>, t: nat)
    requires |anim| == |names| && t < |names| && InRing(names, anim, t)
    ensures anim[t].next != NONE
  {
    var suf, s := Suffix(names[t]), SlotOf(names[t]);
    var count := Frames(names, 0, |names|, suf, s.alt);
    var k := After(s.k, count);
    assert Complete(names, 0, suf, s.alt);
    assert Last(names, 0, |names|, suf, Slot(s.alt, k)) != NONE;
  }

  lemma BegunNext(names: seq<string>, i: nat, suf: string)
    requires i < |names|
    ensures Begun(names, i + 1, suf) <==> Begun(names, i, suf) || InGroup(names, i, suf)
  {
  }

  /** The group of texture i is linked by the pass that first meets it. */
  lemma LinkGroupLinks(names: seq<string>, anim: seq<Anim>, i: nat, t: nat)
    requires SlotsDistinct(names) && Between(names, anim, i) && i < |names| && t < |names|
    requires InGroup(names, t, Suffix(names[i])) && !Begun(names, i, Suffix(names[i]))
    requires NoneBad(names, i, Suffix(names[i]))
    requires Complete(names, i, Suffix(names[i]), false) && Complete(names, i, Suffix(names[i]), true)
    ensures InRing(names, LinkGroup(names, anim, i, Suffix(names[i])), t)
  {
    var suf := Suffix(names[i]);
    assert i <= t && SlotOf(names[t]).Slot?;
    assert BetweenAt(names, anim, i, t);
    OnlyOneInSlot(names, i, t);
    LinkedFromFirst(names, i, t, FRESH);
    CompleteFromFirst(names, i, suf, false);
    CompleteFromFirst(names, i, suf, true);
  }

  lemma PassKeeps(names: seq<string>, anim: seq<Anim>, i: nat)
    requires SlotsDistinct(names) && i < |names| && Between(names, anim, i) && Pass(names, anim, i).Ok?
    ensures Between(names, Pass(names, anim, i).anim, i + 1)
  {
    var r, i' := Pass(names, anim, i).anim, i + 1;
    assert BetweenAt(names, anim, i, i);
    if Animating(names[i]) && Begun(names, i, Suffix(names[i])) { RingHasNext(names, anim, i); }
    forall t | 0 <= t < |names| ensures BetweenAt(names, r, i', t) {
      assert BetweenAt(names, anim, i, t);
      BegunNext(names, i, Suffix(names[t]));
      if Animating(names[i]) && anim[i].next == NONE {
        if InGroup(names, t, Suffix(names[i])) {
          LinkGroupLinks(names, anim, i, t);
        } else {
          OtherGroupStays(names, anim, i, t);
        }
      }
    }
  }

  lemma OtherGroupStays(names: seq<string>, anim: seq<Anim>, i: nat, t: nat)
    requires |anim| == |names| && i < |names| && t < |names| && !InGroup(names, t, Suffix(names[i]))
    ensures var r := LinkGroup(names, anim, i, Suffix(names[i]));
      r[t] == anim[t] && (InRing(names, anim, t) ==> InRing(names, r, t))
  {
  }

  lemma {:induction false} SequencedBetween(names: seq<string>, n: nat)
    requires SlotsDistinct(names) && n <= |names| && Sequenced(names, n).Ok?
    ensures Between(names, Sequenced(names, n).anim, n)
  {
    if n > 0 {
      SequencedBetween(names, n - 1);
      PassKeeps(names, Sequenced(names, n - 1).anim, n - 1);
    }
  }

  /** A texture with a later one in its slot is never linked. */
  lemma {:induction false} ShadowedStays(names: seq<string>, n: nat, i: nat, j: nat)
    requires n <= |names| && Sequenced(names, n).Ok? && i < j < |names|
    requires InGroup(names, i, Suffix(names[j])) && InSlot(names, j, Suffix(names[i]), SlotOf(names[i]))
    ensures Sequenced(names, n).anim[i] == FRESH
  {
    if n > 0 { ShadowedStays(names, n - 1, i, j); }
  }

  /**
   Of a texture set that is accepted, every animating texture gets its place in its ring exactly if
   no two share a slot.
   */
  lemma AllAnimateIff(names: seq<string>)
    requires Sequenced(names, |names|).Ok?
    ensures AllInRings(names, Sequenced(names, |names|).anim) <==> SlotsDistinct(names)
  {
    var anim := Sequenced(names, |names|).anim;
    if SlotsDistinct(names) {
      SequencedBetween(names, |names|);
      forall t | 0 <= t < |names| && Animating(names[t]) ensures InRing(names, anim, t) {
        assert BetweenAt(names, anim, |names|, t) && InGroup(names, t, Suffix(names[t]));
        assert Begun(names, |names|, Suffix(names[t]));
      }
    } else {
      var i, j :| 0 <= i < j < |names| && Animating(names[i]) && Animating(names[j])
        && Suffix(names[i]) == Suffix(names[j]) && SlotOf(names[i]) == SlotOf(names[j]);
      ShadowedStays(names, |names|, i, j);
      assert !InRing(names, anim, i);
    }
  }

  // ----- Following the ring -------------------------------------------------------------------------

  datatype Reply = Found(t: int) | BrokenCycle | InfiniteCycle

  ghost predicate LinksInside(anim: seq<Anim>) {
    forall t :: 0 <= t < |anim| ==> NONE <= anim[t].next < |anim| && NONE <= anim[t].alternate < |anim|
  }

  const MAX_STEPS := 100

  /** From texture t to the frame of the moment, in at most `left` steps. */
  ghost function Walk(anim: seq<Anim>, t: nat, relative: int, left: nat): Reply
    requires LinksInside(anim) && t < |anim|
    decreases left
  {
    if anim[t].min <= relative < anim[t].max then Found(t)
    else if anim[t].next == NONE then BrokenCycle
    else if left == 0 then InfiniteCycle
    else Walk(anim, anim[t].next, relative, left - 1)
  }

  ghost function Switched(anim: seq<Anim>, t: nat, frame: bool): nat
    requires LinksInside(anim) && t < |anim|
  {
    if frame && anim[t].alternate != NONE then anim[t].alternate else t
  }

  /** `time` is in tenths of a second; `frame` asks for the alternate ring. */
  ghost function Shown(anim: seq<Anim>, t: nat, time: nat, frame: bool, left: nat): Reply
    requires LinksInside(anim) && t < |anim| && forall i :: 0 <= i < |anim| ==> anim[i].total >= 0
  {
    var b := Switched(anim, t, frame);
    if anim[b].total == 0 then Found(b) else Walk(anim, b, time % anim[b].total, left)
  }

  lemma {:induction false} LinksStayInside(names: seq<string>, n: nat)
    requires n <= |names| && Sequenced(names, n).Ok?
    ensures var anim := Sequenced(names, n).anim;
      LinksInside(anim) && forall t :: 0 <= t < |anim| ==> anim[t].total >= 0
  {
    if n > 0 { LinksStayInside(names, n - 1); }
  }

  /** Textures linked in a circle, each shown for two tenths of a second. */
  ghost predicate IsRing(anim: seq<Anim>, ring: seq<int>) {
    && 0 < |ring| <= MAX_FRAMES
    && forall k :: 0 <= k < |ring| ==> FrameOfRing(anim, ring, k)
  }

  ghost predicate FrameOfRing(anim: seq<Anim>, ring: seq<int>, k: nat)
    requires k < |ring|
  {
    && 0 <= ring[k] < |anim| && anim[ring[k]].min == 2 * k && anim[ring[k]].max == 2 * k + 2
    && anim[ring[k]].total == 2 * |ring| && anim[ring[k]].next == ring[After(k, |ring|)]
  }

  /** Steps from slot k to slot m around a ring. */
  ghost function Distance(n: nat, k: nat, m: nat): nat
    requires k < n && m < n
  {
    if k <= m then m - k else m + n - k
  }

  lemma {:induction false} WalkArrives(anim: seq<Anim>, ring: seq<int>, k: nat, relative: nat, left: nat)
    requires IsRing(anim, ring) && LinksInside(anim) && k < |ring|
    requires relative < 2 * |ring| && left >= Distance(|ring|, k, relative / 2)
    ensures FrameOfRing(anim, ring, k) && Walk(anim, ring[k], relative, left) == Found(ring[relative / 2])
    decreases left
  {
    assert FrameOfRing(anim, ring, k);
    if k != relative / 2 {
      var k' := After(k, |ring|);
      assert FrameOfRing(anim, ring, k');
      WalkArrives(anim, ring, k', relative, left - 1);
    }
  }

  /** The textures of one ring of a group, in the order of their slots. */
  ghost function GroupRing(names: seq<string>, suf: string, alt: bool): seq<int> {
    seq(Frames(names, 0, |names|, suf, alt), k requires k >= 0 => Last(names, 0, |names|, suf, Slot(alt, k)))
  }

  lemma FrameLinked(names: seq<string>, anim: seq<Anim>, suf: string, alt: bool, k: nat)
    requires AllInRings(names, anim) && k < Frames(names, 0, |names|, suf, alt)
    requires Last(names, 0, |names|, suf, Slot(alt, k)) != NONE
    ensures FrameOfRing(anim, GroupRing(names, suf, alt), k)
    ensures Complete(names, 0, suf, alt)
  {
    hide Last, Frames, Complete, GroupRing;
    var t := Last(names, 0, |names|, suf, Slot(alt, k));
    assert InSlot(names, t, suf, Slot(alt, k));
    assert InRing(names, anim, t);
    GroupRingAt(names, suf, alt, k);
    GroupRingAt(names, suf, alt, After(k, Frames(names, 0, |names|, suf, alt)));
  }

  lemma GroupRingAt(names: seq<string>, suf: string, alt: bool, k: nat)
    requires k < Frames(names, 0, |names|, suf, alt)
    ensures var ring := GroupRing(names, suf, alt);
      |ring| == Frames(names, 0, |names|, suf, alt) && ring[k] == Last(names, 0, |names|, suf, Slot(alt, k))
  {
  }

  lemma GroupIsRing(names: seq<string>, anim: seq<Anim>, suf: string, alt: bool)
    requires AllInRings(names, anim) && Frames(names, 0, |names|, suf, alt) > 0
    ensures IsRing(anim, GroupRing(names, suf, alt))
  {
    var n := Frames(names, 0, |names|, suf, alt);
    FrameLinked(names, anim, suf, alt, n - 1);
    forall k | 0 <= k < n ensures FrameOfRing(anim, GroupRing(names, suf, alt), k) {
      FrameLinked(names, anim, suf, alt, k);
    }
  }

  /** The ring a texture is shown from: its own or, if asked for and there is one, the other ring of its group. */
  ghost function RingShown(names: seq<string>, t: nat, frame: bool): seq<int>
    requires t < |names| && SlotOf(names[t]).Slot?
  {
    var s, suf := SlotOf(names[t]), Suffix(names[t]);
    GroupRing(names, suf, if frame && Frames(names, 0, |names|, suf, !s.alt) > 0 then !s.alt else s.alt)
  }

  lemma SwitchedInRing(names: seq<string>, anim: seq<Anim>, t: nat, frame: bool)
    requires AllInRings(names, anim) && LinksInside(anim) && t < |names| && Animating(names[t]) && SlotsDistinct(names)
    ensures SlotOf(names[t]).Slot? && IsRing(anim, RingShown(names, t, frame))
    ensures Switched(anim, t, frame) in RingShown(names, t, frame)
  {
    assert InRing(names, anim, t);
    var s, suf := SlotOf(names[t]), Suffix(names[t]);
    OnlyOneInSlot(names, 0, t);
    GroupIsRing(names, anim, suf, s.alt);
    if frame && Frames(names, 0, |names|, suf, !s.alt) > 0 {
      GroupIsRing(names, anim, suf, !s.alt);
      assert FrameOfRing(anim, GroupRing(names, suf, !s.alt), 0);
      assert GroupRing(names, suf, !s.alt)[0] == anim[t].alternate;
    } else {
      assert InGroup(names, t, suf) && s.k < Frames(names, 0, |names|, suf, s.alt);
      assert GroupRing(names, suf, s.alt)[s.k] == t;
    }
  }

  /**
   In an accepted set without shared slots, at every time every animating texture shows frame
   relative / 2 of its own ring or of the alternate one, found in at most nine steps.
   */
  lemma AnimationFindsFrame(names: seq<string>, anim: seq<Anim>, t: nat, time: nat, frame: bool, left: nat)
    requires SlotsDistinct(names) && Sequenced(names, |names|) == Ok(anim) && t < |names| && Animating(names[t])
    requires left >= 9
    ensures LinksInside(anim) && (forall i :: 0 <= i < |anim| ==> anim[i].total >= 0) && SlotOf(names[t]).Slot?
    ensures var ring := RingShown(names, t, frame);
      |ring| > 0 && Shown(anim, t, time, frame, left) == Found(ring[time % (2 * |ring|) / 2])
  {
    LinksStayInside(names, |names|);
    AllAnimateIff(names);
    SwitchedInRing(names, anim, t, frame);
    var ring := RingShown(names, t, frame);
    var b := Switched(anim, t, frame);
    var k :| 0 <= k < |ring| && ring[k] == b;
    assert FrameOfRing(anim, ring, k);
    WalkArrives(anim, ring, k, time % (2 * |ring|), left);
  }

  /** A texture that does not animate is always shown as it is. */
  lemma {:induction false} OthersStand(names: seq<string>, n: nat, t: nat)
    requires n <= |names| && Sequenced(names, n).Ok? && t < |names| && !Animating(names[t])
    ensures Sequenced(names, n).anim[t] == FRESH
  {
    if n > 0 { OthersStand(names, n - 1, t); }
  }

  // ----- The program --------------------------------------------------------------------------------

  /** The ring tables of a group after looking at textures i, ..., n - 1. */
  ghost predicate Table(names: seq<string>, i: nat, n: nat, suf: string, alt: bool, ring: seq<int>, count: nat) {
    && |ring| == MAX_FRAMES && count == Frames(names, i, n, suf, alt)
    && forall k :: 0 <= k < MAX_FRAMES ==> ring[k] == Last(names, i, n, suf, Slot(alt, k))
  }

  method Place(names: seq<string>, ghost i: nat, j: nat, suf: string, ring: seq<int>, count: nat,
        alts: seq<int>, altcount: nat)
      returns (bad: bool, ring': seq<int>, count': nat, alts': seq<int>, altcount': nat)
    requires i <= j < |names| && InGroup(names, j, suf)
    requires Table(names, i, j, suf, false, ring, count) && Table(names, i, j, suf, true, alts, altcount)
    ensures bad <==> SlotOf(names[j]).BadSlot?
    ensures !bad ==> Table(names, i, j + 1, suf, false, ring', count')
    ensures !bad ==> Table(names, i, j + 1, suf, true, alts', altcount')
  {
    bad, ring', count', alts', altcount' := false, ring, count, alts, altcount;
    match SlotOf(names[j])
    case Slot(false, k) =>
      ring' := ring[k := j];
      if k + 1 > count { count' := k + 1; }
    case Slot(true, k) =>
      alts' := alts[k := j];
      if k + 1 > altcount { altcount' := k + 1; }
    case BadSlot => bad := true;
  }

  lemma EmptyTable(names: seq<string>, i: nat, suf: string, alt: bool, ring: seq<int>)
    requires |ring| == MAX_FRAMES && forall k :: 0 <= k < MAX_FRAMES ==> ring[k] == NONE
    ensures Table(names, i, i, suf, alt, ring, 0)
  {
  }

  /** Find the frames of the group of texture i among the textures from i on. */
  method Collect(names: seq<string>, i: nat)
      returns (bad: bool, ring: seq<int>, count: nat, alts: seq<int>, altcount: nat)
    requires i < |names| && Animating(names[i])
    ensures bad <==> !NoneBad(names, i, Suffix(names[i]))
    ensures !bad ==> Table(names, i, |names|, Suffix(names[i]), false, ring, count)
    ensures !bad ==> Table(names, i, |names|, Suffix(names[i]), true, alts, altcount)
  {
    hide Table, SlotOf, Suffix, Animating, Last, Frames;
    var suf := Suffix(names[i]);
    ring, count, alts, altcount := seq(MAX_FRAMES, _ => NONE), 0, seq(MAX_FRAMES, _ => NONE), 0;
    EmptyTable(names, i, suf, false, ring);
    EmptyTable(names, i, suf, true, alts);
    bad, ring, count, alts, altcount := Place(names, i, i, suf, ring, count, alts, altcount);
    if bad { return; }
    var j := i + 1;
    while j < |names|
      invariant i < j <= |names| && !bad
      invariant forall k :: i <= k < j && InGroup(names, k, suf) ==> SlotOf(names[k]).Slot?
      invariant Table(names, i, j, suf, false, ring, count) && Table(names, i, j, suf, true, alts, altcount)
    {
      if InGroup(names, j, suf) {
        bad, ring, count, alts, altcount := Place(names, i, j, suf, ring, count, alts, altcount);
        if bad { return; }
      } else {
        NotInGroup(names, i, j, suf, ring, count, alts, altcount);
      }
      j := j + 1;
    }
  }

  lemma NotInGroup(names: seq<string>, i: nat, j: nat, suf: string, ring: seq<int>, count: nat, alts: seq<int>,
        altcount: nat)
    requires i <= j && !InGroup(names, j, suf)
    requires Table(names, i, j, suf, false, ring, count) && Table(names, i, j, suf, true, alts, altcount)
    ensures Table(names, i, j + 1, suf, false, ring, count) && Table(names, i, j + 1, suf, true, alts, altcount)
  {
  }

  /** Texture t has been linked when the frames before j of one ring have been. */
  ghost predicate DoneBefore(names: seq<string>, i: nat, suf: string, alt: bool, j: nat, t: nat) {
    Chosen(names, i, t, suf) && SlotOf(names[t]).alt == alt && SlotOf(names[t]).k < j
  }

  ghost predicate LinkedBefore(names: seq<string>, anim: seq<Anim>, anim': seq<Anim>, i: nat, suf: string,
        alt: bool, j: nat) {
    && |anim| == |anim'| == |names|
    && forall t :: 0 <= t < |names| ==>
      anim'[t] == if DoneBefore(names, i, suf, alt, j, t) then Linked(names, i, t, anim[t]) else anim[t]
  }

  /** The frame of slot j is the only texture that the next step of linking a ring changes. */
  lemma OneMoreDone(names: seq<string>, i: nat, suf: string, alt: bool, j: nat, t: nat, u: nat)
    requires Last(names, i, |names|, suf, Slot(alt, j)) == t
    ensures DoneBefore(names, i, suf, alt, j + 1, u) <==> DoneBefore(names, i, suf, alt, j, u) || u == t
    ensures !DoneBefore(names, i, suf, alt, j, t)
  {
    assert InSlot(names, t, suf, Slot(alt, j));
  }

  lemma LinkedFrame(names: seq<string>, i: nat, suf: string, alt: bool, j: nat, t: nat, was: Anim)
    requires Last(names, i, |names|, suf, Slot(alt, j)) == t
    ensures InSlot(names, t, suf, Slot(alt, j)) && Frames(names, i, |names|, suf, alt) > j
    ensures Linked(names, i, t, was) ==
      Anim(Frames(names, i, |names|, suf, alt) * ANIM_CYCLE, j * ANIM_CYCLE, (j + 1) * ANIM_CYCLE,
      Last(names, i, |names|, suf, Slot(alt, After(j, Frames(names, i, |names|, suf, alt)))),
      if Frames(names, i, |names|, suf, !alt) > 0 then Last(names, i, |names|, suf, Slot(!alt, 0)) else was.alternate)
  {
  }

  lemma NoneLinked(names: seq<string>, anim: seq<Anim>, i: nat, suf: string, alt: bool)
    requires |anim| == |names|
    ensures LinkedBefore(names, anim, anim, i, suf, alt, 0)
  {
  }

  /** Link the frames of one ring. */
  method LinkRing(names: seq<string>, anim: seq<Anim>, ghost i: nat, ghost suf: string, ghost alt: bool,
                  ring: seq<int>, count: nat, others: seq<int>, othercount: nat)
      returns (missing: bool, anim': seq<Anim>)
    requires |anim| == |names| && Table(names, i, |names|, suf, alt, ring, count)
    requires Table(names, i, |names|, suf, !alt, others, othercount)
    ensures missing <==> !Complete(names, i, suf, alt)
    ensures !missing ==> |anim'| == |names| && LinkedBefore(names, anim, anim', i, suf, alt, count)
  {
    hide Last, Frames, Linked, Chosen, InSlot, SlotOf, Suffix, DoneBefore;
    missing, anim' := false, anim;
    var j := 0;
    NoneLinked(names, anim, i, suf, alt);
    while j < count
      invariant 0 <= j <= count
      invariant forall k :: 0 <= k < j ==> ring[k] != NONE
      invariant LinkedBefore(names, anim, anim', i, suf, alt, j)
    {
      var t := ring[j];
      if t == NONE { return true, anim'; }
      LinkedFrame(names, i, suf, alt, j, t, anim[t]);
      ModAfter(j, count);
      forall u: nat
        ensures DoneBefore(names, i, suf, alt, j + 1, u) <==> DoneBefore(names, i, suf, alt, j, u) || u == t
      {
        OneMoreDone(names, i, suf, alt, j, t, u);
      }
      OneMoreDone(names, i, suf, alt, j, t, t);
      anim' := anim'[t := Anim(count * ANIM_CYCLE, j * ANIM_CYCLE, (j + 1) * ANIM_CYCLE, ring[(j + 1) % count],
        if othercount > 0 then others[0] else anim'[t].alternate)];
      j := j + 1;
    }
  }

  lemma ModAfter(k: nat, n: nat)
    requires k < n
    ensures (k + 1) % n == After(k, n)
  {
  }

  lemma BothRings(names: seq<string>, anim: seq<Anim>, anim1: seq<Anim>, anim2: seq<Anim>, i: nat, suf: string)
    requires LinkedBefore(names, anim, anim1, i, suf, false, Frames(names, i, |names|, suf, false))
    requires LinkedBefore(names, anim1, anim2, i, suf, true, Frames(names, i, |names|, suf, true))
    ensures anim2 == LinkGroup(names, anim, i, suf)
  {
    forall t | 0 <= t < |names| ensures anim2[t] == LinkGroup(names, anim, i, suf)[t] {
      if Chosen(names, i, t, suf) { InGroupInRing(names, i, t, suf); }
    }
  }

  lemma InGroupInRing(names: seq<string>, i: nat, t: nat, suf: string)
    requires Chosen(names, i, t, suf)
    ensures var s := SlotOf(names[t]); DoneBefore(names, i, suf, s.alt, Frames(names, i, |names|, suf, s.alt), t)
  {
  }

  lemma NoneSequenced(names: seq<string>)
    ensures Sequenced(names, 0) == Ok(seq(|names|, _ => FRESH))
  {
  }

  lemma SequencedNext(names: seq<string>, i: nat)
    requires i < |names| && Sequenced(names, i).Ok?
    ensures Sequenced(names, i + 1) == Pass(names, Sequenced(names, i).anim, i)
  {
  }

  lemma PassSkips(names: seq<string>, anim: seq<Anim>, i: nat)
    requires |anim| == |names| && i < |names| && (!Animating(names[i]) || anim[i].next != NONE)
    ensures Pass(names, anim, i) == Ok(anim)
  {
  }

  class Textures {
    const names: seq<string>
    var anim: seq<Anim>

    constructor (names: seq<string>)
      ensures this.names == names && anim == seq(|names|, _ => FRESH)
    {
      this.names, anim := names, seq(|names|, _ => FRESH);
    }

    /** Sequence the group of texture i. */
    method SequenceGroup(i: nat) returns (o: Outcome)
      requires |anim| == |names| && i < |names| && Animating(names[i]) && anim[i].next == NONE
      modifies `anim
      ensures o == Pass(names, old(anim), i) && (o.Ok? ==> anim == o.anim)
    {
      hide Last, Frames, Linked, LinkedBefore, LinkGroup, Chosen, NoneBad, Complete;
      var bad, ring, count, alts, altcount := Collect(names, i);
      if bad { return BadTexture; }
      ghost var suf := Suffix(names[i]);
      var missing, anim1 := LinkRing(names, anim, i, suf, false, ring, count, alts, altcount);
      if missing { return MissingFrame; }
      var missing2, anim2 := LinkRing(names, anim1, i, suf, true, alts, altcount, ring, count);
      if missing2 { return MissingFrame; }
      BothRings(names, anim, anim1, anim2, i, suf);
      anim := anim2;
      return Ok(anim);
    }

    /** Sequence all animations. */
    method Sequence() returns (o: Outcome)
      requires anim == seq(|names|, _ => FRESH)
      modifies `anim
      ensures o == Sequenced(names, |names|) && (o.Ok? ==> anim == o.anim)
    {
      hide Pass, Sequenced, Animating;
      var i := 0;
      NoneSequenced(names);
      while i < |names|
        invariant 0 <= i <= |names| && |anim| == |names| && Sequenced(names, i) == Ok(anim)
      {
        SequencedNext(names, i);
        if Animating(names[i]) && anim[i].next == NONE {
          o := SequenceGroup(i);
          if !o.Ok? {
            SequencedFails(names, i + 1, |names|);
            return;
          }
        } else {
          PassSkips(names, anim, i);
        }
        i := i + 1;
      }
      return Ok(anim);
    }

    /** The texture shown for texture t at a time in tenths of a second. */
    method TextureAnimation(t: nat, time: nat, frame: bool) returns (r: Reply)
      requires LinksInside(anim) && t < |anim| && forall i :: 0 <= i < |anim| ==> anim[i].total >= 0
      ensures r == Shown(anim, t, time, frame, MAX_STEPS)
    {
      var base := t;
      if frame && anim[base].alternate != NONE { base := anim[base].alternate; }
      if anim[base].total == 0 { return Found(base); }
      var relative, count := time % anim[base].total, 0;
      while anim[base].min > relative || anim[base].max <= relative
        invariant 0 <= base < |anim| && 0 <= count <= MAX_STEPS
        invariant Shown(anim, t, time, frame, MAX_STEPS) == Walk(anim, base, relative, MAX_STEPS - count)
        decreases MAX_STEPS - count
      {
        var next := anim[base].next;
        if next == NONE { return BrokenCycle; }
        count := count + 1;
        if count > MAX_STEPS { return InfiniteCycle; }
        base := next;
      }
      return Found(base);
    }
  }

  lemma {:induction false} SequencedFails(names: seq<string>, i: nat, n: nat)
    requires i <= n <= |names| && !Sequenced(names, i).Ok?
    ensures Sequenced(names, n) == Sequenced(names, i)
    decreases n
  {
    if i < n { SequencedFails(names, i, n - 1); }
  }

  // ----- A set with a shared slot -------------------------------------------------------------------

  lemma {:induction false} SelfLoopNeverEnds(anim: seq<Anim>, t: nat, relative: int, left: nat)
    requires LinksInside(anim) && t < |anim| && anim[t].next == t && !(anim[t].min <= relative < anim[t].max)
    ensures Walk(anim, t, relative, left) == InfiniteCycle
    decreases left
  {
    if left > 0 { SelfLoopNeverEnds(anim, t, relative, left - 1); }
  }

  /** Four names, all different, two of them for the first alternate frame. */
  const SHARED: seq<string> := ["+bf", "+cf", "+af", "+Af"]

  lemma SharedSlots()
    ensures forall t :: 0 <= t < 4 ==> InGroup(SHARED, t, "f")
    ensures SlotOf(SHARED[0]) == Slot(true, 1) && SlotOf(SHARED[1]) == Slot(true, 2)
    ensures SlotOf(SHARED[2]) == Slot(true, 0) && SlotOf(SHARED[3]) == Slot(true, 0)
  {
    assert forall t :: 0 <= t < 4 ==> Suffix(SHARED[t]) == "f";
  }

  lemma SharedLasts(i: nat)
    requires i == 0 || i == 2
    ensures Last(SHARED, i, 4, "f", Slot(true, 0)) == 3
    ensures i == 0 ==> Last(SHARED, i, 4, "f", Slot(true, 1)) == 0 && Last(SHARED, i, 4, "f", Slot(true, 2)) == 1
    ensures Frames(SHARED, i, 4, "f", false) == 0 && Frames(SHARED, i, 4, "f", true) == if i == 0 then 3 else 1
  {
    SharedSlots();
    assert InSlot(SHARED, 3, "f", Slot(true, 0)) && InSlot(SHARED, 0, "f", Slot(true, 1))
      && InSlot(SHARED, 1, "f", Slot(true, 2));
  }

  lemma SharedPass0()
    ensures Sequenced(SHARED, 1) == Ok([Anim(6, 2, 4, 1, NONE), Anim(6, 4, 6, 3, NONE), FRESH, Anim(6, 0, 2, 0, NONE)])
  {
    hide Last, Frames, SlotOf, Suffix, Animating, LinkGroup;
    SharedSlots();
    SharedLasts(0);
    var anim := seq(4, _ => FRESH);
    assert Sequenced(SHARED, 0) == Ok(anim);
    assert SHARED[0] == "+bf";
    assert Animating(SHARED[0]) && Suffix(SHARED[0]) == "f" by { assert InGroup(SHARED, 0, "f"); }
    SharedLinks(anim);
  }

  lemma SharedLinks(anim: seq<Anim>)
    requires |anim| == 4 && forall t :: 0 <= t < 4 ==> anim[t] == FRESH
    ensures LinkGroup(SHARED, anim, 0, "f") ==
      [Anim(6, 2, 4, 1, NONE), Anim(6, 4, 6, 3, NONE), FRESH, Anim(6, 0, 2, 0, NONE)]
  {
    hide Last, Frames, SlotOf, Suffix, Animating;
    SharedSlots();
    SharedLasts(0);
  }

  lemma SharedPass2(anim: seq<Anim>)
    requires anim == [Anim(6, 2, 4, 1, NONE), Anim(6, 4, 6, 3, NONE), FRESH, Anim(6, 0, 2, 0, NONE)]
    ensures Pass(SHARED, anim, 2) == Ok(anim[3 := Anim(2, 0, 2, 3, NONE)])
  {
    SharedSlots();
    SharedLasts(2);
    assert Animating(SHARED[2]) && Suffix(SHARED[2]) == "f" by { assert InGroup(SHARED, 2, "f"); }
    assert LinkGroup(SHARED, anim, 2, "f") == anim[3 := Anim(2, 0, 2, 3, NONE)];
  }

  lemma SkipPass(names: seq<string>, anim: seq<Anim>, n: nat)
    requires n < |names| && Sequenced(names, n) == Ok(anim) && anim[n].next != NONE
    ensures Sequenced(names, n + 1) == Ok(anim)
  {
  }

  lemma SharedSequenced()
    ensures Sequenced(SHARED, |SHARED|) ==
      Ok([Anim(6, 2, 4, 1, NONE), Anim(6, 4, 6, 3, NONE), FRESH, Anim(2, 0, 2, 3, NONE)])
  {
    SharedPass0();
    var anim := [Anim(6, 2, 4, 1, NONE), Anim(6, 4, 6, 3, NONE), FRESH, Anim(6, 0, 2, 0, NONE)];
    var anim' := [Anim(6, 2, 4, 1, NONE), Anim(6, 4, 6, 3, NONE), FRESH, Anim(2, 0, 2, 3, NONE)];
    SharedPass2(anim);
    assert anim' == anim[3 := Anim(2, 0, 2, 3, NONE)];
    SkipPass(SHARED, anim, 1);
    assert Sequenced(SHARED, 3) == Ok(anim');
    SkipPass(SHARED, anim', 3);
  }

  lemma SharedWalk(anim: seq<Anim>, left: nat)
    requires anim == [Anim(6, 2, 4, 1, NONE), Anim(6, 4, 6, 3, NONE), FRESH, Anim(2, 0, 2, 3, NONE)] && left > 0
    ensures LinksInside(anim) && (forall t :: 0 <= t < |anim| ==> anim[t].total >= 0)
    ensures Shown(anim, 1, 2, false, left) == InfiniteCycle
  {
    SelfLoopNeverEnds(anim, 3, 2, left - 1);
  }

  /** Names that differ only in the case of the frame letter can make the ring of a third texture endless. */
  lemma SharedSlotLoops(left: nat)
    requires left > 0
    ensures !SlotsDistinct(SHARED) && forall i, j :: 0 <= i < j < |SHARED| ==> SHARED[i] != SHARED[j]
    ensures var o := Sequenced(SHARED, |SHARED|);
      && o.Ok? && LinksInside(o.anim) && (forall t :: 0 <= t < |o.anim| ==> o.anim[t].total >= 0)
      && Shown(o.anim, 1, 2, false, left) == InfiniteCycle
  {
    hide Sequenced, Shown, LinksInside, SlotsDistinct;
    SharedNames();
    SharedSequenced();
    SharedWalk([Anim(6, 2, 4, 1, NONE), Anim(6, 4, 6, 3, NONE), FRESH, Anim(2, 0, 2, 3, NONE)], left);
  }

  lemma SharedNames()
    ensures !SlotsDistinct(SHARED) && forall i, j :: 0 <= i < j < |SHARED| ==> SHARED[i] != SHARED[j]
  {
    SharedSlots();
    assert InGroup(SHARED, 2, "f") && InGroup(SHARED, 3, "f");
    assert SHARED[0][1] == 'b' && SHARED[1][1] == 'c' && SHARED[2][1] == 'a' && SHARED[3][1] == 'A';
  }
}
