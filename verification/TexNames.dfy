/**
 Animated textures by the characters of their names: which sets of names are accepted, and which
 texture is shown when.
 */
module TexNames {
  import opened TexAnim
  import opened TexErrors

  const DIGITS := "0123456789"
  const CAPITALS := "ABCDEFGHIJ"
  const SMALLS := "abcdefghij"

  // ----- Names ----------------------------------------------------------------------------------------

  /** Frame number k of the main ring is called +0 to +9, of the alternate one +A to +J or +a to +j. */
  ghost predicate IsFrame(name: string, alt: bool, k: nat) {
    && |name| >= 2 && name[0] == '+' && k < 10
    && (!alt ==> name[1] == DIGITS[k])
    && (alt ==> name[1] == CAPITALS[k] || name[1] == SMALLS[k])
  }

  ghost predicate HasFrame(name: string) { exists alt, k :: IsFrame(name, alt, k) }

  /** Two textures animate together if their names agree from the third character on. */
  ghost predicate Together(a: string, b: string) {
    && |a| > 0 && |b| > 0 && a[0] == b[0] == '+'
    && (if |a| > 2 then a[2..] else "") == (if |b| > 2 then b[2..] else "")
  }

  lemma SlotIs(name: string, alt: bool, k: nat)
    requires Animating(name)
    ensures SlotOf(name) == Slot(alt, k) <==> IsFrame(name, alt, k)
  {
    if k < 10 { TenCharacters(k); }
  }

  lemma TenCharacters(k: nat)
    requires k < 10
    ensures DIGITS[k] as int == '0' as int + k
    ensures CAPITALS[k] as int == 'A' as int + k && SMALLS[k] as int == 'a' as int + k
  {
    assert k == 0 || k == 1 || k == 2 || k == 3 || k == 4 || k == 5 || k == 6 || k == 7 || k == 8 || k == 9;
  }

  lemma BadIs(name: string)
    requires Animating(name)
    ensures SlotOf(name).Slot? <==> HasFrame(name)
  {
    hide SlotOf, IsFrame;
    if SlotOf(name).Slot? { SlotIs(name, SlotOf(name).alt, SlotOf(name).k); }
    if HasFrame(name) {
      var alt, k :| IsFrame(name, alt, k);
      SlotIs(name, alt, k);
    }
  }

  lemma GroupIs(names: seq<string>, i: nat, j: nat)
    requires i < |names| && j < |names| && Animating(names[i])
    ensures InGroup(names, j, Suffix(names[i])) <==> Together(names[i], names[j])
  {
  }

  // ----- Acceptance -----------------------------------------------------------------------------------

  /** From texture i on, its group has frame k. */
  ghost predicate FrameFrom(names: seq<string>, i: nat, alt: bool, k: nat) {
    i < |names| && exists j :: i <= j < |names| && Together(names[i], names[j]) && IsFrame(names[j], alt, k)
  }

  /** From texture i on, every texture of its group is a frame, and no frame is without those before it. */
  ghost predicate AllFrames(names: seq<string>, i: nat) {
    i < |names| && forall j :: i <= j < |names| && Together(names[i], names[j]) ==> HasFrame(names[j])
  }

  ghost predicate NoGaps(names: seq<string>, i: nat) {
    forall alt, k, l :: 0 <= l < k < 10 && FrameFrom(names, i, alt, k) ==> FrameFrom(names, i, alt, l)
  }

  /** A group is looked at when its first texture comes up, and again for each with a later texture as its frame. */
  ghost predicate Turn(names: seq<string>, i: nat) {
    && i < |names| && Animating(names[i])
    && ((forall j :: 0 <= j < i ==> !Together(names[i], names[j])) || Doubled(names, i))
  }

  ghost predicate Doubled(names: seq<string>, i: nat) { exists j, alt, k :: BothAre(names, i, j, alt, k) }

  ghost predicate BothAre(names: seq<string>, i: nat, j: nat, alt: bool, k: nat) {
    i < j < |names| && Together(names[i], names[j]) && IsFrame(names[i], alt, k) && IsFrame(names[j], alt, k)
  }

  /** Sequencing from i on finds nothing wrong. */
  ghost predicate CheckOk(names: seq<string>, i: nat)
    requires i < |names|
  {
    var suf := Suffix(names[i]);
    NoneBad(names, i, suf) && Complete(names, i, suf, false) && Complete(names, i, suf, true)
  }

  lemma {:induction false} AcceptedSoFar(names: seq<string>, n: nat)
    requires n <= |names|
    ensures Sequenced(names, n).Ok? <==> forall i: nat :: i < n && PassAt(names, i) ==> CheckOk(names, i)
  {
    hide CheckOk, PassAt, Shadowed, GroupInv, Pass;
    if n > 0 {
      AcceptedSoFar(names, n - 1);
      if Sequenced(names, n - 1).Ok? { PassIsOk(names, n - 1); }
    }
  }

  lemma PassIsOk(names: seq<string>, i: nat)
    requires i < |names| && Sequenced(names, i).Ok?
    ensures Pass(names, Sequenced(names, i).anim, i).Ok? <==> (PassAt(names, i) ==> CheckOk(names, i))
    ensures Pass(names, Sequenced(names, i).anim, i) == BadTexture <==>
      PassAt(names, i) && !NoneBad(names, i, Suffix(names[i]))
  {
    hide Shadowed, GroupInv, NoneBad, Complete, Sequenced;
    GroupsHold(names, i, Suffix(names[i]));
    if Shadowed(names, i) { ShadowedIsFresh(names, i, i); }
    if Animating(names[i]) { LinksIffPass(names, Sequenced(names, i).anim, i); }
  }

  lemma FoundFrom(names: seq<string>, i: nat, alt: bool, k: nat)
    requires i < |names| && Animating(names[i])
    ensures Last(names, i, |names|, Suffix(names[i]), Slot(alt, k)) != NONE <==> FrameFrom(names, i, alt, k)
  {
    hide SlotOf, IsFrame, Together, Animating, Suffix;
    var suf, w := Suffix(names[i]), Last(names, i, |names|, Suffix(names[i]), Slot(alt, k));
    if w != NONE {
      SlotIs(names[w], alt, k);
      GroupIs(names, i, w);
    }
    if FrameFrom(names, i, alt, k) {
      var j :| i <= j < |names| && Together(names[i], names[j]) && IsFrame(names[j], alt, k);
      GroupIs(names, i, j);
      SlotIs(names[j], alt, k);
      assert InSlot(names, j, suf, Slot(alt, k));
    }
  }

  lemma CheckIs(names: seq<string>, i: nat)
    requires i < |names| && Animating(names[i])
    ensures NoneBad(names, i, Suffix(names[i])) <==> AllFrames(names, i)
    ensures CheckOk(names, i) <==> AllFrames(names, i) && NoGaps(names, i)
  {
    hide SlotOf, IsFrame, HasFrame, Together, Animating, Suffix, Last, Frames, Complete, FrameFrom;
    forall j | i <= j < |names|
      ensures InGroup(names, j, Suffix(names[i])) <==> Together(names[i], names[j])
      ensures InGroup(names, j, Suffix(names[i])) ==> (SlotOf(names[j]).Slot? <==> HasFrame(names[j]))
    {
      GroupIs(names, i, j);
      if InGroup(names, j, Suffix(names[i])) { BadIs(names[j]); }
    }
    GapIs(names, i, false);
    GapIs(names, i, true);
  }

  ghost predicate NoGap(names: seq<string>, i: nat, alt: bool) {
    forall k, l :: 0 <= l < k < 10 && FrameFrom(names, i, alt, k) ==> FrameFrom(names, i, alt, l)
  }

  lemma GapIs(names: seq<string>, i: nat, alt: bool)
    requires i < |names| && Animating(names[i])
    ensures Complete(names, i, Suffix(names[i]), alt) <==> NoGap(names, i, alt)
  {
    hide SlotOf, IsFrame, Together, Animating, Suffix, Last, FrameFrom, Frames;
    var suf := Suffix(names[i]);
    var c := Frames(names, i, |names|, suf, alt);
    forall k: nat ensures Last(names, i, |names|, suf, Slot(alt, k)) != NONE <==> FrameFrom(names, i, alt, k) {
      FoundFrom(names, i, alt, k);
    }
    forall k: nat | FrameFrom(names, i, alt, k) ensures k < c {
      InsideRing(names, i, alt, k);
    }
    if c > 0 { assert FrameFrom(names, i, alt, c - 1); }
    if Complete(names, i, suf, alt) {
      forall k, l | 0 <= l < k < 10 && FrameFrom(names, i, alt, k) ensures FrameFrom(names, i, alt, l) {
        assert Last(names, i, |names|, suf, Slot(alt, l)) != NONE;
      }
    } else {
      var l: nat :| l < c && Last(names, i, |names|, suf, Slot(alt, l)) == NONE;
      assert l != c - 1;
      assert !NoGap(names, i, alt);
    }
  }

  lemma InsideRing(names: seq<string>, i: nat, alt: bool, k: nat)
    requires i < |names| && Animating(names[i]) && Last(names, i, |names|, Suffix(names[i]), Slot(alt, k)) != NONE
    ensures k < Frames(names, i, |names|, Suffix(names[i]), alt)
  {
    var w := Last(names, i, |names|, Suffix(names[i]), Slot(alt, k));
    assert InSlot(names, w, Suffix(names[i]), Slot(alt, k));
  }

  lemma TurnIsPass(names: seq<string>, i: nat)
    requires i < |names|
    ensures Turn(names, i) ==> PassAt(names, i)
    ensures PassAt(names, i) && HasFrame(names[i]) ==> Turn(names, i)
    ensures PassAt(names, i) && !Turn(names, i) ==> Begun(names, i, Suffix(names[i]))
  {
    hide SlotOf, IsFrame, Suffix, Together;
    if Animating(names[i]) {
      var suf := Suffix(names[i]);
      forall j: nat | j < |names| ensures InGroup(names, j, suf) <==> Together(names[i], names[j]) {
        GroupIs(names, i, j);
      }
      BadIs(names[i]);
      if SlotOf(names[i]).Slot? { DoubledIs(names, i); }
      if Doubled(names, i) {
        var j: nat, alt, k: nat :| BothAre(names, i, j, alt, k);
        assert HasFrame(names[i]);
      }
    }
  }

  lemma DoubledIs(names: seq<string>, i: nat)
    requires i < |names| && Animating(names[i]) && SlotOf(names[i]).Slot?
    ensures Doubled(names, i) <==> Shadowed(names, i)
  {
    hide SlotOf, IsFrame, Suffix, Together;
    var suf, s := Suffix(names[i]), SlotOf(names[i]);
    var w := Last(names, 0, |names|, suf, s);
    SlotIs(names[i], s.alt, s.k);
    assert InSlot(names, i, suf, s);
    if Shadowed(names, i) {
      SlotIs(names[w], s.alt, s.k);
      GroupIs(names, i, w);
      assert BothAre(names, i, w, s.alt, s.k);
    }
    if Doubled(names, i) {
      var j: nat, alt, k: nat :| BothAre(names, i, j, alt, k);
      SlotIs(names[i], alt, k);
      GroupIs(names, i, j);
      SlotIs(names[j], alt, k);
      assert InSlot(names, j, suf, s);
    }
  }

  /** The first texture of a group. */
  lemma FirstOfGroup(names: seq<string>, i: nat) returns (f: nat)
    requires i < |names| && Animating(names[i])
    ensures f <= i && Turn(names, f) && Together(names[f], names[i])
  {
    f := 0;
    while !Together(names[f], names[i])
      invariant f <= i && forall j :: 0 <= j < f ==> !Together(names[j], names[i])
      decreases i - f
    {
      f := f + 1;
    }
  }

  /**
   A set of names is accepted exactly if, whenever a group is looked at, all its textures from there on
   are frames, and the digits among them begin with 0 and the letters with A, without a gap.
   */
  lemma AcceptedIff(names: seq<string>)
    ensures Sequenced(names, |names|).Ok? <==>
      forall i: nat :: Turn(names, i) ==> AllFrames(names, i) && NoGaps(names, i)
  {
    hide Sequenced, CheckOk, Turn, AllFrames, NoGaps, PassAt;
    AcceptedSoFar(names, |names|);
    if Sequenced(names, |names|).Ok? {
      forall i: nat | Turn(names, i) ensures AllFrames(names, i) && NoGaps(names, i) { TurnChecks(names, i); }
    } else {
      var i: nat :| i < |names| && PassAt(names, i) && !CheckOk(names, i);
      PassIsAnimating(names, i);
      CheckIs(names, i);
      var f := FirstOfGroup(names, i);
      if AllFrames(names, f) {
        IsAFrame(names, f, i);
        TurnIsPass(names, i);
      }
    }
  }

  lemma TurnChecks(names: seq<string>, i: nat)
    requires Turn(names, i) && forall j: nat :: j < |names| && PassAt(names, j) ==> CheckOk(names, j)
    ensures AllFrames(names, i) && NoGaps(names, i)
  {
    hide CheckOk, AllFrames, NoGaps, PassAt;
    TurnIsPass(names, i);
    CheckIs(names, i);
  }

  /** Every look before i found nothing wrong. */
  ghost predicate GoodBefore(names: seq<string>, i: nat) {
    i <= |names| && forall j: nat :: j < i && PassAt(names, j) ==> CheckOk(names, j)
  }

  /** What is wrong with a set that is refused: the first look to fail found a texture that is no frame, or a gap. */
  lemma {:induction false} RefusedFor(names: seq<string>, n: nat) returns (i: nat)
    requires n <= |names| && !Sequenced(names, n).Ok?
    ensures i < n && GoodBefore(names, i) && PassAt(names, i)
    ensures Sequenced(names, n) == if AllFrames(names, i) then MissingFrame else BadTexture
  {
    hide CheckOk, PassAt, AllFrames, NoneBad, Pass;
    if Sequenced(names, n - 1).Ok? {
      i := n - 1;
      AcceptedSoFar(names, i);
      PassIsOk(names, i);
      PassIsAnimating(names, i);
      CheckIs(names, i);
      PassOutcomes(names, Sequenced(names, i).anim, i);
    } else {
      i := RefusedFor(names, n - 1);
    }
  }

  lemma PassOutcomes(names: seq<string>, anim: seq<Anim>, i: nat)
    requires |anim| == |names| && i < |names|
    ensures Pass(names, anim, i).Ok? || Pass(names, anim, i) == BadTexture || Pass(names, anim, i) == MissingFrame
  {
  }

  lemma PassIsAnimating(names: seq<string>, i: nat)
    requires PassAt(names, i)
    ensures i < |names| && Animating(names[i])
  {
  }

  lemma IsAFrame(names: seq<string>, f: nat, i: nat)
    requires AllFrames(names, f) && f <= i < |names| && Together(names[f], names[i])
    ensures HasFrame(names[i])
  {
  }

  // ----- What is shown --------------------------------------------------------------------------------

  /** No two textures of a group are the same frame. */
  ghost predicate NoneDoubled(names: seq<string>) { forall i: nat :: !Doubled(names, i) }

  lemma NoneDoubledIs(names: seq<string>)
    requires NoneDoubled(names) && Sequenced(names, |names|).Ok?
    ensures SlotsDistinct(names)
  {
    hide Sequenced, SlotOf, IsFrame, Suffix, Together, AllFrames, NoGaps, Turn;
    AcceptedIff(names);
    forall i, j | 0 <= i < j < |names| && Animating(names[i]) && Animating(names[j])
      && Suffix(names[i]) == Suffix(names[j]) ensures SlotOf(names[i]) != SlotOf(names[j])
    {
      var f := FirstOfGroup(names, i);
      IsAFrame(names, f, i);
      BadIs(names[i]);
      var s := SlotOf(names[i]);
      SlotIs(names[i], s.alt, s.k);
      SlotIs(names[j], s.alt, s.k);
      GroupIs(names, i, j);
      assert !Doubled(names, i);
      assert !BothAre(names, i, j, s.alt, s.k);
    }
  }

  /** The frames of a texture's group: those below n, and there is at least one. */
  ghost predicate RingSize(names: seq<string>, t: nat, alt: bool, n: nat) {
    && 0 < n <= 10 && t < |names|
    && forall k: nat :: k < 10 ==> (FrameOf(names, t, alt, k) <==> k < n)
  }

  ghost predicate FrameOf(names: seq<string>, t: nat, alt: bool, k: nat) {
    t < |names| && exists j :: 0 <= j < |names| && Together(names[t], names[j]) && IsFrame(names[j], alt, k)
  }

  /**
   In an accepted set without doubled frames, a texture of either ring shows at every time the frame
   of its group that is due: each for two tenths of a second, from its own ring or, if asked for and
   there is one, from the other.
   */
  lemma ShownByName(names: seq<string>, anim: seq<Anim>, t: nat, alt: bool, own: nat, time: nat, frame: bool)
      returns (n: nat, u: nat)
    requires NoneDoubled(names) && Sequenced(names, |names|) == Ok(anim)
    requires t < |names| && IsFrame(names[t], alt, own)
    ensures LinksInside(anim) && (forall i :: 0 <= i < |anim| ==> anim[i].total >= 0)
    ensures var other := frame && FrameOf(names, t, !alt, 0); var ring := if other then !alt else alt;
      && RingSize(names, t, ring, n) && u < |names| && Together(names[t], names[u])
      && IsFrame(names[u], ring, time % (2 * n) / 2)
      && Shown(anim, t, time, frame, MAX_STEPS) == Found(u)
  {
    hide Sequenced, SlotOf, IsFrame, Suffix, Together, Shown, Last, Frames, LinksInside;
    FrameAnimates(names[t], alt, own);
    SlotIs(names[t], alt, own);
    NoneDoubledIs(names);
    AnimationFindsFrame(names, anim, t, time, frame, MAX_STEPS);
    var suf := Suffix(names[t]);
    OtherRing(names, t, !alt);
    var ring := if frame && FrameOf(names, t, !alt, 0) then !alt else alt;
    n := Frames(names, 0, |names|, suf, ring);
    RingSizeIs(names, anim, t, ring);
    var k := time % (2 * n) / 2;
    u := Last(names, 0, |names|, suf, Slot(ring, k));
    GroupRingAt(names, suf, ring, k);
    LastIsFrame(names, t, ring, k);
  }

  lemma FrameAnimates(name: string, alt: bool, k: nat)
    requires IsFrame(name, alt, k)
    ensures Animating(name)
  {
  }

  lemma FrameOfIs(names: seq<string>, t: nat, alt: bool, k: nat)
    requires t < |names| && Animating(names[t])
    ensures Last(names, 0, |names|, Suffix(names[t]), Slot(alt, k)) != NONE <==> FrameOf(names, t, alt, k)
  {
    hide SlotOf, IsFrame, Together, Animating, Suffix;
    var suf, w := Suffix(names[t]), Last(names, 0, |names|, Suffix(names[t]), Slot(alt, k));
    if w != NONE {
      SlotIs(names[w], alt, k);
      GroupIs(names, t, w);
    }
    if FrameOf(names, t, alt, k) {
      var j :| 0 <= j < |names| && Together(names[t], names[j]) && IsFrame(names[j], alt, k);
      GroupIs(names, t, j);
      SlotIs(names[j], alt, k);
      assert InSlot(names, j, suf, Slot(alt, k));
    }
  }

  lemma LastIsFrame(names: seq<string>, t: nat, alt: bool, k: nat)
    requires t < |names| && Animating(names[t]) && Last(names, 0, |names|, Suffix(names[t]), Slot(alt, k)) != NONE
    ensures var u := Last(names, 0, |names|, Suffix(names[t]), Slot(alt, k));
      0 <= u < |names| && Together(names[t], names[u]) && IsFrame(names[u], alt, k)
  {
    hide SlotOf, IsFrame, Together;
    var u := Last(names, 0, |names|, Suffix(names[t]), Slot(alt, k));
    SlotIs(names[u], alt, k);
    GroupIs(names, t, u);
  }

  lemma OtherRing(names: seq<string>, t: nat, alt: bool)
    requires t < |names| && Animating(names[t]) && Sequenced(names, |names|).Ok?
    ensures Frames(names, 0, |names|, Suffix(names[t]), alt) > 0 <==> FrameOf(names, t, alt, 0)
  {
    hide Sequenced, SlotOf, Last, Frames;
    GroupComplete(names, t, alt);
    FrameOfIs(names, t, alt, 0);
    if FrameOf(names, t, alt, 0) { InGroupRing(names, t, alt, 0); }
  }

  lemma GroupComplete(names: seq<string>, t: nat, alt: bool)
    requires t < |names| && Animating(names[t]) && Sequenced(names, |names|).Ok?
    ensures Complete(names, 0, Suffix(names[t]), alt)
  {
    hide Sequenced, Complete, Slotted;
    assert InGroup(names, t, Suffix(names[t]));
    GroupsHold(names, |names|, Suffix(names[t]));
  }

  lemma InGroupRing(names: seq<string>, t: nat, alt: bool, k: nat)
    requires t < |names| && Last(names, 0, |names|, Suffix(names[t]), Slot(alt, k)) != NONE
    ensures k < Frames(names, 0, |names|, Suffix(names[t]), alt)
  {
    var w := Last(names, 0, |names|, Suffix(names[t]), Slot(alt, k));
    assert InSlot(names, w, Suffix(names[t]), Slot(alt, k));
  }

  lemma RingSizeIs(names: seq<string>, anim: seq<Anim>, t: nat, alt: bool)
    requires t < |names| && Animating(names[t]) && Sequenced(names, |names|) == Ok(anim)
    requires Frames(names, 0, |names|, Suffix(names[t]), alt) > 0
    ensures RingSize(names, t, alt, Frames(names, 0, |names|, Suffix(names[t]), alt))
    ensures Complete(names, 0, Suffix(names[t]), alt)
  {
    hide Sequenced, SlotOf, Last, Frames, FrameOf;
    GroupComplete(names, t, alt);
    forall k: nat | k < 10
      ensures FrameOf(names, t, alt, k) <==> k < Frames(names, 0, |names|, Suffix(names[t]), alt)
    {
      FrameOfIs(names, t, alt, k);
      if FrameOf(names, t, alt, k) { InGroupRing(names, t, alt, k); }
    }
  }
}
