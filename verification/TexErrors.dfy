/**
 When animated textures run into an error.  A texture with a later one in its slot is never linked, so
 its turn comes again, and the later part of its group is linked once more, perhaps into a smaller
 ring.  The error cannot happen exactly if no ring shrinks by more than one frame.
 */
module TexErrors {
  import opened TexAnim

  // ----- Winners ------------------------------------------------------------------------------------

  /** The texture that counts in a slot: the last one in it. */
  ghost function Winner(names: seq<string>, suf: string, alt: bool, k: nat): int {
    Last(names, 0, |names|, suf, Slot(alt, k))
  }

  ghost function Size(names: seq<string>, suf: string, alt: bool): nat { Frames(names, 0, |names|, suf, alt) }

  /** A texture with a later one in its slot. */
  ghost predicate Shadowed(names: seq<string>, s: nat) {
    s < |names| && Animating(names[s]) && Last(names, 0, |names|, Suffix(names[s]), SlotOf(names[s])) != s
  }

  lemma LastFrom(names: seq<string>, i: nat, suf: string, slot: Slot)
    ensures var w := Last(names, 0, |names|, suf, slot);
      Last(names, i, |names|, suf, slot) == if w >= i then w else NONE
  {
    hide InSlot;
  }

  lemma FramesShrink(names: seq<string>, i: nat, j: nat, suf: string, alt: bool)
    requires i <= j
    ensures Frames(names, j, |names|, suf, alt) <= Frames(names, i, |names|, suf, alt)
  {
    var c := Frames(names, j, |names|, suf, alt);
    if c > 0 {
      var w := Last(names, j, |names|, suf, Slot(alt, c - 1));
      assert InSlot(names, w, suf, Slot(alt, c - 1));
    }
  }

  /** A slot has its winner from i on exactly if it is a slot of the ring linked from there. */
  lemma WinnersFrom(names: seq<string>, i: nat, suf: string, alt: bool, k: nat)
    requires Complete(names, i, suf, alt) && Winner(names, suf, alt, k) != NONE
    ensures var w := Winner(names, suf, alt, k);
      && InSlot(names, w, suf, Slot(alt, k)) && (w >= i <==> k < Frames(names, i, |names|, suf, alt))
      && (w >= i ==> Last(names, i, |names|, suf, Slot(alt, k)) == w)
  {
    LastFrom(names, i, suf, Slot(alt, k));
    var w := Winner(names, suf, alt, k);
    assert InSlot(names, w, suf, Slot(alt, k));
  }

  // ----- One slot -----------------------------------------------------------------------------------

  /** Slot k is linked into a ring of `c` frames; the slots below `low` form a ring of their own. */
  ghost predicate Slotted(names: seq<string>, anim: seq<Anim>, suf: string, alt: bool, low: nat, k: nat) {
    var t := Winner(names, suf, alt, k);
    && |anim| == |names| && 0 <= t < |anim|
    && var a, c := anim[t], anim[t].total / 2;
      && a.min == 2 * k && a.max == 2 * k + 2 && a.total == 2 * c && k < c <= Size(names, suf, alt)
      && a.next == Winner(names, suf, alt, After(k, c)) && (k < low ==> c == low)
      && AlternateOk(names, a, suf, alt)
  }

  ghost predicate AlternateOk(names: seq<string>, a: Anim, suf: string, alt: bool) {
    a.alternate == NONE || a.alternate == Winner(names, suf, !alt, 0)
  }

  /** A pass from i links the slots that have their winner from i on, and leaves the others. */
  lemma SlotAfterPass(names: seq<string>, anim: seq<Anim>, i: nat, suf: string, alt: bool, low: nat, k: nat)
    requires |anim| == |names| && i < |names| && Complete(names, i, suf, alt) && Complete(names, i, suf, !alt)
    requires k < Size(names, suf, alt) && Complete(names, 0, suf, alt)
    requires AlternateOk(names, anim[Winner(names, suf, alt, k)], suf, alt)
    requires var c := Frames(names, i, |names|, suf, alt); k >= c ==> Slotted(names, anim, suf, alt, low, k) && c <= low
    ensures var c := Frames(names, i, |names|, suf, alt);
      Slotted(names, LinkGroup(names, anim, i, suf), suf, alt, if c > 0 then c else low, k)
  {
    var c, t := Frames(names, i, |names|, suf, alt), Winner(names, suf, alt, k);
    WinnersFrom(names, i, suf, alt, k);
    FramesShrink(names, 0, i, suf, alt);
    if k < c { LinkedSlot(names, anim, i, suf, alt, k); } else { assert !Chosen(names, i, t, suf); }
  }

  lemma LinkedSlot(names: seq<string>, anim: seq<Anim>, i: nat, suf: string, alt: bool, k: nat)
    requires |anim| == |names| && Complete(names, i, suf, alt) && Complete(names, i, suf, !alt)
    requires k < Frames(names, i, |names|, suf, alt) <= Size(names, suf, alt) && Winner(names, suf, alt, k) >= i
    requires AlternateOk(names, anim[Winner(names, suf, alt, k)], suf, alt)
    ensures var c := Frames(names, i, |names|, suf, alt);
      Slotted(names, LinkGroup(names, anim, i, suf), suf, alt, c, k)
  {
    hide Last, Frames;
    var c, t := Frames(names, i, |names|, suf, alt), Winner(names, suf, alt, k);
    WinnerInSlot(names, suf, alt, k);
    LastFrom(names, i, suf, Slot(alt, k));
    LastFrom(names, i, suf, Slot(alt, After(k, c)));
    LastFrom(names, i, suf, Slot(!alt, 0));
    assert Last(names, i, |names|, suf, Slot(alt, After(k, c))) != NONE;
    if Frames(names, i, |names|, suf, !alt) > 0 {
      assert Last(names, i, |names|, suf, Slot(!alt, 0)) != NONE;
    }
  }

  lemma WinnerInSlot(names: seq<string>, suf: string, alt: bool, k: nat)
    requires Winner(names, suf, alt, k) != NONE
    ensures InSlot(names, Winner(names, suf, alt, k), suf, Slot(alt, k))
  {
  }

  // ----- One group ----------------------------------------------------------------------------------

  /** A pass happens at the first texture of a group and at every shadowed one. */
  ghost predicate PassAt(names: seq<string>, i: nat) {
    i < |names| && Animating(names[i]) && (!Begun(names, i, Suffix(names[i])) || Shadowed(names, i))
  }

  /** The size of the ring linked last, before the turn of texture i. */
  ghost function Low(names: seq<string>, i: nat, suf: string, alt: bool): nat {
    if i == 0 then Size(names, suf, alt)
    else if PassIn(names, i - 1, suf, alt) then Frames(names, i - 1, |names|, suf, alt) else Low(names, i - 1, suf, alt)
  }

  /** A pass at i that links frames of this ring. */
  ghost predicate PassIn(names: seq<string>, i: nat, suf: string, alt: bool) {
    PassAt(names, i) && Suffix(names[i]) == suf && Frames(names, i, |names|, suf, alt) > 0
  }

  lemma {:induction false} LowBounds(names: seq<string>, i: nat, suf: string, alt: bool, j: nat)
    requires i <= j
    ensures Low(names, i, suf, alt) <= Size(names, suf, alt)
    ensures Size(names, suf, alt) > 0 ==> Low(names, i, suf, alt) > 0
    ensures Frames(names, j, |names|, suf, alt) <= Low(names, i, suf, alt)
  {
    hide Frames, Last, PassAt;
    FramesShrink(names, 0, j, suf, alt);
    if i > 0 {
      LowBounds(names, i - 1, suf, alt, j);
      FramesShrink(names, i - 1, j, suf, alt);
      FramesShrink(names, 0, i - 1, suf, alt);
    }
  }

  ghost predicate RingInv(names: seq<string>, anim: seq<Anim>, suf: string, alt: bool, low: nat) {
    && Complete(names, 0, suf, alt)
    && forall k: nat :: k < Size(names, suf, alt) ==> Slotted(names, anim, suf, alt, low, k)
  }

  /** A group is untouched until its first texture has its turn, and then both its rings are linked. */
  ghost predicate GroupInv(names: seq<string>, anim: seq<Anim>, i: nat, suf: string) {
    && |anim| == |names|
    && (Begun(names, i, suf) ==>
        && NoneBad(names, 0, suf)
        && RingInv(names, anim, suf, false, Low(names, i, suf, false))
        && RingInv(names, anim, suf, true, Low(names, i, suf, true)))
    && (!Begun(names, i, suf) ==> forall t :: 0 <= t < |names| && InGroup(names, t, suf) ==> anim[t] == FRESH)
  }

  lemma RingAfterPass(names: seq<string>, anim: seq<Anim>, i: nat, suf: string, alt: bool)
    requires GroupInv(names, anim, i, suf) && i < |names| && suf == Suffix(names[i]) && PassAt(names, i)
    requires Complete(names, i, suf, false) && Complete(names, i, suf, true)
    ensures RingInv(names, LinkGroup(names, anim, i, suf), suf, alt, Low(names, i + 1, suf, alt))
  {
    hide Last, Frames, LinkGroup, Slotted, SlotOf, Animating, PassAt;
    var c := Frames(names, i, |names|, suf, alt);
    var low' := Low(names, i + 1, suf, alt);
    LowBounds(names, i, suf, alt, i);
    if !Begun(names, i, suf) {
      FramesFromFirst(names, i, |names|, suf, alt);
      CompleteFromFirst(names, i, suf, alt);
    }
    forall k: nat | k < Size(names, suf, alt)
      ensures Slotted(names, LinkGroup(names, anim, i, suf), suf, alt, low', k)
    {
      AlternateBefore(names, anim, i, suf, alt, k);
      SlotAfterPass(names, anim, i, suf, alt, Low(names, i, suf, alt), k);
    }
  }

  lemma AlternateBefore(names: seq<string>, anim: seq<Anim>, i: nat, suf: string, alt: bool, k: nat)
    requires GroupInv(names, anim, i, suf) && k < Size(names, suf, alt) && Complete(names, 0, suf, alt)
    ensures 0 <= Winner(names, suf, alt, k) < |names|
    ensures AlternateOk(names, anim[Winner(names, suf, alt, k)], suf, alt)
  {
    WinnerInSlot(names, suf, alt, k);
    if Begun(names, i, suf) { assert Slotted(names, anim, suf, alt, Low(names, i, suf, alt), k); }
  }

  /** The turn of texture i links its group exactly if a pass is due there. */
  lemma LinksIffPass(names: seq<string>, anim: seq<Anim>, i: nat)
    requires i < |names| && Animating(names[i]) && GroupInv(names, anim, i, Suffix(names[i]))
    requires Shadowed(names, i) ==> anim[i] == FRESH
    ensures anim[i].next == NONE <==> PassAt(names, i)
  {
    var suf := Suffix(names[i]);
    assert InGroup(names, i, suf);
    if Begun(names, i, suf) && !Shadowed(names, i) {
      var s := SlotOf(names[i]);
      assert s.Slot? && s.k < Size(names, suf, s.alt);
      WinnerIsLinked(names, anim, i, s.alt, s.k);
    }
  }

  lemma WinnerIsLinked(names: seq<string>, anim: seq<Anim>, i: nat, alt: bool, k: nat)
    requires i < |names| && GroupInv(names, anim, i, Suffix(names[i])) && Begun(names, i, Suffix(names[i]))
    requires Winner(names, Suffix(names[i]), alt, k) == i && k < Size(names, Suffix(names[i]), alt)
    ensures anim[i].next != NONE
  {
    hide Last, Frames, Low;
    var suf := Suffix(names[i]);
    assert Slotted(names, anim, suf, alt, Low(names, i, suf, alt), k);
    assert Winner(names, suf, alt, After(k, anim[i].total / 2)) != NONE;
  }

  lemma GroupAfterTurn(names: seq<string>, anim: seq<Anim>, i: nat, suf: string)
    requires i < |names| && GroupInv(names, anim, i, suf) && Pass(names, anim, i).Ok?
    requires Animating(names[i]) ==> GroupInv(names, anim, i, Suffix(names[i]))
    requires Shadowed(names, i) ==> anim[i] == FRESH
    ensures GroupInv(names, Pass(names, anim, i).anim, i + 1, suf)
  {
    hide Last, Frames, SlotOf, RingInv, Complete, NoneBad, LinkGroup;
    BegunNext(names, i, suf);
    if Animating(names[i]) { LinksIffPass(names, anim, i); }
    if !PassAt(names, i) {
      SameLow(names, i, suf);
    } else if Suffix(names[i]) == suf {
      PassesCheck(names, anim, i);
      RingAfterPass(names, anim, i, suf, false);
      RingAfterPass(names, anim, i, suf, true);
      NoneBadFromFirst(names, i, suf);
    } else {
      SameLow(names, i, suf);
      OtherGroup(names, anim, i, suf);
    }
  }

  lemma PassesCheck(names: seq<string>, anim: seq<Anim>, i: nat)
    requires |anim| == |names| && i < |names| && Animating(names[i]) && anim[i].next == NONE && Pass(names, anim, i).Ok?
    ensures var suf := Suffix(names[i]);
      && NoneBad(names, i, suf) && Complete(names, i, suf, false) && Complete(names, i, suf, true)
      && Pass(names, anim, i).anim == LinkGroup(names, anim, i, suf)
  {
    hide NoneBad, Complete, LinkGroup;
  }

  lemma SameLow(names: seq<string>, i: nat, suf: string)
    requires !PassAt(names, i) || Suffix(names[i]) != suf
    ensures Low(names, i + 1, suf, false) == Low(names, i, suf, false)
    ensures Low(names, i + 1, suf, true) == Low(names, i, suf, true)
  {
    hide PassAt;
  }

  lemma NoneBadFromFirst(names: seq<string>, i: nat, suf: string)
    requires NoneBad(names, i, suf) && (Begun(names, i, suf) ==> NoneBad(names, 0, suf))
    ensures NoneBad(names, 0, suf)
  {
    hide SlotOf;
  }

  /** Linking one group leaves the others alone. */
  lemma OtherGroup(names: seq<string>, anim: seq<Anim>, i: nat, suf: string)
    requires i < |names| && Suffix(names[i]) != suf && GroupInv(names, anim, i, suf)
    requires Begun(names, i + 1, suf) <==> Begun(names, i, suf)
    requires forall alt :: Low(names, i + 1, suf, alt) == Low(names, i, suf, alt)
    ensures GroupInv(names, LinkGroup(names, anim, i, Suffix(names[i])), i + 1, suf)
  {
    hide Last, Frames, SlotOf, Low, Suffix, Animating;
    var r := LinkGroup(names, anim, i, Suffix(names[i]));
    forall t | 0 <= t < |names| && InGroup(names, t, suf) ensures r[t] == anim[t] { }
    if Begun(names, i, suf) {
      forall alt: bool ensures RingInv(names, r, suf, alt, Low(names, i, suf, alt)) {
        assert RingInv(names, anim, suf, alt, Low(names, i, suf, alt));
        forall k: nat | k < Size(names, suf, alt) ensures Slotted(names, r, suf, alt, Low(names, i, suf, alt), k) {
          assert Slotted(names, anim, suf, alt, Low(names, i, suf, alt), k);
          WinnerInSlot(names, suf, alt, k);
        }
      }
    }
  }

  lemma {:induction false} GroupsHold(names: seq<string>, n: nat, suf: string)
    requires n <= |names| && Sequenced(names, n).Ok?
    ensures GroupInv(names, Sequenced(names, n).anim, n, suf)
  {
    hide Pass, Shadowed, RingInv, NoneBad;
    if n > 0 {
      var anim := Sequenced(names, n - 1).anim;
      GroupsHold(names, n - 1, suf);
      GroupsHold(names, n - 1, Suffix(names[n - 1]));
      if Shadowed(names, n - 1) { ShadowedIsFresh(names, n - 1, n - 1); }
      GroupAfterTurn(names, anim, n - 1, suf);
    }
  }

  lemma ShadowedIsFresh(names: seq<string>, n: nat, s: nat)
    requires n <= |names| && Sequenced(names, n).Ok? && Shadowed(names, s)
    ensures Sequenced(names, n).anim[s] == FRESH
  {
    hide Sequenced;
    var w := Last(names, 0, |names|, Suffix(names[s]), SlotOf(names[s]));
    assert InSlot(names, s, Suffix(names[s]), SlotOf(names[s]));
    ShadowedStays(names, n, s, w);
  }

  // ----- Following the rings ------------------------------------------------------------------------

  /** The frames of a ring before slot n. */
  ghost function Winners(names: seq<string>, suf: string, alt: bool, n: nat): seq<int> {
    seq(n, k requires k >= 0 => Winner(names, suf, alt, k))
  }

  lemma LowIsRing(names: seq<string>, anim: seq<Anim>, suf: string, alt: bool, low: nat)
    requires RingInv(names, anim, suf, alt, low) && 0 < low <= Size(names, suf, alt)
    ensures IsRing(anim, Winners(names, suf, alt, low))
  {
    hide Last, Frames, Winner;
    var ring := Winners(names, suf, alt, low);
    forall k | 0 <= k < low ensures FrameOfRing(anim, ring, k) {
      assert Slotted(names, anim, suf, alt, low, k);
    }
  }

  /** A frame that is not in the ring is never found. */
  lemma {:induction false} RingNeverFinds(anim: seq<Anim>, ring: seq<int>, k: nat, relative: nat, left: nat)
    requires IsRing(anim, ring) && LinksInside(anim) && k < |ring| && relative >= 2 * |ring|
    ensures FrameOfRing(anim, ring, k) && Walk(anim, ring[k], relative, left) == InfiniteCycle
    decreases left
  {
    assert FrameOfRing(anim, ring, k);
    if left > 0 {
      assert FrameOfRing(anim, ring, After(k, |ring|));
      RingNeverFinds(anim, ring, After(k, |ring|), relative, left - 1);
    } else {
      assert FrameOfRing(anim, ring, After(k, |ring|));
    }
  }

  /** From a frame of the ring linked last every moment finds its frame. */
  lemma LowFinds(names: seq<string>, anim: seq<Anim>, suf: string, alt: bool, low: nat, k: nat, relative: nat,
        left: nat)
    requires RingInv(names, anim, suf, alt, low) && k < low <= Size(names, suf, alt) && LinksInside(anim) && left >= 9
    requires relative < 2 * low
    ensures 0 <= Winner(names, suf, alt, k) < |anim| && Walk(anim, Winner(names, suf, alt, k), relative, left).Found?
  {
    hide RingInv, Last, Frames, Winner, IsRing;
    LowIsRing(names, anim, suf, alt, low);
    IsRingAt(anim, Winners(names, suf, alt, low), k);
    WalkArrives(anim, Winners(names, suf, alt, low), k, relative, left);
  }

  lemma IsRingAt(anim: seq<Anim>, ring: seq<int>, k: nat)
    requires IsRing(anim, ring) && k < |ring|
    ensures FrameOfRing(anim, ring, k) && |ring| <= MAX_FRAMES
  {
  }

  /** While no ring shrinks by more than one frame, every moment finds its frame from every slot. */
  lemma WinnerFinds(names: seq<string>, anim: seq<Anim>, suf: string, alt: bool, low: nat, k: nat,
        relative: nat, left: nat)
    requires RingInv(names, anim, suf, alt, low) && k < Size(names, suf, alt) <= low + 1 && LinksInside(anim)
    requires left >= 10
    requires 0 < low <= Size(names, suf, alt)
    requires Slotted(names, anim, suf, alt, low, k) && relative < anim[Winner(names, suf, alt, k)].total
    ensures Walk(anim, Winner(names, suf, alt, k), relative, left).Found?
  {
    hide Last, Frames, Winner, RingInv;
    if k < low {
      LowFinds(names, anim, suf, alt, low, k, relative, left);
    } else if relative / 2 != k {
      LowFinds(names, anim, suf, alt, low, 0, relative, left - 1);
    }
  }

  /** If a ring did shrink by more, the last frame runs into the error at the first lost moment. */
  lemma WinnerErrs(names: seq<string>, anim: seq<Anim>, suf: string, alt: bool, low: nat, left: nat)
    requires RingInv(names, anim, suf, alt, low) && 0 < low && low + 1 < Size(names, suf, alt) && LinksInside(anim)
    requires left > 0
    ensures var t := Winner(names, suf, alt, Size(names, suf, alt) - 1);
      0 <= t < |anim| && anim[t].total == 2 * Size(names, suf, alt) && Walk(anim, t, 2 * low, left) == InfiniteCycle
  {
    hide Last, Frames, Winner;
    var k := Size(names, suf, alt) - 1;
    assert Slotted(names, anim, suf, alt, low, k);
    LowIsRing(names, anim, suf, alt, low);
    RingNeverFinds(anim, Winners(names, suf, alt, low), 0, 2 * low, left - 1);
  }

  // ----- The exact condition ------------------------------------------------------------------------

  /** No texture runs into an error at any time. */
  ghost predicate NoErrors(anim: seq<Anim>) {
    && Playable(anim)
    && forall t: nat, time: nat, frame: bool :: t < |anim| ==> Shown(anim, t, time, frame, MAX_STEPS).Found?
  }

  ghost predicate Playable(anim: seq<Anim>) { LinksInside(anim) && forall t :: 0 <= t < |anim| ==> anim[t].total >= 0 }

  /** The ring linked from a shadowed texture on is empty or lacks at most the last frame. */
  ghost predicate KeepsRing(names: seq<string>, s: nat, alt: bool)
    requires s < |names|
  {
    var suf := Suffix(names[s]);
    Frames(names, s, |names|, suf, alt) == 0 || Frames(names, s, |names|, suf, alt) + 1 >= Size(names, suf, alt)
  }

  ghost predicate RingsKept(names: seq<string>) {
    forall s: nat, alt :: s < |names| && Shadowed(names, s) ==> KeepsRing(names, s, alt)
  }

  lemma {:induction false} LowKept(names: seq<string>, i: nat, suf: string, alt: bool)
    requires i <= |names| && RingsKept(names)
    ensures Low(names, i, suf, alt) + 1 >= Size(names, suf, alt)
  {
    hide Frames, Last, Shadowed, Begun;
    if i > 0 {
      LowKept(names, i - 1, suf, alt);
      if PassIn(names, i - 1, suf, alt) {
        if Shadowed(names, i - 1) {
          assert KeepsRing(names, i - 1, alt);
        } else {
          FramesFromFirst(names, i - 1, |names|, suf, alt);
        }
      }
    }
  }

  lemma LowLost(names: seq<string>, s: nat, alt: bool)
    requires s < |names| && Shadowed(names, s) && !KeepsRing(names, s, alt)
    ensures var suf := Suffix(names[s]);
      0 < Low(names, |names|, suf, alt) && Low(names, |names|, suf, alt) + 1 < Size(names, suf, alt)
  {
    hide Frames, Last, Begun;
    var suf := Suffix(names[s]);
    assert PassIn(names, s, suf, alt);
    LowBounds(names, |names|, suf, alt, |names|);
    LowFalls(names, s + 1, |names|, suf, alt);
  }

  lemma {:induction false} LowFalls(names: seq<string>, i: nat, j: nat, suf: string, alt: bool)
    requires i <= j <= |names|
    ensures Low(names, j, suf, alt) <= Low(names, i, suf, alt)
    decreases j
  {
    hide Frames, Last, PassAt;
    if i < j {
      LowFalls(names, i, j - 1, suf, alt);
      LowBounds(names, j - 1, suf, alt, j - 1);
    }
  }

  lemma FinalRing(names: seq<string>, anim: seq<Anim>, suf: string, alt: bool)
    requires Sequenced(names, |names|) == Ok(anim) && Begun(names, |names|, suf)
    ensures RingInv(names, anim, suf, alt, Low(names, |names|, suf, alt)) && NoneBad(names, 0, suf)
  {
    hide RingInv, NoneBad, Low;
    GroupsHold(names, |names|, suf);
  }

  lemma ShownFinds(names: seq<string>, anim: seq<Anim>, t: nat, time: nat, frame: bool)
    requires Sequenced(names, |names|) == Ok(anim) && RingsKept(names) && Playable(anim) && t < |names|
    ensures Shown(anim, t, time, frame, MAX_STEPS).Found?
  {
    hide Sequenced, Last, Frames, RingsKept, RingInv, Walk, LinksInside;
    if !Animating(names[t]) {
      OthersStand(names, |names|, t);
    } else if Shadowed(names, t) {
      ShadowedIsFresh(names, |names|, t);
    } else {
      var suf, b := Suffix(names[t]), Switched(anim, t, frame);
      var alt, k := WinnerShown(names, anim, t, frame);
      var low := Low(names, |names|, suf, alt);
      LowBounds(names, |names|, suf, alt, |names|);
      LowKept(names, |names|, suf, alt);
      FinalSlot(names, anim, t, alt, k);
      WinnerFinds(names, anim, suf, alt, low, k, time % anim[b].total, MAX_STEPS);
    }
  }

  lemma FinalSlot(names: seq<string>, anim: seq<Anim>, t: nat, alt: bool, k: nat)
    requires Sequenced(names, |names|) == Ok(anim) && t < |names| && Animating(names[t])
    requires k < Size(names, Suffix(names[t]), alt)
    ensures var suf := Suffix(names[t]);
      && RingInv(names, anim, suf, alt, Low(names, |names|, suf, alt))
      && Slotted(names, anim, suf, alt, Low(names, |names|, suf, alt), k)
  {
    hide Sequenced, Last, Frames, Low, Slotted;
    assert InGroup(names, t, Suffix(names[t]));
    FinalRing(names, anim, Suffix(names[t]), alt);
  }

  /** What is shown of a winner is followed from a slot of its own ring or the first of the other one. */
  lemma WinnerShown(names: seq<string>, anim: seq<Anim>, t: nat, frame: bool) returns (alt: bool, k: nat)
    requires Sequenced(names, |names|) == Ok(anim) && LinksInside(anim) && t < |names| && Animating(names[t])
    requires !Shadowed(names, t)
    ensures k < Size(names, Suffix(names[t]), alt)
    ensures Switched(anim, t, frame) == Winner(names, Suffix(names[t]), alt, k)
  {
    hide Sequenced, LinksInside;
    var suf, s := Suffix(names[t]), SlotOf(names[t]);
    assert InGroup(names, t, suf);
    FinalRing(names, anim, suf, false);
    assert s.Slot? && s.k < Size(names, suf, s.alt);
    FinalSlot(names, anim, t, s.alt, s.k);
    alt, k := s.alt, s.k;
    if frame && anim[t].alternate != NONE {
      alt, k := !s.alt, 0;
      WinnerInSlot(names, suf, alt, 0);
    }
  }

  /**
   An accepted texture set runs into no error, for any texture at any time, exactly if from no
   shadowed texture on a ring is linked that lacks more than its last frame.
   */
  lemma NoErrorsIff(names: seq<string>, anim: seq<Anim>)
    requires Sequenced(names, |names|) == Ok(anim)
    ensures NoErrors(anim) <==> RingsKept(names)
  {
    hide Sequenced, Shown, KeepsRing, Shadowed, LinksInside;
    LinksStayInside(names, |names|);
    if RingsKept(names) {
      forall t: nat, time: nat, frame: bool | t < |anim| ensures Shown(anim, t, time, frame, MAX_STEPS).Found? {
        ShownFinds(names, anim, t, time, frame);
      }
    } else {
      var s: nat, alt :| s < |names| && Shadowed(names, s) && !KeepsRing(names, s, alt);
      var t, time := ErrsAt(names, anim, s, alt);
      assert !Shown(anim, t, time, false, MAX_STEPS).Found?;
    }
  }

  lemma ErrsAt(names: seq<string>, anim: seq<Anim>, s: nat, alt: bool) returns (t: nat, time: nat)
    requires Sequenced(names, |names|) == Ok(anim) && Playable(anim)
    requires s < |names| && Shadowed(names, s) && !KeepsRing(names, s, alt)
    ensures t < |anim| && Shown(anim, t, time, false, MAX_STEPS) == InfiniteCycle
  {
    hide Sequenced, KeepsRing, RingInv, Last, Frames, Walk, LinksInside, NoneBad, Size, Low, Winner, Shown;
    var suf := Suffix(names[s]);
    var n, low := Size(names, suf, alt), Low(names, |names|, suf, alt);
    assert InGroup(names, s, suf);
    LowLost(names, s, alt);
    FinalRing(names, anim, suf, alt);
    WinnerErrs(names, anim, suf, alt, low, MAX_STEPS);
    t, time := Winner(names, suf, alt, n - 1), 2 * low;
    ShownWithin(anim, t, time, MAX_STEPS);
  }

  /** In the first turn of its ring a texture is followed to the time itself. */
  lemma ShownWithin(anim: seq<Anim>, t: nat, time: nat, left: nat)
    requires Playable(anim) && t < |anim| && time < anim[t].total
    ensures Shown(anim, t, time, false, left) == Walk(anim, t, time, left)
  {
    hide Walk, LinksInside;
    SmallRemainder(time, anim[t].total);
  }

  lemma SmallRemainder(x: nat, m: nat)
    requires x < m
    ensures x % m == x
  {
  }

  // ----- The frame shown ----------------------------------------------------------------------------

  /** At this time the texture shows frame relative / 2 of its own or the alternate ring. */
  ghost predicate RightFrame(names: seq<string>, anim: seq<Anim>, t: nat, time: nat, frame: bool)
    requires t < |names| == |anim|
  {
    && Playable(anim) && SlotOf(names[t]).Slot?
    && var ring := RingShown(names, t, frame);
      |ring| > 0 && Shown(anim, t, time, frame, MAX_STEPS) == Found(ring[time % (2 * |ring|) / 2])
  }

  ghost predicate AllRight(names: seq<string>, anim: seq<Anim>)
    requires |names| == |anim|
  {
    forall t: nat, time: nat, frame: bool :: t < |names| && Animating(names[t]) ==>
      RightFrame(names, anim, t, time, frame)
  }

  /** Every animating texture of an accepted set shows the right frame at every time exactly if no two share a slot. */
  lemma AllRightIff(names: seq<string>, anim: seq<Anim>)
    requires Sequenced(names, |names|) == Ok(anim)
    ensures AllRight(names, anim) <==> SlotsDistinct(names)
  {
    hide Sequenced, RightFrame, RingShown;
    if SlotsDistinct(names) {
      forall t: nat, time: nat, frame: bool | t < |names| && Animating(names[t])
        ensures RightFrame(names, anim, t, time, frame)
      {
        DistinctShowsRight(names, anim, t, time, frame);
      }
    } else {
      var i: nat, j: nat :| i < j < |names| && Animating(names[i]) && Animating(names[j])
        && Suffix(names[i]) == Suffix(names[j]) && SlotOf(names[i]) == SlotOf(names[j]);
      var time := SharedShowsWrong(names, anim, i, j);
      assert !RightFrame(names, anim, i, time, false);
    }
  }

  lemma DistinctShowsRight(names: seq<string>, anim: seq<Anim>, t: nat, time: nat, frame: bool)
    requires Sequenced(names, |names|) == Ok(anim) && SlotsDistinct(names) && t < |names| && Animating(names[t])
    ensures RightFrame(names, anim, t, time, frame)
  {
    hide Sequenced, SlotsDistinct, Shown, RingShown, LinksInside, SlotOf;
    AnimationFindsFrame(names, anim, t, time, frame, MAX_STEPS);
  }

  /** The earlier of two textures in a slot shows itself when the later one is due. */
  lemma SharedShowsWrong(names: seq<string>, anim: seq<Anim>, i: nat, j: nat) returns (time: nat)
    requires Sequenced(names, |names|) == Ok(anim) && i < j < |names| && Animating(names[i]) && Animating(names[j])
    requires Suffix(names[i]) == Suffix(names[j]) && SlotOf(names[i]) == SlotOf(names[j])
    ensures !RightFrame(names, anim, i, time, false)
  {
    hide Sequenced, Walk, LinksInside, Frames;
    ShadowedStays(names, |names|, i, j);
    var s := SlotOf(names[i]);
    time := 0;
    if s.Slot? {
      var ring := RingShown(names, i, false);
      assert InSlot(names, j, Suffix(names[i]), s) && InGroup(names, i, Suffix(names[i]));
      assert s.k < |ring| && ring[s.k] >= j;
      time := 2 * s.k;
      SmallRemainder(time, 2 * |ring|);
    }
  }
}
