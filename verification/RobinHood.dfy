/** The Robin Hood arrangement of a slot run.  The tag of a slot is the distance of its item
    from the item's home slot, -1 when the slot is empty; the run ends with a sentinel of
    distance 0 that never holds an item. */
module RobinHood {
  import opened Slots
  import opened HashPolicy

  const SENTINEL_TAG := 0
  const EMPTY_TAG := -1

  datatype Shape<!K> = Shape(policy: Policy, hash: K -> nat, slots: nat, maxLookups: nat) {
    ghost predicate Valid() {
      slots >= 1 && maxLookups >= 3 && policy.Valid() && policy.admits(slots)
    }

    function Home(k: K): nat
      requires slots >= 1
    {
      policy.indexForHash(hash(k), slots)
    }
  }

  ghost predicate Placed<K, V>(sh: Shape<K>, e: Slot<K, V>, p: nat)
    requires sh.slots >= 1
  {
    if e.item.Some? then 0 <= e.tag < sh.maxLookups && sh.Home(e.item.value.key) + e.tag == p
    else e.tag == EMPTY_TAG
  }

  /** Walking right, the distance grows by at most one. */
  ghost predicate Rises<K, V>(s: seq<Slot<K, V>>, p: nat)
    requires p + 1 < |s|
  {
    s[p + 1].tag <= s[p].tag + 1
  }

  ghost predicate Framed<K, V>(sh: Shape<K>, s: seq<Slot<K, V>>) {
    && sh.Valid()
    && |s| == sh.slots + sh.maxLookups
    && s[|s| - 1] == Slot(SENTINEL_TAG, None)
    && (forall p :: 0 <= p < |s| - 1 ==> Placed(sh, s[p], p))
    && (sh.slots == 1 ==> forall p :: 0 <= p < |s| - 1 ==> s[p].item == None)
  }

  /** The invariant every reachable table satisfies. */
  ghost predicate Settled<K, V>(sh: Shape<K>, s: seq<Slot<K, V>>) {
    Framed(sh, s) && forall p :: 0 <= p < |s| - 1 ==> Rises(s, p)
  }

  /** Between the home of an item and the item itself, no distance is small enough to stop a
      search that started at the home. */
  lemma {:induction false} SearchPassesOver<K, V>(sh: Shape<K>, s: seq<Slot<K, V>>, p: nat, q: nat)
    requires Settled(sh, s) && q < |s| - 1 && s[q].item.Some?
    requires sh.Home(s[q].item.value.key) <= p <= q
    ensures s[p].tag >= p - sh.Home(s[q].item.value.key)
    decreases q - p
  {
    assert Placed(sh, s[q], q);
    if p < q {
      SearchPassesOver(sh, s, p + 1, q);
      assert Rises(s, p);
    }
  }

  /** Writing an item over a slot of smaller distance keeps the arrangement, provided its left
      neighbour is at most one step closer to home. */
  lemma PlaceKeepsSettled<K, V>(sh: Shape<K>, s: seq<Slot<K, V>>, p: nat, d: nat, x: Item<K, V>)
    requires Settled(sh, s) && p < |s| - 1 && sh.slots >= 2
    requires sh.Home(x.key) + d == p && d < sh.maxLookups
    requires s[p].tag < d
    requires d > 0 ==> s[p - 1].tag >= d - 1
    ensures Settled(sh, s[p := Slot(d, Some(x))])
  {
    hide Policy.Valid;
    var t := s[p := Slot(d, Some(x))];
    forall q | 0 <= q < |t| - 1
      ensures Placed(sh, t[q], q) && Rises(t, q)
    {
      assert Placed(sh, s[q], q) && Rises(s, q);
    }
  }

  /** As `Settled`, except that the slots from `lo` up to `hi` are a gap: they are empty, and
      the item right of the gap may be too far from home by the width of the gap. */
  ghost predicate Gapped<K, V>(sh: Shape<K>, s: seq<Slot<K, V>>, lo: nat, hi: nat) {
    && Framed(sh, s)
    && lo < hi < |s|
    && (forall p :: lo <= p < hi ==> s[p].item == None)
    && (forall p :: 0 <= p < |s| - 1 && p != hi - 1 ==> Rises(s, p))
    && (lo > 0 ==> s[hi].tag <= s[lo - 1].tag + 1 + (hi - lo))
  }

  /** The run after destroying the items of the slots from lo up to hi. */
  ghost function Emptied<K, V>(s: seq<Slot<K, V>>, lo: nat, hi: nat): (t: seq<Slot<K, V>>)
    ensures |t| == |s|
  {
    seq(|s|, p requires 0 <= p < |s| => if lo <= p < hi && s[p].item.Some? then Slot(EMPTY_TAG, None) else s[p])
  }

  lemma EmptiedStays<K, V>(sh: Shape<K>, s: seq<Slot<K, V>>, lo: nat, hi: nat, p: nat)
    requires Settled(sh, s) && lo < hi < |s| && p < |s| - 1
    ensures Placed(sh, Emptied(s, lo, hi)[p], p)
    ensures p != hi - 1 ==> Rises(Emptied(s, lo, hi), p)
  {
    hide Policy.Valid;
    assert Placed(sh, s[p], p) && Rises(s, p) && (p + 1 < |s| - 1 ==> Placed(sh, s[p + 1], p + 1));
  }

  lemma {:induction false} RisesBy<K, V>(sh: Shape<K>, s: seq<Slot<K, V>>, p: nat, q: nat)
    requires Settled(sh, s) && p <= q < |s|
    ensures s[q].tag <= s[p].tag + (q - p)
    decreases q
  {
    if p < q {
      RisesBy(sh, s, p, q - 1);
      assert Rises(s, q - 1);
    }
  }

  /** Emptying a range of slots leaves a gap there. */
  lemma EmptiedRangeIsGap<K, V>(sh: Shape<K>, s: seq<Slot<K, V>>, lo: nat, hi: nat)
    requires Settled(sh, s) && lo < hi < |s|
    ensures Gapped(sh, Emptied(s, lo, hi), lo, hi)
  {
    hide Policy.Valid, Placed, Rises;
    var t := Emptied(s, lo, hi);
    forall p | 0 <= p < |s| - 1
      ensures Placed(sh, t[p], p)
      ensures p != hi - 1 ==> Rises(t, p)
    {
      EmptiedStays(sh, s, lo, hi, p);
    }
    if lo > 0 { RisesBy(sh, s, lo - 1, hi); }
  }

  /** A gap may be narrowed from the left as long as the item to its right can still move to the
      gap's start without passing its home. */
  lemma NarrowGap<K, V>(sh: Shape<K>, s: seq<Slot<K, V>>, lo: nat, hi: nat, lo': nat)
    requires Gapped(sh, s, lo, hi) && lo <= lo' < hi
    requires lo < lo' ==> s[hi].tag <= hi - lo'
    ensures Gapped(sh, s, lo', hi)
  {
    hide Policy.Valid;
    if lo < lo' {
      assert Placed(sh, s[lo' - 1], lo' - 1);
    }
  }

  lemma ShiftKeepsFrame<K, V>(sh: Shape<K>, s: seq<Slot<K, V>>, lo: nat, hi: nat, t: seq<Slot<K, V>>)
    requires Framed(sh, s) && lo < hi < |s| && s[hi].tag >= hi - lo && s[hi].item.Some?
    requires t == s[lo := Slot(s[hi].tag - (hi - lo), s[hi].item)][hi := Slot(EMPTY_TAG, None)]
    ensures Framed(sh, t) && hi < |s| - 1
  {
    hide Policy.Valid;
    assert Placed(sh, s[hi], hi);
  }

  /** Moving the item right of a gap to the gap's start moves the gap one slot to the right. */
  lemma ShiftGap<K, V>(sh: Shape<K>, s: seq<Slot<K, V>>, lo: nat, hi: nat, t: seq<Slot<K, V>>)
    requires Gapped(sh, s, lo, hi) && s[hi].tag >= hi - lo && s[hi].item.Some?
    requires t == s[lo := Slot(s[hi].tag - (hi - lo), s[hi].item)][hi := Slot(EMPTY_TAG, None)]
    ensures Gapped(sh, t, lo + 1, hi + 1)
  {
    hide Policy.Valid;
    ShiftKeepsFrame(sh, s, lo, hi, t);
    forall q | 0 <= q < |t| - 1 && q != hi
      ensures Rises(t, q)
    {
      if q != hi - 1 { assert Rises(s, q); }
    }
    assert Rises(s, hi);
  }

  /** A gap whose right neighbour is at home, empty or the sentinel is no gap at all. */
  lemma GapCloses<K, V>(sh: Shape<K>, s: seq<Slot<K, V>>, lo: nat, hi: nat)
    requires Gapped(sh, s, lo, hi) && s[hi].tag <= 0
    ensures Settled(sh, s)
  {
    hide Policy.Valid;
    assert Placed(sh, s[hi - 1], hi - 1);
  }
}
