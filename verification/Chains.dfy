/** Collision chains threaded through a slot run.  The tag of a slot is its control byte: the
    high bit is clear on the first slot of a chain (a direct hit) and set on the others, the low
    seven bits index the table of jump distances to the next slot, zero at the end of the chain.
    `up` and `rank` give each chain slot its predecessor and its depth. */
module Chains {
  import opened Slots
  import opened HashPolicy

  const EMPTY := 0xff
  const RESERVED := 0xfe
  const DIRECT_HIT := 0x00
  const LIST_ENTRY := 0x80
  const NUM_JUMPS: nat := 126

  datatype Shape<!K> = Shape(policy: Policy, hash: K -> nat, slots: nat, jumps: seq<nat>) {
    ghost predicate Valid() {
      slots >= 1 && |jumps| == NUM_JUMPS && policy.Valid() && policy.admits(slots)
    }

    function Home(k: K): nat {
      policy.indexForHash(hash(k), slots)
    }

    function Hop(p: nat, jump: nat): nat
      requires jump < |jumps|
    {
      policy.keepInRange(p + jumps[jump], slots)
    }
  }

  predicate IsDirect(tag: int) { tag < 0x80 }

  function Jump(tag: int): (j: nat) { tag % 0x80 }

  ghost predicate IsControl(tag: int) { 0 <= tag < 256 && Jump(tag) < NUM_JUMPS }

  /** The control byte with its jump index replaced. */
  function SetNext(tag: int, jump: nat): (r: int)
    requires jump < NUM_JUMPS
    ensures IsDirect(r) == IsDirect(tag) && Jump(r) == jump && IsControl(r)
  {
    (if tag < 0x80 then 0 else 0x80) + jump
  }

  ghost predicate Framed<K, V>(sh: Shape<K>, s: seq<Slot<K, V>>, up: seq<int>, rank: seq<nat>) {
    && sh.Valid()
    && sh.slots <= |s| && 2 <= |s| && |up| == |s| == |rank|
    && (sh.slots == 1 ==> forall p :: 0 <= p < |s| ==> s[p].item == None)
  }

  /** An item sits at p and its key has the given home. */
  ghost predicate Full<K, V>(sh: Shape<K>, s: seq<Slot<K, V>>, p: int, home: nat) {
    0 <= p < |s| && s[p].item.Some? && sh.Home(s[p].item.value.key) == home
  }

  /** The slot p is a list entry behind its predecessor u, one deeper in the same chain. */
  ghost predicate Follows<K, V>(sh: Shape<K>, s: seq<Slot<K, V>>, rank: seq<nat>, u: int, p: nat)
    requires p < |s| == |rank| && s[p].item.Some?
  {
    Full(sh, s, u, sh.Home(s[p].item.value.key)) && rank[p] == rank[u] + 1
  }

  ghost predicate LinksTo<K, V>(sh: Shape<K>, s: seq<Slot<K, V>>, u: int, p: nat)
    requires 0 <= u < |s| && |sh.jumps| == NUM_JUMPS
  {
    IsControl(s[u].tag) && Jump(s[u].tag) != 0 && sh.Hop(u, Jump(s[u].tag)) == p
  }

  /** Slot p is in order, in a run where `kept` is reserved, and where the part of a chain that
      starts at `hole` is cut off from its predecessor `tail`.  A negative number means none. */
  ghost predicate Fits<K, V>(sh: Shape<K>, s: seq<Slot<K, V>>, up: seq<int>, rank: seq<nat>,
                             kept: int, tail: int, hole: int, p: nat)
    requires Framed(sh, s, up, rank) && p < |s|
  {
    if p == kept then s[p] == Slot(RESERVED, None)
    else if s[p].item.None? then s[p].tag == EMPTY
    else
      && p < sh.slots && IsControl(s[p].tag)
      && (if IsDirect(s[p].tag) then rank[p] == 0 && sh.Home(s[p].item.value.key) == p && p != hole
          else Follows(sh, s, rank, up[p], p)
               && (if p == hole then up[p] == tail else LinksTo(sh, s, up[p], p)))
      && (Jump(s[p].tag) != 0 ==>
            if p == tail then sh.Hop(p, Jump(s[p].tag)) == hole
            else var q := sh.Hop(p, Jump(s[p].tag));
                 q < |s| && s[q].item.Some? && !IsDirect(s[q].tag) && up[q] == p)
  }

  ghost predicate Severed<K, V>(sh: Shape<K>, s: seq<Slot<K, V>>, up: seq<int>, rank: seq<nat>,
                                kept: int, tail: int, hole: int) {
    && Framed(sh, s, up, rank)
    && (hole >= 0 ==> hole < |s| && s[hole].item.Some? && !IsDirect(s[hole].tag))
    && (tail >= 0 ==> tail < |s| && s[tail].item.Some?)
    && (hole < 0 <==> tail < 0)
    && forall p :: 0 <= p < |s| ==> Fits(sh, s, up, rank, kept, tail, hole, p)
  }

  /** Every item is in an unbroken chain that starts at its home slot. */
  ghost predicate Linked<K, V>(sh: Shape<K>, s: seq<Slot<K, V>>, up: seq<int>, rank: seq<nat>) {
    Severed(sh, s, up, rank, -1, -1, -1)
  }

  /** A chain has one slot at each depth. */
  lemma {:induction false} OneSlotPerRank<K, V>(sh: Shape<K>, s: seq<Slot<K, V>>, up: seq<int>, rank: seq<nat>,
                                                home: nat, p: nat, q: nat)
    requires Linked(sh, s, up, rank) && Full(sh, s, p, home) && Full(sh, s, q, home)
    requires rank[p] == rank[q]
    ensures p == q
    decreases rank[p]
  {
    assert Fits(sh, s, up, rank, -1, -1, -1, p) && Fits(sh, s, up, rank, -1, -1, -1, q);
    if !IsDirect(s[p].tag) && !IsDirect(s[q].tag) {
      OneSlotPerRank(sh, s, up, rank, home, up[p], up[q]);
    }
  }

  /** Nothing is deeper than the slot that ends its chain. */
  lemma {:induction false} EndIsDeepest<K, V>(sh: Shape<K>, s: seq<Slot<K, V>>, up: seq<int>, rank: seq<nat>,
                                              home: nat, p: nat, q: nat)
    requires Linked(sh, s, up, rank) && Full(sh, s, p, home) && Full(sh, s, q, home)
    requires Jump(s[p].tag) == 0
    ensures rank[q] <= rank[p]
    decreases rank[q]
  {
    if rank[q] > rank[p] {
      assert Fits(sh, s, up, rank, -1, -1, -1, q);
      if rank[q] == rank[p] + 1 {
        OneSlotPerRank(sh, s, up, rank, home, p, up[q]);
      } else {
        EndIsDeepest(sh, s, up, rank, home, p, up[q]);
      }
    }
  }

  /** The chain of an item starts with a direct hit at the item's home. */
  lemma {:induction false} ChainHasRoot<K, V>(sh: Shape<K>, s: seq<Slot<K, V>>, up: seq<int>, rank: seq<nat>,
                                              home: nat, q: nat)
    requires Linked(sh, s, up, rank) && Full(sh, s, q, home)
    ensures Full(sh, s, home, home) && IsDirect(s[home].tag) && rank[home] == 0
    decreases rank[q]
  {
    assert Fits(sh, s, up, rank, -1, -1, -1, q);
    if !IsDirect(s[q].tag) {
      ChainHasRoot(sh, s, up, rank, home, up[q]);
    }
  }

  /** Following a link stays in the chain and goes one deeper. */
  lemma NextInChain<K, V>(sh: Shape<K>, s: seq<Slot<K, V>>, up: seq<int>, rank: seq<nat>, home: nat, p: nat)
    requires Linked(sh, s, up, rank) && Full(sh, s, p, home) && Jump(s[p].tag) != 0
    ensures Jump(s[p].tag) < NUM_JUMPS
    ensures var q := sh.Hop(p, Jump(s[p].tag));
            Full(sh, s, q, home) && !IsDirect(s[q].tag) && up[q] == p && rank[q] == rank[p] + 1
  {
    assert Fits(sh, s, up, rank, -1, -1, -1, p);
    assert Fits(sh, s, up, rank, -1, -1, -1, sh.Hop(p, Jump(s[p].tag)));
  }

  /** Constructing a new item in a free slot behind the end of a chain. */
  lemma AppendKeepsLinked<K, V>(sh: Shape<K>, s: seq<Slot<K, V>>, up: seq<int>, rank: seq<nat>,
                                p: nat, j: nat, f: nat, x: Item<K, V>)
    requires Linked(sh, s, up, rank) && Full(sh, s, p, sh.Home(x.key)) && Jump(s[p].tag) == 0
    requires 0 < j < NUM_JUMPS && f == sh.Hop(p, j) < |s| && s[f].tag == EMPTY && s[f].item == None
    ensures Linked(sh, s[f := Slot(LIST_ENTRY, Some(x))][p := s[p].(tag := SetNext(s[p].tag, j))],
                   up[f := p], rank[f := rank[p] + 1])
  {
    var t := s[f := Slot(LIST_ENTRY, Some(x))][p := s[p].(tag := SetNext(s[p].tag, j))];
    var up', rank' := up[f := p], rank[f := rank[p] + 1];
    forall q | 0 <= q < |t| ensures Fits(sh, t, up', rank', -1, -1, -1, q) {
      assert Fits(sh, s, up, rank, -1, -1, -1, q) && Fits(sh, s, up, rank, -1, -1, -1, p);
    }
  }

  /** Constructing an item in its vacant home slot. */
  lemma RootKeepsLinked<K, V>(sh: Shape<K>, s: seq<Slot<K, V>>, up: seq<int>, rank: seq<nat>,
                              kept: int, h: nat, x: Item<K, V>)
    requires Severed(sh, s, up, rank, kept, -1, -1) && (kept == -1 || kept == h)
    requires sh.slots >= 2 && sh.Home(x.key) == h < |s| && s[h].item == None
    ensures Linked(sh, s[h := Slot(DIRECT_HIT, Some(x))], up, rank[h := 0])
  {
    assert h < sh.slots;
    hide Policy.Valid;
    var t, rank' := s[h := Slot(DIRECT_HIT, Some(x))], rank[h := 0];
    forall q | 0 <= q < |t| ensures Fits(sh, t, up, rank', -1, -1, -1, q) {
      assert Fits(sh, s, up, rank, kept, -1, -1, q);
    }
  }

  /** Exchanging an item for another one of the same chain. */
  lemma SameHomeKeepsLinked<K, V>(sh: Shape<K>, s: seq<Slot<K, V>>, up: seq<int>, rank: seq<nat>, p: nat, x: Item<K, V>)
    requires Linked(sh, s, up, rank) && Full(sh, s, p, sh.Home(x.key))
    ensures Linked(sh, s[p := s[p].(item := Some(x))], up, rank)
  {
    var t := s[p := s[p].(item := Some(x))];
    forall q | 0 <= q < |t| ensures Fits(sh, t, up, rank, -1, -1, -1, q) {
      assert Fits(sh, s, up, rank, -1, -1, -1, q);
    }
  }

  /** The run without the slot p that ends a chain of more than one slot, whose predecessor is u. */
  ghost function Unlink<K, V>(s: seq<Slot<K, V>>, u: nat, p: nat): (t: seq<Slot<K, V>>)
    requires u < |s| && p < |s|
  {
    s[p := Slot(EMPTY, None)][u := s[u].(tag := SetNext(s[u].tag, 0))]
  }

  lemma UnlinkKeepsLinked<K, V>(sh: Shape<K>, s: seq<Slot<K, V>>, up: seq<int>, rank: seq<nat>, p: nat)
    requires Linked(sh, s, up, rank) && p < |s| && s[p].item.Some? && Jump(s[p].tag) == 0 && !IsDirect(s[p].tag)
    ensures 0 <= up[p] < |s| && up[p] != p && s[up[p]].item.Some? && Linked(sh, Unlink(s, up[p], p), up, rank)
  {
    assert Fits(sh, s, up, rank, -1, -1, -1, p);
    var t := Unlink(s, up[p], p);
    forall q | 0 <= q < |t| ensures Fits(sh, t, up, rank, -1, -1, -1, q) {
      assert Fits(sh, s, up, rank, -1, -1, -1, q) && Fits(sh, s, up, rank, -1, -1, -1, up[p]);
    }
  }

  lemma LoneRootKeepsLinked<K, V>(sh: Shape<K>, s: seq<Slot<K, V>>, up: seq<int>, rank: seq<nat>, p: nat)
    requires Linked(sh, s, up, rank) && p < |s| && s[p].item.Some? && Jump(s[p].tag) == 0 && IsDirect(s[p].tag)
    ensures Linked(sh, s[p := Slot(EMPTY, None)], up, rank)
  {
    var t := s[p := Slot(EMPTY, None)];
    forall q | 0 <= q < |t| ensures Fits(sh, t, up, rank, -1, -1, -1, q) {
      assert Fits(sh, s, up, rank, -1, -1, -1, q) && Fits(sh, s, up, rank, -1, -1, -1, p);
    }
  }

  /** The slot a chain slot links to, or -1. */
  ghost function AfterSlot<K, V>(sh: Shape<K>, s: seq<Slot<K, V>>, p: nat): (q: int)
    requires p < |s| && |sh.jumps| == NUM_JUMPS
  {
    if 0 < Jump(s[p].tag) < NUM_JUMPS then sh.Hop(p, Jump(s[p].tag)) else -1
  }

  /** One step of moving the rest of a chain out of the way of slot b: the item of `hole` goes to
      the free slot f behind `tail`, leaving the slot behind `hole`, if any, cut off. */
  datatype Move<!K, V> = Move(sh: Shape<K>, s: seq<Slot<K, V>>, up: seq<int>, rank: seq<nat>,
                              b: nat, tail: nat, hole: nat, f: nat, j: nat) {
    ghost predicate Valid() {
      && b < |s| && Severed(sh, s, up, rank, Kept(), tail, hole)
      && 0 < j < NUM_JUMPS && f == sh.Hop(tail, j) < |s| && s[f] == Slot(EMPTY, None)
    }

    ghost function Kept(): int { if hole == b then -1 else b }

    ghost function Next(): int
      requires hole < |s| && |sh.jumps| == NUM_JUMPS
    {
      AfterSlot(sh, s, hole)
    }

    ghost function Slots'(): (t: seq<Slot<K, V>>)
      requires b < |s| && tail < |s| && hole < |s| && f < |s| && |sh.jumps| == NUM_JUMPS && j < NUM_JUMPS
      ensures |t| == |s|
    {
      var linked := s[f := Slot(LIST_ENTRY, s[hole].item)][tail := s[tail].(tag := SetNext(s[tail].tag, j))];
      var t := linked[hole := Slot(EMPTY, None)];
      if Next() >= 0 then t[b := Slot(RESERVED, None)] else t
    }

    ghost function Up'(): (r: seq<int>)
      requires f < |up| == |s| && hole < |s| && |sh.jumps| == NUM_JUMPS
      ensures |r| == |up|
    {
      if 0 <= Next() < |up| then up[f := tail][Next() := f] else up[f := tail]
    }

    ghost function Rank'(): (r: seq<nat>)
      requires f < |rank| && hole < |rank|
    {
      rank[f := rank[hole]]
    }

    ghost predicate Fits'(p: nat)
      requires Valid() && p < |s|
    {
      Framed(sh, Slots'(), Up'(), Rank'()) &&
      Fits(sh, Slots'(), Up'(), Rank'(), if hole == b && Next() < 0 then -1 else b, if Next() >= 0 then f else -1,
           Next(), p)
    }

    lemma Around()
      requires Valid()
      ensures |sh.jumps| == NUM_JUMPS && |up| == |rank| == |s| && hole < |s| && tail < |s| && s[hole].item.Some?
      ensures s[tail].item.Some?
      ensures hole != tail && f != tail && f != hole && rank[hole] == rank[tail] + 1
      ensures f != b && tail != b && (hole != b ==> s[b] == Slot(RESERVED, None))
      ensures Next() >= 0 ==>
                && Next() < |s| && s[Next()].item.Some? && !IsDirect(s[Next()].tag)
                && up[Next()] == hole && rank[Next()] == rank[hole] + 1 && Next() !in {tail, hole, f, b}
    {
      assert Fits(sh, s, up, rank, Kept(), tail, hole, hole) && Fits(sh, s, up, rank, Kept(), tail, hole, b);
      if Next() >= 0 {
        assert Fits(sh, s, up, rank, Kept(), tail, hole, Next());
      }
    }

    lemma FrameKept()
      requires Valid()
      ensures Framed(sh, Slots'(), Up'(), Rank'())
    {
      hide Fits;
      Around();
    }

    lemma HoleFits()
      requires Valid()
      ensures Fits'(hole) && Fits'(f)
    {
      Around();
      assert Fits(sh, s, up, rank, Kept(), tail, hole, hole);
    }

    lemma FitsAt(p: nat)
      requires Valid() && p < |s|
      ensures Framed(sh, s, up, rank) && Fits(sh, s, up, rank, Kept(), tail, hole, p)
    {
    }

    lemma TailFits()
      requires Valid()
      ensures Fits'(tail)
    {
      hide Severed, Policy.Valid;
      Around();
      FrameKept();
      FitsAt(tail);
    }

    lemma NextFits()
      requires Valid() && Next() >= 0
      ensures Next() < |s| && Fits'(Next())
    {
      hide Severed, Policy.Valid, SetNext;
      Around();
      FrameKept();
      FitsAt(Next());
      FitsAt(hole);
    }

    /** The predecessor and the successor of any other slot are not the slots that change hands. */
    lemma Neighbours(p: nat)
      requires Valid() && p < |s| && p !in {hole, tail, f, Next()} && s[p].item.Some?
      ensures !IsDirect(s[p].tag) ==> up[p] !in {hole, tail, f, b}
      ensures 0 < Jump(s[p].tag) < NUM_JUMPS ==> sh.Hop(p, Jump(s[p].tag)) !in {hole, f, b, Next()}
    {
      hide Jump, SetNext, Policy.Valid;
      Around();
      assert Fits(sh, s, up, rank, Kept(), tail, hole, p);
      assert Fits(sh, s, up, rank, Kept(), tail, hole, tail) && Fits(sh, s, up, rank, Kept(), tail, hole, hole);
    }

    lemma OtherFits(p: nat)
      requires Valid() && p < |s| && p !in {hole, tail, f, Next()}
      ensures Fits'(p)
    {
      hide Jump, SetNext, Framed;
      Around();
      FrameKept();
      assert Fits(sh, s, up, rank, Kept(), tail, hole, p);
      if s[p].item.Some? { Neighbours(p); }
    }

    /** After the step the run is severed one slot further down the chain, or whole again. */
    lemma Keeps()
      requires Valid()
      ensures Severed(sh, Slots'(), Up'(), Rank'(), if hole == b && Next() < 0 then -1 else b,
                      if Next() >= 0 then f else -1, Next())
    {
      Around();
      var t, u, r, next := Slots'(), Up'(), Rank'(), Next();
      var kept, last := if hole == b && next < 0 then -1 else b, if next >= 0 then f else -1;
      HoleFits();
      forall p | 0 <= p < |t| ensures Fits(sh, t, u, r, kept, last, next, p) {
        if p == hole || p == f { HoleFits(); }
        else if p == tail { TailFits(); }
        else if p == Next() { NextFits(); }
        else { OtherFits(p); }
      }
    }
  }
}
