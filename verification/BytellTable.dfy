/** The hash table whose collision chains live inside its slot array.  `contents` is the map the
    table stands for, `at` the slot of each key, `up` and `rank` the chain structure. */
module BytellHashTable {
  import opened Arithmetic
  import opened Slots
  import opened HashPolicy
  import opened Chains
  import opened Jamming
  import JumpTable
  import MapSpec
  import opened Growth
  import opened SlotItems

  const MIN_BLOCK: nat := 8

  /** A slot holds an item exactly when its control byte says so. */
  ghost predicate Tagged<K, V>(s: seq<Slot<K, V>>) {
    forall p :: 0 <= p < |s| ==> (s[p].item.None? <==> s[p].tag == EMPTY || s[p].tag == RESERVED)
  }

  ghost predicate Bounded(rank: seq<nat>, bound: nat) {
    forall p :: 0 <= p < |rank| ==> rank[p] <= bound
  }

  /** Slots come in blocks. */
  function RoundUp(n: nat, block: nat): (r: nat)
    requires block > 0
    ensures r >= n && (n > 0 ==> r >= block)
  {
    if n % block == 0 then n else n + (block - n % block)
  }

  ghost function AllOf<T>(n: nat, x: T): (s: seq<T>)
    ensures |s| == n
  {
    seq(n, _ => x)
  }

  lemma EmptyIsLinked<K, V>(sh: Shape<K>, n: nat)
    requires sh.Valid() && n >= Max(2, sh.slots)
    ensures Linked<K, V>(sh, BlankRun(n, EMPTY), AllOf(n, -1), AllOf(n, 0)) && Bounded(AllOf(n, 0), 0)
    ensures Holds<K, V>(BlankRun(n, EMPTY), map[], map[]) && Tagged<K, V>(BlankRun(n, EMPTY))
  {
  }

  /** A slot and its depth in its chain. */
  datatype Deep = Deep(depth: nat, slot: nat)

  ghost predicate Ascending(l: seq<Deep>) {
    forall i, j :: 0 <= i < j < |l| ==> l[i].depth <= l[j].depth
  }

  ghost predicate DistinctSlots(l: seq<Deep>) {
    forall i, j :: 0 <= i < j < |l| ==> l[i].slot != l[j].slot
  }

  function PlaceFor(l: seq<Deep>, x: Deep, i: nat): (r: nat)
    requires i <= |l| && forall j :: 0 <= j < i ==> l[j].depth < x.depth
    ensures i <= r <= |l| && (forall j :: 0 <= j < r ==> l[j].depth < x.depth)
    ensures r < |l| ==> x.depth <= l[r].depth
    decreases |l| - i
  {
    if i == |l| || x.depth <= l[i].depth then i else PlaceFor(l, x, i + 1)
  }

  function InsertByDepth(l: seq<Deep>, x: Deep): (r: seq<Deep>) {
    var i := PlaceFor(l, x, 0);
    l[..i] + [x] + l[i..]
  }

  lemma InsertKeepsAscending(l: seq<Deep>, x: Deep)
    requires Ascending(l)
    ensures Ascending(InsertByDepth(l, x))
  {
  }

  lemma InsertAdds(l: seq<Deep>, x: Deep)
    ensures forall e :: e in InsertByDepth(l, x) <==> e == x || e in l
  {
    var i := PlaceFor(l, x, 0);
    assert l == l[..i] + l[i..];
  }

  lemma InsertKeepsDistinct(l: seq<Deep>, x: Deep)
    requires DistinctSlots(l) && forall e :: e in l ==> e.slot != x.slot
    ensures DistinctSlots(InsertByDepth(l, x))
  {
    var i := PlaceFor(l, x, 0);
    assert forall j :: 0 <= j < |l| ==> l[j] in l && l[j].slot != x.slot;
  }

  function SortByDepth(l: seq<Deep>): (r: seq<Deep>)
    ensures Ascending(r) && forall e :: e in r <==> e in l
    ensures DistinctSlots(l) ==> DistinctSlots(r)
  {
    if l == [] then []
    else
      assert l == [l[0]] + l[1..];
      var r := SortByDepth(l[1..]);
      InsertKeepsAscending(r, l[0]);
      InsertAdds(r, l[0]);
      assert DistinctSlots(l) ==> DistinctSlots(InsertByDepth(r, l[0])) by {
        if DistinctSlots(l) {
          assert forall j :: 0 < j < |l| ==> l[j] == l[1..][j - 1];
          InsertKeepsDistinct(r, l[0]);
        }
      }
      InsertByDepth(r, l[0])
  }

  /** The keys of the items in the listed slots. */
  ghost function KeysOf<K, V>(s: seq<Slot<K, V>>, l: seq<Deep>): set<K> {
    set e | e in l && e.slot < |s| && s[e.slot].item.Some? :: s[e.slot].item.value.key
  }

  lemma KeysOfOneMore<K, V>(s: seq<Slot<K, V>>, l: seq<Deep>, k: nat)
    requires k < |l| && l[k].slot < |s| && s[l[k].slot].item.Some?
    ensures KeysOf(s, l[k..]) == KeysOf(s, l[k + 1..]) + {s[l[k].slot].item.value.key}
  {
    assert l[k..] == [l[k]] + l[k + 1..];
  }

  /** The list has the occupied slots from hi down to but not including lo, each with its depth. */
  ghost predicate Lists<K, V>(l: seq<Deep>, s: seq<Slot<K, V>>, rank: seq<nat>, hi: int, lo: int)
    requires |rank| == |s|
  {
    && DistinctSlots(l)
    && (forall e :: e in l ==> lo < e.slot <= hi && e.slot < |s| && s[e.slot].item.Some? && e.depth == rank[e.slot])
    && (forall q :: 0 <= q < |s| && lo < q <= hi && s[q].item.Some? ==> Deep(rank[q], q) in l)
  }

  lemma ListsKeys<K, V>(l: seq<Deep>, s: seq<Slot<K, V>>, rank: seq<nat>, hi: nat, lo: int)
    requires |rank| == |s| && -1 <= lo <= hi < |s| && Lists(l, s, rank, hi, lo)
    ensures KeysOf(s, l) == KeysIn(s, lo + 1, hi + 1)
  {
    forall k | k in KeysIn(s, lo + 1, hi + 1) ensures k in KeysOf(s, l) {
      var q :| lo + 1 <= q < hi + 1 && s[q].item.Some? && s[q].item.value.key == k;
      assert Deep(rank[q], q) in l;
    }
  }

  /** The slots with a new entry in slot f, linked from slot p. */
  ghost function Appended<K, V>(s: seq<Slot<K, V>>, p: nat, j: nat, f: nat, x: Item<K, V>): (t: seq<Slot<K, V>>)
    requires p < |s| && f < |s| && p != f && j < NUM_JUMPS
    ensures |t| == |s| && t[f].item == Some(x)
  {
    s[f := Slot(LIST_ENTRY, Some(x))][p := s[p].(tag := SetNext(s[p].tag, j))]
  }

  lemma TaggedPut<K, V>(s: seq<Slot<K, V>>, p: nat, e: Slot<K, V>)
    requires Tagged(s) && p < |s| && (e.item.None? <==> e.tag == EMPTY || e.tag == RESERVED)
    ensures Tagged(s[p := e])
  {
  }

  lemma BoundedPut(rank: seq<nat>, bound: nat, p: nat, r: nat, bound': nat)
    requires Bounded(rank, bound) && p < |rank| && r <= bound' && bound <= bound'
    ensures Bounded(rank[p := r], bound')
  {
  }

  /** A control byte may be changed without touching the map. */
  lemma Retag<K, V>(s: seq<Slot<K, V>>, at: map<K, nat>, m: map<K, V>, p: nat, tag: int)
    requires Holds(s, at, m) && Tagged(s) && p < |s| && s[p].item.Some? && IsControl(tag)
    ensures Holds(s[p := s[p].(tag := tag)], at, m) && Tagged(s[p := s[p].(tag := tag)])
  {
  }

  lemma HomeInRange<K, V>(sh: Shape<K>, s: seq<Slot<K, V>>, up: seq<int>, rank: seq<nat>, kept: int, key: K)
    requires Severed(sh, s, up, rank, kept, -1, -1)
    ensures sh.Home(key) < |s| == |up| == |rank|
    ensures sh.slots >= 2 ==> sh.Home(key) < sh.slots
  {
  }

  lemma RankBounded(rank: seq<nat>, bound: nat, p: nat)
    requires Bounded(rank, bound) && p < |rank|
    ensures rank[p] <= bound
  {
  }

  lemma EntryAppended<K, V>(sh: Shape<K>, s: seq<Slot<K, V>>, at: map<K, nat>, m: map<K, V>, up: seq<int>,
                            rank: seq<nat>, bound: nat, p: nat, j: nat, f: nat, x: Item<K, V>)
    requires Linked(sh, s, up, rank) && Bounded(rank, bound) && Holds(s, at, m) && Tagged(s) && x.key !in m
    requires Full(sh, s, p, sh.Home(x.key)) && Jump(s[p].tag) == 0
    requires 0 < j < NUM_JUMPS && j < |sh.jumps| && f == sh.Hop(p, j) < |s| && s[f] == Slot(EMPTY, None)
    ensures |rank| == |up| == |s| && p < |s| && p != f
    ensures Linked(sh, Appended(s, p, j, f, x), up[f := p], rank[f := rank[p] + 1])
    ensures Bounded(rank[f := rank[p] + 1], bound + 1)
    ensures Holds(Appended(s, p, j, f, x), at[x.key := f], m[x.key := x.value]) && Tagged(Appended(s, p, j, f, x))
  {
    HomeInRange(sh, s, up, rank, -1, x.key);
    hide JumpTable.JUMP_DISTANCES, Holds, Tagged, Severed, Policy.Valid, Jump, SetNext, Bounded;
    AppendKeepsLinked(sh, s, up, rank, p, j, f, x);
    RankBounded(rank, bound, p);
    HoldsPut(s, at, m, f, LIST_ENTRY, x);
    TaggedPut(s, f, Slot(LIST_ENTRY, Some(x)));
    BoundedPut(rank, bound, f, rank[p] + 1, bound + 1);
    Retag(s[f := Slot(LIST_ENTRY, Some(x))], at[x.key := f], m[x.key := x.value], p, SetNext(s[p].tag, j));
  }

  /** The first occupied slot in iteration order from slot i on, or -1. */
  ghost predicate FirstFrom<K, V>(s: seq<Slot<K, V>>, i: nat, pos: int) {
    && -1 <= pos <= i < |s| && (pos >= 0 ==> s[pos].item.Some?)
    && Blank(s, pos + 1, i + 1)
  }

  /** The item of slot p has gone, and the item of the last slot of its chain, if that is another
      one, is in slot p instead. */
  ghost predicate Vacated<K, V>(s: seq<Slot<K, V>>, t: seq<Slot<K, V>>, p: nat, last: nat) {
    && p < |s| == |t| && last < |s| && s[last].item.Some? && t[last].item == None
    && (last != p ==> t[p].item == s[last].item)
    && forall q :: 0 <= q < |s| && q != p && q != last ==> t[q].item == s[q].item
  }

  /** What iteration visits from the hole on: what it had not reached, and once more the item that moved
      there if it came from a slot that was visited before. */
  lemma GoesOnWith<K, V>(s: seq<Slot<K, V>>, t: seq<Slot<K, V>>, p: nat, last: nat, pos: int)
    requires Vacated(s, t, p, last) && FirstFrom(t, p, pos)
    ensures KeysIn(t, 0, pos + 1) == KeysIn(s, 0, p) + if last > p then {s[last].item.value.key} else {}
  {
    forall k | k in KeysIn(s, 0, p) ensures k in KeysIn(t, 0, pos + 1) {
      var q :| 0 <= q < p && s[q].item.Some? && s[q].item.value.key == k;
      var q' := if q == last then p else q;
      assert t[q'].item == s[q].item;
    }
    if last > p { assert t[p].item == s[last].item; }
    forall k | k in KeysIn(t, 0, pos + 1) ensures k in KeysIn(s, 0, p) || (last > p && k == s[last].item.value.key) {
      var q :| 0 <= q < pos + 1 && t[q].item.Some? && t[q].item.value.key == k;
      var q' := if q == p then last else q;
      assert s[q'].item == t[q].item;
    }
  }

  lemma NothingLeft<K, V>(s: seq<Slot<K, V>>, at: map<K, nat>, m: map<K, V>, i: nat)
    requires Holds(s, at, m) && m == map[] && i < |s|
    ensures FirstFrom(s, i, -1)
  {
  }

  lemma NotEmptySlot<K, V>(sh: Shape<K>, s: seq<Slot<K, V>>, up: seq<int>, rank: seq<nat>, p: nat)
    requires Linked(sh, s, up, rank) && p < |s| && s[p].tag != EMPTY
    ensures s[p].item.Some?
  {
    assert Fits(sh, s, up, rank, -1, -1, -1, p);
  }

  /** Any list entry may be regarded as the start of a part that is about to be cut off. */
  lemma CutBefore<K, V>(sh: Shape<K>, s: seq<Slot<K, V>>, up: seq<int>, rank: seq<nat>, b: nat)
    requires Linked(sh, s, up, rank) && b < |s| && s[b].item.Some? && !IsDirect(s[b].tag)
    ensures Severed(sh, s, up, rank, -1, up[b], b)
  {
    assert Fits(sh, s, up, rank, -1, -1, -1, b);
    var tail := up[b];
    assert Fits(sh, s, up, rank, -1, -1, -1, tail);
    forall p | 0 <= p < |s| ensures Fits(sh, s, up, rank, -1, tail, b, p) {
      assert Fits(sh, s, up, rank, -1, -1, -1, p);
    }
  }

  lemma RetagVacant<K, V>(s: seq<Slot<K, V>>, at: map<K, nat>, m: map<K, V>, p: nat)
    requires Holds(s, at, m) && Tagged(s) && p < |s|
    ensures s[p].item.None? ==> Holds(s[p := Slot(RESERVED, None)], at, m) && Tagged(s[p := Slot(RESERVED, None)])
  {
  }

  lemma MoveHolds<K, V>(move: Move<K, V>, at: map<K, nat>, m: map<K, V>)
    requires move.Valid() && Holds(move.s, at, m) && Tagged(move.s)
    ensures move.hole < |move.s| && move.s[move.hole].item.Some?
    ensures Holds(move.Slots'(), at[move.s[move.hole].item.value.key := move.f], m) && Tagged(move.Slots'())
  {
    hide Severed, Holds, Tagged, Jump, SetNext, Policy.Valid;
    move.Around();
    var s, key := move.s, move.s[move.hole].item.value.key;
    HoldsMove(s, at, m, move.hole, move.f, EMPTY, LIST_ENTRY);
    TaggedPut(s, move.f, Slot(LIST_ENTRY, s[move.hole].item));
    var s1 := s[move.f := Slot(LIST_ENTRY, s[move.hole].item)];
    TaggedPut(s1, move.hole, Slot(EMPTY, None));
    var s2 := s1[move.hole := Slot(EMPTY, None)];
    Retag(s2, at[key := move.f], m, move.tail, SetNext(s[move.tail].tag, move.j));
    var s3 := s2[move.tail := s[move.tail].(tag := SetNext(s[move.tail].tag, move.j))];
    RetagVacant(s3, at[key := move.f], m, move.b);
    assert move.Slots'() == if move.Next() >= 0 then s3[move.b := Slot(RESERVED, None)] else s3;
  }

  lemma MoveBounded<K, V>(move: Move<K, V>, bound: nat)
    requires move.Valid() && Bounded(move.rank, bound)
    ensures Bounded(move.Rank'(), bound)
  {
  }

  lemma MoveJump<K, V>(move: Move<K, V>)
    requires move.Valid()
    ensures Jump(move.s[move.hole].tag) < NUM_JUMPS
    ensures move.Next() == if Jump(move.s[move.hole].tag) != 0
            then move.sh.Hop(move.hole, Jump(move.s[move.hole].tag)) else -1
  {
    assert Fits(move.sh, move.s, move.up, move.rank, move.Kept(), move.tail, move.hole, move.hole);
  }

  /** All that a step needs and brings about. */
  lemma MoveDone<K, V>(move: Move<K, V>, at: map<K, nat>, m: map<K, V>, bound: nat)
    requires move.Valid() && Holds(move.s, at, m) && Tagged(move.s) && Bounded(move.rank, bound)
    ensures |move.sh.jumps| == NUM_JUMPS && |move.up| == |move.rank| == |move.s| && move.hole < |move.s|
    ensures move.tail < |move.s| && move.f < |move.s| && move.f != move.hole && move.f != move.tail
    ensures move.s[move.hole].item.Some? && Jump(move.s[move.hole].tag) < NUM_JUMPS
    ensures move.Next() == if Jump(move.s[move.hole].tag) != 0
            then move.sh.Hop(move.hole, Jump(move.s[move.hole].tag)) else -1
    ensures Holds(move.Slots'(), at[move.s[move.hole].item.value.key := move.f], m) && Tagged(move.Slots'())
    ensures Bounded(move.Rank'(), bound) && |move.Rank'()| == |move.Up'()| == |move.s|
    ensures Severed(move.sh, move.Slots'(), move.Up'(), move.Rank'(),
                    if move.hole == move.b && move.Next() < 0 then -1 else move.b,
                    if move.Next() >= 0 then move.f else -1, move.Next())
    ensures move.Next() >= 0 ==> move.Next() < |move.s| && move.Next() != move.b
    ensures move.Next() >= 0 ==> move.Rank'()[move.Next()] == move.rank[move.hole] + 1
    ensures move.Next() < 0 ==> move.Slots'()[move.b].item == None
  {
    hide Holds, Tagged, Severed, Jump, SetNext, Bounded;
    move.Around();
    move.Keeps();
    MoveHolds(move, at, m);
    MoveBounded(move, bound);
    MoveJump(move);
  }

  lemma OneKeyIn<K, V>(s: seq<Slot<K, V>>, b: nat, p: nat)
    requires b <= p < |s| && s[p].item.Some? && Blank(s, b, p)
    ensures KeysIn(s, b, p + 1) == {s[p].item.value.key}
  {
  }

  lemma AllHeldBelow<K, V>(s: seq<Slot<K, V>>, at: map<K, nat>, m: map<K, V>, p: nat)
    requires Holds(s, at, m) && p < |s| && Blank(s, p + 1, |s|)
    ensures m - KeysIn(s, 0, p + 1) == map[]
  {
    forall k | k in m ensures k in KeysIn(s, 0, p + 1) {
      assert s[at[k]].item.value.key == k;
    }
  }

  lemma NoKeysOf<K, V>(s: seq<Slot<K, V>>, l: seq<Deep>)
    ensures KeysOf(s, l[|l|..]) == {}
  {
  }

  lemma NothingHeld<K, V>(sh: Shape<K>, s: seq<Slot<K, V>>, at: map<K, nat>, m: map<K, V>, up: seq<int>, rank: seq<nat>)
    requires Linked(sh, s, up, rank) && Holds(s, at, m) && sh.slots == 1
    ensures m == map[]
  {
  }

  lemma TagEmpty<K, V>(s: seq<Slot<K, V>>, p: nat)
    requires Tagged(s) && p < |s| && s[p].tag == EMPTY
    ensures s[p].item == None
  {
  }

  lemma TaggedItem<K, V>(s: seq<Slot<K, V>>, p: nat)
    requires Tagged(s) && p < |s|
    ensures s[p].item.None? <==> s[p].tag == EMPTY || s[p].tag == RESERVED
  {
  }

  lemma ControlOf<K, V>(sh: Shape<K>, s: seq<Slot<K, V>>, up: seq<int>, rank: seq<nat>, p: nat)
    requires Linked(sh, s, up, rank) && p < |s| && s[p].item.Some?
    ensures IsControl(s[p].tag)
  {
    assert Fits(sh, s, up, rank, -1, -1, -1, p);
  }

  lemma MoveLastHolds<K, V>(s: seq<Slot<K, V>>, at: map<K, nat>, m: map<K, V>, p: nat, last: nat)
    requires Holds(s, at, m) && Tagged(s) && p < |s| && last < |s| && p != last && s[p].item.Some? && s[last].item.Some?
    ensures var k, y, t := s[p].item.value.key, s[last].item.value,
            s[p := s[p].(item := s[last].item)][last := Slot(EMPTY, None)];
            k in m && Holds(t, (at - {k})[y.key := p], m - {k}) && Tagged(t)
  {
    hide Holds;
    var k, t := s[p].item.value.key, s[p := Slot(s[p].tag, None)];
    HoldsRemove(s, at, m, p, s[p].tag);
    HoldsMove(t, at - {k}, m - {k}, last, p, EMPTY, s[p].tag);
    assert t[p := Slot(s[p].tag, s[last].item)] == s[p := s[p].(item := s[last].item)];
  }

  lemma ListSlot<K, V>(sh: Shape<K>, s: seq<Slot<K, V>>, up: seq<int>, rank: seq<nat>, p: nat)
    requires Linked(sh, s, up, rank) && p < |s| && s[p].item.Some? && !IsDirect(s[p].tag)
    ensures rank[p] > 0
  {
    assert Fits(sh, s, up, rank, -1, -1, -1, p);
  }

  lemma DirectSlot<K, V>(sh: Shape<K>, s: seq<Slot<K, V>>, up: seq<int>, rank: seq<nat>, p: nat)
    requires Linked(sh, s, up, rank) && p < |s| && IsDirect(s[p].tag)
    ensures Full(sh, s, p, p) && rank[p] == 0
  {
    assert Fits(sh, s, up, rank, -1, -1, -1, p);
  }

  lemma KeySlot<K, V>(sh: Shape<K>, s: seq<Slot<K, V>>, at: map<K, nat>, m: map<K, V>, up: seq<int>, rank: seq<nat>,
                      key: K)
    requires Linked(sh, s, up, rank) && Holds(s, at, m) && key in m
    ensures key in at && at[key] < |s| == |rank| && s[at[key]].item == Some(Item(key, m[key]))
    ensures sh.Home(key) < |s| && IsDirect(s[sh.Home(key)].tag)
  {
    ChainHasRoot(sh, s, up, rank, sh.Home(key), at[key]);
  }

  class BytellTable<K(==, !new), V(!new)> {
    const policy: Policy
    const hash: K -> nat
    /** Requests for more buckets than this make the allocator throw. */
    const maxBuckets: nat
    const blockSize: nat
    var entries: array<Slot<K, V>>
    var slots: nat
    var maxLoad: real
    var numElements: nat
    var lazyBuckets: nat
    ghost var at: map<K, nat>
    ghost var contents: map<K, V>
    ghost var up: seq<int>
    ghost var rank: seq<nat>
    ghost var bound: nat

    function TableShape(): Shape<K>
      reads `slots
    {
      Shape(policy, hash, slots, JumpTable.JUMP_DISTANCES)
    }

    ghost predicate Configured()
      reads `slots, `maxLoad
    {
      TableShape().Valid() && maxLoad > 0.0 && slots <= maxBuckets <= policy.limit && blockSize >= MIN_BLOCK
    }

    /** What a rehash relies on: the items are all there, however they are chained. */
    ghost predicate Loose()
      reads this, entries
    {
      && Configured()
      && entries.Length >= slots && entries.Length >= 2 && |up| == |rank| == entries.Length
      && Holds(entries[..], at, contents) && Tagged(entries[..])
      && numElements == |contents|
    }

    ghost predicate Valid()
      reads this, entries
    {
      Loose() && Linked(TableShape(), entries[..], up, rank) && Bounded(rank, bound)
    }

    /** There is memory for n items, wherever they hash to. */
    ghost predicate EnoughFor(n: nat)
      reads `lazyBuckets, `maxLoad
    {
      Enough(Bytell, policy, maxBuckets, lazyBuckets, maxLoad, n)
    }

    /** Growing cannot make room for the keys: from the given size on the table comes to one that is too
        small for them and from which it cannot grow. */
    ghost predicate RefusedFor(keys: set<K>, from: nat)
      requires maxLoad > 0.0
      reads `lazyBuckets, `maxLoad
    {
      RefusedKeys<K, V>(policy, hash, maxBuckets, lazyBuckets, maxLoad, keys, from)
    }

    /** A rehash to n slots cannot have them, or cannot put the items there. */
    ghost predicate RehashRefused(n: nat)
      requires maxLoad > 0.0
      reads `contents, `lazyBuckets, `maxLoad
    {
      || !Grants(policy, maxBuckets, Max(n, BucketsFor(|contents|, maxLoad)))
      || RefusedFor(contents.Keys, n)
    }

    constructor (policy: Policy, hash: K -> nat, maxBuckets: nat, blockSize: nat, buckets: nat)
      requires policy.Valid() && 1 <= maxBuckets <= policy.limit && blockSize >= MIN_BLOCK
      ensures maxLoad == 0.9375 && lazyBuckets == buckets
      ensures this.policy == policy && this.hash == hash && this.maxBuckets == maxBuckets
      ensures Valid() && contents == map[] && fresh(entries)
    {
      this.policy, this.hash, this.maxBuckets, this.blockSize := policy, hash, maxBuckets, blockSize;
      slots, maxLoad, numElements, lazyBuckets := 1, 0.9375, 0, buckets;
      var empty := NewSlots(MIN_BLOCK, EMPTY);
      entries := empty;
      at, contents := map[], map[];
      up, rank, bound := AllOf(MIN_BLOCK, -1), AllOf(MIN_BLOCK, 0), 0;
      new;
      EmptyIsLinked<K, V>(TableShape(), MIN_BLOCK);
    }

    /** Follows the chain of the key's home.  When the key is absent, `root` tells whether its home
        is free for a new chain; otherwise p is the end of the chain. */
    method Probe(key: K) returns (found: bool, p: nat, root: bool)
      requires Valid()
      ensures p < entries.Length
      ensures found <==> key in contents
      ensures found ==> entries[p].item == Some(Item(key, contents[key])) && p == at[key]
      ensures !found && root ==> p == TableShape().Home(key) && !IsDirect(entries[p].tag)
      ensures !found && !root ==> Full(TableShape(), entries[..], p, TableShape().Home(key))
      ensures !found && !root ==> Jump(entries[p].tag) == 0
    {
      hide Holds, Tagged, Severed, Policy.Valid, Jump;
      ghost var sh, s := TableShape(), entries[..];
      p := TableShape().Home(key);
      HomeInRange(sh, s, up, rank, -1, key);
      if key in contents { KeySlot(sh, s, at, contents, up, rank, key); }
      if !IsDirect(entries[p].tag) {
        return false, p, true;
      }
      DirectSlot(sh, s, up, rank, p);
      root := false;
      while true
        invariant p < |s| && Full(sh, s, p, sh.Home(key)) && rank[p] <= bound
        invariant key in contents ==> rank[p] <= rank[at[key]]
        decreases bound - rank[p]
      {
        if entries[p].item.value.key == key {
          SlotKey(s, at, contents, p);
          return true, p, false;
        }
        if key in contents && rank[p] == rank[at[key]] {
          OneSlotPerRank(sh, s, up, rank, sh.Home(key), p, at[key]);
          assert false;
        }
        if Jump(entries[p].tag) == 0 {
          if key in contents { EndIsDeepest(sh, s, up, rank, sh.Home(key), p, at[key]); }
          return false, p, false;
        }
        NextInChain(sh, s, up, rank, sh.Home(key), p);
        RankBounded(rank, bound, sh.Hop(p, Jump(s[p].tag)));
        p := TableShape().Hop(p, Jump(entries[p].tag));
      }
    }

    /** The slot of the key, or the end position when the key is absent. */
    method Find(key: K) returns (pos: int)
      requires Valid()
      ensures pos < entries.Length
      ensures pos < 0 <==> key !in contents
      ensures key in contents ==> entries[pos].item == Some(Item(key, contents[key]))
    {
      hide Loose, Severed;
      var found, p, _ := Probe(key);
      pos := if found then p else -1;
    }

    predicate IsFull()
      reads this
    {
      slots <= 1 || !Carries(maxLoad, numElements + 1, slots)
    }

    lemma FullIsTooSmall(key: K)
      requires key !in contents && numElements == |contents| && IsFull()
      ensures slots in TooSmall<K, V>(policy, hash, maxLoad, contents.Keys + {key})
    {
      KeysCount(contents);
    }

    lemma JamIsTooSmall(keys: set<K>)
      requires Jams<K, V>(TableShape(), keys)
      ensures slots in TooSmall<K, V>(policy, hash, maxLoad, keys)
    {
      hide Jams, JumpTable.JUMP_DISTANCES;
    }

    /** The nearest empty slot a link from p can reach, in order of the jump table. */
    method FindFree(p: nat) returns (j: nat, f: nat)
      requires Loose()
      ensures j < NUM_JUMPS
      ensures j != 0 ==> f == TableShape().Hop(p, j) < entries.Length && entries[f] == Slot(EMPTY, None)
      ensures j == 0 ==> Stuck(TableShape(), entries[..], p)
    {
      hide Holds, Tagged, Policy.Valid;
      f := 0;
      j := 1;
      while j < NUM_JUMPS
        invariant 1 <= j <= NUM_JUMPS
        invariant forall i :: 0 < i < j ==>
                TableShape().Hop(p, i) < entries.Length && entries[TableShape().Hop(p, i)].tag != EMPTY
      {
        HopInRange(TableShape(), p, j);
        f := TableShape().Hop(p, j);
        if entries[f].tag == EMPTY {
          TagEmpty(entries[..], f);
          return;
        }
        j := j + 1;
      }
      j := 0;
    }

    /** The slot that links to the list entry p. */
    method FindParent(p: nat) returns (u: nat)
      requires Valid() && p < entries.Length && entries[p].item.Some? && !IsDirect(entries[p].tag)
      ensures u < entries.Length && p < |up| && u == up[p] && entries[u].item.Some?
    {
      hide Holds, Tagged, Severed, Policy.Valid, Jump;
      ghost var sh, s := TableShape(), entries[..];
      u := TableShape().Home(entries[p].item.value.key);
      ghost var home := u;
      ChainHasRoot(sh, s, up, rank, home, p);
      ListSlot(sh, s, up, rank, p);
      while true
        invariant u < |s| && Full(sh, s, u, home) && rank[u] < rank[p]
        decreases rank[p] - rank[u]
      {
        if Jump(s[u].tag) == 0 { EndIsDeepest(sh, s, up, rank, home, u, p); }
        NextInChain(sh, s, up, rank, home, u);
        var next := TableShape().Hop(u, Jump(entries[u].tag));
        if next == p {
          return;
        }
        if rank[next] == rank[p] { OneSlotPerRank(sh, s, up, rank, home, next, p); }
        u := next;
      }
    }

    /** The writes of one move; the slot b stays reserved while more of the chain follows. */
    method WriteMove(b: nat, tail: nat, it: nat, f: nat, j: nat, more: bool)
      requires b < entries.Length && tail < entries.Length && it < entries.Length && f < entries.Length
      requires f != it && f != tail && j < NUM_JUMPS
      modifies entries
      ensures var s := old(entries[..]);
              var linked := s[f := Slot(LIST_ENTRY, s[it].item)][tail := s[tail].(tag := SetNext(s[tail].tag, j))];
              var t := linked[it := Slot(EMPTY, None)];
              entries[..] == if more then t[b := Slot(RESERVED, None)] else t
    {
      hide SetNext;
      entries[f] := Slot(LIST_ENTRY, entries[it].item);
      entries[tail] := entries[tail].(tag := SetNext(entries[tail].tag, j));
      entries[it] := Slot(EMPTY, None);
      if more {
        entries[b] := Slot(RESERVED, None);
      }
    }

    /** Moves one item of the chain to the free slot f behind the tail of its relocated part. */
    method MoveOn(b: nat, tail: nat, it: nat, f: nat, j: nat) returns (more: bool, next: nat)
      requires Loose() && Bounded(rank, bound)
      requires b < entries.Length && Severed(TableShape(), entries[..], up, rank, if it == b then -1 else b, tail, it)
      requires 0 < j < NUM_JUMPS && f == TableShape().Hop(tail, j) < entries.Length && entries[f] == Slot(EMPTY, None)
      modifies this`at, this`up, this`rank, entries
      ensures Loose() && Bounded(rank, bound) && b < entries.Length
      ensures more ==> next < entries.Length == |rank| && it < |old(rank)| && rank[next] == old(rank[it]) + 1
      ensures more ==> next != b
      ensures more ==> Severed(TableShape(), entries[..], up, rank, b, f, next)
      ensures !more ==> entries[b].item == None
      ensures !more ==> Severed(TableShape(), entries[..], up, rank, if it == b then -1 else b, -1, -1)
    {
      hide Configured, JumpTable.JUMP_DISTANCES, Holds, Tagged, Severed, Jump, SetNext, Bounded, Move.Up', Move.Rank';
      ghost var sh, s := TableShape(), entries[..];
      ghost var move := Move(sh, s, up, rank, b, tail, it, f, j);
      MoveDone(move, at, contents, bound);
      more, next := Jump(entries[it].tag) != 0, 0;
      if more {
        next := TableShape().Hop(it, Jump(entries[it].tag));
      }
      ghost var key := s[it].item.value.key;
      WriteMove(b, tail, it, f, j, more);
      assert entries[..] == move.Slots'();
      at, up, rank := at[key := f], move.Up'(), move.Rank'();
    }

    /** Moves the chain slots from b on, one by one, to free slots behind their predecessors.  When
        no free slot is in reach the chain is left in two pieces: nothing is lost, but the table is
        only good for a rehash. */
    method Vacate(b: nat, ghost key: K) returns (done: bool)
      requires Valid() && b < entries.Length && !IsDirect(entries[b].tag) && entries[b].tag != EMPTY && key !in contents
      modifies this`at, this`up, this`rank, entries
      ensures Loose() && contents == old(contents)
      ensures !done ==> Jams<K, V>(TableShape(), contents.Keys + {key})
      ensures done ==> Bounded(rank, bound) && entries[b].item == None
      ensures done ==> || Severed(TableShape(), entries[..], up, rank, -1, -1, -1)
                       || Severed(TableShape(), entries[..], up, rank, b, -1, -1)
    {
      hide Holds, Tagged, Severed, Policy.Valid, Jump, Bounded, Collide, Stuck, Jams;
      ghost var sh := TableShape();
      NotEmptySlot(sh, entries[..], up, rank, b);
      ChainCollides(sh, entries[..], at, contents, up, rank, b, key);
      var tail := FindParent(b);
      var j, f := FindFree(tail);
      if j == 0 {
        StuckIsJam(sh, entries[..], at, contents, up, rank, -1, -1, -1, tail, key);
        return false;
      }
      CutBefore(sh, entries[..], up, rank, b);
      var it: nat := b;
      RankBounded(rank, bound, b);
      while true
        invariant Loose() && Bounded(rank, bound) && contents == old(contents)
        invariant it < entries.Length == |rank| && rank[it] <= bound
        invariant Severed(sh, entries[..], up, rank, if it == b then -1 else b, tail, it)
        invariant 0 < j < NUM_JUMPS && f == sh.Hop(tail, j) < entries.Length && entries[f] == Slot(EMPTY, None)
        decreases bound - rank[it]
      {
        var more, next := MoveOn(b, tail, it, f, j);
        if !more {
          return true;
        }
        RankBounded(rank, bound, next);
        it, tail := next, f;
        j, f := FindFree(tail);
        if j == 0 {
          TailIsFull(sh, entries[..], up, rank, b, tail, it);
          StuckIsJam(sh, entries[..], at, contents, up, rank, b, tail, it, tail, key);
          return false;
        }
      }
    }

    method ConstructRoot(b: nat, x: Item<K, V>)
      requires Loose() && Bounded(rank, bound) && x.key !in contents && slots >= 2
      requires Severed(TableShape(), entries[..], up, rank, -1, -1, -1) ||
               Severed(TableShape(), entries[..], up, rank, b, -1, -1)
      requires b == TableShape().Home(x.key) < entries.Length && entries[b].item == None
      modifies this`at, this`contents, this`numElements, this`rank, entries
      ensures Valid() && contents == old(contents)[x.key := x.value] && entries[b].item == Some(x)
    {
      hide Holds, Tagged, Severed, Policy.Valid, Jump, Bounded;
      ghost var sh, s := TableShape(), entries[..];
      ghost var kept := if Severed(sh, s, up, rank, -1, -1, -1) then -1 else b;
      HomeInRange(sh, s, up, rank, kept, x.key);
      RootKeepsLinked(sh, s, up, rank, kept, b, x);
      HoldsPut(s, at, contents, b, DIRECT_HIT, x);
      TaggedPut(s, b, Slot(DIRECT_HIT, Some(x)));
      BoundedPut(rank, bound, b, 0, bound);
      entries[b] := Slot(DIRECT_HIT, Some(x));
      at, contents, numElements := at[x.key := b], contents[x.key := x.value], numElements + 1;
      rank := rank[b := 0];
      assert entries[..] == s[b := Slot(DIRECT_HIT, Some(x))];
    }

    /** The writes of appending: the new entry, and the link of the one before it. */
    method WriteEntry(p: nat, j: nat, f: nat, x: Item<K, V>)
      requires p < entries.Length && f < entries.Length && p != f && j < NUM_JUMPS
      modifies entries
      ensures entries[..] == Appended(old(entries[..]), p, j, f, x)
    {
      hide SetNext;
      entries[f] := Slot(LIST_ENTRY, Some(x));
      entries[p] := entries[p].(tag := SetNext(entries[p].tag, j));
    }

    method ConstructEntry(p: nat, j: nat, f: nat, x: Item<K, V>)
      requires Valid() && x.key !in contents
      requires Full(TableShape(), entries[..], p, TableShape().Home(x.key)) && Jump(entries[p].tag) == 0
      requires 0 < j < NUM_JUMPS && f == TableShape().Hop(p, j) < entries.Length && entries[f] == Slot(EMPTY, None)
      modifies this`at, this`contents, this`numElements, this`up, this`rank, this`bound, entries
      ensures Valid() && contents == old(contents)[x.key := x.value] && entries[f].item == Some(x)
    {
      hide Configured, JumpTable.JUMP_DISTANCES, Holds, Tagged, Severed, Shape.Hop, Shape.Home, Jump, Bounded, Appended;
      JumpTable.JumpsGrow(0, 1);
      EntryAppended(TableShape(), entries[..], at, contents, up, rank, bound, p, j, f, x);
      WriteEntry(p, j, f, x);
      at, contents, numElements := at[x.key := f], contents[x.key := x.value], numElements + 1;
      up, rank, bound := up[f := p], rank[f := rank[p] + 1], bound + 1;
    }

    ghost function RehashSize(n: nat): (size: nat)
      requires policy.Valid() && maxLoad > 0.0
      reads this
    {
      var m := Max(n, BucketsFor(numElements, maxLoad));
      if m == 0 || m > maxBuckets then m else policy.nextSizeOver(m)
    }

    lemma ShapeAt(size: nat)
      requires Configured() && policy.admits(size) && size >= 1
      ensures Shape(policy, hash, size, JumpTable.JUMP_DISTANCES).Valid()
    {
      hide Policy.Valid;
    }

    /** Replaces the table by an empty one of the given admissible size. */
    method Allocate(size: nat, length: nat)
      requires Loose() && policy.admits(size) && 1 <= size <= maxBuckets && length >= Max(2, size)
      modifies this
      ensures fresh(entries) && Valid() && contents == map[] && slots == size && maxLoad == old(maxLoad)
      ensures lazyBuckets == old(lazyBuckets)
    {
      hide BlankRun, AllOf, JumpTable.JUMP_DISTANCES, Holds, Severed, Tagged, Shape.Valid, Bounded;
      ShapeAt(size);
      var buckets := NewSlots(length, EMPTY);
      slots, entries := size, buckets;
      numElements, at, contents := 0, map[], map[];
      up, rank, bound := AllOf(length, -1), AllOf(length, 0), 0;
      EmptyIsLinked<K, V>(TableShape(), length);
    }

    /** The table is not full and the home of the key is empty. */
    ghost predicate HasFreeHome(key: K)
      requires slots >= 1
      reads this, entries
    {
      !IsFull() && TableShape().Home(key) < entries.Length && entries[TableShape().Home(key)].tag == EMPTY
    }

    /** The slot is the end of the chain of the key's home. */
    ghost predicate IsEnd(p: nat, key: K)
      requires slots >= 1
      reads this, entries
    {
      Full(TableShape(), entries[..], p, TableShape().Home(key)) && Jump(entries[p].tag) == 0
    }

    /** The table is not full and a link from the end of the key's chain leads to an empty slot. */
    ghost predicate HasFreeLink(key: K)
      requires slots >= 1
      reads this, entries
    {
      !IsFull() && exists p: nat :: IsEnd(p, key) && !Stuck(TableShape(), entries[..], p)
    }

    lemma LinkNeedsRoot(key: K)
      requires Valid() && HasFreeLink(key)
      ensures TableShape().Home(key) < entries.Length && IsDirect(entries[TableShape().Home(key)].tag)
    {
      hide Loose, Severed, Bounded, Stuck, Jump;
      var p: nat :| IsEnd(p, key) && !Stuck(TableShape(), entries[..], p);
      ChainHasRoot(TableShape(), entries[..], up, rank, TableShape().Home(key), p);
    }

    lemma HomeIsTaken(p: nat, key: K)
      requires Valid() && IsEnd(p, key)
      ensures !HasFreeHome(key)
    {
      hide Loose, Severed, Bounded, Jump;
      ChainHasRoot(TableShape(), entries[..], up, rank, TableShape().Home(key), p);
    }

    lemma LooseLengths()
      requires Loose()
      ensures |rank| == |up| == entries.Length
    {
    }

    lemma OneEnd(p: nat, key: K)
      requires Valid() && IsEnd(p, key) && HasFreeLink(key)
      ensures !Stuck(TableShape(), entries[..], p)
    {
      hide Loose, Severed, Bounded, Stuck, Jump;
      var sh, s, home := TableShape(), entries[..], TableShape().Home(key);
      var q: nat :| IsEnd(q, key) && !Stuck(sh, s, q);
      LooseLengths();
      EndIsDeepest(sh, s, up, rank, home, p, q);
      EndIsDeepest(sh, s, up, rank, home, q, p);
      OneSlotPerRank(sh, s, up, rank, home, p, q);
    }

    lemma LooseFacts()
      requires Loose()
      ensures TableShape().Valid() && slots <= entries.Length && Holds(entries[..], at, contents) && Tagged(entries[..])
      ensures numElements == |contents|
      ensures policy.Valid() && policy.admits(slots) && 1 <= slots <= maxBuckets <= policy.limit && maxLoad > 0.0
      ensures blockSize >= MIN_BLOCK
    {
      hide Holds, Policy.Valid, Tagged;
    }

    lemma EnoughWith(key: K)
      requires Loose() && key !in contents && EnoughFor(|contents| + 1)
      ensures maxLoad > 0.0 && !RefusedFor(contents.Keys + {key}, slots)
    {
      hide Loose, RefusedKeys, Enough;
      LooseFacts();
      KeysCount(contents);
      EnoughForKeys<K, V>(policy, hash, maxBuckets, lazyBuckets, maxLoad, contents.Keys + {key}, slots);
    }

    method ForgetLazy()
      requires Valid()
      modifies this`lazyBuckets
      ensures Valid() && lazyBuckets == 0
    {
      hide Holds, Tagged, Configured, Severed, Bounded;
      lazyBuckets := 0;
    }

    lemma EnoughToRehash(n: nat)
      requires Loose() && EnoughFor(|contents|) && Grants(policy, maxBuckets, Max(n, BucketsFor(|contents|, maxLoad)))
      ensures maxLoad > 0.0 && !RehashRefused(n)
    {
      hide Loose, RefusedKeys, Enough, BucketsFor, Grants;
      LooseFacts();
      KeysCount(contents);
      EnoughForKeys<K, V>(policy, hash, maxBuckets, lazyBuckets, maxLoad, contents.Keys, n);
    }

    /** Adds the item unless its key is present.  `ok` is false when growing needed more memory
        than the allocator gives. */
    method Emplace(x: Item<K, V>) returns (ok: bool, pos: nat, inserted: bool)
      requires Valid()
      modifies this, entries
      ensures fresh(entries) || entries == old(entries)
      ensures ok ==> Valid() && slots >= old(slots) && maxLoad == old(maxLoad) && lazyBuckets <= old(lazyBuckets)
      ensures !ok ==> old(RefusedFor(contents.Keys + {x.key}, slots))
      ensures old(EnoughFor(|contents| + 1)) ==> ok
      ensures old(HasFreeHome(x.key) || HasFreeLink(x.key)) ==> ok && slots == old(slots)
      ensures x.key in old(contents) ==> ok && unchanged(this) && entries[..] == old(entries[..])
      ensures ok ==> inserted == (x.key !in old(contents))
      ensures ok && inserted ==> Carries(maxLoad, |contents|, slots)
      ensures ok ==> contents == if inserted then old(contents)[x.key := x.value] else old(contents)
      ensures ok ==> pos < entries.Length && entries[pos].item == Some(Item(x.key, contents[x.key]))
      decreases maxBuckets - slots, 3
    {
      hide Loose, Severed, Bounded, Jump, RefusedKeys, Enough, Stuck;
      LooseFacts();
      var found, p, root := Probe(x.key);
      if found {
        return true, p, false;
      }
      if EnoughFor(|contents| + 1) { EnoughWith(x.key); }
      inserted := true;
      if root {
        if HasFreeLink(x.key) { LinkNeedsRoot(x.key); }
        ok, pos := EmplaceDirectHit(p, x);
      } else {
        if HasFreeHome(x.key) { HomeIsTaken(p, x.key); }
        if HasFreeLink(x.key) { OneEnd(p, x.key); }
        ok, pos := EmplaceNewKey(p, x);
      }
    }

    /** Starts a chain at the home slot b of a new key, evicting the part of another chain that
        runs through b. */
    method EmplaceDirectHit(b: nat, x: Item<K, V>) returns (ok: bool, pos: nat)
      requires Valid() && x.key !in contents
      requires b == TableShape().Home(x.key) < entries.Length && !IsDirect(entries[b].tag)
      modifies this, entries
      ensures fresh(entries) || entries == old(entries)
      ensures ok ==> Valid() && slots >= old(slots) && maxLoad == old(maxLoad) && lazyBuckets <= old(lazyBuckets)
      ensures !ok ==> old(RefusedFor(contents.Keys + {x.key}, slots))
      ensures old(!IsFull() && entries[b].tag == EMPTY) ==> ok && slots == old(slots)
      ensures ok ==> contents == old(contents)[x.key := x.value] && Carries(maxLoad, |contents|, slots)
      ensures ok ==> pos < entries.Length && entries[pos].item == Some(x)
      decreases maxBuckets - slots, 2
    {
      hide Holds, Tagged, Severed, Policy.Valid, Jump, RefusedKeys, TooSmall, Jams;
      pos := b;
      ok := !IsFull();
      if ok {
        if entries[b].tag != EMPTY {
          ok := Vacate(b, x.key);
          if !ok { JamIsTooSmall(contents.Keys + {x.key}); }
        } else {
          TagEmpty(entries[..], b);
        }
      } else {
        FullIsTooSmall(x.key);
      }
      if ok {
        ConstructRoot(b, x);
      } else {
        ok, pos := GrowAndEmplace(x);
      }
    }

    /** Grows the table, whose chains may be in pieces, and adds the item to it. */
    method GrowAndEmplace(x: Item<K, V>) returns (ok: bool, pos: nat)
      requires Loose() && x.key !in contents
      requires slots in TooSmall<K, V>(policy, hash, maxLoad, contents.Keys + {x.key})
      modifies this, entries
      ensures fresh(entries) || entries == old(entries)
      ensures ok ==> Valid() && slots > old(slots) && maxLoad == old(maxLoad) && lazyBuckets <= old(lazyBuckets)
      ensures ok ==> contents == old(contents)[x.key := x.value] && Carries(maxLoad, |contents|, slots)
      ensures ok ==> pos < entries.Length && entries[pos].item == Some(x)
      ensures !ok ==> old(RefusedFor(contents.Keys + {x.key}, slots))
      decreases maxBuckets - slots, 1
    {
      hide Loose, Severed, Bounded, RefusedKeys, TooSmall, Grants, Request;
      LooseFacts();
      pos := 0;
      ghost var from, lazy, load, keys := slots, lazyBuckets, maxLoad, contents.Keys;
      KeysCount(contents);
      ok := Grow();
      if !ok {
        GrowthRefused<K, V>(policy, hash, maxBuckets, lazy, load, keys, x.key, from);
        return;
      }
      ghost var to := slots;
      var inserted;
      ok, pos, inserted := Emplace(x);
      if !ok {
        RefusedStill<K, V>(policy, hash, maxBuckets, 0, load, keys + {x.key}, to, lazy, keys + {x.key}, from);
      }
    }

    /** Adds a new key behind the end p of its chain. */
    method EmplaceNewKey(p: nat, x: Item<K, V>) returns (ok: bool, pos: nat)
      requires Valid() && x.key !in contents
      requires Full(TableShape(), entries[..], p, TableShape().Home(x.key)) && Jump(entries[p].tag) == 0
      modifies this, entries
      ensures fresh(entries) || entries == old(entries)
      ensures ok ==> Valid() && slots >= old(slots) && maxLoad == old(maxLoad) && lazyBuckets <= old(lazyBuckets)
      ensures !ok ==> old(RefusedFor(contents.Keys + {x.key}, slots))
      ensures old(!IsFull() && !Stuck(TableShape(), entries[..], p)) ==> ok && slots == old(slots)
      ensures ok && old(IsFull() || Stuck(TableShape(), entries[..], p)) ==> slots > old(slots)
      ensures ok ==> contents == old(contents)[x.key := x.value] && Carries(maxLoad, |contents|, slots)
      ensures ok ==> pos < entries.Length && entries[pos].item == Some(x)
      decreases maxBuckets - slots, 2
    {
      hide Holds, Tagged, Severed, Policy.Valid, Jump, RefusedKeys, TooSmall, Jams, Stuck, Collide;
      var j := 0;
      pos := p;
      if IsFull() {
        FullIsTooSmall(x.key);
      } else {
        j, pos := FindFree(p);
        if j == 0 {
          EndCollides(TableShape(), entries[..], at, contents, p, x.key);
          StuckIsJam(TableShape(), entries[..], at, contents, up, rank, -1, -1, -1, p, x.key);
          JamIsTooSmall(contents.Keys + {x.key});
        } else {
          FreeLink(TableShape(), entries[..], p, j);
        }
      }
      ok := j != 0;
      if ok {
        ConstructEntry(p, j, pos, x);
      } else {
        ok, pos := GrowAndEmplace(x);
      }
    }

    /** Moves everything into a table of at least twice the size. */
    method Grow() returns (ok: bool)
      requires Loose()
      modifies this, entries
      ensures fresh(entries) || entries == old(entries)
      ensures ok ==> Valid() && contents == old(contents) && slots > old(slots) && maxLoad == old(maxLoad)
      ensures ok ==> lazyBuckets == 0
      ensures !ok ==> old(!Grants(policy, maxBuckets, Request(Bytell, lazyBuckets, maxLoad, |contents|, slots)) ||
                          RefusedFor(contents.Keys, slots))
      decreases maxBuckets - slots, 0
    {
      hide Loose, Severed, Bounded, Policy.Valid, Grants, RefusedKeys, BucketsFor;
      LooseFacts();
      ghost var from, lazy, load, keys := slots, lazyBuckets, maxLoad, contents.Keys;
      var n := Max(lazyBuckets, Max(10, 2 * (if slots <= 1 then 0 else slots)));
      SizeFits(policy, Max(n, BucketsFor(numElements, maxLoad)));
      ok := Rehash(n);
      if ok {
        ForgetLazy();
      } else if RefusedKeys<K, V>(policy, hash, maxBuckets, lazy, load, keys, n) {
        RefusedStill<K, V>(policy, hash, maxBuckets, lazy, load, keys, n, lazy, keys, from);
      }
    }

    /** Rebuilds the table with at least n slots from the items of the old slots, whether or not
        their chains are whole; emplacing them may itself grow the new table. */
    method Rehash(n: nat) returns (ok: bool)
      requires Loose()
      requires n > slots || (Linked(TableShape(), entries[..], up, rank) && Bounded(rank, bound))
      modifies this, entries
      ensures fresh(entries) || entries == old(entries)
      ensures ok ==> Valid() && contents == old(contents) && maxLoad == old(maxLoad)
      ensures ok ==> slots >= n
      ensures ok ==> lazyBuckets <= old(lazyBuckets)
      ensures !ok ==> old(RehashRefused(n))
      ensures old(EnoughFor(|contents|) && Grants(policy, maxBuckets, Max(n, BucketsFor(|contents|, maxLoad)))) ==> ok
      decreases maxBuckets - RehashSize(n), 5
    {
      hide Loose, Severed, Policy.Valid, Bounded, RefusedKeys, Enough, BucketsFor;
      LooseFacts();
      if EnoughFor(|contents|) && Grants(policy, maxBuckets, Max(n, BucketsFor(|contents|, maxLoad))) {
        EnoughToRehash(n);
      }
      var m := Max(n, BucketsFor(numElements, maxLoad));
      if m == 0 {
        AdmitsOne(policy);
        Allocate(1, MIN_BLOCK);
        return true;
      }
      if m > maxBuckets {
        return false;
      }
      var size := policy.nextSizeOver(m);
      SizeFits(policy, m);
      if size == slots {
        return true;
      }
      if size > maxBuckets {
        return false;
      }
      var from := entries;
      ghost var was, m0 := at, contents;
      ghost var lazy, load := lazyBuckets, maxLoad;
      Allocate(size, RoundUp(size, blockSize));
      ok := Refill(from, size, was, m0);
      if !ok {
        RefusedStill<K, V>(policy, hash, maxBuckets, lazy, load, m0.Keys, size, lazy, m0.Keys, n);
      }
    }

    /** Emplaces every item of the given old slots into this empty table. */
    method Refill(from: array<Slot<K, V>>, size: nat, ghost was: map<K, nat>, ghost m: map<K, V>) returns (ok: bool)
      requires Valid() && contents == map[] && slots == size <= maxBuckets
      requires from != entries && Holds(from[..], was, m) && Tagged(from[..])
      modifies this, entries
      ensures fresh(entries) || entries == old(entries)
      ensures ok ==> Valid() && contents == m && maxLoad == old(maxLoad) && slots >= size
      ensures ok ==> lazyBuckets <= old(lazyBuckets)
      ensures !ok ==> old(RefusedFor(m.Keys, size))
      decreases maxBuckets - size, 4
    {
      hide Loose, Severed, Bounded, Holds, Tagged, Before, RefusedKeys;
      LooseFacts();
      ghost var s, lazy, load, keys := from[..], lazyBuckets, maxLoad, m.Keys;
      var i := 0;
      BeforeNone(was, m);
      while i < from.Length
        invariant 0 <= i <= from.Length
        invariant fresh(entries) || entries == old(entries)
        invariant Valid() && slots >= size && maxLoad == old(maxLoad) && lazyBuckets <= old(lazyBuckets)
        invariant from[..] == s
        invariant contents == Before(was, m, i)
      {
        BeforeStep(s, was, m, i);
        TaggedItem(s, i);
        if from[i].tag != EMPTY && from[i].tag != RESERVED {
          ghost var part, at', lazy' := contents.Keys + {from[i].item.value.key}, slots, lazyBuckets;
          BeforeWithin(was, m, i + 1);
          assert Before(was, m, i + 1).Keys == part;
          var fine, pos, inserted := Emplace(from[i].item.value);
          if !fine {
            RefusedStill<K, V>(policy, hash, maxBuckets, lazy', load, part, at', lazy, keys, size);
            return false;
          }
        }
        i := i + 1;
      }
      BeforeAll(s, was, m);
      ok := true;
    }

    /** The end of the chain behind p and its predecessor. */
    method FindLast(p: nat) returns (last: nat, prev: nat)
      requires Valid() && p < entries.Length && entries[p].item.Some? && Jump(entries[p].tag) != 0
      ensures last < entries.Length && entries[last].item.Some? && Jump(entries[last].tag) == 0
      ensures !IsDirect(entries[last].tag) && prev == up[last] && rank[last] > rank[p]
      ensures Full(TableShape(), entries[..], last, TableShape().Home(entries[p].item.value.key))
    {
      hide Holds, Tagged, Severed, Policy.Valid, Jump;
      ghost var sh, s, home := TableShape(), entries[..], TableShape().Home(entries[p].item.value.key);
      NextInChain(sh, s, up, rank, home, p);
      prev, last := p, TableShape().Hop(p, Jump(entries[p].tag));
      RankBounded(rank, bound, last);
      while Jump(entries[last].tag) != 0
        invariant last < |s| && Full(sh, s, last, home) && !IsDirect(s[last].tag) && up[last] == prev
        invariant rank[p] < rank[last] <= bound
        decreases bound - rank[last]
      {
        NextInChain(sh, s, up, rank, home, last);
        prev, last := last, TableShape().Hop(last, Jump(entries[last].tag));
        RankBounded(rank, bound, last);
      }
    }

    method EraseInner(p: nat, last: nat, prev: nat)
      requires Valid() && p < entries.Length && last < entries.Length && p != last && entries[p].item.Some?
      requires Full(TableShape(), entries[..], last, TableShape().Home(entries[p].item.value.key))
      requires Jump(entries[last].tag) == 0 && !IsDirect(entries[last].tag) && prev == up[last]
      modifies this`at, this`contents, this`numElements, entries
      ensures Valid() && contents == old(contents) - {old(entries[p].item.value.key)}
      ensures Vacated(old(entries[..]), entries[..], p, last)
    {
      hide Configured, JumpTable.JUMP_DISTANCES, Holds, Tagged, Severed, Policy.Valid, Jump, Bounded, SetNext;
      ghost var sh, s, k, y := TableShape(), entries[..], entries[p].item.value.key, entries[last].item.value;
      SameHomeKeepsLinked(sh, s, up, rank, p, y);
      ghost var s1 := s[p := s[p].(item := Some(y))];
      UnlinkKeepsLinked(sh, s1, up, rank, last);
      MoveLastHolds(s, at, contents, p, last);
      MapShrinks(contents, k);
      ghost var s2 := s1[last := Slot(EMPTY, None)];
      at, contents, numElements := (at - {k})[y.key := p], contents - {k}, numElements - 1;
      entries[p] := entries[p].(item := entries[last].item);
      entries[last] := Slot(EMPTY, None);
      assert entries[..] == s2;
      Retag(s2, at, contents, prev, SetNext(s1[prev].tag, 0));
      entries[prev] := entries[prev].(tag := SetNext(entries[prev].tag, 0));
      assert entries[..] == Unlink(s1, prev, last);
    }

    method EraseTail(p: nat, u: nat)
      requires Valid() && p < entries.Length && entries[p].item.Some?
      requires Jump(entries[p].tag) == 0 && !IsDirect(entries[p].tag) && u == up[p]
      modifies this`at, this`contents, this`numElements, entries
      ensures Valid() && contents == old(contents) - {old(entries[p].item.value.key)}
      ensures Vacated(old(entries[..]), entries[..], p, p)
    {
      hide Configured, Holds, Tagged, Severed, Policy.Valid, Jump, Bounded, SetNext;
      ghost var sh, s, k := TableShape(), entries[..], entries[p].item.value.key;
      UnlinkKeepsLinked(sh, s, up, rank, p);
      HoldsRemove(s, at, contents, p, EMPTY);
      TaggedPut(s, p, Slot(EMPTY, None));
      MapShrinks(contents, k);
      ghost var s1 := s[p := Slot(EMPTY, None)];
      Retag(s1, at - {k}, contents - {k}, u, SetNext(s[u].tag, 0));
      entries[u] := entries[u].(tag := SetNext(entries[u].tag, 0));
      entries[p] := Slot(EMPTY, None);
      at, contents, numElements := at - {k}, contents - {k}, numElements - 1;
      assert entries[..] == Unlink(s, u, p);
    }

    method EraseRoot(p: nat)
      requires Valid() && p < entries.Length && entries[p].item.Some?
      requires Jump(entries[p].tag) == 0 && IsDirect(entries[p].tag)
      modifies this`at, this`contents, this`numElements, entries
      ensures Valid() && contents == old(contents) - {old(entries[p].item.value.key)}
      ensures Vacated(old(entries[..]), entries[..], p, p)
    {
      hide Holds, Tagged, Severed, Policy.Valid, Jump, Bounded;
      ghost var s, k := entries[..], entries[p].item.value.key;
      LoneRootKeepsLinked(TableShape(), s, up, rank, p);
      HoldsRemove(s, at, contents, p, EMPTY);
      TaggedPut(s, p, Slot(EMPTY, None));
      MapShrinks(contents, k);
      entries[p] := Slot(EMPTY, None);
      at, contents, numElements := at - {k}, contents - {k}, numElements - 1;
      assert entries[..] == s[p := Slot(EMPTY, None)];
    }

    method Remove(p: nat) returns (ghost last: nat)
      requires Valid() && p < entries.Length && entries[p].item.Some?
      modifies this`at, this`contents, this`numElements, entries
      ensures Valid() && contents == old(contents) - {old(entries[p].item.value.key)}
      ensures last < entries.Length && (last != p ==> rank[last] > rank[p])
      ensures Vacated(old(entries[..]), entries[..], p, last)
    {
      hide Holds, Tagged, Severed, Policy.Valid, Jump, Bounded, Vacated;
      ControlOf(TableShape(), entries[..], up, rank, p);
      if Jump(entries[p].tag) != 0 {
        var l, prev := FindLast(p);
        last := l;
        EraseInner(p, l, prev);
      } else if !IsDirect(entries[p].tag) {
        last := p;
        var u := FindParent(p);
        EraseTail(p, u);
      } else {
        last := p;
        EraseRoot(p);
      }
    }

    /** The next occupied slot below i, or -1: iteration runs from high slots to low ones. */
    method Advance(i: nat) returns (q: int)
      requires Valid() && i <= entries.Length
      ensures -1 <= q < i && (q >= 0 ==> entries[q].item.Some?)
      ensures Blank(entries[..], q + 1, i)
    {
      hide Holds, Severed, Policy.Valid, Jump, Bounded;
      q := i - 1;
      while q >= 0 && entries[q].tag == EMPTY
        invariant -1 <= q < i
        invariant Blank(entries[..], q + 1, i)
      {
        assert entries[..][q] == entries[q];
        q := q - 1;
      }
      if q >= 0 { NotEmptySlot(TableShape(), entries[..], up, rank, q); }
    }

    /** The slot itself if it is occupied, else the next one. */
    method GoOn(i: nat) returns (pos: int)
      requires Valid() && i < entries.Length
      ensures FirstFrom(entries[..], i, pos)
    {
      hide Holds, Severed, Policy.Valid, Bounded, Tagged;
      if entries[i].tag == EMPTY {
        TagEmpty(entries[..], i);
        pos := Advance(i);
      } else {
        NotEmptySlot(TableShape(), entries[..], up, rank, i);
        pos := i;
      }
    }

    /** Removes the item of slot p.  The item of the last slot of the chain, if that is another
        one, moves to p, so that only the last slot is vacated.  Returns where iteration goes on, at p
        itself when an item has moved there.  What it had not reached is still to come, and an item that
        moved from a slot above p comes a second time. */
    method EraseAt(p: nat) returns (pos: int, ghost last: nat)
      requires Valid() && p < entries.Length && entries[p].item.Some?
      modifies this`at, this`contents, this`numElements, entries
      ensures Valid() && contents == old(contents) - {old(entries[p].item.value.key)}
      ensures last < entries.Length && (last != p ==> rank[last] > rank[p])
      ensures Vacated(old(entries[..]), entries[..], p, last)
      ensures FirstFrom(entries[..], p, pos)
      ensures KeysIn(entries[..], 0, pos + 1) ==
                KeysIn(old(entries[..]), 0, p) + if last > p then {old(entries[..])[last].item.value.key} else {}
    {
      hide Loose, Severed, Bounded, Vacated, FirstFrom, KeysIn;
      last := Remove(p);
      pos := GoOn(p);
      GoesOnWith(old(entries[..]), entries[..], p, last, pos);
    }

    /** The depth of slot p in its chain, counted from the chain's root. */
    method DepthOf(p: nat) returns (depth: nat)
      requires Valid() && p < entries.Length && entries[p].item.Some?
      ensures depth == rank[p]
    {
      hide Holds, Tagged, Severed, Policy.Valid, Jump;
      ghost var sh, s := TableShape(), entries[..];
      if IsDirect(entries[p].tag) {
        DirectSlot(sh, s, up, rank, p);
        return 0;
      }
      var root := TableShape().Home(entries[p].item.value.key);
      ghost var home := root;
      ChainHasRoot(sh, s, up, rank, home, p);
      ListSlot(sh, s, up, rank, p);
      depth := 1;
      while true
        invariant root < |s| && Full(sh, s, root, home) && depth == rank[root] + 1 <= rank[p]
        decreases rank[p] - depth
      {
        if Jump(s[root].tag) == 0 { EndIsDeepest(sh, s, up, rank, home, root, p); }
        NextInChain(sh, s, up, rank, home, root);
        var next := TableShape().Hop(root, Jump(entries[root].tag));
        if next == p {
          return;
        }
        if rank[next] == rank[p] { OneSlotPerRank(sh, s, up, rank, home, next, p); }
        depth := depth + 1;
        root := next;
      }
    }

    lemma HeldEachOnce()
      requires Loose()
      ensures EachOnce(DownTo(entries[..], 0), contents)
    {
      hide ItemsOf, EachOnce, Holds, Tagged;
      ItemsEachOnce(entries[..], at, contents);
      ReversedEachOnce(ItemsOf(entries[..]), contents);
      assert entries[..][0..] == entries[..];
    }

    /** All items in the order of iteration. */
    method Items() returns (l: seq<Item<K, V>>)
      requires Valid()
      ensures l == DownTo(entries[..], 0) && EachOnce(l, contents)
    {
      hide Loose, Severed, Bounded, Linked, EachOnce, Blank, DownTo;
      ghost var s := entries[..];
      l := [];
      var i := Advance(entries.Length);
      NoneAbove(s, i + 1);
      while i >= 0
        invariant -1 <= i < entries.Length && l == DownTo(s, i + 1)
        invariant i >= 0 ==> entries[i].item.Some?
      {
        l := l + [entries[i].item.value];
        var next := Advance(i);
        NextDown(s, next + 1, i);
        i := next;
      }
      HeldEachOnce();
    }

    method ListRange(hi: nat, lo: int) returns (l: seq<Deep>)
      requires Valid() && -1 <= lo <= hi < entries.Length
      ensures Lists(l, entries[..], rank, hi, lo)
    {
      hide Loose, Severed;
      LooseLengths();
      l := [];
      var i: int := hi;
      while i > lo
        invariant lo <= i <= hi
        invariant Lists(l, entries[..], rank, hi, i)
      {
        assert entries[..][i] == entries[i];
        if entries[i].item.Some? {
          var depth := DepthOf(i);
          l := l + [Deep(depth, i)];
        }
        i := i - 1;
      }
    }

    /** Erases the listed slots from the end of the list to its start. */
    method EraseDeepestFirst(chosen: seq<Deep>)
      requires Valid() && Ascending(chosen) && DistinctSlots(chosen)
      requires forall e :: e in chosen ==>
                 e.slot < entries.Length && entries[e.slot].item.Some? && e.slot < |rank| && e.depth == rank[e.slot]
      modifies this`at, this`contents, this`numElements, entries
      ensures Valid() && contents == old(contents) - KeysOf(old(entries[..]), chosen)
    {
      hide Loose, Severed, Bounded, KeysOf;
      ghost var s := entries[..];
      var k := |chosen|;
      NoKeysOf(s, chosen);
      while k > 0
        invariant 0 <= k <= |chosen|
        invariant Valid() && contents == old(contents) - KeysOf(s, chosen[k..])
        invariant forall i :: 0 <= i < k ==> entries[chosen[i].slot].item == s[chosen[i].slot].item
      {
        k := k - 1;
        assert chosen[k] in chosen;
        KeysOfOneMore(s, chosen, k);
        MinusOneMore(old(contents), KeysOf(s, chosen[k + 1..]), s[chosen[k].slot].item.value.key);
        ghost var last := Remove(chosen[k].slot);
        forall i | 0 <= i < k ensures entries[chosen[i].slot].item == s[chosen[i].slot].item {
          assert chosen[i] in chosen && chosen[i].slot != chosen[k].slot && chosen[i].slot != last;
        }
      }
      assert chosen[0..] == chosen;
    }

    /** Lists the items of the range with their depths and erases them in order of falling depth. */
    method EraseListed(hi: nat, lo: int)
      requires Valid() && -1 <= lo < hi < entries.Length && entries[hi].item.Some?
      requires lo >= 0 ==> entries[lo].item.Some?
      modifies this`at, this`contents, this`numElements, entries
      ensures Valid() && contents == old(contents) - KeysIn(old(entries[..]), lo + 1, hi + 1)
    {
      hide JumpTable.JUMP_DISTANCES, Holds, Tagged, Severed, Policy.Valid, Jump, Bounded;
      ghost var s := entries[..];
      var listed := ListRange(hi, lo);
      ListsKeys(listed, s, rank, hi, lo);
      var chosen := SortByDepth(listed);
      assert KeysOf(s, chosen) == KeysOf(s, listed);
      EraseDeepestFirst(chosen);
    }

    method Clear()
      requires Valid()
      modifies this`at, this`contents, this`numElements, this`up, this`rank, this`bound, entries
      ensures Valid() && contents == map[]
    {
      hide JumpTable.JUMP_DISTANCES, Holds, Severed, Tagged, Policy.Valid, Bounded;
      if slots == 1 {
        NothingHeld(TableShape(), entries[..], at, contents, up, rank);
        return;
      }
      for i := 0 to entries.Length
        invariant forall q :: 0 <= q < i ==> entries[q] == Slot(EMPTY, None)
      {
        entries[i] := Slot(EMPTY, None);
      }
      assert entries[..] == BlankRun(entries.Length, EMPTY);
      numElements, at, contents := 0, map[], map[];
      up, rank, bound := AllOf(entries.Length, -1), AllOf(entries.Length, 0), 0;
      EmptyIsLinked<K, V>(TableShape(), entries.Length);
    }

    /** Removes the items from slot hi down to but not including slot lo, the deepest of each chain
        first: an item that moves up to fill a hole is then never one still to be removed.  Returns
        where iteration goes on: the first occupied slot from hi on, as an item may have moved there. */
    method EraseRange(hi: nat, lo: int) returns (pos: int)
      requires Valid() && -1 <= lo <= hi < entries.Length
      requires lo < hi ==> entries[hi].item.Some? && (lo >= 0 ==> entries[lo].item.Some?)
      modifies this`at, this`contents, this`numElements, this`up, this`rank, this`bound, entries
      ensures Valid()
      ensures contents == old(contents) - KeysIn(old(entries[..]), lo + 1, hi + 1)
      ensures if lo < hi then FirstFrom(entries[..], hi, pos) else pos == hi
    {
      hide FirstFrom, KeysIn, JumpTable.JUMP_DISTANCES, Holds, Tagged, Severed, Policy.Valid, Jump, Bounded;
      ghost var s := entries[..];
      if hi == lo {
        NoKeysIn(s, hi + 1);
        return hi;
      }
      var second := Advance(hi);
      if second == lo {
        OneKeyIn(s, lo + 1, hi);
        ghost var last;
        pos, last := EraseAt(hi);
        return;
      }
      var first := Advance(entries.Length);
      if first == hi && lo == -1 {
        AllHeldBelow(s, at, contents, hi);
        Clear();
        NothingLeft(entries[..], at, contents, hi);
        return -1;
      }
      EraseListed(hi, lo);
      pos := GoOn(hi);
    }

    method EraseKey(key: K) returns (count: nat)
      requires Valid()
      modifies this`at, this`contents, this`numElements, entries
      ensures Valid() && contents == old(contents) - {key}
      ensures count == if key in old(contents) then 1 else 0
    {
      hide Loose, Severed, Bounded;
      var p := Find(key);
      if p < 0 {
        return 0;
      }
      ghost var last := Remove(p);
      count := 1;
    }

    method Perform(op: MapSpec.Op<K, V>) returns (ok: bool, answer: MapSpec.Answer<V>)
      requires Valid()
      modifies this, entries
      ensures fresh(entries) || entries == old(entries)
      ensures ok ==> Valid() && contents == MapSpec.Next(old(contents), op)
      ensures ok ==> answer == MapSpec.Reply(old(contents), op)
      ensures ok ==> maxLoad == old(maxLoad) && lazyBuckets <= old(lazyBuckets)
      ensures !ok ==> old(OpRefused(policy, hash, maxBuckets, lazyBuckets, maxLoad, contents, op))
      ensures old(EnoughFor(|contents| + MapSpec.AddsOne(op)) && OpFits(policy, maxBuckets, maxLoad, op, |contents|))
              ==> ok
    {
      hide Loose, Severed, Bounded, Enough, RefusedKeys, Grants, BucketsFor;
      LooseFacts();
      ghost var from, lazy, load, m := slots, lazyBuckets, maxLoad, contents;
      ok, answer := true, MapSpec.Done;
      match op {
        case Emplace(x) =>
          var pos, inserted;
          ok, pos, inserted := Emplace(x);
          if !ok {
            RefusedStill<K, V>(policy, hash, maxBuckets, lazy, load, m.Keys + {x.key}, from, lazy, m.Keys + {x.key}, 1);
          }
          answer := MapSpec.Inserted(inserted);
        case Erase(key) =>
          var count := EraseKey(key);
          answer := MapSpec.Erased(count);
        case Find(key) =>
          var pos := Find(key);
          answer := MapSpec.Found(if pos < 0 then None else Some(entries[pos].item.value.value));
        case Clear =>
          Clear();
        case Rehash(n) =>
          ok := Rehash(n);
      }
    }

    /** One of the operations, on the map that the ones before it lead to, is refused. */
    ghost predicate RunRefused(ops: seq<MapSpec.Op<K, V>>)
      requires maxLoad > 0.0
      reads `contents, `lazyBuckets, `maxLoad
    {
      exists i :: 0 <= i < |ops| &&
        OpRefused(policy, hash, maxBuckets, lazyBuckets, maxLoad, MapSpec.After(contents, ops[..i]), ops[i])
    }

    lemma Loaded()
      requires Valid()
      ensures maxLoad > 0.0
    {
    }

    /** Every run of operations answers, and ends up, exactly as the same run on a map. */
    method Run(ops: seq<MapSpec.Op<K, V>>) returns (ok: bool, answers: seq<MapSpec.Answer<V>>)
      requires Valid()
      modifies this, entries
      ensures ok ==> Valid() && contents == MapSpec.After(old(contents), ops)
      ensures ok ==> answers == MapSpec.Replies(old(contents), ops)
      ensures old(RunFits(Bytell, policy, maxBuckets, lazyBuckets, maxLoad, |contents|, ops)) ==> ok
      ensures !ok ==> old(RunRefused(ops))
    {
      hide Valid, Enough, OpFits, RunFits, MapSpec.After, MapSpec.Replies, MapSpec.Adds, OpRefused;
      Loaded();
      ghost var lazy, load := lazyBuckets, maxLoad;
      answers := [];
      ok := true;
      MapSpec.Nothing(contents);
      assert ops[..0] == [];
      for i := 0 to |ops|
        invariant fresh(entries) || entries == old(entries)
        invariant Valid() && contents == MapSpec.After(old(contents), ops[..i])
        invariant answers == MapSpec.Replies(old(contents), ops[..i])
        invariant |contents| <= old(|contents|) + MapSpec.Adds(ops[..i])
        invariant maxLoad == old(maxLoad) && lazyBuckets <= old(lazyBuckets)
      {
        MapSpec.OneMore(old(contents), ops, i);
        MapSpec.AtMostAdded(contents, ops[i]);
        MapSpec.AddsSoFar(ops, i);
        if old(RunFits(Bytell, policy, maxBuckets, lazyBuckets, maxLoad, |contents|, ops)) {
          StepFits(Bytell, policy, maxBuckets, old(lazyBuckets), maxLoad, old(|contents|), ops, i, lazyBuckets,
                   |contents|);
        }
        var answer;
        ghost var m, lazy' := contents, lazyBuckets;
        ok, answer := Perform(ops[i]);
        if !ok {
          OpStillRefused(policy, hash, maxBuckets, lazy', load, m, ops[i], lazy);
          return;
        }
        answers := answers + [answer];
      }
      assert ops[..|ops|] == ops;
    }
  }

  lemma KeyIsFull<K, V>(sh: Shape<K>, s: seq<Slot<K, V>>, at: map<K, nat>, m: map<K, V>, key: K)
    requires Holds(s, at, m) && key in m
    ensures key in at && Full(sh, s, at[key], sh.Home(key))
  {
  }

  /** The root of a chain with another slot links on. */
  lemma RootGoesOn<K, V>(sh: Shape<K>, s: seq<Slot<K, V>>, up: seq<int>, rank: seq<nat>, root: nat, q: nat)
    requires Linked(sh, s, up, rank) && Full(sh, s, q, root) && q != root
    ensures sh.Valid() && Full(sh, s, root, root) && Jump(s[root].tag) != 0
  {
    hide Policy.Valid, Jump, Fits;
    ChainHasRoot(sh, s, up, rank, root, q);
    if Jump(s[root].tag) == 0 {
      EndIsDeepest(sh, s, up, rank, root, root, q);
      OneSlotPerRank(sh, s, up, rank, root, root, q);
    }
  }

  /** No table holds two keys of one home together with a key at home in every slot that a link from
      there leads to: the chain of the first two has nowhere to go on to. */
  lemma NoTableHolds<K, V>(sh: Shape<K>, s: seq<Slot<K, V>>, at: map<K, nat>, m: map<K, V>, up: seq<int>,
                           rank: seq<nat>,
                           a: K, b: K, others: seq<K>)
    requires Linked(sh, s, up, rank) && Holds(s, at, m) && sh.jumps == JumpTable.JUMP_DISTANCES
    requires a != b && sh.Home(a) == sh.Home(b) && |others| == NUM_JUMPS == |sh.jumps|
    requires forall i :: 0 < i < NUM_JUMPS ==> sh.Home(others[i]) == sh.Hop(sh.Home(a), i)
    ensures !(a in m && b in m && forall i :: 0 < i < NUM_JUMPS ==> others[i] in m)
  {
    hide Severed, JumpTable.JUMP_DISTANCES, Policy.Valid, Jump, Holds;
    var root := sh.Home(a);
    if a in m && b in m && forall i :: 0 < i < NUM_JUMPS ==> others[i] in m {
      KeyIsFull(sh, s, at, m, a);
      KeyIsFull(sh, s, at, m, b);
      SlotsApart(s, at, m, a, b);
      RootGoesOn(sh, s, up, rank, root, if at[a] == root then at[b] else at[a]);
      NextInChain(sh, s, up, rank, root, root);
      var j := Jump(s[root].tag);
      KeyIsFull(sh, s, at, m, others[j]);
      ChainHasRoot(sh, s, up, rank, sh.Hop(root, j), at[others[j]]);
    }
  }

  lemma HopIsHome<K>(sh: Shape<K>, h: nat, j: nat)
    requires sh.Valid() && j < NUM_JUMPS
    ensures sh.Hop(h % sh.slots, j) == (h + sh.jumps[j]) % sh.slots
  {
    ModOfSum(h, sh.jumps[j], sh.slots);
  }
}
