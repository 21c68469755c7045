/** When a Bytell table cannot take a key: no slot is free that a link could lead to. */
module Jamming {
  import opened Arithmetic
  import opened Slots
  import opened HashPolicy
  import opened Chains
  import opened Growth
  import JumpTable
  import MapSpec

  /** No link from p leads to an empty slot. */
  ghost predicate Stuck<K, V>(sh: Shape<K>, s: seq<Slot<K, V>>, p: nat) {
    |sh.jumps| == NUM_JUMPS && forall i :: 0 < i < NUM_JUMPS ==> sh.Hop(p, i) < |s| && s[sh.Hop(p, i)].tag != EMPTY
  }

  lemma FreeLink<K, V>(sh: Shape<K>, s: seq<Slot<K, V>>, p: nat, j: nat)
    requires 0 < j < NUM_JUMPS == |sh.jumps| && sh.slots >= 1 && sh.Hop(p, j) < |s| && s[sh.Hop(p, j)].tag == EMPTY
    ensures !Stuck(sh, s, p)
  {
  }

  /** The slots the first k links from p lead to. */
  ghost function Reached<K>(sh: Shape<K>, p: nat, k: nat): set<nat>
    requires k < |sh.jumps|
  {
    if k == 0 then {} else Reached(sh, p, k - 1) + {sh.Hop(p, k)}
  }

  lemma HopsApart<K>(sh: Shape<K>, p: nat, i: nat, j: nat)
    requires sh.Valid() && sh.jumps == JumpTable.JUMP_DISTANCES && i < j < NUM_JUMPS && sh.jumps[j] < sh.slots
    ensures sh.Hop(p, i) != sh.Hop(p, j)
  {
    hide JumpTable.JUMP_DISTANCES;
    JumpTable.JumpsGrow(i, j);
    DistinctMod(p + sh.jumps[i], p + sh.jumps[j], sh.slots);
  }

  /** Links shorter than the table lead to different slots. */
  lemma {:induction false} ReachedCount<K>(sh: Shape<K>, p: nat, k: nat)
    requires sh.Valid() && sh.jumps == JumpTable.JUMP_DISTANCES && k < NUM_JUMPS && sh.jumps[k] < sh.slots
    ensures |Reached(sh, p, k)| == k
    ensures forall q :: q in Reached(sh, p, k) ==> exists i :: 0 < i <= k && q == sh.Hop(p, i)
  {
    hide JumpTable.JUMP_DISTANCES, Policy.Valid;
    if k > 0 {
      JumpTable.JumpsGrow(k - 1, k);
      ReachedCount(sh, p, k - 1);
      forall i | 0 < i < k ensures sh.Hop(p, i) != sh.Hop(p, k) { HopsApart(sh, p, i, k); }
      assert sh.Hop(p, k) !in Reached(sh, p, k - 1);
      forall q | q in Reached(sh, p, k) ensures exists i :: 0 < i <= k && q == sh.Hop(p, i) {
        if q == sh.Hop(p, k) {
        } else {
          var i :| 0 < i <= k - 1 && q == sh.Hop(p, i);
        }
      }
    }
  }

  /** When no link from p leads to an empty slot, the table is too small for what it holds. */
  lemma NoFreeSlot<K, V>(sh: Shape<K>, s: seq<Slot<K, V>>, at: map<K, nat>, m: map<K, V>, up: seq<int>, rank: seq<nat>,
                         kept: int, tail: int, hole: int, p: nat, load: real)
    requires Severed(sh, s, up, rank, kept, tail, hole) && Holds(s, at, m) && sh.jumps == JumpTable.JUMP_DISTANCES
    requires Stuck(sh, s, p)
    ensures !Roomy(Bytell, load, |m|, sh.slots)
  {
    hide Holds, JumpTable.JUMP_DISTANCES, Policy.Valid, Reached;
    var n := |m|;
    if Roomy(Bytell, load, n, sh.slots) {
      var spots := Reached(sh, p, n + 2);
      ReachedCount(sh, p, n + 2);
      forall q | q in spots - {kept} ensures q < |s| && s[q].item.Some? {
        assert Fits(sh, s, up, rank, kept, tail, hole, q);
      }
      assert |spots| <= |spots - {kept}| + 1 by { assert spots <= (spots - {kept}) + {kept}; }
      OccupiedCount(s, at, m, spots - {kept});
    }
  }

  lemma HopInRange<K>(sh: Shape<K>, p: nat, j: nat)
    requires sh.Valid() && j < NUM_JUMPS
    ensures sh.Hop(p, j) < sh.slots
  {
  }

  /** Two of the keys have the same home. */
  ghost predicate Collide<K>(sh: Shape<K>, keys: set<K>)
    requires sh.slots >= 1
  {
    exists a, b :: a in keys && b in keys && a != b && sh.Home(a) == sh.Home(b)
  }

  /** An arrangement of a map in which a chain, possibly one that is being moved, has come to slot p. */
  datatype Jam<K, V> = Jam(s: seq<Slot<K, V>>, at: map<K, nat>, m: map<K, V>, up: seq<int>, rank: seq<nat>, kept: int,
                           tail: int, hole: int, p: nat)

  ghost predicate Jammed<K, V>(sh: Shape<K>, keys: set<K>, jam: Jam<K, V>) {
    && Severed(sh, jam.s, jam.up, jam.rank, jam.kept, jam.tail, jam.hole) && Holds(jam.s, jam.at, jam.m)
    && jam.m.Keys < keys && jam.p < |jam.s| && jam.s[jam.p].item.Some? && Stuck(sh, jam.s, jam.p)
  }

  /** Some arrangement of some of the keys has a chain that cannot go on. */
  ghost predicate Jams<K(!new), V(!new)>(sh: Shape<K>, keys: set<K>) {
    sh.slots >= 1 && Collide(sh, keys) && exists jam: Jam<K, V> :: Jammed(sh, keys, jam)
  }

  /** The sizes at which a table with the keys is over its load or may find no free slot. */
  ghost function TooSmall<K(!new), V(!new)>(policy: Policy, hash: K -> nat, load: real, keys: set<K>): iset<nat> {
    iset slots: nat | slots < 2 || !Carries(load, |keys|, slots) ||
      Jams<K, V>(Shape(policy, hash, slots, JumpTable.JUMP_DISTANCES), keys)
  }

  lemma JamsMore<K(!new), V(!new)>(sh: Shape<K>, keys: set<K>, more: set<K>)
    requires Jams<K, V>(sh, keys) && keys <= more
    ensures Jams<K, V>(sh, more)
  {
    hide Severed, Holds, Stuck;
    var jam: Jam<K, V> :| Jammed(sh, keys, jam);
    assert Jammed(sh, more, jam);
  }

  lemma TooSmallMore<K(!new), V(!new)>(policy: Policy, hash: K -> nat, load: real, keys: set<K>, more: set<K>)
    requires keys <= more
    ensures TooSmall<K, V>(policy, hash, load, keys) <= TooSmall<K, V>(policy, hash, load, more)
  {
    hide Jams;
    SubsetCount(keys, more);
    forall slots: nat | slots in TooSmall<K, V>(policy, hash, load, keys)
      ensures slots in TooSmall<K, V>(policy, hash, load, more)
    {
      var sh := Shape(policy, hash, slots, JumpTable.JUMP_DISTANCES);
      if Jams<K, V>(sh, keys) { JamsMore<K, V>(sh, keys, more); }
    }
  }

  lemma JamIsNotRoomy<K(!new), V(!new)>(sh: Shape<K>, keys: set<K>, load: real)
    requires keys != {} && sh.jumps == JumpTable.JUMP_DISTANCES && Jams<K, V>(sh, keys)
    ensures !Roomy(Bytell, load, |keys| - 1, sh.slots)
  {
    hide Severed, Holds, Stuck, JumpTable.JUMP_DISTANCES, Roomy;
    var jam: Jam<K, V> :| Jammed(sh, keys, jam);
    NoFreeSlot(sh, jam.s, jam.at, jam.m, jam.up, jam.rank, jam.kept, jam.tail, jam.hole, jam.p, load);
    KeysCount(jam.m);
    var k :| k in keys && k !in jam.m.Keys;
    SubsetCount(jam.m.Keys, keys - {k});
    if Roomy(Bytell, load, |keys| - 1, sh.slots) { RoomyForLess(Bytell, load, |keys| - 1, sh.slots, |jam.m|); }
  }

  lemma TooSmallIsNotRoomy<K(!new), V(!new)>(policy: Policy, hash: K -> nat, load: real, keys: set<K>, slots: nat)
    requires keys != {} && slots in TooSmall<K, V>(policy, hash, load, keys)
    ensures !Roomy(Bytell, load, |keys| - 1, slots)
  {
    hide JumpTable.JUMP_DISTANCES, Jams;
    var sh := Shape(policy, hash, slots, JumpTable.JUMP_DISTANCES);
    if Jams<K, V>(sh, keys) { JamIsNotRoomy<K, V>(sh, keys, load); }
  }

  lemma CollideMore<K>(sh: Shape<K>, keys: set<K>, a: K, b: K)
    requires sh.slots >= 1 && a in keys && b in keys && a != b && sh.Home(a) == sh.Home(b)
    ensures Collide(sh, keys)
  {
  }

  /** A chain that cannot go on, while two keys collide and another one is still to come. */
  lemma IsJam<K(!new), V(!new)>(sh: Shape<K>, keys: set<K>, jam: Jam<K, V>)
    requires sh.slots >= 1 && Collide(sh, keys) && Jammed(sh, keys, jam)
    ensures Jams<K, V>(sh, keys)
  {
  }

  /** The search from an occupied slot of an arrangement of the keys is stuck. */
  lemma StuckIsJam<K(!new), V(!new)>(sh: Shape<K>, s: seq<Slot<K, V>>, at: map<K, nat>, m: map<K, V>, up: seq<int>,
                                     rank: seq<nat>, kept: int, tail: int, hole: int, p: nat, key: K)
    requires Severed(sh, s, up, rank, kept, tail, hole) && Holds(s, at, m) && key !in m
    requires p < |s| && s[p].item.Some? && Stuck(sh, s, p)
    requires sh.slots >= 1 && Collide(sh, m.Keys + {key})
    ensures Jams<K, V>(sh, m.Keys + {key})
  {
    hide Severed, Holds, Stuck, Collide;
    IsJam(sh, m.Keys + {key}, Jam(s, at, m, up, rank, kept, tail, hole, p));
  }

  /** A key that belongs behind the end of a chain has the home of the item there. */
  lemma EndCollides<K, V>(sh: Shape<K>, s: seq<Slot<K, V>>, at: map<K, nat>, m: map<K, V>, p: nat, key: K)
    requires sh.slots >= 1 && Holds(s, at, m) && Full(sh, s, p, sh.Home(key)) && key !in m
    ensures Collide(sh, m.Keys + {key})
  {
    CollideMore(sh, m.Keys + {key}, key, s[p].item.value.key);
  }

  /** A list entry has the home of the root of its chain. */
  lemma ChainCollides<K, V>(sh: Shape<K>, s: seq<Slot<K, V>>, at: map<K, nat>, m: map<K, V>, up: seq<int>,
                            rank: seq<nat>, b: nat, key: K)
    requires Linked(sh, s, up, rank) && Holds(s, at, m) && b < |s| && s[b].item.Some? && !IsDirect(s[b].tag)
    requires sh.slots >= 1
    ensures Collide(sh, m.Keys + {key})
  {
    hide Severed;
    var a := s[b].item.value.key;
    ChainHasRoot(sh, s, up, rank, sh.Home(a), b);
    CollideMore(sh, m.Keys + {key}, a, s[sh.Home(a)].item.value.key);
  }

  lemma TailIsFull<K, V>(sh: Shape<K>, s: seq<Slot<K, V>>, up: seq<int>, rank: seq<nat>, kept: int, tail: nat,
                         hole: int)
    requires Severed(sh, s, up, rank, kept, tail, hole)
    ensures tail < |s| && s[tail].item.Some?
  {
  }

  /** From the given size on, growing comes to a size that is too small for the keys and cannot grow. */
  ghost predicate RefusedKeys<K(!new), V(!new)>(policy: Policy, hash: K -> nat, maxBuckets: nat, lazy: nat, load: real,
                                                keys: set<K>, from: nat)
    requires load > 0.0
  {
    keys != {} &&
    Refused(Bytell, policy, maxBuckets, lazy, load, |keys| - 1, from, TooSmall<K, V>(policy, hash, load, keys))
  }

  lemma RefusedStill<K(!new), V(!new)>(policy: Policy, hash: K -> nat, maxBuckets: nat, lazy: nat, load: real,
                                       keys: set<K>, from: nat, lazy': nat, keys': set<K>, from': nat)
    requires load > 0.0 && RefusedKeys<K, V>(policy, hash, maxBuckets, lazy, load, keys, from)
    requires lazy <= lazy' && keys <= keys' && from' <= from
    ensures RefusedKeys<K, V>(policy, hash, maxBuckets, lazy', load, keys', from')
  {
    hide TooSmall, Refused;
    SubsetCount(keys, keys');
    TooSmallMore<K, V>(policy, hash, load, keys, keys');
    RefusedMore(Bytell, policy, maxBuckets, lazy, load, |keys| - 1, from, TooSmall<K, V>(policy, hash, load, keys),
                lazy', |keys'| - 1, from', TooSmall<K, V>(policy, hash, load, keys'));
  }

  /** Memory that is enough for any keys is enough for these. */
  lemma EnoughForKeys<K(!new), V(!new)>(policy: Policy, hash: K -> nat, maxBuckets: nat, lazy: nat, load: real,
                                        keys: set<K>, from: nat)
    requires load > 0.0 && Enough(Bytell, policy, maxBuckets, lazy, load, |keys|)
    ensures !RefusedKeys<K, V>(policy, hash, maxBuckets, lazy, load, keys, from)
  {
    hide TooSmall, Refused, Enough, Roomy;
    if keys != {} {
      var tooSmall := TooSmall<K, V>(policy, hash, load, keys);
      forall slots: nat | slots in tooSmall ensures !Roomy(Bytell, load, |keys| - 1, slots) {
        TooSmallIsNotRoomy<K, V>(policy, hash, load, keys, slots);
      }
      EnoughIsNotRefused(Bytell, policy, maxBuckets, lazy, load, |keys| - 1, from, tooSmall);
    }
  }

  /** Growing is refused, or what it calls for is. */
  lemma GrowthRefused<K(!new), V(!new)>(policy: Policy, hash: K -> nat, maxBuckets: nat, lazy: nat, load: real,
                                        keys: set<K>, key: K, slots: nat)
    requires load > 0.0 && policy.admits(slots) && 0 < slots <= maxBuckets && key !in keys
    requires slots in TooSmall<K, V>(policy, hash, load, keys + {key})
    requires || !Grants(policy, maxBuckets, Request(Bytell, lazy, load, |keys|, slots))
             || RefusedKeys<K, V>(policy, hash, maxBuckets, lazy, load, keys, slots)
    ensures RefusedKeys<K, V>(policy, hash, maxBuckets, lazy, load, keys + {key}, slots)
  {
    hide TooSmall, Grants, Request;
    if RefusedKeys<K, V>(policy, hash, maxBuckets, lazy, load, keys, slots) {
      RefusedStill<K, V>(policy, hash, maxBuckets, lazy, load, keys, slots, lazy, keys + {key}, slots);
    }
  }

  /** The memory there is refuses the operation on a table that stands for the map. */
  ghost predicate OpRefused<K(!new), V(!new)>(policy: Policy, hash: K -> nat, maxBuckets: nat, lazy: nat, load: real,
                                              m: map<K, V>, op: MapSpec.Op<K, V>)
    requires load > 0.0
  {
    match op
    case Emplace(x) =>
      x.key !in m && RefusedKeys<K, V>(policy, hash, maxBuckets, lazy, load, m.Keys + {x.key}, 1)
    case Rehash(n) =>
      || !Grants(policy, maxBuckets, Max(n, BucketsFor(|m|, load)))
      || RefusedKeys<K, V>(policy, hash, maxBuckets, lazy, load, m.Keys, n)
    case _ => false
  }

  lemma OpStillRefused<K(!new), V(!new)>(policy: Policy, hash: K -> nat, maxBuckets: nat, lazy: nat, load: real,
                                         m: map<K, V>, op: MapSpec.Op<K, V>, lazy': nat)
    requires load > 0.0 && OpRefused(policy, hash, maxBuckets, lazy, load, m, op) && lazy <= lazy'
    ensures OpRefused(policy, hash, maxBuckets, lazy', load, m, op)
  {
    hide RefusedKeys, Grants, BucketsFor;
    match op
    case Emplace(x) =>
      RefusedStill<K, V>(policy, hash, maxBuckets, lazy, load, m.Keys + {x.key}, 1, lazy', m.Keys + {x.key}, 1);
    case Rehash(n) =>
      if RefusedKeys<K, V>(policy, hash, maxBuckets, lazy, load, m.Keys, n) {
        RefusedStill<K, V>(policy, hash, maxBuckets, lazy, load, m.Keys, n, lazy', m.Keys, n);
      }
    case _ =>
  }
}
