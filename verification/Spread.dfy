/** Keys whose homes are all different: the tables take as many of them as the load allows. */
module Spread {
  import opened Arithmetic
  import opened Sequences
  import opened Slots
  import opened HashPolicy
  import opened Growth
  import opened Crowding
  import opened Jamming
  import JumpTable
  import RobinHood
  import Overfull
  import Chains
  import FlatHashTable
  import BytellHashTable

  /** No two keys have the same home in a table of this many slots. */
  ghost predicate Apart<K>(policy: Policy, hash: K -> nat, keys: set<K>, slots: nat) {
    forall a, b :: a in keys && b in keys && a != b ==>
      policy.indexForHash(hash(a), slots) != policy.indexForHash(hash(b), slots)
  }

  lemma ApartFewer<K>(policy: Policy, hash: K -> nat, keys: set<K>, more: set<K>, slots: nat)
    requires keys <= more && Apart(policy, hash, more, slots)
    ensures Apart(policy, hash, keys, slots)
  {
  }

  /** Keys that are apart crowd nowhere. */
  lemma ApartTakes<K>(setting: Setting<K>, keys: set<K>, slots: nat)
    requires slots >= 2 && Carries(setting.load, |keys|, slots)
    requires Apart(setting.policy, setting.hash, keys, slots)
    ensures setting.Takes(keys, slots)
  {
    var sh := setting.ShapeAt(slots);
    hide Log2;
    forall lo: nat, hi: nat | lo <= hi ensures |HomedIn(sh, keys, lo, hi)| <= hi - lo + sh.maxLookups {
      var ks := HomedIn(sh, keys, lo, hi);
      var homes := map k | k in ks :: sh.Home(k);
      Injected(ks, homes, lo, hi + 1);
    }
  }

  /** From every admitted size below top a table can grow. */
  ghost predicate GrowsBelow<K>(setting: Setting<K>, lazy: nat, top: nat) {
    forall s: nat :: setting.policy.admits(s) && 0 < s < top ==> setting.CanGrow(lazy, s) && setting.CanGrow(0, s)
  }

  lemma AskedSome<K>(setting: Setting<K>, lazy: nat, slots: nat)
    ensures setting.Asked(lazy, slots) > 0
  {
  }

  /** Keys that are apart in every size from top on go into a table that can grow that far. */
  lemma {:induction false} ApartGoIn<K>(setting: Setting<K>, lazy: nat, keys: set<K>, slots: nat, top: nat)
    requires setting.policy.Valid() && setting.policy.admits(slots) && setting.load > 0.0
    requires 0 < slots <= setting.maxBuckets <= setting.policy.limit && 2 <= top
    requires GrowsBelow(setting, lazy, top)
    requires Carries(setting.load, |keys|, top)
    requires forall s: nat :: setting.policy.admits(s) && top <= s <= setting.maxBuckets ==>
               Apart(setting.policy, setting.hash, keys, s)
    ensures setting.SlotsFor(lazy, keys, slots) > 0
    decreases setting.maxBuckets - slots
  {
    hide Policy.Valid, Setting.Takes, Setting.Asked;
    if slots >= top {
      CarriesLess(setting.load, |keys|, top, |keys|, slots);
      ApartTakes(setting, keys, slots);
    } else if !setting.Takes(keys, slots) {
      assert setting.CanGrow(lazy, slots);
      AskedSome(setting, lazy, slots);
      SizeFits(setting.policy, setting.Asked(lazy, slots));
      ApartGoIn(setting, 0, keys, setting.Larger(lazy, slots), top);
    }
  }

  lemma DoubleBelow(j: nat, k: nat)
    requires k >= 2 && Pow2(j) < Pow2(k)
    ensures 2 * Pow2(j) <= Pow2(k) && 4 <= Pow2(k)
  {
    if j >= k { Pow2Grows(k, j); }
    Pow2Grows(j, k - 1);
    Pow2Grows(2, k);
    assert Pow2(2) == 4;
  }

  lemma GrantsOne(policy: Policy, maxBuckets: nat, top: nat, m: nat)
    requires Grants(policy, maxBuckets, top) && 0 < m <= top
    ensures policy.nextSizeOver(m) <= maxBuckets && m <= maxBuckets
  {
  }

  lemma NextPowerAbove(policy: Policy, m: nat)
    requires policy == PowerOfTwo() || policy == Fibonacci()
    ensures policy.nextSizeOver(m) >= m
  {
  }

  lemma PowerGrows<K>(setting: Setting<K>, lazy: nat, k: nat, j: nat)
    requires setting.policy == PowerOfTwo() || setting.policy == Fibonacci()
    requires k >= 2 && lazy <= Pow2(k) <= setting.maxBuckets && Pow2(j) < Pow2(k)
    requires Grants(setting.policy, setting.maxBuckets, Pow2(k))
    ensures setting.CanGrow(lazy, Pow2(j))
  {
    hide Grants, Pow2, PowerOfTwo, Fibonacci;
    DoubleBelow(j, k);
    var m := setting.Asked(lazy, Pow2(j));
    GrantsOne(setting.policy, setting.maxBuckets, Pow2(k), m);
    NextPowerAbove(setting.policy, m);
  }

  lemma PowersGrow<K>(setting: Setting<K>, lazy: nat, k: nat)
    requires setting.policy == PowerOfTwo() || setting.policy == Fibonacci()
    requires k >= 2 && lazy <= Pow2(k) <= setting.maxBuckets
    ensures GrowsBelow(setting, lazy, Pow2(k))
  {
    hide Pow2, Grants;
    PowerOfTwoFits(setting.policy, k, setting.maxBuckets);
    forall s: nat | setting.policy.admits(s) && 0 < s < Pow2(k)
      ensures setting.CanGrow(lazy, s) && setting.CanGrow(0, s)
    {
      AdmitsPowers(setting.policy, s);
      PowerGrows(setting, lazy, k, CeilLog2(s, 0));
      PowerGrows(setting, 0, k, CeilLog2(s, 0));
    }
  }

  ghost function Among<K>(keys: seq<K>): set<K> { set k | k in keys }

  lemma AmongOneMore<K>(keys: seq<K>, i: nat)
    requires i < |keys|
    ensures Among(keys[..i + 1]) == Among(keys[..i]) + {keys[i]}
    ensures Among(keys[..i + 1]) <= Among(keys)
  {
    assert keys[..i + 1] == keys[..i] + [keys[i]];
  }

  lemma {:induction false} AmongCount<K>(keys: seq<K>)
    ensures |Among(keys)| <= |keys|
    ensures (forall i, j :: 0 <= i < j < |keys| ==> keys[i] != keys[j]) ==> |Among(keys)| == |keys|
  {
    if keys != [] {
      var n := |keys| - 1;
      AmongCount(keys[..n]);
      AmongOneMore(keys, n);
      assert keys[..n + 1] == keys;
    }
  }

  /** The keys are apart in every size from top on that there is memory for. */
  ghost predicate ApartFrom<K>(policy: Policy, hash: K -> nat, maxBuckets: nat, keys: set<K>, top: nat) {
    forall s: nat :: policy.admits(s) && top <= s <= maxBuckets ==> Apart(policy, hash, keys, s)
  }

  /** A table that holds some of the keys takes the next one. */
  lemma NextGoesIn<K>(setting: Setting<K>, lazy: nat, some: set<K>, all: set<K>, slots: nat, top: nat)
    requires setting.policy.Valid() && setting.policy.admits(slots) && setting.load > 0.0
    requires 0 < slots <= setting.maxBuckets <= setting.policy.limit && 2 <= top
    requires GrowsBelow(setting, lazy, top)
    requires some <= all && Carries(setting.load, |all|, top)
    requires ApartFrom(setting.policy, setting.hash, setting.maxBuckets, all, top)
    ensures setting.SlotsFor(lazy, some, slots) > 0
  {
    hide Policy.Valid, Setting.SlotsFor, Apart, GrowsBelow, Carries;
    SubsetCount(some, all);
    CarriesLess(setting.load, |all|, top, |some|, top);
    forall s: nat | setting.policy.admits(s) && top <= s <= setting.maxBuckets
      ensures Apart(setting.policy, setting.hash, some, s)
    {
      ApartFewer(setting.policy, setting.hash, some, all, s);
    }
    ApartGoIn(setting, lazy, some, slots, top);
  }

  /** The keys are apart from top on and within the load of top, and a new flat table can grow that far. */
  ghost predicate GoIntoFlat<K>(policy: Policy, hash: K -> nat, maxBuckets: nat, buckets: nat, keys: seq<K>, top: nat) {
    && GrowsBelow(Setting(policy, hash, maxBuckets, 0.5), 4 * buckets, top)
    && 2 * |keys| <= top && ApartFrom(policy, hash, maxBuckets, Among(keys), top)
  }

  lemma FlatTakesNext<K>(policy: Policy, hash: K -> nat, maxBuckets: nat, buckets: nat, keys: seq<K>, top: nat,
                         lazy: nat, some: set<K>, slots: nat)
    requires GoIntoFlat(policy, hash, maxBuckets, buckets, keys, top) && some <= Among(keys)
    requires policy.Valid() && policy.admits(slots) && 0 < slots <= maxBuckets <= policy.limit && 2 <= top
    requires lazy == 4 * buckets || lazy == 0
    ensures Setting(policy, hash, maxBuckets, 0.5).SlotsFor(lazy, some, slots) > 0
  {
    hide Policy.Valid, Setting.SlotsFor, Setting.CanGrow, ApartFrom;
    AmongCount(keys);
    NextGoesIn(Setting(policy, hash, maxBuckets, 0.5), lazy, some, Among(keys), slots, top);
  }

  lemma NoneAmong<K>(keys: seq<K>)
    ensures Among(keys[..0]) == {}
  {
  }

  /** Emplaces the keys one after the other into a new flat table. */
  method FillFlatApart<K(==)>(policy: Policy, hash: K -> nat, maxBuckets: nat, buckets: nat, keys: seq<K>,
                              ghost top: nat)
      returns (ok: bool, table: FlatHashTable.FlatTable<K, nat>)
    requires policy.Valid() && 1 <= maxBuckets <= policy.limit && 2 <= top
    ensures ok ==> table.Valid() && table.contents.Keys == Among(keys)
    ensures ok ==> table.policy == policy && table.maxBuckets == maxBuckets && table.maxLoad == 0.5
    ensures GoIntoFlat(policy, hash, maxBuckets, buckets, keys, top) ==> ok
  {
    hide Policy.Valid, FlatHashTable.FlatTable.Valid, GoIntoFlat, Among, Setting.SlotsFor;
    table := new FlatHashTable.FlatTable<K, nat>(policy, hash, maxBuckets, buckets);
    NoneAmong(keys);
    for i := 0 to |keys|
      invariant fresh(table.entries) && table.Valid() && table.contents.Keys == Among(keys[..i])
      invariant table.lazyBuckets == 4 * buckets || table.lazyBuckets == 0
      invariant table.policy == policy && table.hash == hash && table.maxBuckets == maxBuckets && table.maxLoad == 0.5
    {
      AmongOneMore(keys, i);
      table.HasSlots();
      if GoIntoFlat(policy, hash, maxBuckets, buckets, keys, top) {
        FlatTakesNext(policy, hash, maxBuckets, buckets, keys, top, table.lazyBuckets, Among(keys[..i + 1]),
                      table.slots);
      }
      var pos, inserted;
      ok, pos, inserted := table.Emplace(Item(keys[i], i));
      if !ok {
        return;
      }
    }
    ok := true;
    assert keys[..|keys|] == keys;
  }

  /** From every admitted size below top a Bytell table with at most n items can grow. */
  ghost predicate BytellGrowsBelow(policy: Policy, maxBuckets: nat, lazy: nat, n: nat, top: nat) {
    forall s: nat :: policy.admits(s) && 0 < s < top ==>
      Grants(policy, maxBuckets, Request(Bytell, lazy, 0.9375, n, s))
  }

  lemma ApartDoNotJam<K(!new), V(!new)>(policy: Policy, hash: K -> nat, keys: set<K>, slots: nat)
    requires slots >= 2 && Carries(0.9375, |keys|, slots) && Apart(policy, hash, keys, slots)
    ensures slots !in TooSmall<K, V>(policy, hash, 0.9375, keys)
  {
    hide JumpTable.JUMP_DISTANCES, Jammed;
    var sh := Chains.Shape(policy, hash, slots, JumpTable.JUMP_DISTANCES);
    assert !Collide(sh, keys);
  }

  lemma GrantsFewer(policy: Policy, maxBuckets: nat, lazy: nat, n: nat, n': nat, slots: nat)
    requires Grants(policy, maxBuckets, Request(Bytell, lazy, 0.9375, n, slots)) && n' <= n
    ensures Grants(policy, maxBuckets, Request(Bytell, lazy, 0.9375, n', slots))
  {
    hide BucketsFor;
    BucketsForGrows(n', n, 0.9375);
  }

  /** Keys that are apart from top on, and any of them, are not refused. */
  lemma ApartNotRefused<K(!new), V(!new)>(policy: Policy, hash: K -> nat, maxBuckets: nat, lazy: nat, some: set<K>,
                                          all: set<K>, from: nat, top: nat)
    requires 2 <= top && some <= all && Carries(0.9375, |all|, top)
    requires BytellGrowsBelow(policy, maxBuckets, lazy, |all|, top) && ApartFrom(policy, hash, maxBuckets, all, top)
    ensures !RefusedKeys<K, V>(policy, hash, maxBuckets, lazy, 0.9375, some, from)
  {
    hide TooSmall, Grants, Request, Carries;
    if some != {} {
      SubsetCount(some, all);
      forall s: nat | s in TooSmall<K, V>(policy, hash, 0.9375, some) && 0 < s <= maxBuckets && policy.admits(s)
        ensures Grants(policy, maxBuckets, Request(Bytell, lazy, 0.9375, |some| - 1, s))
      {
        if s >= top {
          CarriesLess(0.9375, |all|, top, |some|, s);
          ApartFewer(policy, hash, some, all, s);
          ApartDoNotJam<K, V>(policy, hash, some, s);
        } else {
          GrantsFewer(policy, maxBuckets, lazy, |all|, |some| - 1, s);
        }
      }
    }
  }

  /** The same of a new Bytell table. */
  ghost predicate GoIntoBytell<K>(policy: Policy, hash: K -> nat, maxBuckets: nat, buckets: nat, keys: seq<K>, top: nat)
  {
    && BytellGrowsBelow(policy, maxBuckets, buckets, |keys|, top)
    && 16 * |keys| <= 15 * top && ApartFrom(policy, hash, maxBuckets, Among(keys), top)
  }

  lemma BytellTakesNext<K(!new), V(!new)>(policy: Policy, hash: K -> nat, maxBuckets: nat, buckets: nat, keys: seq<K>,
                                          top: nat, lazy: nat, some: set<K>, from: nat)
    requires GoIntoBytell(policy, hash, maxBuckets, buckets, keys, top) && some <= Among(keys)
    requires 2 <= top && lazy <= buckets
    ensures !RefusedKeys<K, V>(policy, hash, maxBuckets, lazy, 0.9375, some, from)
  {
    hide RefusedKeys, ApartFrom, BucketsFor;
    AmongCount(keys);
    var n := |Among(keys)|;
    BucketsForGrows(n, |keys|, 0.9375);
    ApartNotRefused<K, V>(policy, hash, maxBuckets, lazy, some, Among(keys), from, top);
  }

  /** Emplaces the keys one after the other into a new Bytell table. */
  method FillBytellApart<K(==, !new)>(policy: Policy, hash: K -> nat, maxBuckets: nat, blockSize: nat, buckets: nat,
                                      keys: seq<K>, ghost top: nat)
      returns (ok: bool, table: BytellHashTable.BytellTable<K, nat>)
    requires policy.Valid() && 1 <= maxBuckets <= policy.limit && 2 <= top
    requires blockSize >= BytellHashTable.MIN_BLOCK
    ensures ok ==> table.Valid() && table.contents.Keys == Among(keys)
    ensures ok ==> table.policy == policy && table.maxBuckets == maxBuckets
    ensures ok ==> Carries(0.9375, |table.contents|, table.slots)
    ensures GoIntoBytell(policy, hash, maxBuckets, buckets, keys, top) ==> ok
  {
    hide Policy.Valid, BytellHashTable.BytellTable.Valid, GoIntoBytell, Among, RefusedKeys, Carries;
    table := new BytellHashTable.BytellTable<K, nat>(policy, hash, maxBuckets, blockSize, buckets);
    NoneAmong(keys);
    CarriesNothing(0.9375, table.slots);
    for i := 0 to |keys|
      invariant fresh(table.entries) && table.Valid() && table.contents.Keys == Among(keys[..i])
      invariant table.lazyBuckets <= buckets && table.maxLoad == 0.9375
      invariant table.policy == policy && table.hash == hash && table.maxBuckets == maxBuckets
      invariant Carries(0.9375, |table.contents|, table.slots)
    {
      AmongOneMore(keys, i);
      if GoIntoBytell(policy, hash, maxBuckets, buckets, keys, top) {
        BytellTakesNext<K, nat>(policy, hash, maxBuckets, buckets, keys, top, table.lazyBuckets, Among(keys[..i + 1]),
                                table.slots);
      }
      var pos, inserted;
      ok, pos, inserted := table.Emplace(Item(keys[i], i));
      if !ok {
        return;
      }
    }
    ok := true;
    assert keys[..|keys|] == keys;
  }

  ghost predicate Different<K>(keys: seq<K>) {
    forall i, j :: 0 <= i < j < |keys| ==> keys[i] != keys[j]
  }

  /** Between two powers of two there is one admitted size. */
  lemma OnePower(policy: Policy, k: nat, slots: nat)
    requires (policy == PowerOfTwo() || policy == Fibonacci()) && policy.admits(slots) && slots < Pow2(k + 1)
    ensures slots <= Pow2(k)
  {
    AdmitsPowers(policy, slots);
    var j := CeilLog2(slots, 0);
    if j > k { Pow2Grows(k + 1, j); } else { Pow2Grows(j, k); }
  }

  lemma OnlyTop<K>(policy: Policy, hash: K -> nat, maxBuckets: nat, keys: set<K>, k: nat)
    requires policy == PowerOfTwo() || policy == Fibonacci()
    requires maxBuckets < Pow2(k + 1) && Apart(policy, hash, keys, Pow2(k))
    ensures ApartFrom(policy, hash, maxBuckets, keys, Pow2(k))
  {
    hide Apart, Pow2;
    forall s: nat | policy.admits(s) && Pow2(k) <= s <= maxBuckets ensures Apart(policy, hash, keys, s) {
      OnePower(policy, k, s);
    }
  }

  lemma FourAtLeast(k: nat)
    requires k >= 2
    ensures Pow2(k) >= 4
  {
    Pow2Grows(2, k);
    assert Pow2(2) == 4;
  }

  lemma FlatWithinLoad<K, V>(table: FlatHashTable.FlatTable<K, V>, k: nat)
    requires table.Valid() && (table.policy == PowerOfTwo() || table.policy == Fibonacci())
    requires table.maxLoad == 0.5 && table.maxBuckets < Pow2(k + 1)
    ensures 2 * |table.contents| <= Pow2(k)
  {
    hide Policy.Valid, RobinHood.Settled, Holds, Pow2, FlatHashTable.FlatTable.Loose;
    table.LooseFacts();
    OnePower(table.policy, k, table.slots);
  }

  /** Different keys that are apart in the largest size there is memory for go into a flat table exactly up
      to half of that size. */
  method EmplaceApartFlat<K(==)>(policy: Policy, hash: K -> nat, maxBuckets: nat, buckets: nat, k: nat, keys: seq<K>)
      returns (ok: bool)
    requires (policy == PowerOfTwo() || policy == Fibonacci()) && k >= 2 && Different(keys)
    requires 4 * buckets <= Pow2(k) <= maxBuckets <= policy.limit && maxBuckets < Pow2(k + 1)
    requires 2 * |keys| <= Pow2(k) ==> Apart(policy, hash, Among(keys), Pow2(k))
    ensures ok <==> 2 * |keys| <= Pow2(k)
  {
    hide Pow2, Among, Apart, Policy.Valid, FlatHashTable.FlatTable.Valid;
    Overfull.PoliciesValid(policy);
    FourAtLeast(k);
    if 2 * |keys| <= Pow2(k) {
      OnlyTop(policy, hash, maxBuckets, Among(keys), k);
      PowersGrow(Setting(policy, hash, maxBuckets, 0.5), 4 * buckets, k);
    }
    var table;
    ok, table := FillFlatApart(policy, hash, maxBuckets, buckets, keys, Pow2(k));
    if ok {
      AmongCount(keys);
      FlatWithinLoad(table, k);
      KeysCount(table.contents);
    }
  }

  lemma BytellSlots<K(!new), V(!new)>(table: BytellHashTable.BytellTable<K, V>, k: nat)
    requires table.Valid() && (table.policy == PowerOfTwo() || table.policy == Fibonacci())
    requires table.maxBuckets < Pow2(k + 1)
    ensures table.slots <= Pow2(k)
  {
    hide Policy.Valid, Chains.Severed, BytellHashTable.Bounded, Pow2, BytellHashTable.BytellTable.Loose;
    table.LooseFacts();
    OnePower(table.policy, k, table.slots);
  }

  lemma GrantsAll(policy: Policy, maxBuckets: nat, top: nat, m: nat)
    requires Grants(policy, maxBuckets, top) && m <= top
    ensures Grants(policy, maxBuckets, m)
  {
  }

  lemma BytellPowersGrow(policy: Policy, maxBuckets: nat, lazy: nat, n: nat, k: nat)
    requires (policy == PowerOfTwo() || policy == Fibonacci()) && k >= 4
    requires lazy <= Pow2(k) <= maxBuckets && 16 * n <= 15 * Pow2(k)
    ensures BytellGrowsBelow(policy, maxBuckets, lazy, n, Pow2(k))
  {
    hide Pow2, BucketsFor, Grants;
    PowerOfTwoFits(policy, k, maxBuckets);
    AtLeastSixteen(k);
    BucketsAtDefaultLoad(n, Pow2(k));
    forall s: nat | policy.admits(s) && 0 < s < Pow2(k)
      ensures Grants(policy, maxBuckets, Request(Bytell, lazy, 0.9375, n, s))
    {
      AdmitsPowers(policy, s);
      DoubleBelow(CeilLog2(s, 0), k);
      GrantsAll(policy, maxBuckets, Pow2(k), Request(Bytell, lazy, 0.9375, n, s));
    }
  }

  /** Likewise for a Bytell table, up to fifteen sixteenths of that size. */
  method EmplaceApartBytell<K(==, !new)>(policy: Policy, hash: K -> nat, maxBuckets: nat, blockSize: nat, buckets: nat,
                                         k: nat, keys: seq<K>)
      returns (ok: bool)
    requires (policy == PowerOfTwo() || policy == Fibonacci()) && k >= 4 && Different(keys)
    requires buckets <= Pow2(k) <= maxBuckets <= policy.limit && maxBuckets < Pow2(k + 1)
    requires 16 * |keys| <= 15 * Pow2(k) ==> Apart(policy, hash, Among(keys), Pow2(k))
    requires blockSize >= BytellHashTable.MIN_BLOCK
    ensures ok <==> 16 * |keys| <= 15 * Pow2(k)
  {
    hide Pow2, Among, Apart, Policy.Valid, BytellHashTable.BytellTable.Valid, BytellGrowsBelow;
    Overfull.PoliciesValid(policy);
    AtLeastSixteen(k);
    if 16 * |keys| <= 15 * Pow2(k) {
      OnlyTop(policy, hash, maxBuckets, Among(keys), k);
      BytellPowersGrow(policy, maxBuckets, buckets, |keys|, k);
    }
    var table;
    ok, table := FillBytellApart(policy, hash, maxBuckets, blockSize, buckets, keys, Pow2(k));
    if ok {
      AmongCount(keys);
      KeysCount(table.contents);
      BytellSlots(table, k);
    }
  }

  function Same(key: nat): nat { key }

  lemma NumbersApart(n: nat, slots: nat)
    requires 1 <= slots && n <= slots
    ensures Apart(PowerOfTwo(), Same, Among(Overfull.Numbers(n)), slots)
  {
    forall a | a in Among(Overfull.Numbers(n)) ensures PowerOfTwo().indexForHash(Same(a), slots) == a {
      assert a < n && a % slots == a;
    }
  }

  lemma NumbersDiffer(n: nat)
    ensures Different(Overfull.Numbers(n))
  {
  }

  /** The first n numbers, each its own hash, in tables of powers of two. */
  method EmplaceNumbers(maxBuckets: nat, blockSize: nat, k: nat, n: nat) returns (flat: bool, bytell: bool)
    requires k >= 4 && Pow2(k) <= maxBuckets <= PowerOfTwo().limit && maxBuckets < Pow2(k + 1)
    requires blockSize >= BytellHashTable.MIN_BLOCK
    ensures flat <==> 2 * n <= Pow2(k)
    ensures bytell <==> 16 * n <= 15 * Pow2(k)
  {
    hide Pow2, Among, Apart, PowerOfTwo, Different;
    var keys := Overfull.Numbers(n);
    if n <= Pow2(k) { NumbersApart(n, Pow2(k)); }
    NumbersDiffer(n);
    flat := EmplaceApartFlat(PowerOfTwo(), Same, maxBuckets, 0, k, keys);
    bytell := EmplaceApartBytell(PowerOfTwo(), Same, maxBuckets, blockSize, 0, k, keys);
  }
}
