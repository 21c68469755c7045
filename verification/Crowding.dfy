/** Which keys a flat table of a given size can hold, and which size it therefore ends up with. */
module Crowding {
  import opened Slots
  import opened HashPolicy
  import opened RobinHood
  import opened Growth
  import MapSpec

  /** The keys whose home is one of the slots from lo to hi. */
  ghost function HomedIn<K>(sh: Shape<K>, keys: set<K>, lo: nat, hi: nat): set<K>
    requires sh.slots >= 1
  {
    set k | k in keys && lo <= sh.Home(k) <= hi
  }

  /** More keys have their home from lo to hi than there are slots that are near enough to these homes. */
  ghost predicate Crowded<K>(sh: Shape<K>, keys: set<K>)
    requires sh.slots >= 1
  {
    exists lo: nat, hi: nat :: lo <= hi && |HomedIn(sh, keys, lo, hi)| > hi - lo + sh.maxLookups
  }

  lemma CrowdedMore<K>(sh: Shape<K>, keys: set<K>, more: set<K>)
    requires sh.slots >= 1 && keys <= more && Crowded(sh, keys)
    ensures Crowded(sh, more)
  {
    var lo: nat, hi: nat :| lo <= hi && |HomedIn(sh, keys, lo, hi)| > hi - lo + sh.maxLookups;
    SubsetCount(HomedIn(sh, keys, lo, hi), HomedIn(sh, more, lo, hi));
  }

  lemma CrowdedCount<K>(sh: Shape<K>, keys: set<K>)
    requires sh.slots >= 1 && Crowded(sh, keys)
    ensures |keys| > sh.maxLookups
  {
    var lo: nat, hi: nat :| lo <= hi && |HomedIn(sh, keys, lo, hi)| > hi - lo + sh.maxLookups;
    SubsetCount(HomedIn(sh, keys, lo, hi), keys);
  }

  lemma {:induction false} Injected<K>(ks: set<K>, at: map<K, nat>, lo: nat, hi: nat)
    requires lo <= hi && ks <= at.Keys && (forall k :: k in ks ==> lo <= at[k] < hi)
    requires forall k, k' :: k in ks && k' in ks && k != k' ==> at[k] != at[k']
    ensures |ks| <= hi - lo
    decreases hi
  {
    if lo == hi {
      assert ks == {};
    } else {
      var last := set k | k in ks && at[k] == hi - 1;
      if last == {} {
        assert forall k :: k in ks ==> k !in last;
        Injected(ks, at, lo, hi - 1);
      } else {
        var k :| k in last;
        Injected(ks - {k}, at, lo, hi - 1);
      }
    }
  }

  lemma KeyNearHome<K, V>(sh: Shape<K>, s: seq<Slot<K, V>>, at: map<K, nat>, m: map<K, V>, k: K)
    requires Settled(sh, s) && Holds(s, at, m) && k in m
    ensures k in at && sh.Home(k) <= at[k] < sh.Home(k) + sh.maxLookups
  {
    assert Placed(sh, s[at[k]], at[k]);
  }

  lemma SettledShape<K, V>(sh: Shape<K>, s: seq<Slot<K, V>>)
    requires Settled(sh, s)
    ensures sh.Valid() && |s| == sh.slots + sh.maxLookups
  {
  }

  /** No table holds crowded keys. */
  lemma HeldIsNotCrowded<K, V>(sh: Shape<K>, s: seq<Slot<K, V>>, at: map<K, nat>, m: map<K, V>)
    requires Settled(sh, s) && Holds(s, at, m)
    ensures !Crowded(sh, m.Keys)
  {
    hide Settled, Holds;
    SettledShape(sh, s);
    forall lo: nat, hi: nat | lo <= hi ensures |HomedIn(sh, m.Keys, lo, hi)| <= hi - lo + sh.maxLookups {
      var ks := HomedIn(sh, m.Keys, lo, hi);
      forall k | k in ks ensures k in at && lo <= at[k] < hi + sh.maxLookups { KeyNearHome(sh, s, at, m, k); }
      forall k, k' | k in ks && k' in ks && k != k' ensures at[k] != at[k'] { SlotsApart(s, at, m, k, k'); }
      Injected(ks, at, lo, hi + sh.maxLookups);
    }
  }

  /** The items from lo to q, whose homes lie between lo and the home of the item of slot q. */
  ghost predicate Cluster<K, V>(sh: Shape<K>, s: seq<Slot<K, V>>, lo: nat, q: nat)
    requires sh.slots >= 1
  {
    && lo <= q < |s| && s[q].item.Some?
    && (forall i :: lo <= i <= q ==>
          s[i].item.Some? && lo <= sh.Home(s[i].item.value.key) <= sh.Home(s[q].item.value.key))
  }

  /** Left of every item, up to one that is at home, there are only items, whose homes rise. */
  lemma {:induction false} ClusterStart<K, V>(sh: Shape<K>, s: seq<Slot<K, V>>, q: nat) returns (lo: nat)
    requires Settled(sh, s) && q < |s| - 1 && s[q].item.Some?
    ensures Cluster(sh, s, lo, q) && lo <= sh.Home(s[q].item.value.key)
    decreases q
  {
    hide Policy.Valid;
    assert Placed(sh, s[q], q);
    if s[q].tag == 0 {
      lo := q;
    } else {
      assert Rises(s, q - 1) && Placed(sh, s[q - 1], q - 1);
      lo := ClusterStart(sh, s, q - 1);
    }
  }

  /** Occupied slots hold different keys. */
  lemma {:induction false} KeysInCount<K, V>(s: seq<Slot<K, V>>, at: map<K, nat>, m: map<K, V>, lo: nat, hi: nat)
    requires Holds(s, at, m) && lo <= hi <= |s| && forall i :: lo <= i < hi ==> s[i].item.Some?
    ensures |KeysIn(s, lo, hi)| == hi - lo && forall k :: k in KeysIn(s, lo, hi) ==> k in m && lo <= at[k] < hi
    decreases hi
  {
    hide KeysIn;
    if lo == hi {
      NoKeysIn(s, lo);
    } else {
      KeysInCount(s, at, m, lo, hi - 1);
      SlotKey(s, at, m, hi - 1);
      KeysInStep(s, lo, hi - 1);
    }
  }

  lemma ClusterHomed<K, V>(sh: Shape<K>, s: seq<Slot<K, V>>, lo: nat, q: nat, keys: set<K>)
    requires sh.slots >= 1 && Cluster(sh, s, lo, q) && KeysIn(s, lo, q + 1) <= keys
    ensures KeysIn(s, lo, q + 1) <= HomedIn(sh, keys, lo, sh.Home(s[q].item.value.key))
  {
  }

  lemma ClusterRange<K, V>(sh: Shape<K>, s: seq<Slot<K, V>>, lo: nat, q: nat)
    requires sh.slots >= 1 && Cluster(sh, s, lo, q)
    ensures lo <= q < |s| && s[q].item.Some? && lo <= sh.Home(s[q].item.value.key)
    ensures forall i :: lo <= i < q + 1 ==> s[i].item.Some?
  {
  }

  lemma AtDistance<K, V>(sh: Shape<K>, s: seq<Slot<K, V>>, q: nat)
    requires Settled(sh, s) && q < |s| - 1 && s[q].item.Some?
    ensures s[q].tag < sh.maxLookups && sh.Home(s[q].item.value.key) + s[q].tag == q
  {
    assert Placed(sh, s[q], q);
  }

  lemma OneMoreThan<T>(a: set<T>, b: set<T>, x: T)
    requires a <= b && x in b && x !in a
    ensures |b| > |a|
  {
    SubsetCount(a + {x}, b);
  }

  lemma CrowdedBy<K>(sh: Shape<K>, keys: set<K>, lo: nat, hi: nat)
    requires sh.slots >= 1 && lo <= hi && |HomedIn(sh, keys, lo, hi)| > hi - lo + sh.maxLookups
    ensures Crowded(sh, keys)
  {
  }

  lemma InHomed<K>(sh: Shape<K>, keys: set<K>, lo: nat, hi: nat, k: K)
    requires sh.slots >= 1 && k in keys && lo <= sh.Home(k) <= hi
    ensures k in HomedIn(sh, keys, lo, hi)
  {
  }

  /** When a key that is not held would come too far from home behind slot q, it crowds the held ones. */
  lemma TooFarIsCrowded<K, V>(sh: Shape<K>, s: seq<Slot<K, V>>, at: map<K, nat>, m: map<K, V>, q: nat, k: K)
    requires Settled(sh, s) && Holds(s, at, m) && q < |s| - 1 && s[q].item.Some? && k !in m
    requires s[q].tag >= sh.maxLookups - 1 && sh.Home(k) + sh.maxLookups == q + 1
    ensures Crowded(sh, m.Keys + {k})
  {
    hide Settled, Policy.Valid, Holds, Shape.Home, KeysIn, Cluster, HomedIn, Crowded;
    SettledShape(sh, s);
    AtDistance(sh, s, q);
    var lo := ClusterStart(sh, s, q);
    var h, all := sh.Home(k), m.Keys + {k};
    ClusterRange(sh, s, lo, q);
    KeysInCount(s, at, m, lo, q + 1);
    ClusterHomed(sh, s, lo, q, all);
    InHomed(sh, all, lo, h, k);
    OneMoreThan(KeysIn(s, lo, q + 1), HomedIn(sh, all, lo, h), k);
    CrowdedBy(sh, all, lo, h);
  }

  /** What a flat table is set up with. */
  datatype Setting<!K> = Setting(policy: Policy, hash: K -> nat, maxBuckets: nat, load: real) {

    ghost function ShapeAt(slots: nat): Shape<K> { Shape(policy, hash, slots, Lookups(slots)) }

    /** A table of this many slots takes exactly the keys that load and homes allow. */
    ghost predicate Takes(keys: set<K>, slots: nat) {
      slots >= 2 && Carries(load, |keys|, slots) && !Crowded(ShapeAt(slots), keys)
    }

    /** The number of slots a growing table asks for, and the number it would get. */
    ghost function Asked(lazy: nat, slots: nat): nat { Max(lazy, Max(4, if slots <= 1 then 0 else 2 * slots)) }

    ghost function Larger(lazy: nat, slots: nat): nat { policy.nextSizeOver(Asked(lazy, slots)) }

    ghost predicate CanGrow(lazy: nat, slots: nat) {
      Asked(lazy, slots) <= maxBuckets && slots < Larger(lazy, slots) <= maxBuckets
    }

    /** The slots of a table after it has taken the keys, starting from the given number: it grows until
        it can take them.  Zero when the allocator refuses. */
    ghost function SlotsFor(lazy: nat, keys: set<K>, slots: nat): nat
      decreases maxBuckets - slots
    {
      if Takes(keys, slots) then slots
      else if CanGrow(lazy, slots) then SlotsFor(0, keys, Larger(lazy, slots))
      else 0
    }

    /** The slots of an empty table of the given size after it was filled with the keys. */
    ghost function Filled(lazy: nat, keys: set<K>, size: nat): nat {
      if keys == {} then size else SlotsFor(lazy, keys, size)
    }

    /** The size a rehash changes to before it moves the items, zero if it cannot have it. */
    ghost function RehashSize(count: nat, n: nat): nat
      requires load > 0.0
    {
      var m := Max(n, BucketsFor(count, load));
      if m == 0 then 1 else if m > maxBuckets || policy.nextSizeOver(m) > maxBuckets then 0 else policy.nextSizeOver(m)
    }

    ghost function RehashSlots(lazy: nat, keys: set<K>, n: nat): nat
      requires load > 0.0
    {
      if RehashSize(|keys|, n) == 0 then 0 else Filled(lazy, keys, RehashSize(|keys|, n))
    }

    lemma TakesFewer(keys: set<K>, more: set<K>, slots: nat)
      requires keys <= more && Takes(more, slots)
      ensures Takes(keys, slots)
    {
      SubsetCount(keys, more);
      if Crowded(ShapeAt(slots), keys) { CrowdedMore(ShapeAt(slots), keys, more); }
    }

    lemma {:induction false} SlotsGrow(lazy: nat, keys: set<K>, slots: nat)
      ensures SlotsFor(lazy, keys, slots) == 0 || slots <= SlotsFor(lazy, keys, slots)
      ensures slots <= maxBuckets ==> SlotsFor(lazy, keys, slots) <= maxBuckets
      decreases maxBuckets - slots
    {
      hide Takes, Larger;
      if !Takes(keys, slots) && CanGrow(lazy, slots) { SlotsGrow(0, keys, Larger(lazy, slots)); }
    }

    lemma {:induction false} SlotsAdmitted(lazy: nat, keys: set<K>, slots: nat)
      requires policy.Valid() && policy.admits(slots) && slots <= maxBuckets <= policy.limit
      ensures SlotsFor(lazy, keys, slots) > 0 ==> policy.admits(SlotsFor(lazy, keys, slots))
      decreases maxBuckets - slots
    {
      hide Takes, Policy.Valid;
      if !Takes(keys, slots) && CanGrow(lazy, slots) {
        SizeFits(policy, Asked(lazy, slots));
        SlotsAdmitted(0, keys, Larger(lazy, slots));
      }
    }

    /** Taking some of the keys first does not change where the table ends up with all of them. */
    lemma {:induction false} TakenInTwo(lazy: nat, keys: set<K>, more: set<K>, slots: nat)
      requires keys <= more && slots > 0
      ensures var t := SlotsFor(lazy, keys, slots);
              SlotsFor(lazy, more, slots) ==
                if t == 0 then 0 else SlotsFor(if t > slots then 0 else lazy, more, t)
      decreases maxBuckets - slots
    {
      hide Takes, Larger;
      if !Takes(keys, slots) {
        if Takes(more, slots) { TakesFewer(keys, more, slots); }
        if CanGrow(lazy, slots) {
          TakenInTwo(0, keys, more, Larger(lazy, slots));
          SlotsGrow(0, keys, Larger(lazy, slots));
        }
      }
    }

    /** A first request that the table has outgrown no longer matters. */
    lemma LazyOutgrown(lazy: nat, keys: set<K>, slots: nat)
      requires lazy <= slots
      ensures SlotsFor(lazy, keys, slots) == SlotsFor(0, keys, slots)
    {
    }

    /** Growing is a rehash to the number of slots it asks for. */
    lemma GrowthIsRehash(lazy: nat, keys: set<K>, slots: nat)
      requires policy.Valid() && 1 <= slots <= maxBuckets <= policy.limit && load > 0.0
      requires BucketsFor(|keys|, load) <= slots
      ensures RehashSlots(lazy, keys, Asked(lazy, slots)) ==
              if CanGrow(lazy, slots) then Filled(0, keys, Larger(lazy, slots)) else 0
    {
      hide SlotsFor, BucketsFor, Policy.Valid;
      SizeFits(policy, Asked(lazy, slots));
      if CanGrow(lazy, slots) { LazyOutgrown(lazy, keys, Larger(lazy, slots)); }
    }

    /** When the keys do not go in, the table has come to a size that does not take them and from which
        it cannot grow. */
    lemma {:induction false} Refusal(lazy: nat, keys: set<K>, slots: nat) returns (s: nat)
      requires SlotsFor(lazy, keys, slots) == 0 && slots > 0
      requires policy.Valid() && policy.admits(slots) && slots <= maxBuckets <= policy.limit
      ensures slots <= s <= maxBuckets && policy.admits(s) && !Takes(keys, s)
      ensures var m := Asked(if s == slots then lazy else 0, s); m > maxBuckets || policy.nextSizeOver(m) > maxBuckets
      decreases maxBuckets - slots
    {
      hide Takes, Policy.Valid;
      if CanGrow(lazy, slots) {
        SizeFits(policy, Asked(lazy, slots));
        s := Refusal(0, keys, Larger(lazy, slots));
      } else {
        SizeFits(policy, Asked(lazy, slots));
        s := slots;
      }
    }

    lemma NotTakenIsNotRoomy(keys: set<K>, slots: nat)
      requires keys != {} && !Takes(keys, slots)
      ensures !Roomy(Flat, load, |keys| - 1, slots)
    {
      if slots >= 2 && Crowded(ShapeAt(slots), keys) { CrowdedCount(ShapeAt(slots), keys); }
    }

    /** Memory that is enough for any keys is enough for these. */
    lemma {:induction false} EnoughForThese(lazy: nat, keys: set<K>, slots: nat)
      requires keys != {} && Enough(Flat, policy, maxBuckets, lazy, load, |keys|)
      requires policy.Valid() && policy.admits(slots) && 1 <= slots <= maxBuckets <= policy.limit
      ensures SlotsFor(lazy, keys, slots) > 0
      decreases maxBuckets - slots
    {
      hide Takes, Policy.Valid, Roomy;
      if !Takes(keys, slots) {
        NotTakenIsNotRoomy(keys, slots);
        GrowthFits(Flat, policy, maxBuckets, lazy, load, |keys| - 1, slots);
        SizeFits(policy, Asked(lazy, slots));
        EnoughForLess(Flat, policy, maxBuckets, lazy, load, |keys|, 0, |keys|);
        EnoughForThese(0, keys, Larger(lazy, slots));
      }
    }

    lemma FilledInTwo(lazy: nat, keys: set<K>, more: set<K>, size: nat)
      requires keys <= more && more != {} && size > 0
      ensures var t := Filled(lazy, keys, size);
              Filled(lazy, more, size) == if t == 0 then 0 else SlotsFor(if t > size then 0 else lazy, more, t)
    {
      TakenInTwo(lazy, keys, more, size);
    }
  }

  /** How large a table is, and how large it has been asked to be when it grows next; no slots stand for
      a table whose growth was refused. */
  datatype Size = Size(slots: nat, lazy: nat)

  ghost function SizeStep<K, V>(setting: Setting<K>, size: Size, m: map<K, V>, op: MapSpec.Op<K, V>): Size
    requires setting.load > 0.0
  {
    if size.slots == 0 then size
    else
      match op
      case Emplace(x) =>
        if x.key in m then size
        else
          var t := setting.SlotsFor(size.lazy, m.Keys + {x.key}, size.slots);
          Size(t, if t > size.slots then 0 else size.lazy)
      case Rehash(n) =>
        var t := setting.RehashSlots(size.lazy, m.Keys, n);
        Size(t, if t > setting.RehashSize(|m|, n) then 0 else size.lazy)
      case _ => size
  }

  ghost function SizeAfter<K, V>(setting: Setting<K>, size: Size, m: map<K, V>, ops: seq<MapSpec.Op<K, V>>): Size
    requires setting.load > 0.0
  {
    if ops == [] then size
    else
      var n := |ops| - 1;
      SizeStep(setting, SizeAfter(setting, size, m, ops[..n]), MapSpec.After(m, ops[..n]), ops[n])
  }

  lemma SizeAtStart<K, V>(setting: Setting<K>, size: Size, m: map<K, V>, ops: seq<MapSpec.Op<K, V>>)
    requires setting.load > 0.0
    ensures SizeAfter(setting, size, m, ops[..0]) == size
  {
  }

  lemma SizeOneMore<K, V>(setting: Setting<K>, size: Size, m: map<K, V>, ops: seq<MapSpec.Op<K, V>>, i: nat)
    requires setting.load > 0.0 && i < |ops|
    ensures SizeAfter(setting, size, m, ops[..i + 1]) ==
            SizeStep(setting, SizeAfter(setting, size, m, ops[..i]), MapSpec.After(m, ops[..i]), ops[i])
  {
    assert ops[..i + 1][..i] == ops[..i];
  }

  /** A run that was refused stays refused. */
  lemma {:induction false} RefusedForGood<K, V>(setting: Setting<K>, size: Size, m: map<K, V>,
                                                ops: seq<MapSpec.Op<K, V>>, i: nat)
    requires setting.load > 0.0 && i <= |ops| && SizeAfter(setting, size, m, ops[..i]).slots == 0
    ensures SizeAfter(setting, size, m, ops).slots == 0
    decreases |ops| - i
  {
    if i == |ops| {
      assert ops[..i] == ops;
    } else {
      SizeOneMore(setting, size, m, ops, i);
      RefusedForGood(setting, size, m, ops, i + 1);
    }
  }

  /** A size a table may have, with a first request no larger than the given one. */
  ghost predicate Sized<K>(setting: Setting<K>, size: Size, lazy: nat) {
    && setting.policy.Valid() && setting.policy.admits(size.slots) && setting.load > 0.0
    && 0 < size.slots <= setting.maxBuckets <= setting.policy.limit && size.lazy <= lazy
  }

  lemma FillGoesThrough<K>(setting: Setting<K>, size: Size, keys: set<K>, lazy: nat)
    requires Sized(setting, size, lazy) && keys != {}
    requires Enough(Flat, setting.policy, setting.maxBuckets, size.lazy, setting.load, |keys|)
    ensures var t := setting.SlotsFor(size.lazy, keys, size.slots);
            Sized(setting, Size(t, if t > size.slots then 0 else size.lazy), lazy)
  {
    hide Enough, Policy.Valid, Setting.SlotsFor;
    setting.EnoughForThese(size.lazy, keys, size.slots);
    setting.SlotsAdmitted(size.lazy, keys, size.slots);
    setting.SlotsGrow(size.lazy, keys, size.slots);
  }

  lemma NoBuckets(n: nat, load: real)
    requires load > 0.0 && BucketsFor(n, load) == 0
    ensures n == 0
  {
  }

  lemma RehashGoesThrough<K>(setting: Setting<K>, size: Size, keys: set<K>, n: nat, lazy: nat)
    requires Sized(setting, size, lazy)
    requires Enough(Flat, setting.policy, setting.maxBuckets, size.lazy, setting.load, |keys|)
    requires Grants(setting.policy, setting.maxBuckets, Max(n, BucketsFor(|keys|, setting.load)))
    ensures var t := setting.RehashSlots(size.lazy, keys, n);
            Sized(setting, Size(t, if t > setting.RehashSize(|keys|, n) then 0 else size.lazy), lazy)
  {
    hide Enough, Policy.Valid, Setting.SlotsFor, BucketsFor;
    var count := Max(n, BucketsFor(|keys|, setting.load));
    if count > 0 {
      SizeFits(setting.policy, count);
      if keys != {} { FillGoesThrough(setting, size.(slots := setting.policy.nextSizeOver(count)), keys, lazy); }
    } else {
      AdmitsOne(setting.policy);
      NoBuckets(|keys|, setting.load);
    }
  }

  /** With memory for one item more, or for the rehash, a step is not refused. */
  lemma StepGoesThrough<K, V>(setting: Setting<K>, size: Size, m: map<K, V>, op: MapSpec.Op<K, V>, lazy: nat)
    requires Sized(setting, size, lazy)
    requires Enough(Flat, setting.policy, setting.maxBuckets, size.lazy, setting.load, |m| + MapSpec.AddsOne(op))
    requires OpFits(setting.policy, setting.maxBuckets, setting.load, op, |m|)
    ensures Sized(setting, SizeStep(setting, size, m, op), lazy)
  {
    hide Enough, Policy.Valid, Setting.SlotsFor, Setting.RehashSlots, Setting.RehashSize, BucketsFor, Grants;
    KeysCount(m);
    match op
    case Emplace(x) =>
      if x.key !in m { FillGoesThrough(setting, size, m.Keys + {x.key}, lazy); }
    case Rehash(n) =>
      RehashGoesThrough(setting, size, m.Keys, n, lazy);
    case _ =>
  }

  lemma {:induction false} SizesGoThrough<K, V>(setting: Setting<K>, size: Size, m: map<K, V>,
                                                ops: seq<MapSpec.Op<K, V>>, i: nat)
    requires Sized(setting, size, size.lazy) && i <= |ops|
    requires RunFits(Flat, setting.policy, setting.maxBuckets, size.lazy, setting.load, |m|, ops)
    ensures Sized(setting, SizeAfter(setting, size, m, ops[..i]), size.lazy)
    ensures |MapSpec.After(m, ops[..i])| <= |m| + MapSpec.Adds(ops[..i])
  {
    hide RunFits, Policy.Valid, MapSpec.After, MapSpec.Adds, SizeStep, SizeAfter, OpFits, Enough;
    if i == 0 {
      assert ops[..0] == [];
      MapSpec.Nothing(m);
      SizeAtStart(setting, size, m, ops);
    } else {
      var j := i - 1;
      SizesGoThrough(setting, size, m, ops, j);
      var before, now := SizeAfter(setting, size, m, ops[..j]), MapSpec.After(m, ops[..j]);
      MapSpec.OneMore(m, ops, j);
      MapSpec.AtMostAdded(now, ops[j]);
      MapSpec.AddsSoFar(ops, j);
      StepFits(Flat, setting.policy, setting.maxBuckets, size.lazy, setting.load, |m|, ops, j, before.lazy, |now|);
      SizeOneMore(setting, size, m, ops, j);
      StepGoesThrough(setting, before, now, ops[j], size.lazy);
    }
  }

  lemma RunGoesThrough<K, V>(setting: Setting<K>, size: Size, m: map<K, V>, ops: seq<MapSpec.Op<K, V>>)
    requires Sized(setting, size, size.lazy)
    requires RunFits(Flat, setting.policy, setting.maxBuckets, size.lazy, setting.load, |m|, ops)
    ensures SizeAfter(setting, size, m, ops).slots > 0
  {
    hide RunFits, Policy.Valid, SizeAfter;
    SizesGoThrough(setting, size, m, ops, |ops|);
    assert ops[..|ops|] == ops;
  }
}
