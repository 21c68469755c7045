/** The flat hash table: open addressing with Robin Hood displacement.  `contents` is the map the
    table stands for and `at` the slot of each key. */
module FlatHashTable {
  import opened Slots
  import opened HashPolicy
  import opened RobinHood
  import opened Growth
  import opened Crowding
  import opened SlotItems
  import MapSpec

  /** Empty slots with the sentinel at the end. */
  ghost function EmptyRun<K, V>(n: nat): (s: seq<Slot<K, V>>)
    requires n > 0
    ensures |s| == n && s[n - 1].item == None
  {
    BlankRun(n, EMPTY_TAG)[n - 1 := Slot(SENTINEL_TAG, None)]
  }

  method NewEntries<K, V>(n: nat) returns (a: array<Slot<K, V>>)
    requires n > 0
    ensures fresh(a) && a.Length == n && a[..] == EmptyRun(n)
  {
    a := NewSlots(n, EMPTY_TAG);
    a[n - 1] := Slot(SENTINEL_TAG, None);
  }

  /** Below the sentinel, a slot holds an item exactly when its distance says so. */
  ghost predicate Marked<K, V>(s: seq<Slot<K, V>>) {
    forall p :: 0 <= p < |s| - 1 ==> (s[p].item.Some? <==> s[p].tag >= 0)
  }

  lemma MarkedItem<K, V>(s: seq<Slot<K, V>>, p: nat)
    requires Marked(s) && p < |s| - 1
    ensures s[p].item.Some? <==> s[p].tag >= 0
  {
  }

  lemma EmptyRunIsSettled<K, V>(sh: Shape<K>)
    requires sh.Valid()
    ensures Settled<K, V>(sh, EmptyRun(sh.slots + sh.maxLookups))
    ensures Holds<K, V>(EmptyRun(sh.slots + sh.maxLookups), map[], map[])
    ensures Marked<K, V>(EmptyRun(sh.slots + sh.maxLookups))
  {
  }

  lemma OccupiedSlot<K, V>(sh: Shape<K>, s: seq<Slot<K, V>>, at: map<K, nat>, m: map<K, V>, p: nat)
    requires Settled(sh, s) && Holds(s, at, m) && p < |s| - 1 && s[p].item.Some?
    ensures var x := s[p].item.value;
            && x.key in m && m[x.key] == x.value && at[x.key] == p
            && 0 <= s[p].tag < sh.maxLookups && sh.Home(x.key) + s[p].tag == p
  {
    assert Placed(sh, s[p], p);
  }

  lemma MapExchange<K, V>(m: map<K, V>, y: Item<K, V>, x: Item<K, V>)
    requires y.key in m && m[y.key] == y.value && x.key !in m
    ensures (m - {y.key})[x.key := x.value][y.key := y.value] == m[x.key := x.value]
  {
  }

  lemma MapExchangeBack<K, V>(m0: map<K, V>, m: map<K, V>, x: Item<K, V>, y: Item<K, V>)
    requires x.key !in m0 && x.key in m && y.key !in m
    requires m[y.key := y.value] == m0[x.key := x.value]
    ensures (m - {x.key})[y.key := y.value] == m0
  {
    assert forall k :: k in m0 ==> k in m0[x.key := x.value] && m0[x.key := x.value][k] == m0[k];
    assert forall k :: k in m0[x.key := x.value] ==> k in m0 || k == x.key;
  }

  lemma SameKeys<K, V>(m: map<K, V>, m': map<K, V>, x: Item<K, V>, y: Item<K, V>)
    requires m[x.key := x.value] == m'[y.key := y.value]
    ensures m.Keys + {x.key} == m'.Keys + {y.key}
  {
    assert m[x.key := x.value].Keys == m.Keys + {x.key} && m'[y.key := y.value].Keys == m'.Keys + {y.key};
  }

  ghost function Interval(lo: nat, hi: nat): set<nat>
    requires lo <= hi
    decreases hi
  {
    if lo == hi then {} else Interval(lo, hi - 1) + {hi - 1}
  }

  lemma {:induction false} IntervalCount(lo: nat, hi: nat)
    requires lo <= hi
    ensures |Interval(lo, hi)| == hi - lo
    ensures forall i :: i in Interval(lo, hi) <==> lo <= i < hi
    decreases hi
  {
    if lo < hi { IntervalCount(lo, hi - 1); }
  }

  function Min(a: int, b: int): int { if a < b then a else b }

  lemma EmptiedNothing<K, V>(s: seq<Slot<K, V>>, b: nat)
    ensures Emptied(s, b, b) == s
  {
  }

  lemma EmptiedStep<K, V>(s: seq<Slot<K, V>>, b: nat, i: nat)
    requires b <= i < |s|
    ensures Emptied(s, b, i)[i] == s[i]
    ensures s[i].item.Some? ==> Emptied(s, b, i + 1) == Emptied(s, b, i)[i := Slot(EMPTY_TAG, None)]
    ensures s[i].item.None? ==> Emptied(s, b, i + 1) == Emptied(s, b, i)
    ensures Emptied(s, i, i) == s
  {
  }

  lemma GapIsBlank<K, V>(sh: Shape<K>, s: seq<Slot<K, V>>, lo: nat, hi: nat)
    requires Gapped(sh, s, lo, hi)
    ensures lo < hi < |s| && Blank(s, lo, hi)
  {
  }

  lemma BlankNone<K, V>(s: seq<Slot<K, V>>, p: nat)
    requires p <= |s|
    ensures Blank(s, p, p)
  {
  }

  lemma BlankLess<K, V>(s: seq<Slot<K, V>>, lo: nat, hi: nat, hi': nat)
    requires Blank(s, lo, hi) && hi' <= hi
    ensures Blank(s, lo, hi')
  {
  }

  lemma BlankBelow<K, V>(s: seq<Slot<K, V>>, lo: nat, hi: nat, p: nat, e: Slot<K, V>, q: nat)
    requires Blank(s, lo, hi) && hi <= p < q < |s|
    ensures Blank(s[p := e][q := Slot(EMPTY_TAG, None)], lo, hi)
  {
  }

  lemma DestroyedOne<K, V>(s: seq<Slot<K, V>>, p: nat)
    requires p < |s|
    ensures Closed(s, s[p := Slot(EMPTY_TAG, None)], p, p + 1)
  {
    hide ItemsOf;
    ClosedStart(s, s[p := Slot(EMPTY_TAG, None)], p, p + 1);
  }

  lemma DestroyedSome<K, V>(s: seq<Slot<K, V>>, b: nat, e: nat)
    requires b <= e <= |s|
    ensures Emptied(s, b, e)[..b] == s[..b] && Emptied(s, b, e)[e..] == s[e..]
    ensures e < |s| ==> Emptied(s, b, e)[e] == s[e]
  {
  }

  lemma SentinelTag<K, V>(sh: Shape<K>, s: seq<Slot<K, V>>)
    requires Settled(sh, s)
    ensures |s| > 0 && s[|s| - 1] == Slot(SENTINEL_TAG, None)
    ensures forall p :: 0 <= p < |s| - 1 ==> (s[p].item.Some? <==> s[p].tag >= 0)
  {
    forall p | 0 <= p < |s| - 1 ensures s[p].item.Some? <==> s[p].tag >= 0 { assert Placed(sh, s[p], p); }
  }

  lemma GapSides<K, V>(sh: Shape<K>, s: seq<Slot<K, V>>, lo: nat, hi: nat)
    requires Gapped(sh, s, lo, hi)
    ensures lo < hi < |s| && s[lo].item == None && s[|s| - 1] == Slot(SENTINEL_TAG, None)
    ensures s[hi].tag > 0 ==> hi < |s| - 1 && s[hi].item.Some?
  {
    assert hi < |s| - 1 ==> Placed(sh, s[hi], hi);
  }

  lemma EmptySlotTag<K, V>(sh: Shape<K>, s: seq<Slot<K, V>>, p: nat)
    requires Settled(sh, s) && p < |s| - 1
    ensures s[p].item.None? ==> s[p].tag == EMPTY_TAG
    ensures s[p].item.Some? ==> s[p].tag >= 0
  {
    assert Placed(sh, s[p], p);
  }

  lemma HomeFits<K>(sh: Shape<K>, key: K)
    requires sh.Valid()
    ensures sh.Home(key) < sh.slots + sh.maxLookups - 1
    ensures sh.slots >= 2 ==> sh.Home(key) < sh.slots
  {
  }

  class FlatTable<K(==), V> {
    const policy: Policy
    const hash: K -> nat
    /** Requests for more buckets than this make the allocator throw. */
    const maxBuckets: nat
    var entries: array<Slot<K, V>>
    var slots: nat
    var maxLookups: nat
    var maxLoad: real
    var numElements: nat
    var lazyBuckets: nat
    ghost var at: map<K, nat>
    ghost var contents: map<K, V>

    function TableShape(): Shape<K>
      reads `slots, `maxLookups
    {
      Shape(policy, hash, slots, maxLookups)
    }

    ghost predicate Configured()
      reads `slots, `maxLookups, `maxLoad
    {
      && TableShape().Valid() && maxLoad > 0.0 && slots <= maxBuckets <= policy.limit
      && (slots >= 2 ==> maxLookups == Lookups(slots))
    }

    /** What a rehash relies on: the items are all there, wherever they sit. */
    ghost predicate Loose()
      reads this, entries
    {
      && Configured()
      && entries.Length == slots + maxLookups
      && entries[entries.Length - 1].item == None
      && Holds(entries[..], at, contents) && Marked(entries[..])
      && numElements == |contents| && Carries(maxLoad, numElements, slots)
    }

    ghost function Config(): Setting<K>
      reads `maxLoad
    {
      Setting(policy, hash, maxBuckets, maxLoad)
    }

    /** The slots the table has once it has taken a new key, zero if it cannot take it. */
    ghost function SlotsWith(key: K): nat
      reads `contents, `slots, `lazyBuckets, `maxLoad
    {
      Config().SlotsFor(lazyBuckets, contents.Keys + {key}, slots)
    }

    /** There is memory for n items, wherever they hash to. */
    ghost predicate EnoughFor(n: nat)
      reads `lazyBuckets, `maxLoad
    {
      Enough(Flat, policy, maxBuckets, lazyBuckets, maxLoad, n)
    }

    ghost predicate Valid()
      reads this, entries
    {
      Loose() && Settled(TableShape(), entries[..])
    }

    constructor (policy: Policy, hash: K -> nat, maxBuckets: nat, buckets: nat)
      requires policy.Valid() && 1 <= maxBuckets <= policy.limit
      ensures maxLoad == 0.5 && lazyBuckets == 4 * buckets
      ensures this.policy == policy && this.hash == hash && this.maxBuckets == maxBuckets
      ensures Valid() && contents == map[]
      ensures fresh(entries)
    {
      this.policy, this.hash, this.maxBuckets := policy, hash, maxBuckets;
      slots, maxLookups := 1, MIN_LOOKUPS - 1;
      maxLoad, numElements, lazyBuckets := 0.5, 0, 4 * buckets;
      var empty := NewEntries(MIN_LOOKUPS);
      entries := empty;
      at, contents := map[], map[];
      new;
      EmptyRunIsSettled<K, V>(TableShape());
    }

    function BucketCount(): (n: nat)
      reads this
    {
      if slots <= 1 then 0 else slots
    }

    /** Walks right from the key's home until the key or a smaller distance is met. */
    method Probe(key: K) returns (found: bool, p: nat, d: nat)
      requires Valid()
      ensures p < entries.Length && d <= maxLookups
      ensures found <==> key in contents
      ensures found ==> entries[p].item == Some(Item(key, contents[key])) && p == at[key]
      ensures !found ==> p == TableShape().Home(key) + d && entries[p].tag < d
      ensures !found && d > 0 ==> entries[p - 1].tag >= d - 1
    {
      hide Policy.Valid, Marked, Lookups;
      ghost var sh, s := TableShape(), entries[..];
      HomeFits(sh, key);
      p, d := TableShape().Home(key), 0;
      while entries[p].tag >= d
        invariant p == sh.Home(key) + d < |s|
        invariant d <= maxLookups
        invariant d > 0 ==> s[p - 1].tag >= d - 1
        invariant key in contents ==> at[key] >= p
        decreases |s| - p
      {
        assert s[p] == entries[p];
        assert p < |s| - 1 ==> Placed(sh, s[p], p);
        if entries[p].item.value.key == key {
          return true, p, d;
        }
        p, d := p + 1, d + 1;
      }
      if key in contents {
        SearchPassesOver(sh, s, p, at[key]);
      }
      found := false;
    }

    /** The slot of the key, or the end position when the key is absent. */
    method Find(key: K) returns (pos: nat)
      requires Valid()
      ensures pos < entries.Length
      ensures pos == entries.Length - 1 <==> key !in contents
      ensures key in contents ==> entries[pos].item == Some(Item(key, contents[key]))
    {
      hide Loose, Settled;
      SentinelTag(TableShape(), entries[..]);
      var found, p, _ := Probe(key);
      pos := if found then p else entries.Length - 1;
    }

    lemma LooseFacts()
      requires Loose()
      ensures TableShape().Valid() && entries.Length == slots + maxLookups && Holds(entries[..], at, contents)
      ensures numElements == |contents| && (slots >= 2 ==> maxLookups == Lookups(slots))
      ensures policy.Valid() && policy.admits(slots) && 1 <= slots <= maxBuckets <= policy.limit && maxLoad > 0.0
      ensures Carries(maxLoad, numElements, slots)
    {
      hide Holds, Policy.Valid, Lookups;
    }

    /** What a table holds it takes. */
    lemma HoldsWhatItTakes()
      requires Valid() && slots >= 2
      ensures Config().Takes(contents.Keys, slots)
    {
      hide Settled, Holds, Marked, Lookups, Crowded, Policy.Valid;
      HeldIsNotCrowded(TableShape(), entries[..], at, contents);
      KeysCount(contents);
    }

    /** Constructs a new item in an empty slot at distance d of its home. */
    method Construct(d: nat, p: nat, x: Item<K, V>)
      requires Valid() && x.key !in contents && slots >= 2
      requires p == TableShape().Home(x.key) + d < entries.Length - 1 && d < maxLookups
      requires entries[p].item.None? && (d > 0 ==> entries[p - 1].tag >= d - 1)
      requires Carries(maxLoad, numElements + 1, slots)
      modifies this`at, this`contents, this`numElements, entries
      ensures Valid() && contents == old(contents)[x.key := x.value]
      ensures entries[..] == old(entries[..])[p := Slot(d, Some(x))]
    {
      hide Lookups, Holds, Settled, Policy.Valid;
      EmptySlotTag(TableShape(), entries[..], p);
      PlaceKeepsSettled(TableShape(), entries[..], p, d, x);
      HoldsPut(entries[..], at, contents, p, d, x);
      entries[p] := Slot(d, Some(x));
      at, contents, numElements := at[x.key := p], contents[x.key := x.value], numElements + 1;
      assert entries[..] == old(entries[..])[p := Slot(d, Some(x))];
    }

    /** Takes an item out of its slot and leaves another one there, not at its proper distance. */
    method TakeBack(p: nat, x: Item<K, V>, hand: Item<K, V>)
      requires Loose() && p < entries.Length - 1 && entries[p].item == Some(x)
      requires hand.key !in contents
      modifies this`at, this`contents, entries
      ensures x.key in old(contents) && Loose()
      ensures contents == (old(contents) - {x.key})[hand.key := hand.value]
    {
      hide Lookups, Holds, Policy.Valid;
      SlotKey(entries[..], at, contents, p);
      HoldsSwap(entries[..], at, contents, p, entries[p].tag, hand);
      ExchangeCount(contents, x.key, hand);
      entries[p] := entries[p].(item := Some(hand));
      at, contents := (at - {x.key})[hand.key := p], (contents - {x.key})[hand.key := hand.value];
      assert entries[..] == old(entries[..])[p := Slot(old(entries[p].tag), Some(hand))];
    }

    /** An item has come too far from home: there are too many items, and the new one goes out again. */
    method GiveUp(p: nat, q: nat, hd: nat, x: Item<K, V>, hand: Item<K, V>, ghost m: map<K, V>)
      requires Valid() && p < q < entries.Length - 1 && entries[p].item == Some(x) && hand.key !in contents
      requires x.key !in m && contents[hand.key := hand.value] == m[x.key := x.value]
      requires 0 < hd == maxLookups && TableShape().Home(hand.key) + hd == q + 1 && entries[q].tag >= hd - 1
      modifies this`at, this`contents, entries
      ensures Loose() && contents == m && Crowded(TableShape(), m.Keys + {x.key})
    {
      hide Marked, Holds, Settled, Policy.Valid, Loose, Lookups, Crowded;
      LooseFacts();
      EmptySlotTag(TableShape(), entries[..], q);
      TooFarIsCrowded(TableShape(), entries[..], at, contents, q, hand.key);
      SameKeys(contents, m, hand, x);
      SlotKey(entries[..], at, contents, p);
      MapExchangeBack(m, contents, x, hand);
      ExchangeCount(contents, x.key, hand);
      TakeBack(p, x, hand);
    }

    /** Replaces the item of an occupied slot by one that is further from home; the old item comes
        out with the distance it has at the next slot. */
    method ExchangeInPlace(d: nat, p: nat, x: Item<K, V>) returns (y: Item<K, V>, yd: nat)
      requires Valid() && x.key !in contents && slots >= 2
      requires p == TableShape().Home(x.key) + d < entries.Length - 1 && d < maxLookups
      requires entries[p].tag < d && entries[p].item.Some? && entries[p - 1].tag >= d - 1
      modifies this`at, this`contents, entries
      ensures Valid() && entries[..] == old(entries[..])[p := Slot(d, Some(x))]
      ensures y.key !in contents && contents[y.key := y.value] == old(contents)[x.key := x.value]
      ensures |contents| == old(|contents|)
      ensures 0 < yd <= d && TableShape().Home(y.key) + yd == p + 1
    {
      hide Holds, Settled, Policy.Valid, Lookups;
      y := entries[p].item.value;
      OccupiedSlot(TableShape(), entries[..], at, contents, p);
      MapExchange(contents, y, x);
      ExchangeCount(contents, y.key, x);
      PlaceKeepsSettled(TableShape(), entries[..], p, d, x);
      HoldsSwap(entries[..], at, contents, p, d, x);
      yd := entries[p].tag + 1;
      entries[p] := Slot(d, Some(x));
      at, contents := (at - {y.key})[x.key := p], (contents - {y.key})[x.key := x.value];
      assert entries[..] == old(entries[..])[p := Slot(d, Some(x))];
    }

    /** Puts the item into an occupied slot and carries the displaced items to the right until an
        empty slot takes the last one.  When an item would get too far from home the new item is
        taken out again and the stranded item put in its place: nothing is lost, but the table is
        only good for a rehash. */
    method Displace(d: nat, p: nat, x: Item<K, V>) returns (done: bool)
      requires Valid() && x.key !in contents && slots >= 2
      requires p == TableShape().Home(x.key) + d < entries.Length - 1 && d < maxLookups
      requires entries[p].tag < d && entries[p].item.Some? && entries[p - 1].tag >= d - 1
      requires Carries(maxLoad, numElements + 1, slots)
      modifies this`at, this`contents, this`numElements, entries
      ensures done ==> Valid() && contents == old(contents)[x.key := x.value] && entries[p].item == Some(x)
      ensures !done ==> Loose() && contents == old(contents) && Crowded(TableShape(), contents.Keys + {x.key})
    {
      hide Marked, Holds, Settled, Policy.Valid, Loose, Lookups, Crowded;
      LooseFacts();
      ghost var sh, full := TableShape(), contents[x.key := x.value];
      var hand, hd := ExchangeInPlace(d, p, x);
      var q := p + 1;
      while true
        invariant Valid()
        invariant p < q == sh.Home(hand.key) + hd < entries.Length
        invariant 0 < hd < maxLookups && entries[q - 1].tag >= hd - 1
        invariant hand.key !in contents && contents[hand.key := hand.value] == full
        invariant entries[p].item == Some(x) && |contents| == old(|contents|)
        decreases entries.Length - q
      {
        LooseFacts();
        HomeFits(sh, hand.key);
        if entries[q].item.None? {
          Construct(hd, q, hand);
          return true;
        } else if entries[q].tag < hd {
          hand, hd := ExchangeInPlace(hd, q, hand);
        } else {
          hd := hd + 1;
          if hd == maxLookups {
            GiveUp(p, q, hd, x, hand, old(contents));
            return false;
          }
        }
        q := q + 1;
      }
    }

    ghost function RehashSize(n: nat): (size: nat)
      requires policy.Valid() && maxLoad > 0.0
      reads this
    {
      var m := Max(n, BucketsFor(numElements, maxLoad));
      if m == 0 || m > maxBuckets then m else policy.nextSizeOver(m)
    }

    /** Replaces the table by an empty one of the given admissible size. */
    method Allocate(size: nat)
      requires Loose() && policy.admits(size) && 1 <= size <= maxBuckets
      modifies this
      ensures fresh(entries) && Valid() && contents == map[] && slots == size && maxLoad == old(maxLoad)
      ensures lazyBuckets == old(lazyBuckets)
    {
      hide Marked, Holds, Settled, Policy.Valid, Log2, EmptyRun;
      CarriesNothing(maxLoad, size);
      var lookups := Lookups(size);
      var buckets := NewEntries(size + lookups);
      slots, maxLookups, entries := size, lookups, buckets;
      numElements, at, contents := 0, map[], map[];
      EmptyRunIsSettled<K, V>(TableShape());
    }

    /** Back to the table without memory of its own. */
    method Reset()
      requires Loose() && contents == map[]
      modifies this
      ensures fresh(entries) && Valid() && contents == map[] && slots == 1 && maxLoad == old(maxLoad)
      ensures lazyBuckets == old(lazyBuckets)
    {
      hide Marked, Holds, Settled, EmptyRun, Lookups, Policy.Valid;
      AdmitsOne(policy);
      CarriesNothing(maxLoad, 1);
      var buckets := NewEntries(MIN_LOOKUPS);
      slots, maxLookups, entries := 1, MIN_LOOKUPS - 1, buckets;
      at := map[];
      EmptyRunIsSettled<K, V>(TableShape());
    }

    /** The home of the key is empty, and the load allows one more item. */
    ghost predicate HasFreeHome(key: K)
      requires Valid()
      reads this, entries
    {
      && slots >= 2 && Carries(maxLoad, numElements + 1, slots)
      && TableShape().Home(key) < entries.Length - 1 && entries[TableShape().Home(key)].item.None?
    }

    lemma FreeHomeTakes(x: Item<K, V>)
      requires Valid() && x.key !in contents && HasFreeHome(x.key)
      ensures SlotsWith(x.key) == slots
    {
      hide Settled, Holds, Marked, Policy.Valid, Lookups, Crowded;
      var sh, s, h := TableShape(), entries[..], TableShape().Home(x.key);
      EmptySlotTag(sh, s, h);
      PlaceKeepsSettled(sh, s, h, 0, x);
      HoldsPut(s, at, contents, h, 0, x);
      HeldIsNotCrowded(sh, s[h := Slot(0, Some(x))], at[x.key := h], contents[x.key := x.value]);
      KeysCount(contents);
      assert contents[x.key := x.value].Keys == contents.Keys + {x.key};
    }

    lemma EnoughWith(key: K)
      requires Loose() && key !in contents && EnoughFor(|contents| + 1)
      ensures SlotsWith(key) > 0
    {
      hide Loose, Setting.SlotsFor, Enough, Policy.Valid;
      LooseFacts();
      KeysCount(contents);
      Config().EnoughForThese(lazyBuckets, contents.Keys + {key}, slots);
    }

    lemma Overloaded(key: K)
      requires key !in contents && (slots <= 1 || !Carries(maxLoad, |contents| + 1, slots))
      ensures !Config().Takes(contents.Keys + {key}, slots)
    {
      KeysCount(contents);
    }

    lemma CrowdedOut(key: K)
      requires slots >= 2 && maxLookups == Lookups(slots) && Crowded(TableShape(), contents.Keys + {key})
      ensures !Config().Takes(contents.Keys + {key}, slots)
    {
      hide Crowded, Lookups;
    }

    /** Past the last slot that is near enough there is no place for the key. */
    lemma TooFar(p: nat, key: K)
      requires Valid() && key !in contents && slots >= 2 && p < entries.Length
      requires p == TableShape().Home(key) + maxLookups && entries[p - 1].tag >= maxLookups - 1
      ensures !Config().Takes(contents.Keys + {key}, slots)
    {
      hide Loose, Settled, Crowded, Holds, Policy.Valid, Lookups;
      LooseFacts();
      EmptySlotTag(TableShape(), entries[..], p - 1);
      TooFarIsCrowded(TableShape(), entries[..], at, contents, p - 1, key);
      CrowdedOut(key);
    }

    /** Puts the item into its place, which may be empty or may have to be cleared. */
    method PutOrDisplace(d: nat, p: nat, x: Item<K, V>) returns (done: bool)
      requires Valid() && x.key !in contents && slots >= 2
      requires p == TableShape().Home(x.key) + d < entries.Length && d < maxLookups
      requires entries[p].tag < d && (d > 0 ==> entries[p - 1].tag >= d - 1)
      requires Carries(maxLoad, numElements + 1, slots)
      modifies this`at, this`contents, this`numElements, entries
      ensures done ==> Valid() && contents == old(contents)[x.key := x.value] && entries[p].item == Some(x)
      ensures !done ==> Loose() && contents == old(contents) && Crowded(TableShape(), contents.Keys + {x.key})
    {
      hide Settled, Policy.Valid, Lookups, Loose, Crowded;
      LooseFacts();
      HomeFits(TableShape(), x.key);
      if entries[p].item.None? {
        Construct(d, p, x);
        return true;
      }
      EmptySlotTag(TableShape(), entries[..], p);
      done := Displace(d, p, x);
    }

    lemma TakenAsItIs(m: map<K, V>, x: Item<K, V>)
      requires Valid() && slots >= 2 && contents == m[x.key := x.value]
      ensures Config().SlotsFor(lazyBuckets, m.Keys + {x.key}, slots) == slots
    {
      hide Loose, Settled, Setting.Takes;
      HoldsWhatItTakes();
      assert contents.Keys == m.Keys + {x.key};
    }

    method ForgetLazy()
      requires Valid()
      modifies this`lazyBuckets
      ensures Valid() && lazyBuckets == 0
    {
      hide Holds, Marked, Configured, Settled;
      lazyBuckets := 0;
    }

    /** The slots after growing, zero if the table cannot grow. */
    ghost function GrownSlots(): nat
      reads `contents, `slots, `lazyBuckets, `maxLoad
    {
      if Config().CanGrow(lazyBuckets, slots)
      then Config().Filled(0, contents.Keys, Config().Larger(lazyBuckets, slots)) else 0
    }

    /** The rehash that growing comes to. */
    lemma GrowthSize()
      requires Loose()
      ensures var m, config := Max(lazyBuckets, Max(4, 2 * BucketCount())), Config();
              && m > slots && m == config.Asked(lazyBuckets, slots)
              && RehashSize(m) > slots
              && config.RehashSlots(lazyBuckets, contents.Keys, m) == GrownSlots()
    {
      hide Loose, Policy.Valid, Setting.SlotsFor, BucketsFor, Setting.Filled, Setting.RehashSlots;
      LooseFacts();
      KeysCount(contents);
      LoadFits(numElements, maxLoad, slots);
      SizeFits(policy, Config().Asked(lazyBuckets, slots));
      Config().GrowthIsRehash(lazyBuckets, contents.Keys, slots);
    }

    lemma FilledAsItIs()
      requires Valid() && slots >= 2
      ensures Config().Filled(lazyBuckets, contents.Keys, slots) == slots
    {
      hide Loose, Settled, Setting.Takes;
      HoldsWhatItTakes();
    }

    lemma EmptyWithoutBuckets()
      requires Loose() && BucketsFor(numElements, maxLoad) == 0
      ensures contents == map[]
    {
    }

    lemma LooseEnd()
      requires Loose()
      ensures entries.Length > 0 && entries[entries.Length - 1].item == None && Marked(entries[..])
    {
    }

    lemma EnoughToRehash(n: nat)
      requires Loose() && EnoughFor(|contents|) && Grants(policy, maxBuckets, Max(n, BucketsFor(|contents|, maxLoad)))
      ensures Config().RehashSlots(lazyBuckets, contents.Keys, n) > 0
    {
      hide Loose, Setting.SlotsFor, Enough, Policy.Valid, BucketsFor;
      LooseFacts();
      KeysCount(contents);
      var m := Max(n, BucketsFor(|contents|, maxLoad));
      if m > 0 && contents.Keys != {} {
        SizeFits(policy, m);
        Config().EnoughForThese(lazyBuckets, contents.Keys, policy.nextSizeOver(m));
      } else if m > 0 {
        SizeFits(policy, m);
      }
    }

    /** Adds the item unless its key is present.  `ok` is false exactly when the keys do not go into any
        size that growing comes to with the memory the allocator gives. */
    method Emplace(x: Item<K, V>) returns (ok: bool, pos: nat, inserted: bool)
      requires Valid()
      modifies this, entries
      ensures fresh(entries) || entries == old(entries)
      ensures ok ==> Valid() && slots >= old(slots) && maxLoad == old(maxLoad) && lazyBuckets <= old(lazyBuckets)
      ensures x.key in old(contents) ==> ok && unchanged(this) && entries[..] == old(entries[..])
      ensures x.key !in old(contents) ==> (ok <==> old(SlotsWith(x.key)) > 0)
      ensures ok && x.key !in old(contents) ==> slots == old(SlotsWith(x.key))
      ensures ok ==> lazyBuckets == if slots > old(slots) then 0 else old(lazyBuckets)
      ensures old(EnoughFor(|contents| + 1)) ==> ok
      ensures old(HasFreeHome(x.key)) ==> ok && slots == old(slots)
      ensures ok ==> inserted == (x.key !in old(contents))
      ensures ok ==> contents == if inserted then old(contents)[x.key := x.value] else old(contents)
      ensures ok ==> pos < entries.Length && entries[pos].item == Some(Item(x.key, contents[x.key]))
      decreases maxBuckets - slots, 3
    {
      hide Marked, Holds, Settled, Policy.Valid, Loose, Setting.SlotsFor, Enough;
      LooseFacts();
      var found, p, d := Probe(x.key);
      if found {
        return true, p, false;
      }
      if EnoughFor(|contents| + 1) { EnoughWith(x.key); }
      if HasFreeHome(x.key) { FreeHomeTakes(x); }
      inserted := true;
      ok, pos := EmplaceNewKey(d, p, x);
    }

    method EmplaceNewKey(d: nat, p: nat, x: Item<K, V>) returns (ok: bool, pos: nat)
      requires Valid() && x.key !in contents
      requires p == TableShape().Home(x.key) + d < entries.Length && d <= maxLookups
      requires entries[p].tag < d && (d > 0 ==> entries[p - 1].tag >= d - 1)
      modifies this, entries
      ensures fresh(entries) || entries == old(entries)
      ensures ok ==> Valid() && slots >= old(slots) && maxLoad == old(maxLoad)
      ensures ok <==> old(SlotsWith(x.key)) > 0
      ensures ok ==> slots == old(SlotsWith(x.key)) && lazyBuckets == if slots > old(slots) then 0 else old(lazyBuckets)
      ensures ok ==> contents == old(contents)[x.key := x.value]
      ensures ok ==> pos < entries.Length && entries[pos].item == Some(x)
      decreases maxBuckets - slots, 2
    {
      hide Settled, Policy.Valid, Lookups, Loose, Crowded, Setting.SlotsFor;
      pos := p;
      LooseFacts();
      if slots == 1 || d == maxLookups || !Carries(maxLoad, numElements + 1, slots) {
        if slots == 1 || !Carries(maxLoad, numElements + 1, slots) {
          Overloaded(x.key);
        } else {
          TooFar(p, x.key);
        }
        ok, pos := GrowAndEmplace(x);
        return;
      }
      ok := PutOrDisplace(d, p, x);
      if ok {
        TakenAsItIs(old(contents), x);
      } else {
        CrowdedOut(x.key);
        ok, pos := GrowAndEmplace(x);
      }
    }

    /** Grows the table, which may have been left in disorder, and adds the item to it. */
    method GrowAndEmplace(x: Item<K, V>) returns (ok: bool, pos: nat)
      requires Loose() && x.key !in contents && !Config().Takes(contents.Keys + {x.key}, slots)
      modifies this, entries
      ensures fresh(entries) || entries == old(entries)
      ensures ok ==> Valid() && slots > old(slots) && maxLoad == old(maxLoad)
      ensures ok <==> old(SlotsWith(x.key)) > 0
      ensures ok ==> slots == old(SlotsWith(x.key)) && lazyBuckets == if slots > old(slots) then 0 else old(lazyBuckets)
      ensures ok ==> contents == old(contents)[x.key := x.value]
      ensures ok ==> pos < entries.Length && entries[pos].item == Some(x)
      decreases maxBuckets - slots, 1
    {
      hide Valid, Setting.Takes, Setting.Larger, Setting.Asked;
      pos := 0;
      ghost var config, keys, more := Config(), contents.Keys, contents.Keys + {x.key};
      if config.CanGrow(lazyBuckets, slots) { config.FilledInTwo(0, keys, more, config.Larger(lazyBuckets, slots)); }
      ok := Grow();
      if ok {
        var inserted;
        ok, pos, inserted := Emplace(x);
      }
    }

    /** Moves everything into a table of at least twice the size. */
    method Grow() returns (ok: bool)
      requires Loose()
      modifies this, entries
      ensures fresh(entries) || entries == old(entries)
      ensures ok ==> Valid() && contents == old(contents) && slots > old(slots) && maxLoad == old(maxLoad)
      ensures ok ==> lazyBuckets == 0
      ensures (ok <==> old(GrownSlots()) > 0) && (ok ==> slots == old(GrownSlots()))
      decreases maxBuckets - slots, 0
    {
      hide Loose, Settled, GrownSlots, RehashSize, Setting.RehashSlots;
      LooseFacts();
      GrowthSize();
      ok := Rehash(Max(lazyBuckets, Max(4, 2 * BucketCount())));
      if ok {
        ForgetLazy();
      }
    }

    /** Rebuilds the table with at least n buckets.  The items are read from the old slots one by
        one, so a table that is not in order is put in order; emplacing them may itself grow the
        new table. */
    method Rehash(n: nat) returns (ok: bool)
      requires Loose()
      requires Settled(TableShape(), entries[..]) || n > BucketCount()
      modifies this, entries
      ensures fresh(entries) || entries == old(entries)
      ensures ok ==> Valid() && contents == old(contents) && maxLoad == old(maxLoad)
      ensures ok ==> slots >= n
      ensures ok <==> old(Config().RehashSlots(lazyBuckets, contents.Keys, n)) > 0
      ensures ok ==> slots == old(Config().RehashSlots(lazyBuckets, contents.Keys, n))
      ensures ok ==> lazyBuckets == if slots > old(Config().RehashSize(|contents|, n)) then 0 else old(lazyBuckets)
      ensures old(EnoughFor(|contents|) && Grants(policy, maxBuckets, Max(n, BucketsFor(|contents|, maxLoad)))) ==> ok
      decreases maxBuckets - RehashSize(n), 5
    {
      hide Loose, Settled, Policy.Valid, Setting.SlotsFor, Enough, BucketsFor;
      LooseFacts();
      KeysCount(contents);
      var m := Max(n, BucketsFor(numElements, maxLoad));
      if EnoughFor(|contents|) && Grants(policy, maxBuckets, m) { EnoughToRehash(n); }
      if m == 0 {
        EmptyWithoutBuckets();
        Reset();
        return true;
      }
      if m > maxBuckets {
        return false;
      }
      var size := policy.nextSizeOver(m);
      SizeFits(policy, m);
      if size == BucketCount() {
        FilledAsItIs();
        return true;
      }
      if size > maxBuckets {
        return false;
      }
      var from := entries;
      ghost var was, m0 := at, contents;
      LooseEnd();
      Allocate(size);
      ok := Refill(from, size, was, m0);
    }

    /** Emplaces every item of the given old slots into this empty table. */
    method Refill(from: array<Slot<K, V>>, size: nat, ghost was: map<K, nat>, ghost m: map<K, V>) returns (ok: bool)
      requires Valid() && contents == map[] && 0 < slots == size <= maxBuckets
      requires from != entries && from.Length > 0 && from[from.Length - 1].item == None
      requires Holds(from[..], was, m) && Marked(from[..])
      modifies this, entries
      ensures fresh(entries) || entries == old(entries)
      ensures ok ==> Valid() && contents == m && maxLoad == old(maxLoad) && slots >= size
      ensures ok <==> old(Config().Filled(lazyBuckets, m.Keys, size)) > 0
      ensures ok ==> slots == old(Config().Filled(lazyBuckets, m.Keys, size))
      ensures ok ==> lazyBuckets == if slots > size then 0 else old(lazyBuckets)
      decreases maxBuckets - size, 4
    {
      hide Valid, Holds, Marked, Policy.Valid, Before, Setting.SlotsFor;
      ghost var s, config, lazy := from[..], Config(), lazyBuckets;
      var i := 0;
      BeforeNone(was, m);
      while i < from.Length - 1
        invariant 0 <= i <= from.Length - 1
        invariant fresh(entries) || entries == old(entries)
        invariant Valid() && slots >= size && maxLoad == old(maxLoad)
        invariant slots == config.Filled(lazy, contents.Keys, size)
        invariant lazyBuckets == if slots > size then 0 else lazy
        invariant from[..] == s
        invariant contents == Before(was, m, i)
      {
        BeforeStep(s, was, m, i);
        MarkedItem(s, i);
        if from[i].tag >= 0 {
          ghost var k, keys := from[i].item.value.key, contents.Keys;
          config.FilledInTwo(lazy, keys, keys + {k}, size);
          BeforeWithin(was, m, i + 1);
          assert Before(was, m, i + 1).Keys == keys + {k};
          config.FilledInTwo(lazy, keys + {k}, m.Keys, size);
          var fine, pos, inserted := Emplace(from[i].item.value);
          if !fine {
            return false;
          }
        }
        i := i + 1;
      }
      BeforeEnd(s, was, m);
      ok := true;
    }

    /** Destroys the item of a slot. */
    method Destroy(p: nat)
      requires Loose() && p < entries.Length - 1 && entries[p].item.Some?
      modifies this`at, this`contents, this`numElements, entries
      ensures Loose() && entries[..] == old(entries[..])[p := Slot(EMPTY_TAG, None)]
      ensures contents == old(contents) - {old(entries[p].item.value.key)}
      ensures at == old(at) - {old(entries[p].item.value.key)}
    {
      hide Lookups, Holds, Policy.Valid;
      ghost var k := entries[p].item.value.key;
      HoldsRemove(entries[..], at, contents, p, EMPTY_TAG);
      MapShrinks(contents, k);
      entries[p] := Slot(EMPTY_TAG, None);
      at, contents, numElements := at - {k}, contents - {k}, numElements - 1;
      assert entries[..] == old(entries[..])[p := Slot(EMPTY_TAG, None)];
    }

    /** Moves the item right of a gap to the start of the gap. */
    method MoveDown(lo: nat, hi: nat)
      requires Loose() && Gapped(TableShape(), entries[..], lo, hi)
      requires entries[hi].tag > 0 && entries[hi].tag >= hi - lo
      modifies this`at, entries
      ensures Loose() && Gapped(TableShape(), entries[..], lo + 1, hi + 1)
      ensures var moved := Slot(old(entries[hi].tag) - (hi - lo), old(entries[hi].item));
              entries[..] == old(entries[..])[lo := moved][hi := Slot(EMPTY_TAG, None)]
    {
      hide Lookups, Holds, Gapped, Policy.Valid;
      GapSides(TableShape(), entries[..], lo, hi);
      ghost var s, k := entries[..], entries[hi].item.value.key;
      entries[lo] := Slot(entries[hi].tag - (hi - lo), entries[hi].item);
      entries[hi] := Slot(EMPTY_TAG, None);
      assert entries[..] == s[lo := Slot(s[hi].tag - (hi - lo), s[hi].item)][hi := Slot(EMPTY_TAG, None)];
      ShiftGap(TableShape(), s, lo, hi, entries[..]);
      HoldsMove(s, at, contents, hi, lo, EMPTY_TAG, s[hi].tag - (hi - lo));
      at := at[k := lo];
    }

    /** Moves each displaced item right of the gap at p back by one slot. */
    method ShiftBack(p: nat, ghost s: seq<Slot<K, V>>)
      requires Loose() && Gapped(TableShape(), entries[..], p, p + 1) && Closed(s, entries[..], p, p + 1)
      modifies this`at, entries
      ensures Valid() && Closed(s, entries[..], p, p + 1)
    {
      hide Loose, Settled, Gapped, Closed, Blank;
      var current := p;
      GapSides(TableShape(), entries[..], current, current + 1);
      while entries[current + 1].tag > 0
        invariant p <= current && current + 1 < entries.Length
        invariant Loose() && Gapped(TableShape(), entries[..], current, current + 1)
        invariant Closed(s, entries[..], p, p + 1)
        decreases entries.Length - current
      {
        GapIsBlank(TableShape(), entries[..], current, current + 1);
        ClosedStep(s, entries[..], p, p + 1, current, current + 1, entries[current + 1].tag - 1, EMPTY_TAG);
        MoveDown(current, current + 1);
        current := current + 1;
        GapSides(TableShape(), entries[..], current, current + 1);
      }
      GapCloses(TableShape(), entries[..], current, current + 1);
    }

    /** The first slot from p on that is not empty, the sentinel being the last. */
    method GoOn(p: nat) returns (pos: nat)
      requires Valid() && p < entries.Length
      ensures p <= pos < entries.Length && Blank(entries[..], p, pos)
      ensures pos == entries.Length - 1 || entries[pos].item.Some?
    {
      hide Holds, Policy.Valid, Lookups, Settled;
      SentinelTag(TableShape(), entries[..]);
      pos := p;
      while entries[pos].tag < 0
        invariant p <= pos < entries.Length && Blank(entries[..], p, pos)
        decreases entries.Length - pos
      {
        assert entries[..][pos] == entries[pos];
        pos := pos + 1;
      }
      assert entries[..][pos] == entries[pos];
    }

    /** Removes the item of a slot and shifts the following displaced items back by one; returns where
        iteration goes on.  From there it visits what came after the removed item. */
    method EraseAt(p: nat) returns (pos: nat)
      requires Valid() && p < entries.Length - 1 && entries[p].item.Some?
      modifies this`at, this`contents, this`numElements, entries
      ensures Valid()
      ensures contents == old(contents) - {old(entries[p].item.value.key)}
      ensures Closed(old(entries[..]), entries[..], p, p + 1)
      ensures p <= pos < entries.Length && Blank(entries[..], p, pos)
      ensures pos == entries.Length - 1 || entries[pos].item.Some?
    {
      hide Loose, Settled, Gapped, Emptied, Closed, Blank, ItemsOf;
      LooseFacts();
      Destroy(p);
      EmptiedRangeIsGap(TableShape(), old(entries[..]), p, p + 1);
      EmptiedStep(old(entries[..]), p, p);
      DestroyedOne(old(entries[..]), p);
      ShiftBack(p, old(entries[..]));
      pos := GoOn(p);
    }

    lemma HeldEachOnce(it: nat)
      requires Valid() && it == entries.Length - 1
      ensures ItemsOf(entries[..]) == ItemsOf(entries[..][..it]) && EachOnce(ItemsOf(entries[..]), contents)
    {
      hide Settled, Holds, ItemsOf, EachOnce;
      var s := entries[..];
      SentinelTag(TableShape(), s);
      ItemsConcat(s[..it], s[it..]);
      NoItems(s[it..]);
      assert s == s[..it] + s[it..];
      ItemsEachOnce(s, at, contents);
    }

    /** All items in the order of iteration. */
    method Items() returns (l: seq<Item<K, V>>)
      requires Valid()
      ensures l == ItemsOf(entries[..]) && EachOnce(l, contents)
    {
      hide Loose, Settled, ItemsOf, EachOnce, Blank;
      LooseFacts();
      ghost var s := entries[..];
      l := [];
      var it := GoOn(0);
      NoneBelow(s, it);
      while it != entries.Length - 1
        invariant it < entries.Length && l == ItemsOf(s[..it])
        invariant it == entries.Length - 1 || entries[it].item.Some?
        decreases entries.Length - it
      {
        l := l + [entries[it].item.value];
        var next := GoOn(it + 1);
        NextUp(s, it, next);
        it := next;
      }
      HeldEachOnce(it);
    }

    method DestroyRange(b: nat, e: nat)
      requires Loose() && b <= e < entries.Length
      modifies this`at, this`contents, this`numElements, entries
      ensures Loose() && contents == old(contents) - KeysIn(old(entries[..]), b, e)
      ensures entries[..] == Emptied(old(entries[..]), b, e)
    {
      hide Loose, KeysIn, Emptied;
      ghost var s := entries[..];
      NoKeysIn(s, b);
      assert contents - {} == contents;
      EmptiedNothing(s, b);
      for i := b to e
        invariant Loose() && contents == old(contents) - KeysIn(s, b, i)
        invariant entries[..] == Emptied(s, b, i)
      {
        KeysInStep(s, b, i);
        EmptiedStep(s, b, i);
        if entries[i].item.Some? {
          MinusOneMore(old(contents), KeysIn(s, b, i), entries[i].item.value.key);
          Destroy(i);
        }
      }
    }

    /** Shifts the items right of a gap back, each as far as the gap and its own home allow. */
    method CloseGap(b: nat, e: nat, ghost s: seq<Slot<K, V>>) returns (pos: nat)
      requires Loose() && Gapped(TableShape(), entries[..], b, e) && e < entries.Length - 1
      requires entries[e].item.None? ==> entries[e].tag == EMPTY_TAG
      requires entries[e].item.Some? ==> entries[e].tag >= 0
      requires Closed(s, entries[..], b, e)
      modifies this`at, entries
      ensures Valid() && Closed(s, entries[..], b, e)
      ensures b <= pos < entries.Length && Blank(entries[..], b, pos) && entries[pos].item == old(entries[e].item)
    {
      hide Loose, Settled, Gapped, Closed, Blank;
      GapSides(TableShape(), entries[..], b, e);
      GapIsBlank(TableShape(), entries[..], b, e);
      var toMove := Min(entries[e].tag, e - b);
      var it := e;
      pos := if toMove > 0 then e - toMove else e;
      BlankLess(entries[..], b, e, pos);
      ghost var lo: nat := b;
      while entries[it].tag > 0
        invariant e <= it < entries.Length && lo < it
        invariant Loose() && Gapped(TableShape(), entries[..], lo, it)
        invariant toMove == Min(entries[it].tag, it - lo)
        invariant it == e ==> entries[..] == old(entries[..]) && (toMove > 0 ==> pos == it - toMove)
        invariant it > e ==> pos < lo && entries[pos].item == old(entries[e].item)
        invariant b <= lo && b <= pos && Closed(s, entries[..], b, e) && Blank(entries[..], b, pos)
        decreases entries.Length - it
      {
        GapSides(TableShape(), entries[..], lo, it);
        NarrowGap(TableShape(), entries[..], lo, it, it - toMove);
        GapIsBlank(TableShape(), entries[..], it - toMove, it);
        ClosedStep(s, entries[..], b, e, it - toMove, it, entries[it].tag - toMove, EMPTY_TAG);
        BlankBelow(entries[..], b, pos, it - toMove, Slot(entries[it].tag - toMove, entries[it].item), it);
        MoveDown(it - toMove, it);
        lo := it - toMove + 1;
        it := it + 1;
        toMove := Min(entries[it].tag, toMove);
      }
      GapCloses(TableShape(), entries[..], lo, it);
    }

    /** Removes the items of the slots from b up to e and closes the gap; returns where the item of
        slot e ends up. */
    method EraseRange(b: nat, e: nat) returns (pos: nat)
      requires Valid() && b <= e < entries.Length
      modifies this`at, this`contents, this`numElements, entries
      ensures Valid()
      ensures contents == old(contents) - KeysIn(old(entries[..]), b, e)
      ensures Closed(old(entries[..]), entries[..], b, e)
      ensures b <= pos < entries.Length && Blank(entries[..], b, pos) && entries[pos].item == old(entries[e].item)
    {
      hide Loose, Settled, Gapped, KeysIn, Closed, Blank, ItemsOf;
      ghost var s := entries[..];
      LooseFacts();
      if b == e {
        NoKeysIn(entries[..], b);
        BlankNone(s, b);
        ClosedStart(s, s, b, b);
        return b;
      }
      DestroyRange(b, e);
      EmptiedRangeIsGap(TableShape(), s, b, e);
      GapIsBlank(TableShape(), entries[..], b, e);
      DestroyedSome(s, b, e);
      ClosedStart(s, entries[..], b, e);
      if e == entries.Length - 1 {
        GapSides(TableShape(), entries[..], b, e);
        GapCloses(TableShape(), entries[..], b, e);
        return e;
      }
      EmptySlotTag(TableShape(), s, e);
      pos := CloseGap(b, e, s);
    }

    /** Removes a key if it is there. */
    method EraseKey(key: K) returns (count: nat)
      requires Valid()
      modifies this`at, this`contents, this`numElements, entries
      ensures Valid() && contents == old(contents) - {key}
      ensures count == if key in old(contents) then 1 else 0
    {
      hide Marked, Holds, Settled, Policy.Valid;
      var p := Find(key);
      if p == entries.Length - 1 {
        return 0;
      }
      var next := EraseAt(p);
      count := 1;
    }

    method Clear()
      requires Valid()
      modifies this`at, this`contents, this`numElements, entries
      ensures Valid() && contents == map[]
    {
      hide Marked, Holds, Settled, Policy.Valid;
      var end := EraseRange(0, entries.Length - 1);
      AllKeysIn(old(entries[..]), old(at), old(contents));
    }

    method Perform(op: MapSpec.Op<K, V>) returns (ok: bool, answer: MapSpec.Answer<V>)
      requires Valid()
      modifies this, entries
      ensures fresh(entries) || entries == old(entries)
      ensures ok ==> Valid() && contents == MapSpec.Next(old(contents), op)
      ensures ok ==> answer == MapSpec.Reply(old(contents), op)
      ensures ok ==> maxLoad == old(maxLoad) && lazyBuckets <= old(lazyBuckets)
      ensures ok <==> old(SizeStep(Config(), Size(slots, lazyBuckets), contents, op)).slots > 0
      ensures ok ==> Size(slots, lazyBuckets) == old(SizeStep(Config(), Size(slots, lazyBuckets), contents, op))
      ensures old(EnoughFor(|contents| + MapSpec.AddsOne(op)) && OpFits(policy, maxBuckets, maxLoad, op, |contents|))
              ==> ok
    {
      hide Loose, Settled, Enough, Setting.SlotsFor, BucketsFor;
      LooseFacts();
      KeysCount(contents);
      ok, answer := true, MapSpec.Done;
      match op {
        case Emplace(x) =>
          var pos, inserted;
          ok, pos, inserted := Emplace(x);
          answer := MapSpec.Inserted(inserted);
        case Erase(key) =>
          var count := EraseKey(key);
          answer := MapSpec.Erased(count);
        case Find(key) =>
          var pos := Find(key);
          answer := MapSpec.Found(if pos == entries.Length - 1 then None else Some(entries[pos].item.value.value));
        case Clear =>
          Clear();
        case Rehash(n) =>
          ok := Rehash(n);
      }
    }

    lemma HasSlots()
      requires Valid()
      ensures slots > 0 && maxLoad > 0.0
      ensures policy.Valid() && policy.admits(slots) && slots <= maxBuckets <= policy.limit
    {
    }

    /** Every run of operations answers, and ends up, exactly as the same run on a map; with memory
        for the items it never fails. */
    method Run(ops: seq<MapSpec.Op<K, V>>) returns (ok: bool, answers: seq<MapSpec.Answer<V>>)
      requires Valid()
      modifies this, entries
      ensures ok ==> Valid() && contents == MapSpec.After(old(contents), ops)
      ensures ok ==> answers == MapSpec.Replies(old(contents), ops)
      ensures ok <==> old(SizeAfter(Config(), Size(slots, lazyBuckets), contents, ops)).slots > 0
      ensures ok ==> Size(slots, lazyBuckets) == old(SizeAfter(Config(), Size(slots, lazyBuckets), contents, ops))
      ensures old(RunFits(Flat, policy, maxBuckets, lazyBuckets, maxLoad, |contents|, ops)) ==> ok
    {
      hide Valid, RunFits, MapSpec.After, MapSpec.Replies, MapSpec.Adds, SizeStep, SizeAfter;
      HasSlots();
      if RunFits(Flat, policy, maxBuckets, lazyBuckets, maxLoad, |contents|, ops) {
        RunGoesThrough(Config(), Size(slots, lazyBuckets), contents, ops);
      }
      ghost var config, size := Config(), Size(slots, lazyBuckets);
      SizeAtStart(config, size, contents, ops);
      answers := [];
      ok := true;
      MapSpec.Nothing(contents);
      assert ops[..0] == [];
      for i := 0 to |ops|
        invariant fresh(entries) || entries == old(entries)
        invariant Valid() && contents == MapSpec.After(old(contents), ops[..i])
        invariant answers == MapSpec.Replies(old(contents), ops[..i])
        invariant |contents| <= old(|contents|) + MapSpec.Adds(ops[..i])
        invariant maxLoad == old(maxLoad) && lazyBuckets <= old(lazyBuckets)
        invariant 0 < slots && Size(slots, lazyBuckets) == SizeAfter(config, size, old(contents), ops[..i])
      {
        MapSpec.OneMore(old(contents), ops, i);
        SizeOneMore(config, size, old(contents), ops, i);
        MapSpec.AtMostAdded(contents, ops[i]);
        MapSpec.AddsSoFar(ops, i);
        var answer;
        ok, answer := Perform(ops[i]);
        if !ok {
          RefusedForGood(config, size, old(contents), ops, i + 1);
          return;
        }
        answers := answers + [answer];
      }
      assert ops[..|ops|] == ops;
    }
  }

  /** However large the table, it holds no more items of one home than it looks up slots: a table
      with room for n items wherever they hash to needs as many lookups. */
  lemma SameHomeLimit<K, V>(sh: Shape<K>, s: seq<Slot<K, V>>, at: map<K, nat>, m: map<K, V>, ks: set<K>, home: nat)
    requires Settled(sh, s) && Holds(s, at, m) && ks <= m.Keys && forall k :: k in ks ==> sh.Home(k) == home
    ensures |ks| <= sh.maxLookups
  {
    hide Settled, Holds;
    SettledShape(sh, s);
    HeldIsNotCrowded(sh, s, at, m);
    SubsetCount(ks, HomedIn(sh, m.Keys, home, home));
  }
}
