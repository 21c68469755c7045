/** Slot arrays shared by the two hash tables: a slot is a control number together with
    possibly uninitialised storage for one item.  A run of slots holds a map `m` when `at` is a
    one-to-one correspondence between the keys of `m` and the slots that hold an item. */
module Slots {

  datatype Option<+T> = None | Some(value: T)

  datatype Item<+K, +V> = Item(key: K, value: V)

  /** `item` is `None` when the storage holds no constructed value. */
  datatype Slot<+K, +V> = Slot(tag: int, item: Option<Item<K, V>>)

  ghost predicate Holds<K, V>(s: seq<Slot<K, V>>, at: map<K, nat>, m: map<K, V>) {
    && at.Keys == m.Keys
    && (forall k :: k in m ==> at[k] < |s| && s[at[k]].item == Some(Item(k, m[k])))
    && (forall i :: 0 <= i < |s| && s[i].item.Some? ==>
          s[i].item.value.key in m && at[s[i].item.value.key] == i)
  }

  /** Constructing an item with a new key in an empty slot adds it to the map. */
  lemma HoldsPut<K, V>(s: seq<Slot<K, V>>, at: map<K, nat>, m: map<K, V>, i: nat, tag: int, x: Item<K, V>)
    requires Holds(s, at, m) && i < |s| && s[i].item == None && x.key !in m
    ensures Holds(s[i := Slot(tag, Some(x))], at[x.key := i], m[x.key := x.value])
  {
  }

  /** Destroying the item of a slot removes its key from the map. */
  lemma HoldsRemove<K, V>(s: seq<Slot<K, V>>, at: map<K, nat>, m: map<K, V>, i: nat, tag: int)
    requires Holds(s, at, m) && i < |s| && s[i].item.Some?
    ensures var k := s[i].item.value.key;
            k in m && Holds(s[i := Slot(tag, None)], at - {k}, m - {k})
  {
  }

  /** Exchanging the item of a slot with one in hand exchanges the two keys. */
  lemma HoldsSwap<K, V>(s: seq<Slot<K, V>>, at: map<K, nat>, m: map<K, V>, i: nat, tag: int, x: Item<K, V>)
    requires Holds(s, at, m) && i < |s| && s[i].item.Some? && x.key !in m
    ensures var k := s[i].item.value.key;
            k in m && Holds(s[i := Slot(tag, Some(x))], (at - {k})[x.key := i], (m - {k})[x.key := x.value])
  {
  }

  /** Moving an item to an empty slot keeps the map. */
  lemma HoldsMove<K, V>(s: seq<Slot<K, V>>, at: map<K, nat>, m: map<K, V>, i: nat, j: nat, ti: int, tj: int)
    requires Holds(s, at, m) && i < |s| && j < |s| && s[i].item.Some? && s[j].item == None
    ensures Holds(s[j := Slot(tj, s[i].item)][i := Slot(ti, None)], at[s[i].item.value.key := j], m)
  {
  }

  /** A map has at least as many keys as there are occupied slots. */
  lemma {:induction false} OccupiedCount<K, V>(s: seq<Slot<K, V>>, at: map<K, nat>, m: map<K, V>, ps: set<nat>)
    requires Holds(s, at, m) && forall p :: p in ps ==> p < |s| && s[p].item.Some?
    ensures |ps| <= |m|
    decreases |ps|
  {
    if ps != {} {
      var p :| p in ps;
      var k := s[p].item.value.key;
      HoldsRemove(s, at, m, p, 0);
      OccupiedCount(s[p := Slot(0, None)], at - {k}, m - {k}, ps - {p});
      assert m == (m - {k})[k := m[k]];
    }
  }

  /** Slots that hold nothing, all with the same control number. */
  ghost function BlankRun<K, V>(n: nat, tag: int): (s: seq<Slot<K, V>>)
    ensures |s| == n && forall i :: 0 <= i < n ==> s[i] == Slot(tag, None)
  {
    seq(n, _ => Slot(tag, None))
  }

  method NewSlots<K, V>(n: nat, tag: int) returns (a: array<Slot<K, V>>)
    ensures fresh(a) && a.Length == n && a[..] == BlankRun(n, tag)
  {
    a := new Slot[n](_ => Slot(tag, None));
  }

  /** The part of the map whose items sit below slot i. */
  ghost function Before<K, V>(at: map<K, nat>, m: map<K, V>, i: nat): map<K, V> {
    map k | k in m && k in at && at[k] < i :: m[k]
  }

  lemma BeforeNone<K, V>(at: map<K, nat>, m: map<K, V>)
    ensures Before(at, m, 0) == map[]
  {
  }

  lemma BeforeStep<K, V>(s: seq<Slot<K, V>>, at: map<K, nat>, m: map<K, V>, i: nat)
    requires Holds(s, at, m) && i < |s|
    ensures match s[i].item
            case None => Before(at, m, i + 1) == Before(at, m, i)
            case Some(x) =>
              x.key !in Before(at, m, i) && Before(at, m, i + 1) == Before(at, m, i)[x.key := x.value]
  {
  }

  lemma BeforeAll<K, V>(s: seq<Slot<K, V>>, at: map<K, nat>, m: map<K, V>)
    requires Holds(s, at, m)
    ensures Before(at, m, |s|) == m
  {
  }

  lemma BeforeEnd<K, V>(s: seq<Slot<K, V>>, at: map<K, nat>, m: map<K, V>)
    requires Holds(s, at, m) && |s| > 0 && s[|s| - 1].item == None
    ensures Before(at, m, |s| - 1) == m
  {
  }

  lemma KeysCount<K, V>(m: map<K, V>)
    ensures |m.Keys| == |m|
  {
  }

  lemma SubsetCount<T>(a: set<T>, b: set<T>)
    requires a <= b
    ensures |a| <= |b|
  {
    assert b == a + (b - a);
  }

  lemma BeforeWithin<K, V>(at: map<K, nat>, m: map<K, V>, i: nat)
    ensures Before(at, m, i).Keys <= m.Keys
  {
  }

  lemma SlotsApart<K, V>(s: seq<Slot<K, V>>, at: map<K, nat>, m: map<K, V>, k: K, k': K)
    requires Holds(s, at, m) && k in m && k' in m && k != k'
    ensures at[k] != at[k']
  {
  }

  /** The keys stored in the slots from b up to e. */
  ghost function KeysIn<K, V>(s: seq<Slot<K, V>>, b: nat, e: nat): set<K>
    requires b <= e <= |s|
  {
    set i | b <= i < e && s[i].item.Some? :: s[i].item.value.key
  }

  lemma NoKeysIn<K, V>(s: seq<Slot<K, V>>, b: nat)
    requires b <= |s|
    ensures KeysIn(s, b, b) == {}
  {
  }

  lemma KeysInStep<K, V>(s: seq<Slot<K, V>>, b: nat, i: nat)
    requires b <= i < |s|
    ensures KeysIn(s, b, i + 1) == KeysIn(s, b, i) + if s[i].item.Some? then {s[i].item.value.key} else {}
  {
  }

  lemma AllKeysIn<K, V>(s: seq<Slot<K, V>>, at: map<K, nat>, m: map<K, V>)
    requires Holds(s, at, m) && |s| > 0 && s[|s| - 1].item == None
    ensures m - KeysIn(s, 0, |s| - 1) == map[]
  {
    forall k | k in m ensures k in KeysIn(s, 0, |s| - 1) {
      assert s[at[k]].item.value.key == k;
    }
  }

  lemma MinusOneMore<K, V>(m: map<K, V>, ks: set<K>, k: K)
    ensures (m - ks) - {k} == m - (ks + {k})
  {
  }

  lemma MapShrinks<K, V>(m: map<K, V>, k: K)
    requires k in m
    ensures |m - {k}| == |m| - 1
  {
    assert m == (m - {k})[k := m[k]];
  }

  lemma ExchangeCount<K, V>(m: map<K, V>, k: K, x: Item<K, V>)
    requires k in m && x.key !in m
    ensures |(m - {k})[x.key := x.value]| == |m|
  {
    MapShrinks(m, k);
  }

  lemma KeyItem<K, V>(s: seq<Slot<K, V>>, at: map<K, nat>, m: map<K, V>, k: K)
    requires Holds(s, at, m) && k in m
    ensures k in at && at[k] < |s| && s[at[k]].item == Some(Item(k, m[k]))
  {
  }

  lemma SlotKey<K, V>(s: seq<Slot<K, V>>, at: map<K, nat>, m: map<K, V>, p: nat)
    requires Holds(s, at, m) && p < |s| && s[p].item.Some?
    ensures var x := s[p].item.value; x.key in m && x.key in at && m[x.key] == x.value && at[x.key] == p
  {
  }
}
