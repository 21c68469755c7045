/** The items of a run of slots in the order of the slots, which is the order of iteration. */
module SlotItems {
  import opened Slots

  ghost function ItemsOf<K, V>(s: seq<Slot<K, V>>): (l: seq<Item<K, V>>) {
    if s == [] then []
    else ItemsOf(s[..|s| - 1]) + if s[|s| - 1].item.Some? then [s[|s| - 1].item.value] else []
  }

  lemma {:induction false} ItemsConcat<K, V>(a: seq<Slot<K, V>>, b: seq<Slot<K, V>>)
    ensures ItemsOf(a + b) == ItemsOf(a) + ItemsOf(b)
    decreases |b|
  {
    if b == [] {
      assert a + b == a;
    } else {
      var n := |b| - 1;
      ItemsConcat(a, b[..n]);
      assert (a + b)[..|a| + n] == a + b[..n];
    }
  }

  lemma ItemsSplit<K, V>(s: seq<Slot<K, V>>, p: nat)
    requires p <= |s|
    ensures ItemsOf(s) == ItemsOf(s[..p]) + ItemsOf(s[p..])
  {
    ItemsConcat(s[..p], s[p..]);
    assert s == s[..p] + s[p..];
  }

  /** The slots from lo up to hi hold nothing. */
  ghost predicate Blank<K, V>(s: seq<Slot<K, V>>, lo: nat, hi: nat) {
    hi <= |s| && forall p :: lo <= p < hi ==> s[p].item == None
  }

  lemma {:induction false} NoItems<K, V>(s: seq<Slot<K, V>>)
    requires Blank(s, 0, |s|)
    ensures ItemsOf(s) == []
  {
    if s != [] { NoItems(s[..|s| - 1]); }
  }

  lemma OneItem<K, V>(e: Slot<K, V>)
    ensures ItemsOf([e]) == if e.item.Some? then [e.item.value] else []
  {
    assert [e][..0] == [];
  }

  lemma ThreeParts<K, V>(s: seq<Slot<K, V>>, lo: nat, hi: nat)
    requires lo <= hi <= |s|
    ensures ItemsOf(s) == ItemsOf(s[..lo]) + ItemsOf(s[lo..hi]) + ItemsOf(s[hi..])
  {
    hide ItemsOf;
    ItemsSplit(s, hi);
    ItemsSplit(s[..hi], lo);
    assert s[..hi][..lo] == s[..lo] && s[..hi][lo..] == s[lo..hi];
  }

  lemma SameItem<K, V>(e: Slot<K, V>, e': Slot<K, V>)
    requires e.item == e'.item
    ensures ItemsOf([e]) == ItemsOf([e'])
  {
    OneItem(e);
    OneItem(e');
  }

  lemma OnlyLast<K, V>(s: seq<Slot<K, V>>, lo: nat, hi: nat)
    requires lo <= hi < |s| && Blank(s, lo, hi)
    ensures ItemsOf(s[lo..hi + 1]) == ItemsOf([s[hi]])
  {
    hide ItemsOf;
    NoItems(s[lo..hi]);
    ItemsConcat(s[lo..hi], [s[hi]]);
    assert s[lo..hi + 1] == s[lo..hi] + [s[hi]];
  }

  lemma OnlyFirst<K, V>(s: seq<Slot<K, V>>, lo: nat, hi: nat)
    requires lo <= hi < |s| && Blank(s, lo + 1, hi + 1)
    ensures ItemsOf(s[lo..hi + 1]) == ItemsOf([s[lo]])
  {
    hide ItemsOf;
    NoItems(s[lo + 1..hi + 1]);
    ItemsConcat([s[lo]], s[lo + 1..hi + 1]);
    assert s[lo..hi + 1] == [s[lo]] + s[lo + 1..hi + 1];
  }

  /** Moving an item over empty slots keeps the order. */
  lemma ItemsMove<K, V>(s: seq<Slot<K, V>>, t: seq<Slot<K, V>>, lo: nat, hi: nat)
    requires lo < hi < |s| == |t| && Blank(s, lo, hi) && Blank(t, lo + 1, hi + 1) && t[lo].item == s[hi].item
    requires s[..lo] == t[..lo] && s[hi + 1..] == t[hi + 1..]
    ensures ItemsOf(s) == ItemsOf(t)
  {
    hide ItemsOf, Blank;
    ThreeParts(s, lo, hi + 1);
    ThreeParts(t, lo, hi + 1);
    OnlyLast(s, lo, hi);
    OnlyFirst(t, lo, hi);
    SameItem(s[hi], t[lo]);
  }

  /** Below b nothing has changed, and from b on come the items that were there from e on. */
  ghost predicate Closed<K, V>(s: seq<Slot<K, V>>, t: seq<Slot<K, V>>, b: nat, e: nat) {
    |t| == |s| && b <= e <= |s| && t[..b] == s[..b] && ItemsOf(t[b..]) == ItemsOf(s[e..])
  }

  lemma SkipBlank<K, V>(s: seq<Slot<K, V>>, b: nat, e: nat)
    requires b <= e <= |s| && Blank(s, b, e)
    ensures ItemsOf(s[b..]) == ItemsOf(s[e..])
  {
    hide ItemsOf;
    NoItems(s[b..e]);
    ItemsConcat(s[b..e], s[e..]);
    assert s[b..] == s[b..e] + s[e..];
  }

  lemma ClosedStart<K, V>(s: seq<Slot<K, V>>, t: seq<Slot<K, V>>, b: nat, e: nat)
    requires |t| == |s| && b <= e <= |s| && t[..b] == s[..b] && t[e..] == s[e..] && Blank(t, b, e)
    ensures Closed(s, t, b, e)
  {
    hide ItemsOf;
    SkipBlank(t, b, e);
  }

  lemma ItemsMoveFrom<K, V>(t: seq<Slot<K, V>>, t': seq<Slot<K, V>>, b: nat, lo: nat, hi: nat)
    requires b <= lo < hi < |t| == |t'| && Blank(t, lo, hi) && t'[lo].item == t[hi].item && t'[hi].item == None
    requires forall p :: 0 <= p < |t| && p != lo && p != hi ==> t'[p] == t[p]
    ensures ItemsOf(t[b..]) == ItemsOf(t'[b..])
  {
    hide ItemsOf;
    ItemsMove(t[b..], t'[b..], lo - b, hi - b);
  }

  lemma ClosedStep<K, V>(s: seq<Slot<K, V>>, t: seq<Slot<K, V>>, b: nat, e: nat, lo: nat, hi: nat, x: int, y: int)
    requires Closed(s, t, b, e) && b <= lo < hi < |t| && Blank(t, lo, hi)
    ensures Closed(s, t[lo := Slot(x, t[hi].item)][hi := Slot(y, None)], b, e)
  {
    hide ItemsOf;
    var t' := t[lo := Slot(x, t[hi].item)][hi := Slot(y, None)];
    assert t'[..b] == t[..b];
    ItemsMoveFrom(t, t', b, lo, hi);
  }

  /** The list has every entry of the map once. */
  ghost predicate EachOnce<K, V>(l: seq<Item<K, V>>, m: map<K, V>) {
    && (forall i :: 0 <= i < |l| ==> l[i].key in m && m[l[i].key] == l[i].value)
    && (forall i, j :: 0 <= i < j < |l| ==> l[i].key != l[j].key)
    && forall k :: k in m ==> exists i :: 0 <= i < |l| && l[i].key == k
  }

  ghost predicate InOrder<K, V>(l: seq<Item<K, V>>, at: map<K, nat>, m: map<K, V>, n: nat) {
    && (forall i :: 0 <= i < |l| ==>
          l[i].key in m && l[i].key in at && m[l[i].key] == l[i].value && at[l[i].key] < n)
    && (forall i, j :: 0 <= i < j < |l| ==> l[i].key in at && l[j].key in at && at[l[i].key] < at[l[j].key])
    && forall k :: k in m && k in at && at[k] < n ==> exists i :: 0 <= i < |l| && l[i].key == k
  }

  lemma SkipInOrder<K, V>(s: seq<Slot<K, V>>, at: map<K, nat>, m: map<K, V>, n: nat, l: seq<Item<K, V>>)
    requires Holds(s, at, m) && n < |s| && InOrder(l, at, m, n) && s[n].item == None
    ensures InOrder(l, at, m, n + 1)
  {
    hide Holds;
    forall k | k in m && k in at && at[k] < n + 1 ensures at[k] < n { KeyItem(s, at, m, k); }
  }

  lemma AddInOrder<K, V>(s: seq<Slot<K, V>>, at: map<K, nat>, m: map<K, V>, n: nat, l: seq<Item<K, V>>)
    requires Holds(s, at, m) && n < |s| && InOrder(l, at, m, n) && s[n].item.Some?
    ensures InOrder(l + [s[n].item.value], at, m, n + 1)
  {
    hide Holds;
    var x := s[n].item.value;
    var l' := l + [x];
    SlotKey(s, at, m, n);
    forall k | k in m && k in at && at[k] < n + 1 ensures exists i :: 0 <= i < |l'| && l'[i].key == k {
      KeyItem(s, at, m, k);
      if at[k] == n {
        assert l'[|l|] == x;
      } else {
        var i :| 0 <= i < |l| && l[i].key == k;
        assert l'[i] == l[i];
      }
    }
    forall i | 0 <= i < |l'|
      ensures l'[i].key in m && l'[i].key in at && m[l'[i].key] == l'[i].value && at[l'[i].key] < n + 1
    {
      assert i < |l| ==> l'[i] == l[i];
    }
    forall i, j | 0 <= i < j < |l'| ensures at[l'[i].key] < at[l'[j].key] {
      assert l'[i] == l[i] && at[l[i].key] < n && (j < |l| ==> l'[j] == l[j]) && (j == |l| ==> l'[j] == x);
    }
    assert InOrder(l', at, m, n + 1);
  }

  lemma {:induction false} ItemsInOrder<K, V>(s: seq<Slot<K, V>>, at: map<K, nat>, m: map<K, V>, n: nat)
    requires Holds(s, at, m) && n <= |s|
    ensures InOrder(ItemsOf(s[..n]), at, m, n)
  {
    if n > 0 {
      ItemsInOrder(s, at, m, n - 1);
      assert s[..n][..n - 1] == s[..n - 1];
      if s[n - 1].item.Some? {
        AddInOrder(s, at, m, n - 1, ItemsOf(s[..n - 1]));
      } else {
        SkipInOrder(s, at, m, n - 1, ItemsOf(s[..n - 1]));
        assert ItemsOf(s[..n]) == ItemsOf(s[..n - 1]);
      }
    }
  }

  lemma NoneBelow<K, V>(s: seq<Slot<K, V>>, p: nat)
    requires p <= |s| && Blank(s, 0, p)
    ensures ItemsOf(s[..p]) == []
  {
    hide ItemsOf;
    NoItems(s[..p]);
  }

  lemma NextUp<K, V>(s: seq<Slot<K, V>>, p: nat, hi: nat)
    requires p < hi <= |s| && s[p].item.Some? && Blank(s, p + 1, hi)
    ensures ItemsOf(s[..hi]) == ItemsOf(s[..p]) + [s[p].item.value]
  {
    hide ItemsOf;
    OneItem(s[p]);
    NoItems(s[p + 1..hi]);
    ItemsConcat([s[p]], s[p + 1..hi]);
    ItemsConcat(s[..p], [s[p]] + s[p + 1..hi]);
    assert s[..hi] == s[..p] + ([s[p]] + s[p + 1..hi]);
  }

  /** Iterating over the slots visits every key once. */
  lemma ItemsEachOnce<K, V>(s: seq<Slot<K, V>>, at: map<K, nat>, m: map<K, V>)
    requires Holds(s, at, m)
    ensures EachOnce(ItemsOf(s), m)
  {
    ItemsInOrder(s, at, m, |s|);
    assert s[..|s|] == s;
  }

  function Reversed<T>(l: seq<T>): (r: seq<T>)
    ensures |r| == |l| && forall i :: 0 <= i < |l| ==> r[i] == l[|l| - 1 - i]
  {
    seq(|l|, i requires 0 <= i < |l| => l[|l| - 1 - i])
  }

  lemma ReversedEachOnce<K, V>(l: seq<Item<K, V>>, m: map<K, V>)
    requires EachOnce(l, m)
    ensures EachOnce(Reversed(l), m)
  {
    var r := Reversed(l);
    forall k | k in m ensures exists i :: 0 <= i < |r| && r[i].key == k {
      var i :| 0 <= i < |l| && l[i].key == k;
      assert r[|l| - 1 - i].key == k;
    }
  }

  /** The items from the last slot down to slot p. */
  ghost function DownTo<K, V>(s: seq<Slot<K, V>>, p: nat): seq<Item<K, V>>
    requires p <= |s|
  {
    Reversed(ItemsOf(s[p..]))
  }

  lemma NoneAbove<K, V>(s: seq<Slot<K, V>>, p: nat)
    requires p <= |s| && Blank(s, p, |s|)
    ensures DownTo(s, p) == []
  {
    hide ItemsOf;
    NoItems(s[p..]);
  }

  lemma NextDown<K, V>(s: seq<Slot<K, V>>, lo: nat, p: nat)
    requires lo <= p < |s| && s[p].item.Some? && Blank(s, lo, p)
    ensures DownTo(s, lo) == DownTo(s, p + 1) + [s[p].item.value]
  {
    hide ItemsOf;
    SkipBlank(s, lo, p);
    OneItem(s[p]);
    ItemsConcat([s[p]], s[p + 1..]);
    assert s[p..] == [s[p]] + s[p + 1..];
  }
}
