/** Singly linked lists of sub-documents threaded through the rows of their storage. */
module SubLists {
  import opened DocIds

  /** A document handle: the row index, and the document id the row was made for. */
  datatype Doc = Doc(index: nat, docid: int)

  const NO_DOC := Doc(INVALID, -1)

  datatype SubRow<+F> = SubRow(next: Doc, fields: F)

  predicate IsNone(d: Doc) { d.index == INVALID }

  /** Following the links from `head` visits exactly the documents of l, in order, and ends. */
  ghost predicate IsList<F>(rows: seq<SubRow<F>>, head: Doc, l: seq<Doc>)
    decreases |l|
  {
    if IsNone(head) then l == []
    else l != [] && l[0] == head && head.index < |rows| && IsList(rows, rows[head.index].next, l[1..])
  }

  lemma {:induction false} ListUnique<F>(rows: seq<SubRow<F>>, head: Doc, a: seq<Doc>, b: seq<Doc>)
    requires IsList(rows, head, a) && IsList(rows, head, b)
    ensures a == b
    decreases |a|
  {
    if !IsNone(head) {
      ListUnique(rows, rows[head.index].next, a[1..], b[1..]);
      assert a == [a[0]] + a[1..] && b == [b[0]] + b[1..];
    }
  }

  /** The documents of a list are in range, and the link of each leads to the rest of the list. */
  lemma {:induction false} ListAt<F>(rows: seq<SubRow<F>>, head: Doc, l: seq<Doc>, i: nat)
    requires IsList(rows, head, l) && i < |l|
    ensures l[i].index < |rows| && !IsNone(l[i])
    ensures IsList(rows, l[i], l[i..]) && IsList(rows, rows[l[i].index].next, l[i + 1..])
    decreases i
  {
    if i == 0 {
      assert l[0..] == l;
    } else {
      ListAt(rows, rows[head.index].next, l[1..], i - 1);
      assert l[1..][i - 1..] == l[i..] && l[1..][i..] == l[i + 1..];
    }
  }

  lemma ListRest<F>(rows: seq<SubRow<F>>, l: seq<Doc>, k: nat)
    requires k < |l| && IsList(rows, l[k], l[k..])
    ensures l[k].index < |rows| && !IsNone(l[k]) && IsList(rows, rows[l[k].index].next, l[k + 1..])
  {
    ListAt(rows, l[k], l[k..], 0);
    assert l[k..][1..] == l[k + 1..];
  }

  lemma ListNext<F>(rows: seq<SubRow<F>>, head: Doc, l: seq<Doc>, i: nat)
    requires IsList(rows, head, l) && i < |l|
    ensures l[i].index < |rows| && !IsNone(l[i])
    ensures if i + 1 < |l| then rows[l[i].index].next == l[i + 1] else IsNone(rows[l[i].index].next)
  {
    ListAt(rows, head, l, i);
  }

  lemma ListEmpty<F>(rows: seq<SubRow<F>>, head: Doc, l: seq<Doc>)
    requires IsList(rows, head, l)
    ensures IsNone(head) <==> l == []
    ensures l != [] ==> l[0] == head
  {
  }

  /** No row occurs twice in a list. */
  lemma ListAcyclic<F>(rows: seq<SubRow<F>>, head: Doc, l: seq<Doc>, i: nat, j: nat)
    requires IsList(rows, head, l) && i < j < |l|
    ensures l[i].index != l[j].index
  {
    ListAt(rows, head, l, i);
    ListAt(rows, head, l, j);
    if l[i].index == l[j].index {
      ListUnique(rows, rows[l[i].index].next, l[i + 1..], l[j + 1..]);
    }
  }

  /** A list survives any change of rows that keeps the links of its own rows. */
  lemma {:induction false} ListFrame<F>(rows: seq<SubRow<F>>, rows': seq<SubRow<F>>, head: Doc, l: seq<Doc>)
    requires IsList(rows, head, l)
    requires forall i :: 0 <= i < |l| && l[i].index < |rows| ==>
               l[i].index < |rows'| && rows'[l[i].index].next == rows[l[i].index].next
    ensures IsList(rows', head, l)
    decreases |l|
  {
    if !IsNone(head) {
      assert l[0].index < |rows'|;
      forall i | 0 <= i < |l[1..]| && l[1..][i].index < |rows|
        ensures l[1..][i].index < |rows'| && rows'[l[1..][i].index].next == rows[l[1..][i].index].next
      {
        assert l[1..][i] == l[i + 1];
      }
      ListFrame(rows, rows', rows[head.index].next, l[1..]);
    }
  }

  /** A sequence whose rows are linked one to the next, the last to nothing, is a list. */
  lemma {:induction false} ChainIsList<F>(rows: seq<SubRow<F>>, l: seq<Doc>)
    requires forall i :: 0 <= i < |l| ==> l[i].index < |rows| && !IsNone(l[i])
    requires forall i :: 0 <= i < |l| - 1 ==> rows[l[i].index].next == l[i + 1]
    requires l != [] ==> IsNone(rows[l[|l| - 1].index].next)
    ensures IsList(rows, if l == [] then NO_DOC else l[0], l)
    decreases |l|
  {
    if l != [] {
      ChainIsList(rows, l[1..]);
      if |l| == 1 { assert l[1..] == []; } else { assert rows[l[0].index].next == l[1] == l[1..][0]; }
    }
  }

  function LinkedTo<F>(rows: seq<SubRow<F>>, at: nat, d: Doc): (r: seq<SubRow<F>>)
    requires at < |rows|
  {
    rows[at := rows[at].(next := d)]
  }

  /** Hanging a document behind document k of a list cuts off what followed k. */
  lemma LinkBehind<F>(rows: seq<SubRow<F>>, head: Doc, l: seq<Doc>, k: nat, d: Doc)
    requires IsList(rows, head, l) && k < |l| && !IsNone(d) && d.index < |rows|
    requires IsNone(rows[d.index].next) && forall i :: 0 <= i <= k ==> l[i].index != d.index
    ensures l[k].index < |rows| && IsList(LinkedTo(rows, l[k].index, d), head, l[..k + 1] + [d])
  {
    ListAt(rows, head, l, k);
    var rows', l' := LinkedTo(rows, l[k].index, d), l[..k + 1] + [d];
    forall i | 0 <= i < |l'| ensures l'[i].index < |rows'| && !IsNone(l'[i]) {
      if i <= k { ListAt(rows, head, l, i); }
    }
    forall i | 0 <= i < |l'| - 1 ensures rows'[l'[i].index].next == l'[i + 1] {
      ListNext(rows, head, l, i);
      if i < k { ListAcyclic(rows, head, l, i, k); }
    }
    ChainIsList(rows', l');
  }

  /** It appends the document to the list exactly when k is the last one. */
  lemma LinkBehindAppends<F>(rows: seq<SubRow<F>>, head: Doc, l: seq<Doc>, k: nat, d: Doc)
    requires IsList(rows, head, l) && k < |l| && !IsNone(d) && d.index < |rows|
    requires IsNone(rows[d.index].next) && forall i :: 0 <= i <= k ==> l[i].index != d.index
    ensures l[k].index < |rows| && (IsList(LinkedTo(rows, l[k].index, d), head, l + [d]) <==> k == |l| - 1)
  {
    LinkBehind(rows, head, l, k, d);
    if k == |l| - 1 {
      assert l[..k + 1] == l;
    } else if IsList(LinkedTo(rows, l[k].index, d), head, l + [d]) {
      assert |l + [d]| != |l[..k + 1] + [d]|;
      ListUnique(LinkedTo(rows, l[k].index, d), head, l + [d], l[..k + 1] + [d]);
    }
  }

  function Shift(d: Doc, offset: nat): (r: Doc) {
    if IsNone(d) then d else Doc(d.index + offset, d.docid)
  }

  function ShiftAll(l: seq<Doc>, offset: nat): (r: seq<Doc>)
    ensures |r| == |l|
  {
    seq(|l|, i requires 0 <= i < |l| => Shift(l[i], offset))
  }

  /** The rows from `offset` on with their links into the storage moved up by the offset. */
  ghost function Relocated<F>(rows: seq<SubRow<F>>, offset: nat): (r: seq<SubRow<F>>)
    ensures |r| == |rows|
  {
    seq(|rows|, i requires 0 <= i < |rows| =>
      if i >= offset && rows[i].next.index + offset < |rows| then rows[i].(next := Shift(rows[i].next, offset))
        else rows[i])
  }

  /** A list in rows that were appended at `offset` is, after relocation, the list moved up. */
  lemma {:induction false} RelocatedList<F>(rows: seq<SubRow<F>>, theirs: seq<SubRow<F>>, offset: nat, head: Doc,
                                            l: seq<Doc>)
    requires IsList(theirs, head, l) && |rows| == offset + |theirs| <= INVALID
    requires forall i :: 0 <= i < |theirs| ==> rows[offset + i] == theirs[i]
    ensures IsList(Relocated(rows, offset), Shift(head, offset), ShiftAll(l, offset))
    decreases |l|
  {
    if !IsNone(head) {
      RelocatedList(rows, theirs, offset, theirs[head.index].next, l[1..]);
      assert ShiftAll(l, offset)[1..] == ShiftAll(l[1..], offset);
      assert rows[offset + head.index] == theirs[head.index];
      ListEmpty(theirs, theirs[head.index].next, l[1..]);
    }
  }

  /** The target differs from the raw rows only in links, and never in whether there is one. */
  ghost predicate SameShape<F>(raw: seq<SubRow<F>>, target: seq<SubRow<F>>) {
    && |raw| == |target|
    && forall i :: 0 <= i < |raw| ==>
         && target[i].fields == raw[i].fields
         && (IsNone(raw[i].next) <==> IsNone(target[i].next)) && (IsNone(raw[i].next) ==> target[i] == raw[i])
  }

  /** Every row is either as it was appended or already relocated. */
  ghost predicate Between<F>(raw: seq<SubRow<F>>, rows: seq<SubRow<F>>, target: seq<SubRow<F>>) {
    && |raw| == |rows| == |target|
    && forall i :: 0 <= i < |rows| ==> rows[i] == raw[i] || rows[i] == target[i]
  }

  /** The rows agree with the target on every row of l. */
  ghost predicate Settled<F>(rows: seq<SubRow<F>>, target: seq<SubRow<F>>, l: seq<Doc>) {
    forall i :: 0 <= i < |l| ==> l[i].index < |rows| && l[i].index < |target| && rows[l[i].index] == target[l[i].index]
  }

  /** Rows only ever move from their appended to their relocated state. */
  ghost predicate Progress<F>(rows: seq<SubRow<F>>, rows': seq<SubRow<F>>, target: seq<SubRow<F>>) {
    |rows| == |rows'| == |target| && forall i :: 0 <= i < |rows| && rows[i] == target[i] ==> rows'[i] == target[i]
  }

  lemma SettledStays<F>(rows: seq<SubRow<F>>, rows': seq<SubRow<F>>, target: seq<SubRow<F>>, l: seq<Doc>)
    requires Settled(rows, target, l) && Progress(rows, rows', target)
    ensures Settled(rows', target, l)
  {
  }

  lemma SettledIsList<F>(rows: seq<SubRow<F>>, target: seq<SubRow<F>>, head: Doc, l: seq<Doc>)
    requires IsList(target, head, l) && Settled(rows, target, l)
    ensures IsList(rows, head, l)
  {
    ListFrame(target, rows, head, l);
  }

  /** Overwriting a link by the relocated one is progress. */
  lemma RelinkProgress<F>(raw: seq<SubRow<F>>, rows: seq<SubRow<F>>, target: seq<SubRow<F>>, at: nat, d: Doc)
    requires Between(raw, rows, target) && SameShape(raw, target) && at < |rows| && target[at].next == d
    ensures LinkedTo(rows, at, d)[at] == target[at]
    ensures Between(raw, LinkedTo(rows, at, d), target) && Progress(rows, LinkedTo(rows, at, d), target)
  {
  }

  function Flatten(lists: seq<seq<Doc>>): (r: seq<Doc>) {
    if lists == [] then [] else Flatten(lists[..|lists| - 1]) + lists[|lists| - 1]
  }

  lemma FlattenStep(lists: seq<seq<Doc>>, i: nat)
    requires i < |lists|
    ensures Flatten(lists[..i + 1]) == Flatten(lists[..i]) + lists[i]
  {
    assert lists[..i + 1][..i] == lists[..i];
  }

  /** The part of the flattened lists that belongs to list i. */
  lemma {:induction false} FlattenSlice(lists: seq<seq<Doc>>, i: nat)
    requires i < |lists|
    ensures |Flatten(lists[..i])| + |lists[i]| <= |Flatten(lists)|
    ensures Flatten(lists)[|Flatten(lists[..i])|..|Flatten(lists[..i])| + |lists[i]|] == lists[i]
    decreases |lists|
  {
    var n := |lists| - 1;
    if i == n {
    } else {
      FlattenSlice(lists[..n], i);
      assert lists[..n][..i] == lists[..i];
    }
  }

  ghost function ShiftLists(lists: seq<seq<Doc>>, offset: nat): (r: seq<seq<Doc>>)
    ensures |r| == |lists| && forall i :: 0 <= i < |r| ==> r[i] == ShiftAll(lists[i], offset)
  {
    seq(|lists|, i requires 0 <= i < |lists| => ShiftAll(lists[i], offset))
  }

  lemma {:induction false} FlattenShift(lists: seq<seq<Doc>>, offset: nat)
    ensures Flatten(ShiftLists(lists, offset)) == ShiftAll(Flatten(lists), offset)
    decreases |lists|
  {
    if lists != [] {
      var n := |lists| - 1;
      FlattenShift(lists[..n], offset);
      assert ShiftLists(lists, offset)[..n] == ShiftLists(lists[..n], offset);
    }
  }

  /** A first link that has not been rewritten yet, or has: it is there exactly when the list has
      documents. */
  ghost predicate Entry(first: Doc, head: Doc, l: seq<Doc>) {
    (IsNone(first) <==> l == []) && (l == [] ==> first == head)
  }

  lemma EntryDone<F>(rows: seq<SubRow<F>>, head: Doc, l: seq<Doc>)
    requires IsList(rows, head, l)
    ensures Entry(head, head, l)
  {
  }

  lemma RelocatedShape<F>(rows: seq<SubRow<F>>, offset: nat)
    requires |rows| <= INVALID
    ensures SameShape(rows, Relocated(rows, offset))
  {
  }

  /** What relinking one moved document has to start from and arrive at, whether or not the rows of
      its sub-documents had to be appended. */
  lemma RelinkPlan<F>(rows: seq<SubRow<F>>, theirs: seq<SubRow<F>>, offset: nat, head: Doc, l: seq<Doc>)
    requires IsList(theirs, head, l) && |rows| <= INVALID
    requires l == [] || (|rows| == offset + |theirs| && forall i :: 0 <= i < |theirs| ==> rows[offset + i] == theirs[i])
    ensures IsList(Relocated(rows, offset), Shift(head, offset), ShiftAll(l, offset))
    ensures Entry(head, Shift(head, offset), ShiftAll(l, offset))
  {
    ListEmpty(theirs, head, l);
    if l != [] { RelocatedList(rows, theirs, offset, head, l); }
  }

  lemma AllEmpty(lists: seq<seq<Doc>>, i: nat)
    requires Flatten(lists) == [] && i < |lists|
    ensures lists[i] == []
  {
    FlattenSlice(lists, i);
  }
}
