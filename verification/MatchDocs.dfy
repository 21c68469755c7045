/** Documents with sub-documents: parent rows hold the first and the current document of a list
    threaded through the rows of the sub-document pool. */
module MatchDocs {
  import opened Sequences
  import opened VectorStorage
  import opened DocIds
  import opened SubLists

  datatype ParentRow<+F> = ParentRow(first: Doc, current: Doc, fields: F)

  /** Why a merge may do nothing: there are no documents, it is the allocator itself, or the fields differ. */
  datatype Idle = Nothing | Itself | Differs

  /** A parent without sub-documents, or with a current one. */
  ghost predicate CanAdd<F>(rows: seq<SubRow<F>>, row: ParentRow<F>) {
    IsNone(row.first) || row.current.index < |rows|
  }

  /** The parent row and the rows of the sub-documents after one was hung behind the current one. */
  ghost function AddedParent<F>(row: ParentRow<F>, d: Doc): (r: ParentRow<F>)
    ensures r.fields == row.fields && r.current == d
  {
    row.(first := if IsNone(row.first) then d else row.first, current := d)
  }

  ghost function AddedRows<F>(rows: seq<SubRow<F>>, row: ParentRow<F>, d: Doc): (r: seq<SubRow<F>>)
    requires CanAdd(rows, row)
    ensures |r| == |rows|
  {
    if IsNone(row.first) then rows else LinkedTo(rows, row.current.index, d)
  }

  /** Copy i is a new document with the fields of its original, linked to the next copy; the last
      copy still has the link of its original. */
  ghost predicate CopyOf<F>(rows: seq<SubRow<F>>, live: set<nat>, l: seq<Doc>, rows': seq<SubRow<F>>, copies: seq<Doc>,
                            i: nat)
    requires i < |copies| <= |l| && l[i].index < |rows|
  {
    && copies[i].index < |rows'| && copies[i].index !in live && !IsNone(copies[i])
    && copies[i].docid == l[i].docid && rows'[copies[i].index].fields == rows[l[i].index].fields
    && rows'[copies[i].index].next == if i + 1 < |copies| then copies[i + 1] else rows[l[i].index].next
  }

  ghost predicate Copying<F>(rows: seq<SubRow<F>>, live: set<nat>, l: seq<Doc>, rows': seq<SubRow<F>>,
                             copies: seq<Doc>) {
    && |copies| <= |l| && |rows| <= |rows'|
    && (forall i :: 0 <= i < |l| ==> l[i].index < |rows|)
    && (forall i :: i in live && i < |rows| ==> rows'[i] == rows[i])
    && (forall i :: 0 <= i < |copies| ==> CopyOf(rows, live, l, rows', copies, i))
    && (forall i, j :: 0 <= i < j < |copies| ==> copies[i].index != copies[j].index)
  }

  ghost predicate Copied<F>(rows: seq<SubRow<F>>, live: set<nat>, l: seq<Doc>, rows': seq<SubRow<F>>,
                            copies: seq<Doc>) {
    Copying(rows, live, l, rows', copies) && |copies| == |l|
  }

  ghost function Indices(l: seq<Doc>): set<nat> { set d | d in l :: d.index }

  /** The sub-documents of the given parents. */
  ghost function Listed(lists: map<nat, seq<Doc>>, ps: set<nat>): set<nat> {
    set p, x | p in ps && p in lists && x in Indices(lists[p]) :: x
  }

  lemma RisesAfter(s: seq<nat>, i: nat)
    requires Rising(s) && i < |s|
    ensures s[i] !in s[..i]
  {
  }

  lemma NothingListed(lists: map<nat, seq<Doc>>)
    ensures Listed(lists, {}) == {}
  {
  }

  /** The sub-documents of one more parent are none of those listed before. */
  lemma OneListedMore(lists: map<nat, seq<Doc>>, ps: set<nat>, p: nat)
    requires p in lists && p !in ps
    requires forall p, q :: p in lists && q in lists && p != q ==> Indices(lists[p]) !! Indices(lists[q])
    ensures Listed(lists, ps + {p}) == Listed(lists, ps) + Indices(lists[p])
    ensures forall i :: 0 <= i < |lists[p]| ==> lists[p][i].index !in Listed(lists, ps)
  {
    forall i | 0 <= i < |lists[p]| ensures lists[p][i].index in Indices(lists[p]) { assert lists[p][i] in lists[p]; }
  }

  lemma NoIndices()
    ensures Indices([]) == {}
  {
  }

  lemma IndicesStep(l: seq<Doc>, d: Doc)
    ensures Indices(l + [d]) == Indices(l) + {d.index}
  {
    forall x | x in l ensures x.index in Indices(l + [d]) { assert x in l + [d]; }
    assert d in l + [d];
    assert forall x :: x in l + [d] ==> x in l || x == d;
  }

  /** The parent row holds the first and the last of the copies made so far. */
  ghost predicate BuiltUp<F>(row: ParentRow<F>, copies: seq<Doc>) {
    if copies == [] then IsNone(row.first)
    else row.first == copies[0] && !IsNone(row.first) && row.current == copies[|copies| - 1]
  }

  lemma NothingBuilt<F>(row: ParentRow<F>)
    requires IsNone(row.first)
    ensures BuiltUp(row, [])
  {
  }

  lemma BuiltFirst<F>(rows: seq<SubRow<F>>, row: ParentRow<F>, copies: seq<Doc>)
    requires BuiltUp(row, copies) && IsList(rows, if copies == [] then NO_DOC else copies[0], copies)
    ensures IsList(rows, row.first, copies)
  {
  }

  lemma NothingCopied<F>(rows: seq<SubRow<F>>, live: set<nat>, l: seq<Doc>)
    requires forall i :: 0 <= i < |l| ==> l[i].index < |rows|
    ensures Copying(rows, live, l, rows, []) && Indices([]) == {}
  {
  }

  lemma CopyingKeeps<F>(rows: seq<SubRow<F>>, live: set<nat>, l: seq<Doc>, rows': seq<SubRow<F>>, copies: seq<Doc>)
    requires Copying(rows, live, l, rows', copies) && forall i :: 0 <= i < |l| ==> l[i].index in live
    ensures |rows| <= |rows'|
    ensures forall i :: 0 <= i < |l| ==> l[i].index < |rows| && rows'[l[i].index] == rows[l[i].index]
    ensures copies != [] ==> copies[|copies| - 1].index < |rows'|
  {
    if copies != [] { assert CopyOf(rows, live, l, rows', copies, |copies| - 1); }
  }

  /** What the parent row tells before one more copy is added, and what it is then. */
  lemma BuiltStep<F>(row: ParentRow<F>, copies: seq<Doc>, d: Doc)
    requires BuiltUp(row, copies) && !IsNone(d)
    ensures IsNone(row.first) <==> copies == []
    ensures copies != [] ==> row.current == copies[|copies| - 1]
    ensures BuiltUp(if copies == [] then row.(first := d, current := d) else row.(current := d), copies + [d])
  {
  }

  /** One more copy, linked behind the one before it. */
  lemma CopyStep<F>(rows: seq<SubRow<F>>, live: set<nat>, l: seq<Doc>, rows1: seq<SubRow<F>>, copies: seq<Doc>,
                    rows2: seq<SubRow<F>>, d: Doc)
    requires Copying(rows, live, l, rows1, copies) && |copies| < |l| && forall i :: 0 <= i < |l| ==> l[i].index in live
    requires |rows1| <= |rows2| && d.index < |rows2| && !IsNone(d) && d.docid == l[|copies|].docid
    requires d.index !in live + Indices(copies) && rows2[d.index] == rows1[l[|copies|].index]
    requires forall i :: 0 <= i < |rows1| && i != d.index ==> rows2[i] == rows1[i]
    ensures var k := |copies|;
            && (k > 0 ==> copies[k - 1].index < |rows2|)
            && Copying(rows, live, l, if k == 0 then rows2 else LinkedTo(rows2, copies[k - 1].index, d), copies + [d])
  {
    var k, all := |copies|, copies + [d];
    assert forall i :: 0 <= i < k ==> copies[i] in copies && copies[i].index in Indices(copies);
    assert k > 0 ==> CopyOf(rows, live, l, rows1, copies, k - 1);
    var rows3 := if k == 0 then rows2 else LinkedTo(rows2, copies[k - 1].index, d);
    hide Indices;
    forall i | 0 <= i < |all| ensures CopyOf(rows, live, l, rows3, all, i) {
      if i < k { assert CopyOf(rows, live, l, rows1, copies, i); }
    }
  }

  /** Adding the copy to the parent row that holds the copies before it. */
  lemma CopyAdded<F>(rows: seq<SubRow<F>>, live: set<nat>, l: seq<Doc>, rows1: seq<SubRow<F>>, copies: seq<Doc>,
                     rows2: seq<SubRow<F>>, d: Doc, row: ParentRow<F>)
    requires Copying(rows, live, l, rows1, copies) && |copies| < |l| && forall i :: 0 <= i < |l| ==> l[i].index in live
    requires |rows1| <= |rows2| && d.index < |rows2| && !IsNone(d) && d.docid == l[|copies|].docid
    requires d.index !in live + Indices(copies) && rows2[d.index] == rows1[l[|copies|].index]
    requires forall i :: 0 <= i < |rows1| && i != d.index ==> rows2[i] == rows1[i]
    requires BuiltUp(row, copies)
    ensures CanAdd(rows2, row) && BuiltUp(AddedParent(row, d), copies + [d])
    ensures Copying(rows, live, l, AddedRows(rows2, row, d), copies + [d])
    ensures Indices(copies + [d]) == Indices(copies) + {d.index}
  {
    hide Copying, Indices;
    CopyStep(rows, live, l, rows1, copies, rows2, d);
    IndicesStep(copies, d);
    BuiltStep(row, copies, d);
  }

  lemma CopiedIsList<F>(rows: seq<SubRow<F>>, live: set<nat>, head: Doc, l: seq<Doc>, rows': seq<SubRow<F>>,
                        copies: seq<Doc>)
    requires Copied(rows, live, l, rows', copies) && IsList(rows, head, l)
    ensures IsList(rows', if copies == [] then NO_DOC else copies[0], copies)
    ensures |rows| <= |rows'| && forall i :: i in live && i < |rows| ==> rows'[i] == rows[i]
  {
    forall i | 0 <= i < |copies|
      ensures copies[i].index < |rows'| && !IsNone(copies[i])
      ensures rows'[copies[i].index].next == if i + 1 < |copies| then copies[i + 1] else rows[l[i].index].next
    {
      assert CopyOf(rows, live, l, rows', copies, i);
    }
    if l != [] {
      ListNext(rows, head, l, |l| - 1);
      assert CopyOf(rows, live, l, rows', copies, |l| - 1);
    }
    ChainIsList(rows', copies);
  }

  ghost function RaisedIds(ids: set<nat>, offset: nat): set<nat> { set i | i in ids :: i + offset }

  /** The ids of one pool together with those of another moved up. */
  ghost function MovedIds(mine: set<nat>, theirs: set<nat>, offset: nat): set<nat> { mine + RaisedIds(theirs, offset) }

  /** The handles of documents whose rows moved up. */
  function Moved(docs: seq<Doc>, offset: nat): (r: seq<Doc>)
    ensures |r| == |docs|
  {
    seq(|docs|, i requires 0 <= i < |docs| => Doc(docs[i].index + offset, docs[i].docid))
  }

  ghost predicate ParentFields<F>(rows: seq<ParentRow<F>>, theirs: seq<ParentRow<F>>) {
    |rows| == |theirs| && forall i :: 0 <= i < |rows| ==> rows[i].fields == theirs[i].fields
  }

  ghost predicate SubFields<F>(rows: seq<SubRow<F>>, theirs: seq<SubRow<F>>) {
    |rows| == |theirs| && forall i :: 0 <= i < |rows| ==> rows[i].fields == theirs[i].fields
  }

  /** The moved first links of the listed parents. */
  ghost function Heads<F>(parents: seq<ParentRow<F>>, docs: seq<Doc>, offset: nat): (r: seq<Doc>)
    requires forall i :: 0 <= i < |docs| ==> docs[i].index < |parents|
    ensures |r| == |docs|
  {
    seq(|docs|, i requires 0 <= i < |docs| => Shift(parents[docs[i].index].first, offset))
  }

  lemma MergePlan<F>(mine: seq<ParentRow<F>>, parents: seq<ParentRow<F>>, rows: seq<SubRow<F>>, theirs: seq<SubRow<F>>,
                     offset: nat, docs: seq<Doc>, lists: seq<seq<Doc>>)
    requires |lists| == |docs| && |rows| <= INVALID
    requires forall i :: 0 <= i < |docs| ==>
               docs[i].index < |parents| && IsList(theirs, parents[docs[i].index].first, lists[i])
    requires Flatten(lists) != [] ==> |rows| == offset + |theirs| && rows[offset..] == theirs
    ensures var all, places, heads, shifted := mine + parents, Moved(docs, |mine|), Heads(parents, docs, offset),
            ShiftLists(lists, offset);
            && (forall i :: 0 <= i < |docs| ==>
                 places[i].index < |all| && IsList(Relocated(rows, offset), heads[i], shifted[i]))
            && (forall i :: 0 <= i < |docs| ==> Entry(all[places[i].index].first, heads[i], shifted[i]))
            && (forall i, j :: 0 <= i < |docs| && 0 <= j < |docs| && places[i].index == places[j].index ==>
                  heads[i] == heads[j] && shifted[i] == shifted[j])
  {
    hide IsList, Flatten, Relocated, Entry;
    var all, places, heads, shifted := mine + parents, Moved(docs, |mine|), Heads(parents, docs, offset),
      ShiftLists(lists, offset);
    forall i | 0 <= i < |docs|
      ensures IsList(Relocated(rows, offset), heads[i], shifted[i])
      ensures Entry(all[places[i].index].first, heads[i], shifted[i])
    {
      if Flatten(lists) == [] { AllEmpty(lists, i); }
      RelinkPlan(rows, theirs, offset, parents[docs[i].index].first, lists[i]);
    }
    forall i, j | 0 <= i < |docs| && 0 <= j < |docs| && docs[i].index == docs[j].index ensures lists[i] == lists[j] {
      ListUnique(theirs, parents[docs[i].index].first, lists[i], lists[j]);
    }
  }

  /** Only the links of the listed parents may have changed. */
  ghost predicate Relinked<F>(before: seq<ParentRow<F>>, after: seq<ParentRow<F>>, docs: seq<Doc>) {
    |before| == |after| && forall p :: 0 <= p < |after| ==>
      && after[p].fields == before[p].fields
      && ((forall i :: 0 <= i < |docs| ==> docs[i].index != p) ==> after[p] == before[p])
  }

  lemma NothingRelinked<F>(parents: seq<ParentRow<F>>, docs: seq<Doc>)
    ensures Relinked(parents, parents, docs)
  {
  }

  lemma RelinkedStep<F>(before: seq<ParentRow<F>>, parents: seq<ParentRow<F>>, docs: seq<Doc>, i: nat, head: Doc)
    requires Relinked(before, parents, docs) && i < |docs| && docs[i].index < |parents|
    ensures Relinked(before, parents[docs[i].index := parents[docs[i].index].(first := head, current := head)], docs)
  {
  }

  /** Relinking touches only moved rows, and their fields not at all. */
  lemma MergeKeeps<F>(mine: seq<ParentRow<F>>, parents: seq<ParentRow<F>>, after: seq<ParentRow<F>>, places: seq<Doc>)
    requires Relinked(mine + parents, after, places) && forall i :: 0 <= i < |places| ==> places[i].index >= |mine|
    ensures mine <= after && ParentFields(after[|mine|..], parents)
  {
  }

  lemma RelocatedKeeps<F>(raw: seq<SubRow<F>>, rows: seq<SubRow<F>>, offset: nat)
    requires Between(raw, rows, Relocated(raw, offset)) && offset <= |raw|
    ensures raw[..offset] <= rows && SubFields(rows[offset..], raw[offset..])
  {
  }

  lemma BetweenStart<F>(raw: seq<SubRow<F>>, target: seq<SubRow<F>>)
    requires SameShape(raw, target)
    ensures Between(raw, raw, target)
  {
  }

  lemma NothingFlat()
    ensures Flatten([]) == []
  {
  }

  /** A document of a list is not among the documents before it. */
  lemma StillLive<F>(rows: seq<SubRow<F>>, head: Doc, l: seq<Doc>, k: nat)
    requires IsList(rows, head, l) && k < |l|
    ensures l[k].index !in Indices(l[..k])
  {
    forall i | 0 <= i < k ensures l[i].index != l[k].index { ListAcyclic(rows, head, l, i, k); }
  }

  lemma SingleList<F>(rows: seq<SubRow<F>>, d: Doc)
    requires d.index < |rows| && !IsNone(d) && IsNone(rows[d.index].next)
    ensures IsList(rows, d, [d])
  {
    assert [d][1..] == [];
  }

  lemma CopiesLive(copies: seq<Doc>, live: set<nat>)
    requires Indices(copies) <= live
    ensures forall i :: 0 <= i < |copies| ==> copies[i].index in live
  {
    forall i | 0 <= i < |copies| ensures copies[i].index in Indices(copies) { assert copies[i] in copies; }
  }

  class MatchDocAllocator<F(0)> {
    const main: DocPool<ParentRow<F>>
    const subs: DocPool<SubRow<F>>
    var merged: bool

    ghost predicate Valid()
      reads this, main, subs, main.storage, subs.storage
    {
      && main.Valid() && subs.Valid()
      && main as object != subs && main.storage as object != subs.storage
    }

    constructor ()
      ensures Valid() && !merged && main.Live() == {} && subs.Live() == {} && main.size == 0 && subs.size == 0
      ensures fresh(main) && fresh(subs) && fresh(main.storage) && fresh(subs.storage)
    {
      main := new DocPool();
      subs := new DocPool();
      merged := false;
    }

    ghost function Parents(): seq<ParentRow<F>>
      requires main.storage.Valid()
      reads main.storage
    {
      main.storage.Rows()
    }

    ghost function SubRows(): seq<SubRow<F>>
      requires subs.storage.Valid()
      reads subs.storage
    {
      subs.storage.Rows()
    }

    /** The sub-documents of a parent are the documents of l. */
    ghost predicate HasSubs(p: nat, l: seq<Doc>)
      requires main.storage.Valid() && subs.storage.Valid()
      reads main.storage, subs.storage
    {
      p < |Parents()| && IsList(SubRows(), Parents()[p].first, l)
    }

    /** The first sub-document of a parent is the current one. */
    ghost predicate AtFirst(p: nat)
      requires main.storage.Valid()
      reads main.storage
    {
      p < |Parents()| && Parents()[p].current == Parents()[p].first
    }

    /** Hangs a sub-document behind the current one of its parent and makes it current. */
    method AddSub(p: nat, d: Doc)
      requires Valid() && p < main.capacity && CanAdd(SubRows(), Parents()[p])
      modifies main.storage, subs.storage
      ensures Valid() && Parents() == old(Parents())[p := AddedParent(old(Parents()[p]), d)]
      ensures SubRows() == AddedRows(old(SubRows()), old(Parents()[p]), d)
    {
      var row := main.storage.Get(p);
      if IsNone(row.first) {
        row := row.(first := d);
      } else {
        var last := subs.storage.Get(row.current.index);
        subs.storage.Put(row.current.index, last.(next := d));
      }
      main.storage.Put(p, row.(current := d));
    }

    /** Appends the sub-documents of a parent to a vector. */
    method GetSubDocs(p: nat, acc: seq<Doc>, ghost l: seq<Doc>) returns (docs: seq<Doc>)
      requires Valid() && HasSubs(p, l)
      ensures docs == acc + l
    {
      docs := acc;
      ghost var i := 0;
      var next := main.storage.Get(p).first;
      assert l[0..] == l;
      while !IsNone(next)
        invariant 0 <= i <= |l| && docs == acc + l[..i]
        invariant IsList(SubRows(), next, l[i..])
        decreases |l| - i
      {
        docs := docs + [next];
        next := subs.storage.Get(next.index).next;
        assert l[i..][1..] == l[i + 1..];
        i := i + 1;
      }
    }

    /** The links behind the first sub-document. */
    method FollowLinks(at: nat, docs: seq<Doc>, begin: nat, ghost raw: seq<SubRow<F>>, ghost target: seq<SubRow<F>>,
                       ghost head: Doc, ghost l: seq<Doc>) returns (pos: nat)
      requires subs.Valid() && Between(raw, SubRows(), target) && SameShape(raw, target)
      requires IsList(target, head, l) && l != [] && at == l[0].index
      requires begin + |l| <= |docs| + 1 && docs[begin..begin + |l| - 1] == l[1..]
      modifies subs.storage
      ensures subs.Valid() && pos == begin + |l| - 1
      ensures Between(raw, SubRows(), target) && Progress(old(SubRows()), SubRows(), target)
      ensures Settled(SubRows(), target, l)
    {
      hide IsList, Distinct, LiveIds;
      pos := begin;
      var cell := at;
      ghost var j := 0;
      ListNext(target, head, l, 0);
      while !IsNone(subs.storage.Get(cell).next) && pos != |docs|
        invariant subs.Valid() && j < |l| && pos == begin + j && cell == l[j].index < subs.capacity
        invariant Between(raw, SubRows(), target) && Progress(old(SubRows()), SubRows(), target)
        invariant Settled(SubRows(), target, l[..j])
        decreases |l| - j
      {
        ListNext(target, head, l, j);
        assert docs[pos] == docs[begin..begin + |l| - 1][j] == l[1..][j] == l[j + 1];
        ListNext(target, head, l, j + 1);
        RelinkProgress(raw, SubRows(), target, cell, docs[pos]);
        SettledStays(SubRows(), LinkedTo(SubRows(), cell, docs[pos]), target, l[..j]);
        var next := subs.storage.Get(cell);
        subs.storage.Put(cell, next.(next := docs[pos]));
        assert l[..j + 1] == l[..j] + [l[j]];
        cell := docs[pos].index;
        pos, j := pos + 1, j + 1;
      }
      ListNext(target, head, l, j);
      if j + 1 < |l| { ListNext(target, head, l, j + 1); }
      assert l == l[..j] + [l[j]];
    }

    /** Overwrites the links of a parent's list, which still hold the ids of another allocator, by
        the given documents from position `begin` on. */
    method SetSubDocs(p: nat, docs: seq<Doc>, begin: nat, ghost raw: seq<SubRow<F>>, ghost target: seq<SubRow<F>>,
                      ghost head: Doc, ghost l: seq<Doc>) returns (pos: nat)
      requires Valid() && p < main.capacity && Between(raw, SubRows(), target) && SameShape(raw, target)
      requires IsList(target, head, l) && Entry(Parents()[p].first, head, l)
      requires begin + |l| <= |docs| && docs[begin..begin + |l|] == l
      modifies main.storage, subs.storage
      ensures Valid() && pos == begin + |l|
      ensures Parents() == old(Parents())[p := old(Parents()[p]).(first := head, current := head)]
      ensures Between(raw, SubRows(), target) && Progress(old(SubRows()), SubRows(), target)
      ensures Settled(SubRows(), target, l)
    {
      hide IsList, Distinct, LiveIds;
      ListEmpty(target, head, l);
      pos := begin;
      var row := main.storage.Get(p);
      if !IsNone(row.first) && pos != |docs| {
        assert docs[begin] == docs[begin..begin + |l|][0];
        row := row.(first := docs[pos]);
        main.storage.Put(p, row);
        pos := FollowLinks(row.first.index, docs, pos + 1, raw, target, head, l);
      }
      main.storage.Put(p, row.(current := row.first));
    }

    /** The sub-documents of the listed parents one after the other. */
    method Gather(docs: seq<Doc>, ghost lists: seq<seq<Doc>>) returns (flat: seq<Doc>)
      requires Valid() && |lists| == |docs| && forall i :: 0 <= i < |docs| ==> HasSubs(docs[i].index, lists[i])
      ensures flat == Flatten(lists)
    {
      flat := [];
      for i := 0 to |docs|
        invariant flat == Flatten(lists[..i])
      {
        FlattenStep(lists, i);
        flat := GetSubDocs(docs[i].index, flat, lists[i]);
      }
      assert lists[..|lists|] == lists;
    }

    ghost predicate Apart(other: MatchDocAllocator<F>)
      reads this, other
    {
      && other != this && other.main != main && other.subs != subs
      && other.main.storage != main.storage && other.subs.storage != subs.storage
      && other.main as object != subs && other.subs as object != main
      && other.main.storage as object != subs.storage && other.subs.storage as object != main.storage
    }

    /** Appends the rows of the other allocator; its sub-document rows only when there is a
        sub-document to move. */
    method AppendRows(other: MatchDocAllocator<F>, docs: seq<Doc>, flat: seq<Doc>)
        returns (places: seq<Doc>, moved: seq<Doc>)
      requires Valid() && other.Valid() && Apart(other)
      modifies main, subs, main.storage, subs.storage, other.main.storage, other.subs.storage
      ensures Valid() && main.capacity == old(main.capacity + other.main.capacity)
      ensures main.size == old(main.capacity + other.main.size)
      ensures subs.size <= old(subs.capacity + other.subs.size)
      ensures subs.capacity <= old(subs.capacity + other.subs.capacity)
      ensures main.Live() == MovedIds(old(main.Live()), old(other.main.Live()), old(main.capacity))
      ensures places == Moved(docs, old(main.capacity)) && moved == ShiftAll(flat, old(subs.capacity))
      ensures Parents() == old(Parents()) + old(other.Parents())
      ensures SubRows() == if flat == [] then old(SubRows()) else old(SubRows()) + old(other.SubRows())
      ensures subs.Live() == if flat == [] then old(subs.Live())
              else MovedIds(old(subs.Live()), old(other.subs.Live()), old(subs.capacity))
    {
      hide LiveIds, Distinct;
      var shift := main.capacity;
      main.AppendIds(other.main);
      places := [];
      for i := 0 to |docs|
        invariant places == Moved(docs, shift)[..i]
      {
        places := places + [Doc(docs[i].index + shift, docs[i].docid)];
      }
      moved := ShiftAll(flat, subs.capacity);
      if flat != [] {
        subs.AppendIds(other.subs);
      }
    }

    /** Rewrites the lists of the given parents, drawing on the flattened documents in order. */
    method Relink(docs: seq<Doc>, moved: seq<Doc>, ghost target: seq<SubRow<F>>, ghost heads: seq<Doc>,
                  ghost lists: seq<seq<Doc>>)
      requires Valid() && SameShape(SubRows(), target) && |docs| == |heads| == |lists| && moved == Flatten(lists)
      requires forall i :: 0 <= i < |docs| ==> docs[i].index < main.capacity && IsList(target, heads[i], lists[i])
      requires forall i :: 0 <= i < |docs| ==> Entry(Parents()[docs[i].index].first, heads[i], lists[i])
      requires forall i, j :: 0 <= i < |docs| && 0 <= j < |docs| && docs[i].index == docs[j].index ==>
                 heads[i] == heads[j] && lists[i] == lists[j]
      modifies main.storage, subs.storage
      ensures Valid() && Between(old(SubRows()), SubRows(), target)
      ensures Relinked(old(Parents()), Parents(), docs)
      ensures forall i :: 0 <= i < |docs| ==> HasSubs(docs[i].index, lists[i])
      ensures forall i :: 0 <= i < |docs| ==> AtFirst(docs[i].index)
    {
      hide IsList, Distinct, LiveIds, Flatten, SameShape, Settled, Progress, Between, Entry, Relinked;
      ghost var raw := SubRows();
      var pos := 0;
      BetweenStart(raw, target);
      assert lists[..0] == [];
      NothingFlat();
      NothingRelinked(Parents(), docs);
      for i := 0 to |docs|
        invariant Valid() && Between(raw, SubRows(), target) && pos == |Flatten(lists[..i])|
        invariant |Parents()| == |old(Parents())| && Relinked(old(Parents()), Parents(), docs)
        invariant forall k :: 0 <= k < |docs| ==> Entry(Parents()[docs[k].index].first, heads[k], lists[k])
        invariant forall k :: 0 <= k < i ==>
                    Parents()[docs[k].index].first == heads[k] && Settled(SubRows(), target, lists[k])
        invariant forall k :: 0 <= k < i ==> Parents()[docs[k].index].current == heads[k]
      {
        FlattenSlice(lists, i);
        FlattenStep(lists, i);
        ghost var before, parents := SubRows(), Parents();
        pos := SetSubDocs(docs[i].index, moved, pos, raw, target, heads[i], lists[i]);
        RelinkedStep(old(Parents()), parents, docs, i, heads[i]);
        forall k | 0 <= k < i ensures Settled(SubRows(), target, lists[k]) {
          SettledStays(before, SubRows(), target, lists[k]);
        }
        forall k | 0 <= k < |docs| ensures Entry(Parents()[docs[k].index].first, heads[k], lists[k]) {
          EntryDone(target, heads[k], lists[k]);
        }
      }
      forall i | 0 <= i < |docs| ensures HasSubs(docs[i].index, lists[i]) {
        SettledIsList(SubRows(), target, heads[i], lists[i]);
      }
    }

    /** Takes over the listed documents of another allocator with the same fields.  Its rows are
        appended as they are; then the sub-document links of the moved documents are rewritten.  No
        two lists need be disjoint, and a document may be listed twice. */
    method MergeFrom(other: MatchDocAllocator<F>, docs: seq<Doc>, ghost lists: seq<seq<Doc>>) returns (places: seq<Doc>)
      requires Valid() && other.Valid() && Apart(other)
      requires |lists| == |docs| && forall i :: 0 <= i < |docs| ==> other.HasSubs(docs[i].index, lists[i])
      requires subs.capacity + other.subs.capacity <= INVALID
      modifies main, subs, main.storage, subs.storage, other.main.storage, other.subs.storage
      ensures Valid() && main.capacity == old(main.capacity + other.main.capacity)
      ensures main.size == old(main.capacity + other.main.size)
      ensures subs.size <= old(subs.capacity + other.subs.size)
      ensures main.Live() == MovedIds(old(main.Live()), old(other.main.Live()), old(main.capacity))
      ensures places == Moved(docs, old(main.capacity))
      ensures forall i :: 0 <= i < |docs| ==> HasSubs(places[i].index, ShiftAll(lists[i], old(subs.capacity)))
      ensures old(Parents()) <= Parents() && ParentFields(Parents()[|old(Parents())|..], old(other.Parents()))
      ensures forall i :: 0 <= i < |docs| ==> AtFirst(places[i].index)
      ensures old(SubRows()) <= SubRows()
      ensures subs.Live() == if Flatten(lists) == [] then old(subs.Live())
                             else MovedIds(old(subs.Live()), old(other.subs.Live()), old(subs.capacity))
      ensures Flatten(lists) != [] ==> SubFields(SubRows()[|old(SubRows())|..], old(other.SubRows()))
    {
      hide IsList, Distinct, LiveIds, Flatten, SameShape, Between, Relocated, ShiftAll, ShiftLists, Heads, ParentFields,
        SubFields, Entry;
      ghost var offset, theirs, parents := subs.capacity, other.SubRows(), other.Parents();
      var flat := other.Gather(docs, lists);
      var moved;
      places, moved := AppendRows(other, docs, flat);
      ghost var rows, shifted := SubRows(), ShiftLists(lists, offset);
      RelocatedShape(rows, offset);
      FlattenShift(lists, offset);
      MergePlan(old(Parents()), parents, rows, theirs, offset, docs, lists);
      Relink(places, moved, Relocated(rows, offset), Heads(parents, docs, offset), shifted);
      MergeKeeps(old(Parents()), parents, Parents(), places);
      RelocatedKeeps(rows, SubRows(), offset);
    }

    lemma Sizes()
      requires Valid()
      ensures main.storage.Valid() && subs.storage.Valid()
      ensures |Parents()| == main.capacity >= main.size && |SubRows()| == subs.capacity >= subs.size
    {
    }

    /** Merges another allocator into this one.  Nothing happens when it has been merged before or
        when its fields differ; handles of this allocator are passed through. */
    method MergeAllocatorOnlySame(other: MatchDocAllocator<F>, isSame: bool, docs: seq<Doc>, acc: seq<Doc>,
                                  ghost lists: seq<seq<Doc>>)
        returns (ok: bool, newDocs: seq<Doc>)
      requires Valid() && other.Valid() && (other == this || Apart(other)) && |lists| == |docs|
      requires forall i :: 0 <= i < |docs| ==> other.HasSubs(docs[i].index, lists[i])
      requires !other.merged && other != this && docs != [] && isSame ==>
                 subs.capacity + other.subs.capacity <= INVALID
      modifies this, main, subs, main.storage, subs.storage, other, other.main.storage, other.subs.storage
      ensures Valid() && ok == (!old(other.merged) && (other == this || docs == [] || isSame))
      ensures main.size <= old(main.capacity + other.main.size)
      ensures subs.size <= old(subs.capacity + other.subs.size)
      ensures !ok || other == this || docs == [] ==>
                && Parents() == old(Parents()) && SubRows() == old(SubRows())
                && main.Live() == old(main.Live()) && subs.Live() == old(subs.Live())
      ensures old(Parents()) <= Parents() && old(SubRows()) <= SubRows()
      ensures newDocs == acc + if !ok then [] else if other == this then docs else Moved(docs, old(main.capacity))
      ensures ok && other != this ==> forall i :: 0 <= i < |docs| ==>
                HasSubs(docs[i].index + old(main.capacity), ShiftAll(lists[i], old(subs.capacity)))
      ensures ok && other != this ==> forall i :: 0 <= i < |docs| ==> AtFirst(docs[i].index + old(main.capacity))
      ensures other.merged == (old(other.merged) || (ok && other != this && docs != []))
      ensures other != this ==> merged == old(merged)
      ensures !ok || other == this || docs == [] ==>
                && other.Valid() && other.Parents() == old(other.Parents()) && other.SubRows() == old(other.SubRows())
      ensures ok && other != this && docs != [] ==>
                subs.Live() == if Flatten(lists) == [] then old(subs.Live())
                               else MovedIds(old(subs.Live()), old(other.subs.Live()), old(subs.capacity))
      ensures ok && other != this && docs != [] ==>
                main.Live() == MovedIds(old(main.Live()), old(other.main.Live()), old(main.capacity))
      ensures ok && other != this && docs != [] ==>
                && ParentFields(Parents()[|old(Parents())|..], old(other.Parents()))
                && (Flatten(lists) != [] ==> SubFields(SubRows()[|old(SubRows())|..], old(other.SubRows())))
    {
      hide HasSubs, AtFirst, DocPool.Valid, LiveIds, ParentFields, SubFields, MovedIds, Flatten, ShiftAll;
      Sizes();
      ok, newDocs := false, acc;
      if other.merged {
        return;
      }
      if other == this || docs == [] {
        return true, acc + docs;
      }
      if !isSame {
        return;
      }
      var places := MergeFrom(other, docs, lists);
      other.merged := true;
      return true, acc + places;
    }

    /** Merges that do nothing: of no documents, of an allocator into itself, or of different fields. */
    method IdleMerges(other: MatchDocAllocator<F>, idle: seq<Idle>, docs: seq<Doc>, ghost lists: seq<seq<Doc>>)
        returns (answers: seq<bool>)
      requires Valid() && other.Valid() && Apart(other) && |lists| == |docs|
      requires forall i :: 0 <= i < |docs| ==> other.HasSubs(docs[i].index, lists[i])
      modifies this, main, subs, main.storage, subs.storage, other, other.main.storage, other.subs.storage
      ensures Valid() && other.Valid() && Apart(other) && merged == old(merged) && other.merged == old(other.merged)
      ensures Parents() == old(Parents()) && SubRows() == old(SubRows())
      ensures other.Parents() == old(other.Parents()) && other.SubRows() == old(other.SubRows())
      ensures main.Live() == old(main.Live()) && subs.Live() == old(subs.Live())
      ensures main.capacity == old(main.capacity) && subs.capacity == old(subs.capacity)
      ensures forall i :: 0 <= i < |docs| ==> other.HasSubs(docs[i].index, lists[i])
      ensures |answers| == |idle| && forall i :: 0 <= i < |idle| ==>
                answers[i] == (if idle[i].Itself? then !merged else !other.merged && (idle[i].Nothing? || docs == []))
    {
      hide IsList, DocPool.Valid, LiveIds, Distinct, Flatten;
      Sizes();
      other.Sizes();
      answers := [];
      for i := 0 to |idle|
        invariant Valid() && other.Valid() && merged == old(merged) && other.merged == old(other.merged)
        invariant main.storage.Valid() && subs.storage.Valid()
        invariant other.main.storage.Valid() && other.subs.storage.Valid()
        invariant Parents() == old(Parents()) && SubRows() == old(SubRows())
        invariant other.Parents() == old(other.Parents()) && other.SubRows() == old(other.SubRows())
        invariant main.Live() == old(main.Live()) && subs.Live() == old(subs.Live())
        invariant main.capacity == old(main.capacity) && subs.capacity == old(subs.capacity)
        invariant |answers| == i && forall j :: 0 <= j < i ==>
                    answers[j] ==
                      (if idle[j].Itself? then !merged else !other.merged && (idle[j].Nothing? || docs == []))
      {
        var ok, same;
        match idle[i] {
          case Nothing =>
            ok, same := MergeAllocatorOnlySame(other, true, [], [], []);
          case Itself =>
            ok, same := MergeAllocatorOnlySame(this, true, [], [], []);
          case Differs =>
            ok, same := MergeAllocatorOnlySame(other, false, docs, [], lists);
        }
        Sizes();
        other.Sizes();
        answers := answers + [ok];
      }
    }

    /** However often a merge has done nothing, the next one answers and moves the documents as if it were
        the first. */
    method MergeAfterIdle(other: MatchDocAllocator<F>, idle: seq<Idle>, isSame: bool, docs: seq<Doc>,
                          ghost lists: seq<seq<Doc>>)
        returns (ok: bool, newDocs: seq<Doc>)
      requires Valid() && other.Valid() && Apart(other) && |lists| == |docs|
      requires forall i :: 0 <= i < |docs| ==> other.HasSubs(docs[i].index, lists[i])
      requires subs.capacity + other.subs.capacity <= INVALID
      modifies this, main, subs, main.storage, subs.storage, other, other.main.storage, other.subs.storage
      ensures Valid() && ok == (!old(other.merged) && (docs == [] || isSame))
      ensures newDocs == if ok then Moved(docs, old(main.capacity)) else []
      ensures ok ==> forall i :: 0 <= i < |docs| ==>
                HasSubs(docs[i].index + old(main.capacity), ShiftAll(lists[i], old(subs.capacity)))
      ensures old(Parents()) <= Parents() && old(SubRows()) <= SubRows()
    {
      hide HasSubs, AtFirst, DocPool.Valid, LiveIds, Flatten, ShiftAll, MovedIds, ParentFields, SubFields;
      var answers := IdleMerges(other, idle, docs, lists);
      ok, newDocs := MergeAllocatorOnlySame(other, isSame, docs, [], lists);
    }

    method SetParent(p: nat, row: ParentRow<F>)
      requires Valid() && p < main.capacity
      modifies main.storage
      ensures Valid() && Parents() == old(Parents())[p := row]
    {
      hide LiveIds, Distinct;
      main.storage.Put(p, row);
    }

    /** A free row of the main pool, with the given contents. */
    method TakeRow(row: ParentRow<F>) returns (id: nat)
      requires Valid()
      modifies main, main.storage
      ensures Valid() && id !in old(main.Live()) && main.Live() == old(main.Live()) + {id}
      ensures main.Took(old(main.size), old(main.Used()), 1) && |old(Parents())| <= |Parents()|
      ensures id < |Parents()| && Parents()[id] == row
      ensures forall i :: 0 <= i < |old(Parents())| && i != id ==> Parents()[i] == old(Parents())[i]
    {
      hide LiveIds, Distinct;
      id := main.GetOne();
      main.storage.Put(id, row);
    }

    lemma LiveInRange(l: seq<Doc>)
      requires subs.Valid() && forall i :: 0 <= i < |l| ==> l[i].index in subs.Live()
      ensures forall i :: 0 <= i < |l| ==> l[i].index < |SubRows()|
      ensures forall i :: i in subs.Live() ==> i < |SubRows()|
    {
    }

    /** A copy of the current sub-document of a parent, its link included. */
    method CloneSub(p: nat) returns (d: Doc)
      requires Valid() && p < main.capacity && Parents()[p].current.index < subs.capacity
      modifies subs, subs.storage
      ensures Valid() && d.index !in old(subs.Live()) && subs.Live() == old(subs.Live()) + {d.index}
      ensures d.docid == old(Parents()[p]).current.docid
      ensures subs.Took(old(subs.size), old(subs.Used()), 1) && d.index < subs.size
      ensures d.index < |SubRows()| && |old(SubRows())| <= |SubRows()|
      ensures SubRows()[d.index] == old(SubRows()[Parents()[p].current.index])
      ensures forall i :: 0 <= i < |old(SubRows())| && i != d.index ==> SubRows()[i] == old(SubRows())[i]
    {
      var source := main.storage.Get(p).current;
      var row := subs.storage.Get(source.index);
      var id := subs.GetOne();
      subs.storage.Put(id, row);
      d := Doc(id, source.docid);
    }

    /** Makes a sub-document current, reads its link and copies it. */
    method VisitAndCopy(p: nat, sub: Doc) returns (next: Doc, d: Doc)
      requires Valid() && p < main.capacity && sub.index < subs.capacity
      modifies subs, main.storage, subs.storage
      ensures Valid() && d.index !in old(subs.Live()) && subs.Live() == old(subs.Live()) + {d.index}
      ensures next == old(SubRows()[sub.index]).next
      ensures Parents() == old(Parents())[p := old(Parents()[p]).(current := sub)]
      ensures d.docid == sub.docid && subs.Took(old(subs.size), old(subs.Used()), 1) && d.index < subs.size
      ensures d.index < |SubRows()| && |old(SubRows())| <= |SubRows()|
      ensures SubRows()[d.index] == old(SubRows()[sub.index])
      ensures forall i :: 0 <= i < |old(SubRows())| && i != d.index ==> SubRows()[i] == old(SubRows())[i]
    {
      hide LiveIds, Distinct;
      var row := main.storage.Get(p);
      main.storage.Put(p, row.(current := sub));
      next := subs.storage.Get(sub.index).next;
      d := CloneSub(p);
    }

    /** Makes a sub-document of p current, copies it and adds the copy to q; returns what comes next. */
    method CloneNext(p: nat, q: nat, sub: Doc, ghost rows: seq<SubRow<F>>, ghost live: set<nat>, ghost l: seq<Doc>,
                     ghost copies: seq<Doc>)
        returns (next: Doc, ghost d: Doc)
      requires Valid() && p < main.capacity && q < main.capacity && p != q
      requires |copies| < |l| && sub == l[|copies|] && IsList(rows, sub, l[|copies|..])
      requires subs.HasIds(1)
      requires Copying(rows, live, l, SubRows(), copies) && subs.Live() == live + Indices(copies)
      requires (forall i :: 0 <= i < |l| ==> l[i].index in live) && BuiltUp(Parents()[q], copies)
      modifies subs, main.storage, subs.storage
      ensures Valid() && IsList(rows, next, l[|copies| + 1..])
      ensures subs.Took(old(subs.size), old(subs.Used()), 1)
      ensures Copying(rows, live, l, SubRows(), copies + [d]) && subs.Live() == live + Indices(copies + [d])
      ensures Parents() == old(Parents())[p := old(Parents()[p]).(current := sub)][q := Parents()[q]]
      ensures Parents()[q].fields == old(Parents()[q]).fields
      ensures BuiltUp(Parents()[q], copies + [d])
    {
      hide Copying, Indices, LiveIds, Distinct, IsList, DocPool.Valid, BuiltUp, CanAdd, AddedParent, AddedRows;
      Sizes();
      ListRest(rows, l, |copies|);
      CopyingKeeps(rows, live, l, SubRows(), copies);
      ghost var rows1 := SubRows();
      var c;
      next, c := VisitAndCopy(p, sub);
      Sizes();
      d := c;
      CopyAdded(rows, live, l, rows1, copies, SubRows(), d, Parents()[q]);
      AddSub(q, c);
      Sizes();
    }

    method CloneSubs(p: nat, q: nat, ghost l: seq<Doc>) returns (ghost copies: seq<Doc>)
      requires Valid() && p < main.capacity && q < main.capacity && p != q && HasSubs(p, l)
      requires forall i :: 0 <= i < |l| ==> l[i].index in subs.Live()
      requires subs.HasIds(|l|) && IsNone(Parents()[q].first)
      modifies subs, main.storage, subs.storage
      ensures Valid() && subs.Took(old(subs.size), old(subs.Used()), |l|)
      ensures HasSubs(q, copies) && Copied(old(SubRows()), old(subs.Live()), l, SubRows(), copies)
      ensures subs.Live() == old(subs.Live()) + Indices(copies)
      ensures Parents()[q].fields == old(Parents()[q].fields)
      ensures |Parents()| == |old(Parents())|
      ensures forall i :: 0 <= i < |Parents()| && i != q ==> Parents()[i] == old(Parents())[i]
      ensures |SubRows()| >= |old(SubRows())| && forall i :: i in old(subs.Live()) ==> SubRows()[i] == old(SubRows())[i]
    {
      hide Copying, Indices, LiveIds, Distinct, IsList, BuiltUp, DocPool.Valid;
      Sizes();
      ListEmpty(SubRows(), Parents()[p].first, l);
      NothingBuilt(Parents()[q]);
      ghost var rows, live := SubRows(), subs.Live();
      LiveInRange(l);
      NothingCopied(rows, live, l);
      var origin := main.storage.Get(p).current;
      var next := main.storage.Get(p).first;
      copies := [];
      assert l[0..] == l;
      while !IsNone(next)
        invariant Valid() && main.storage.Valid() && subs.storage.Valid()
        invariant subs.Took(old(subs.size), old(subs.Used()), |copies|)
        invariant |copies| <= |l| && IsList(rows, next, l[|copies|..])
        invariant Copying(rows, live, l, SubRows(), copies)
        invariant subs.Live() == live + Indices(copies)
        invariant |Parents()| == |old(Parents())| && BuiltUp(Parents()[q], copies)
        invariant Parents()[q].fields == old(Parents()[q].fields)
        invariant Parents()[p] == old(Parents()[p]).(current := Parents()[p].current)
        invariant forall i :: 0 <= i < |Parents()| && i != q && i != p ==> Parents()[i] == old(Parents())[i]
        decreases |l| - |copies|
      {
        Sizes();
        ListEmpty(rows, next, l[|copies|..]);
        ghost var d;
        next, d := CloneNext(p, q, next, rows, live, l, copies);
        Sizes();
        copies := copies + [d];
      }
      ListEmpty(rows, next, l[|copies|..]);
      CopiedIsList(rows, live, old(Parents()[p]).first, l, SubRows(), copies);
      BuiltFirst(SubRows(), Parents()[q], copies);
      Sizes();
      var row := main.storage.Get(p);
      SetParent(p, row.(current := origin));
    }

    lemma LiveMain()
      requires main.Valid()
      ensures forall i :: i in main.Live() ==> i < |Parents()|
    {
    }

    /** A new parent with the fields of p and copies of its sub-documents. */
    method CloneWithSub(p: Doc, ghost l: seq<Doc>) returns (d: Doc, ghost copies: seq<Doc>)
      requires Valid() && p.index in main.Live() && HasSubs(p.index, l)
      requires forall i :: 0 <= i < |l| ==> l[i].index in subs.Live()
      requires subs.HasIds(|l|)
      modifies main, subs, main.storage, subs.storage
      ensures Valid() && d.index !in old(main.Live()) && main.Live() == old(main.Live()) + {d.index}
      ensures main.Took(old(main.size), old(main.Used()), 1) && subs.Took(old(subs.size), old(subs.Used()), |l|)
      ensures |old(Parents())| <= |Parents()| && |old(SubRows())| <= |SubRows()|
      ensures d.docid == p.docid && d.index < |Parents()|
      ensures HasSubs(d.index, copies) && Copied(old(SubRows()), old(subs.Live()), l, SubRows(), copies)
      ensures subs.Live() == old(subs.Live()) + Indices(copies)
      ensures Parents()[d.index].fields == old(Parents()[p.index].fields)
      ensures Parents()[d.index].current == Parents()[d.index].first
      ensures forall i :: i in old(main.Live()) ==> Parents()[i] == old(Parents())[i]
      ensures forall i :: i in old(subs.Live()) ==> SubRows()[i] == old(SubRows())[i]
      ensures HasSubs(p.index, l)
    {
      hide LiveIds, Distinct, IsList, Copied, Indices, DocPool.Valid;
      Sizes();
      LiveMain();
      var source := main.storage.Get(p.index);
      var id := TakeRow(source);
      Sizes();
      d := Doc(id, p.docid);
      SetParent(id, source.(first := NO_DOC, current := NO_DOC));
      copies := CloneSubs(p.index, id, l);
      Sizes();
      var row := main.storage.Get(id);
      SetParent(id, row.(current := row.first));
      ListFrame(old(SubRows()), SubRows(), source.first, l);
    }

    /** A free row of the sub-document pool, linked to nothing. */
    method TakeSubRow(fields: F) returns (id: nat)
      requires Valid()
      modifies subs, subs.storage
      ensures Valid() && id !in old(subs.Live()) && subs.Live() == old(subs.Live()) + {id}
      ensures subs.Took(old(subs.size), old(subs.Used()), 1) && id < subs.size && |old(SubRows())| <= |SubRows()|
      ensures SubRows()[id] == SubRow(NO_DOC, fields)
      ensures forall i :: 0 <= i < |old(SubRows())| && i != id ==> SubRows()[i] == old(SubRows())[i]
    {
      hide LiveIds, Distinct;
      id := subs.GetOne();
      subs.storage.Put(id, SubRow(NO_DOC, fields));
    }

    /** A new parent without sub-documents. */
    method Allocate(docid: int, fields: F) returns (d: Doc)
      requires Valid()
      modifies main, main.storage
      ensures Valid() && d.index !in old(main.Live()) && main.Live() == old(main.Live()) + {d.index}
      ensures d.docid == docid && d.index < |Parents()| && Parents()[d.index] == ParentRow(NO_DOC, NO_DOC, fields)
      ensures main.Took(old(main.size), old(main.Used()), 1) && |old(Parents())| <= |Parents()|
      ensures forall i :: i in old(main.Live()) ==> Parents()[i] == old(Parents())[i]
    {
      LiveMain();
      var id := TakeRow(ParentRow(NO_DOC, NO_DOC, fields));
      d := Doc(id, docid);
    }

    /** A new sub-document behind the current one, which is document k of the parent's list.  What
        followed document k is no longer in the list. */
    method AllocateSub(p: nat, docid: int, fields: F, ghost l: seq<Doc>, ghost k: nat) returns (d: Doc)
      requires Valid() && HasSubs(p, l) && subs.HasIds(1)
      requires forall i :: 0 <= i < |l| ==> l[i].index in subs.Live()
      requires l != [] ==> k < |l| && Parents()[p].current == l[k]
      modifies subs, main.storage, subs.storage
      ensures Valid() && d.index !in old(subs.Live()) && subs.Live() == old(subs.Live()) + {d.index}
      ensures d.docid == docid && subs.Took(old(subs.size), old(subs.Used()), 1) && |old(SubRows())| <= |SubRows()|
      ensures d.index < |SubRows()| && SubRows()[d.index].fields == fields
      ensures HasSubs(p, if l == [] then [d] else l[..k + 1] + [d])
      ensures Parents()[p].current == d && Parents()[p].fields == old(Parents()[p].fields)
      ensures |Parents()| == |old(Parents())|
      ensures forall i :: 0 <= i < |Parents()| && i != p ==> Parents()[i] == old(Parents())[i]
      ensures forall i :: i in old(subs.Live()) ==> SubRows()[i].fields == old(SubRows())[i].fields
      ensures forall i :: i in old(subs.Live()) && (l == [] || i != l[k].index) ==> SubRows()[i] == old(SubRows())[i]
    {
      hide Distinct, LiveIds, IsList, DocPool.Valid;
      Sizes();
      ghost var rows, head := SubRows(), Parents()[p].first;
      LiveInRange(l);
      ListEmpty(rows, head, l);
      var id := TakeSubRow(fields);
      Sizes();
      d := Doc(id, docid);
      ListFrame(rows, SubRows(), head, l);
      if l != [] { LinkBehind(SubRows(), head, l, k, d); } else { SingleList(SubRows(), d); }
      AddSub(p, d);
    }

    /** Adding a sub-document right after cloning keeps only the first copy: cloning leaves the first
        sub-document current, not the last.  So the copies all stay exactly when there is at most one. */
    method AddSubToClone(p: Doc, docid: int, fields: F, ghost l: seq<Doc>)
        returns (q: Doc, d: Doc, ghost copies: seq<Doc>)
      requires Valid() && p.index in main.Live() && HasSubs(p.index, l)
      requires forall i :: 0 <= i < |l| ==> l[i].index in subs.Live()
      requires subs.HasIds(|l| + 1)
      modifies main, subs, main.storage, subs.storage
      ensures Valid() && |copies| == |l| && HasSubs(q.index, copies[..if l == [] then 0 else 1] + [d])
      ensures HasSubs(q.index, copies + [d]) <==> |l| <= 1
    {
      hide Distinct, LiveIds, Copying;
      q, copies := CloneWithSub(p, l);
      CopiesLive(copies, subs.Live());
      ListEmpty(SubRows(), Parents()[q.index].first, copies);
      d := AllocateSub(q.index, docid, fields, copies, 0);
      ghost var kept := copies[..if l == [] then 0 else 1] + [d];
      assert copies == [] ==> kept == [d];
      if HasSubs(q.index, copies + [d]) {
        ListUnique(SubRows(), Parents()[q.index].first, kept, copies + [d]);
        assert |kept| == |copies + [d]|;
      } else {
        assert kept != copies + [d];
      }
    }

    /** Frees the sub-documents of a parent, making each current in turn. */
    method DeleteSubs(p: nat, ghost l: seq<Doc>)
      requires Valid() && p < main.capacity && HasSubs(p, l)
      requires forall i :: 0 <= i < |l| ==> l[i].index in subs.Live()
      modifies subs, main.storage
      ensures Valid() && subs.Live() == old(subs.Live()) - Indices(l) && subs.size == old(subs.size)
      ensures Parents() == old(Parents()) && SubRows() == old(SubRows())
    {
      hide Distinct, LiveIds, DocPool.Valid, IsList, Indices;
      Sizes();
      ghost var rows, head := SubRows(), Parents()[p].first;
      NoIndices();
      var origin := main.storage.Get(p).current;
      var next := main.storage.Get(p).first;
      ghost var k := 0;
      assert l[0..] == l && l[..0] == [];
      while !IsNone(next)
        invariant Valid() && main.storage.Valid() && subs.storage.Valid()
        invariant 0 <= k <= |l| && IsList(rows, next, l[k..]) && SubRows() == rows
        invariant subs.Live() == old(subs.Live()) - Indices(l[..k]) && subs.size == old(subs.size)
        invariant p < |Parents()|
        invariant Parents() == old(Parents())[p := old(Parents()[p]).(current := Parents()[p].current)]
        decreases |l| - k
      {
        Sizes();
        ListEmpty(rows, next, l[k..]);
        ListAt(rows, next, l[k..], 0);
        StillLive(rows, head, l, k);
        assert l[k..][1..] == l[k + 1..] && l[..k + 1] == l[..k] + [l[k]];
        IndicesStep(l[..k], l[k]);
        var row := main.storage.Get(p);
        SetParent(p, row.(current := next));
        Sizes();
        next := subs.storage.Get(next.index).next;
        subs.Deallocate(main.storage.Get(p).current.index);
        k := k + 1;
      }
      ListEmpty(rows, next, l[k..]);
      assert l[..k] == l;
      Sizes();
      var row := main.storage.Get(p);
      SetParent(p, row.(current := origin));
    }

    lemma InMain(p: nat)
      requires main.Valid() && p in main.Live()
      ensures p < main.capacity
    {
    }

    /** Frees a parent and all its sub-documents. */
    method Deallocate(p: nat, ghost l: seq<Doc>)
      requires Valid() && p in main.Live() && HasSubs(p, l)
      requires forall i :: 0 <= i < |l| ==> l[i].index in subs.Live()
      modifies main, subs, main.storage
      ensures Valid() && main.Live() == old(main.Live()) - {p} && subs.Live() == old(subs.Live()) - Indices(l)
      ensures main.size == old(main.size) && subs.size == old(subs.size)
      ensures Parents() == old(Parents()) && SubRows() == old(SubRows())
    {
      hide Distinct, LiveIds, IsList;
      InMain(p);
      DeleteSubs(p, l);
      main.Deallocate(p);
    }

    /** Destroys every live parent once, in ascending order, and frees its sub-documents.  When no two
        parents share a sub-document, each listed sub-document is freed once. */
    method DeallocateAll(ghost lists: map<nat, seq<Doc>>) returns (destroyed: seq<nat>)
      requires Valid() && lists.Keys == main.Live() && forall p :: p in lists ==> HasSubs(p, lists[p])
      requires forall p, i :: p in lists && 0 <= i < |lists[p]| ==> lists[p][i].index in subs.Live()
      requires forall p, q :: p in lists && q in lists && p != q ==> Indices(lists[p]) !! Indices(lists[q])
      modifies main, subs, main.storage
      ensures Valid() && main.Live() == old(main.Live())
      ensures Rising(destroyed) && forall p :: p in destroyed <==> p in main.Live()
      ensures subs.Live() == old(subs.Live()) - Listed(lists, main.Live())
      ensures Parents() == old(Parents()) && SubRows() == old(SubRows())
    {
      hide Distinct, LiveIds, IsList, Listed, DocPool.Valid, Rising;
      Sizes();
      destroyed := main.DeallocateAll();
      NothingListed(lists);
      ghost var done: set<nat> := {};
      for i := 0 to |destroyed|
        invariant Valid() && main.storage.Valid() && subs.storage.Valid() && main.Live() == old(main.Live())
        invariant done <= main.Live() && forall p :: p in done <==> p in destroyed[..i]
        invariant subs.Live() == old(subs.Live()) - Listed(lists, done)
        invariant Parents() == old(Parents()) && SubRows() == old(SubRows())
      {
        var p := destroyed[i];
        assert p in destroyed;
        RisesAfter(destroyed, i);
        InMain(p);
        OneListedMore(lists, done, p);
        DeleteSubs(p, lists[p]);
        Sizes();
        assert destroyed[..i + 1] == destroyed[..i] + [p];
        done := done + {p};
      }
      assert destroyed[..|destroyed|] == destroyed;
      assert done == main.Live();
    }
  }
}
