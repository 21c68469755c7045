/** Whole runs of a client that allocates, clones, merges and frees documents with sub-documents,
    against a simple account of what it should then hold. */
module DocRuns {
  import opened Sequences
  import opened VectorStorage
  import opened SubLists
  import opened MatchDocs
  import DocIds

  datatype KnownSub<+F> = KnownSub(docid: int, fields: F)

  /** A document as its client knows it: its document id and fields, its sub-documents, and which of
      these is current. */
  datatype Known<+F> = Known(docid: int, fields: F, subs: seq<KnownSub<F>>, current: nat)

  /** What a client may do; `which` names a document it holds, `Merge` takes over all documents of
      another allocator that came about by a run of its own. */
  datatype Op<+F> =
    | Allocate(docid: int, fields: F)
    | AllocateSub(which: nat, docid: int, fields: F)
    | Clone(which: nat)
    | Merge(run: seq<Op<F>>)
    | Free(which: nat)

  /** A sub-document is added behind the current one and becomes current; what came later is lost. */
  function WithSub<F>(k: Known<F>, sub: KnownSub<F>): Known<F> {
    var kept := if k.subs == [] then [] else k.subs[..if k.current < |k.subs| then k.current + 1 else |k.subs|];
    k.(subs := kept + [sub], current := |kept|)
  }

  function Rewound<F>(m: seq<Known<F>>): (r: seq<Known<F>>)
    ensures |r| == |m|
  {
    seq(|m|, i requires 0 <= i < |m| => m[i].(current := 0))
  }

  /** What the client should hold after one step, and after a run. */
  function Next<F>(m: seq<Known<F>>, op: Op<F>): seq<Known<F>>
    decreases op
  {
    match op
    case Allocate(docid, fields) => m + [Known(docid, fields, [], 0)]
    case AllocateSub(which, docid, fields) =>
      if which < |m| then m[which := WithSub(m[which], KnownSub(docid, fields))] else m
    case Clone(which) => if which < |m| then m + [m[which].(current := 0)] else m
    case Merge(run) => m + Rewound(After(run))
    case Free(which) => if which < |m| then Without(m, which) else m
  }

  function After<F>(ops: seq<Op<F>>): seq<Known<F>>
    decreases ops
  {
    if ops == [] then [] else Next(After(ops[..|ops| - 1]), ops[|ops| - 1])
  }

  /** How many documents a step makes, and how many are made in the course of a run. */
  function DocsOf<F>(op: Op<F>): nat
    decreases op
  {
    match op
    case Allocate(_, _) => 1
    case Clone(_) => 1
    case Merge(run) => DocsMade(run)
    case _ => 0
  }

  function DocsMade<F>(ops: seq<Op<F>>): nat
    decreases ops
  {
    if ops == [] then 0 else DocsMade(ops[..|ops| - 1]) + DocsOf(ops[|ops| - 1])
  }

  /** How many sub-documents a step makes, and how many are made in the course of a run. */
  function SubsOf<F>(m: seq<Known<F>>, op: Op<F>): nat
    decreases op
  {
    match op
    case AllocateSub(_, _, _) => 1
    case Clone(which) => if which < |m| then |m[which].subs| else 0
    case Merge(run) => SubsMade(run)
    case _ => 0
  }

  function SubsMade<F>(ops: seq<Op<F>>): nat
    decreases ops
  {
    if ops == [] then 0 else SubsMade(ops[..|ops| - 1]) + SubsOf(After(ops[..|ops| - 1]), ops[|ops| - 1])
  }

  /** How many merges a step and a run amount to, those of the merged runs included. */
  function MergesOf<F>(op: Op<F>): nat
    decreases op
  {
    if op.Merge? then Merges(op.run) + 1 else 0
  }

  function Merges<F>(ops: seq<Op<F>>): nat
    decreases ops
  {
    if ops == [] then 0 else Merges(ops[..|ops| - 1]) + MergesOf(ops[|ops| - 1])
  }

  lemma RunStep<F>(ops: seq<Op<F>>, i: nat)
    requires i < |ops|
    ensures After(ops[..i + 1]) == Next(After(ops[..i]), ops[i])
    ensures DocsMade(ops[..i + 1]) == DocsMade(ops[..i]) + DocsOf(ops[i])
    ensures SubsMade(ops[..i + 1]) == SubsMade(ops[..i]) + SubsOf(After(ops[..i]), ops[i])
    ensures Merges(ops[..i + 1]) == Merges(ops[..i]) + MergesOf(ops[i])
  {
    assert ops[..i + 1][..i] == ops[..i];
  }

  lemma {:induction false} MadeGrows<F>(ops: seq<Op<F>>, i: nat)
    requires i <= |ops|
    ensures DocsMade(ops[..i]) <= DocsMade(ops) && SubsMade(ops[..i]) <= SubsMade(ops)
    ensures Merges(ops[..i]) <= Merges(ops)
    decreases |ops| - i
  {
    if i == |ops| {
      assert ops[..i] == ops;
    } else {
      RunStep(ops, i);
      MadeGrows(ops, i + 1);
    }
  }

  ghost predicate IsSub<F>(rows: seq<SubRow<F>>, d: Doc, k: KnownSub<F>) {
    d.docid == k.docid && d.index < |rows| && rows[d.index].fields == k.fields
  }

  /** A document has the sub-documents of l, all of them live, and is as the client knows it. */
  ghost predicate Belongs<F>(parents: seq<ParentRow<F>>, rows: seq<SubRow<F>>, live: set<nat>, d: Doc, l: seq<Doc>,
                             k: Known<F>) {
    && d.docid == k.docid && d.index < |parents| && parents[d.index].fields == k.fields
    && IsList(rows, parents[d.index].first, l)
    && |l| == |k.subs| && (forall i :: 0 <= i < |l| ==> l[i].index in live && IsSub(rows, l[i], k.subs[i]))
    && (l != [] ==> k.current < |l| && parents[d.index].current == l[k.current])
  }

  /** The held documents are different ones and exactly the live ones, and no two of them share a
      sub-document. */
  ghost predicate Tidy<F>(parents: seq<ParentRow<F>>, rows: seq<SubRow<F>>, mainLive: set<nat>, live: set<nat>,
                          held: seq<Doc>, lists: seq<seq<Doc>>, m: seq<Known<F>>) {
    && |held| == |lists| == |m| && Indices(held) == mainLive
    && (forall i, j :: 0 <= i < j < |held| ==> held[i].index != held[j].index)
    && (forall i :: 0 <= i < |held| ==> Belongs(parents, rows, live, held[i], lists[i], m[i]))
    && (forall i, j :: 0 <= i < j < |lists| ==> Indices(lists[i]) !! Indices(lists[j]))
  }

  lemma BelongsFrame<F>(parents: seq<ParentRow<F>>, rows: seq<SubRow<F>>, live: set<nat>,
                        parents': seq<ParentRow<F>>, rows': seq<SubRow<F>>, live': set<nat>, d: Doc, l: seq<Doc>,
                        k: Known<F>)
    requires Belongs(parents, rows, live, d, l, k)
    requires d.index < |parents'| && parents'[d.index] == parents[d.index]
    requires forall i :: i in Indices(l) && i < |rows| ==> i < |rows'| && rows'[i] == rows[i]
    requires forall i :: i in Indices(l) && i in live ==> i in live'
    ensures Belongs(parents', rows', live', d, l, k)
  {
    forall i | 0 <= i < |l| ensures l[i].index in Indices(l) { assert l[i] in l; }
    ListFrame(rows, rows', parents[d.index].first, l);
  }

  lemma HeldIndex(held: seq<Doc>, i: nat)
    requires i < |held|
    ensures held[i].index in Indices(held)
  {
    assert held[i] in held;
  }

  lemma ListIsLive<F>(parents: seq<ParentRow<F>>, rows: seq<SubRow<F>>, live: set<nat>, d: Doc, l: seq<Doc>,
                      k: Known<F>)
    requires Belongs(parents, rows, live, d, l, k)
    ensures Indices(l) <= live && d.index < |parents|
  {
  }

  /** Nothing changes for the client when the rows in use stay the same. */
  lemma TidyFrame<F>(parents: seq<ParentRow<F>>, rows: seq<SubRow<F>>, mainLive: set<nat>, live: set<nat>,
                     held: seq<Doc>, lists: seq<seq<Doc>>, m: seq<Known<F>>,
                     parents': seq<ParentRow<F>>, rows': seq<SubRow<F>>, live': set<nat>)
    requires Tidy(parents, rows, mainLive, live, held, lists, m) && live <= live'
    requires forall i :: i in mainLive && i < |parents| ==> i < |parents'| && parents'[i] == parents[i]
    requires forall i :: i in live && i < |rows| ==> i < |rows'| && rows'[i] == rows[i]
    ensures Tidy(parents', rows', mainLive, live', held, lists, m)
  {
    hide Belongs, Indices;
    forall i | 0 <= i < |held| ensures Belongs(parents', rows', live', held[i], lists[i], m[i]) {
      HeldIndex(held, i);
      ListIsLive(parents, rows, live, held[i], lists[i], m[i]);
      BelongsFrame(parents, rows, live, parents', rows', live', held[i], lists[i], m[i]);
    }
  }

  lemma IndicesConcat(l: seq<Doc>, l': seq<Doc>)
    ensures Indices(l + l') == Indices(l) + Indices(l')
  {
    forall x | x in l || x in l' ensures x in l + l' {}
  }

  /** Documents that are tidy on their own and have nothing in common are tidy together. */
  lemma TidyConcat<F>(parents: seq<ParentRow<F>>, rows: seq<SubRow<F>>, a: set<nat>, b: set<nat>, live: set<nat>,
                      held: seq<Doc>, lists: seq<seq<Doc>>, m: seq<Known<F>>, held': seq<Doc>, lists': seq<seq<Doc>>,
                      m': seq<Known<F>>)
    requires Tidy(parents, rows, a, live, held, lists, m) && Tidy(parents, rows, b, live, held', lists', m') && a !! b
    requires forall i, j :: 0 <= i < |lists| && 0 <= j < |lists'| ==> Indices(lists[i]) !! Indices(lists'[j])
    ensures Tidy(parents, rows, a + b, live, held + held', lists + lists', m + m')
  {
    hide Belongs;
    IndicesConcat(held, held');
    hide Indices;
    forall i | 0 <= i < |held| ensures held[i].index in a { HeldIndex(held, i); }
    forall i | 0 <= i < |held'| ensures held'[i].index in b { HeldIndex(held', i); }
  }

  /** One more document. */
  lemma TidyAdd<F>(parents: seq<ParentRow<F>>, rows: seq<SubRow<F>>, mainLive: set<nat>, live: set<nat>,
                   held: seq<Doc>, lists: seq<seq<Doc>>, m: seq<Known<F>>, d: Doc, l: seq<Doc>, k: Known<F>)
    requires Tidy(parents, rows, mainLive, live, held, lists, m) && Belongs(parents, rows, live, d, l, k)
    requires d.index !in mainLive && forall i :: 0 <= i < |lists| ==> Indices(lists[i]) !! Indices(l)
    ensures Tidy(parents, rows, mainLive + {d.index}, live, held + [d], lists + [l], m + [k])
  {
    assert Indices([d]) == {d.index};
    TidyConcat(parents, rows, mainLive, {d.index}, live, held, lists, m, [d], [l], [k]);
  }

  /** One document less, and its sub-documents no longer live. */
  lemma TidyWithout<F>(parents: seq<ParentRow<F>>, rows: seq<SubRow<F>>, mainLive: set<nat>, live: set<nat>,
                       held: seq<Doc>, lists: seq<seq<Doc>>, m: seq<Known<F>>, w: nat)
    requires Tidy(parents, rows, mainLive, live, held, lists, m) && w < |held|
    ensures Tidy(parents, rows, mainLive - {held[w].index}, live - Indices(lists[w]), Without(held, w),
                 Without(lists, w), Without(m, w))
  {
    hide Belongs;
    var held', lists', m', live' := Without(held, w), Without(lists, w), Without(m, w), live - Indices(lists[w]);
    assert held == held[..w] + [held[w]] + held[w + 1..];
    IndicesConcat(held[..w] + [held[w]], held[w + 1..]);
    IndicesConcat(held[..w], [held[w]]);
    IndicesConcat(held[..w], held[w + 1..]);
    assert Indices([held[w]]) == {held[w].index};
    forall i | 0 <= i < |held'|
      ensures held'[i].index != held[w].index && Belongs(parents, rows, live', held'[i], lists'[i], m'[i])
    {
      var j := if i < w then i else i + 1;
      assert held'[i] == held[j] && lists'[i] == lists[j] && m'[i] == m[j];
      ListIsLive(parents, rows, live, held[j], lists[j], m[j]);
      BelongsFrame(parents, rows, live, parents, rows, live', held[j], lists[j], m[j]);
    }
    assert Indices(held') == mainLive - {held[w].index};
  }

  /** One document gets other sub-documents. */
  lemma TidyReplace<F>(parents: seq<ParentRow<F>>, rows: seq<SubRow<F>>, mainLive: set<nat>, live: set<nat>,
                       held: seq<Doc>, lists: seq<seq<Doc>>, m: seq<Known<F>>, w: nat,
                       parents': seq<ParentRow<F>>, rows': seq<SubRow<F>>, live': set<nat>, l: seq<Doc>, k: Known<F>)
    requires Tidy(parents, rows, mainLive, live, held, lists, m) && w < |held| && live <= live'
    requires forall i :: i in mainLive && i != held[w].index && i < |parents| ==>
             i < |parents'| && parents'[i] == parents[i]
    requires forall i :: i in live && i !in Indices(lists[w]) && i < |rows| ==> i < |rows'| && rows'[i] == rows[i]
    requires Belongs(parents', rows', live', held[w], l, k) && Indices(l) * live <= Indices(lists[w])
    ensures Tidy(parents', rows', mainLive, live', held, lists[w := l], m[w := k])
  {
    hide Belongs, Indices;
    forall i | 0 <= i < |held| && i != w
      ensures Belongs(parents', rows', live', held[i], lists[i], m[i]) && Indices(lists[i]) !! Indices(l)
    {
      HeldIndex(held, i);
      ListIsLive(parents, rows, live, held[i], lists[i], m[i]);
      assert Indices(lists[i]) !! Indices(lists[w]);
      BelongsFrame(parents, rows, live, parents', rows', live', held[i], lists[i], m[i]);
    }
  }

  /** The allocator holds exactly the documents of its client. */
  ghost predicate Holds<F(0)>(a: MatchDocAllocator<F>, held: seq<Doc>, lists: seq<seq<Doc>>, m: seq<Known<F>>)
    reads a, a.main, a.subs, a.main.storage, a.subs.storage
  {
    a.Valid() && Tidy(a.Parents(), a.SubRows(), a.main.Live(), a.subs.Live(), held, lists, m)
  }

  method AllocateOne<F(0)>(a: MatchDocAllocator<F>, docid: int, fields: F, held: seq<Doc>, ghost lists: seq<seq<Doc>>,
                           m: seq<Known<F>>)
      returns (d: Doc)
    requires Holds(a, held, lists, m)
    modifies a.main, a.main.storage
    ensures Holds(a, held + [d], lists + [[]], m + [Known(docid, fields, [], 0)])
    ensures a.main.Took(old(a.main.size), old(a.main.Used()), 1)
  {
    hide Tidy, DocIds.LiveIds;
    ghost var parents, rows, mainLive, live := a.Parents(), a.SubRows(), a.main.Live(), a.subs.Live();
    d := a.Allocate(docid, fields);
    TidyFrame(parents, rows, mainLive, live, held, lists, m, a.Parents(), rows, live);
    TidyAdd(a.Parents(), rows, mainLive, live, held, lists, m, d, [], Known(docid, fields, [], 0));
  }

  lemma TidyAt<F>(parents: seq<ParentRow<F>>, rows: seq<SubRow<F>>, mainLive: set<nat>, live: set<nat>,
                  held: seq<Doc>, lists: seq<seq<Doc>>, m: seq<Known<F>>, w: nat)
    requires Tidy(parents, rows, mainLive, live, held, lists, m) && w < |held|
    ensures |held| == |lists| == |m| && held[w].index in mainLive
    ensures Belongs(parents, rows, live, held[w], lists[w], m[w])
  {
    HeldIndex(held, w);
  }

  /** The list after a sub-document was added is as the client expects. */
  lemma SubAdded<F>(parents: seq<ParentRow<F>>, rows: seq<SubRow<F>>, live: set<nat>,
                    parents': seq<ParentRow<F>>, rows': seq<SubRow<F>>, live': set<nat>,
                    p: Doc, l: seq<Doc>, k: Known<F>, d: Doc, sub: KnownSub<F>, l': seq<Doc>)
    requires Belongs(parents, rows, live, p, l, k) && live' == live + {d.index} && d.index !in live
    requires IsSub(rows', d, sub) && |rows| <= |rows'|
    requires forall i :: i in live && i < |rows| ==> rows'[i].fields == rows[i].fields
    requires l' == if l == [] then [d] else l[..k.current + 1] + [d]
    requires p.index < |parents'| && IsList(rows', parents'[p.index].first, l') && parents'[p.index].current == d
    requires parents'[p.index].fields == k.fields
    ensures Belongs(parents', rows', live', p, l', WithSub(k, sub))
    ensures Indices(l') * live <= Indices(l)
  {
    hide IsList;
    var subs' := WithSub(k, sub).subs;
    forall i | 0 <= i < |l'| ensures l'[i].index in live' && IsSub(rows', l'[i], subs'[i]) {
      if i < |l'| - 1 { assert IsSub(rows, l[i], k.subs[i]); }
    }
    forall x | x in Indices(l') * live ensures x in Indices(l) {
      var e :| e in l' && e.index == x;
      assert e in l;
    }
  }

  method AllocateSubOf<F(0)>(a: MatchDocAllocator<F>, w: nat, docid: int, fields: F, held: seq<Doc>,
                             ghost lists: seq<seq<Doc>>, m: seq<Known<F>>)
      returns (ghost l: seq<Doc>)
    requires Holds(a, held, lists, m) && w < |held| && a.subs.HasIds(1)
    modifies a.subs, a.main.storage, a.subs.storage
    ensures Holds(a, held, lists[w := l], m[w := WithSub(m[w], KnownSub(docid, fields))])
    ensures a.subs.Took(old(a.subs.size), old(a.subs.Used()), 1)
  {
    hide Tidy, DocIds.LiveIds;
    ghost var parents, rows, mainLive, live := a.Parents(), a.SubRows(), a.main.Live(), a.subs.Live();
    TidyAt(parents, rows, mainLive, live, held, lists, m, w);
    ghost var old_l, k := lists[w], m[w].current;
    ghost var sub := KnownSub(docid, fields);
    var d := a.AllocateSub(held[w].index, docid, fields, old_l, k);
    l := if old_l == [] then [d] else old_l[..k + 1] + [d];
    if old_l != [] { HeldIndex(old_l, k); }
    SubAdded(parents, rows, live, a.Parents(), a.SubRows(), a.subs.Live(), held[w], old_l, m[w], d, sub, l);
    TidyReplace(parents, rows, mainLive, live, held, lists, m, w, a.Parents(), a.SubRows(), a.subs.Live(), l,
                WithSub(m[w], sub));
  }

  lemma ListsLive<F>(parents: seq<ParentRow<F>>, rows: seq<SubRow<F>>, mainLive: set<nat>, live: set<nat>,
                     held: seq<Doc>, lists: seq<seq<Doc>>, m: seq<Known<F>>)
    requires Tidy(parents, rows, mainLive, live, held, lists, m)
    ensures forall i :: 0 <= i < |lists| ==> Indices(lists[i]) <= live
  {
    hide Belongs;
    forall i | 0 <= i < |lists| ensures Indices(lists[i]) <= live {
      ListIsLive(parents, rows, live, held[i], lists[i], m[i]);
    }
  }

  lemma CopiesBelong<F>(parents: seq<ParentRow<F>>, rows: seq<SubRow<F>>, live: set<nat>,
                        parents': seq<ParentRow<F>>, rows': seq<SubRow<F>>, live': set<nat>,
                        p: Doc, l: seq<Doc>, k: Known<F>, d: Doc, copies: seq<Doc>)
    requires Belongs(parents, rows, live, p, l, k) && Copied(rows, live, l, rows', copies)
    requires live' == live + Indices(copies)
    requires d.docid == p.docid && d.index < |parents'| && IsList(rows', parents'[d.index].first, copies)
    requires parents'[d.index].current == parents'[d.index].first && parents'[d.index].fields == k.fields
    ensures Belongs(parents', rows', live', d, copies, k.(current := 0)) && Indices(copies) !! live
  {
    ListEmpty(rows', parents'[d.index].first, copies);
    forall i | 0 <= i < |copies| ensures copies[i].index in live' && IsSub(rows', copies[i], k.subs[i]) {
      assert CopyOf(rows, live, l, rows', copies, i) && copies[i] in copies && IsSub(rows, l[i], k.subs[i]);
    }
    forall x | x in copies ensures x.index !in live {
      var i :| 0 <= i < |copies| && copies[i] == x;
      assert CopyOf(rows, live, l, rows', copies, i);
    }
  }

  method CloneOne<F(0)>(a: MatchDocAllocator<F>, w: nat, held: seq<Doc>, ghost lists: seq<seq<Doc>>, m: seq<Known<F>>)
      returns (d: Doc, ghost copies: seq<Doc>)
    requires Holds(a, held, lists, m) && w < |held|
    requires a.subs.HasIds(|m[w].subs|)
    modifies a.main, a.subs, a.main.storage, a.subs.storage
    ensures Holds(a, held + [d], lists + [copies], m + [m[w].(current := 0)])
    ensures a.main.Took(old(a.main.size), old(a.main.Used()), 1)
    ensures a.subs.Took(old(a.subs.size), old(a.subs.Used()), |m[w].subs|)
  {
    hide Tidy, DocIds.LiveIds, Copied;
    ghost var parents, rows, mainLive, live := a.Parents(), a.SubRows(), a.main.Live(), a.subs.Live();
    TidyAt(parents, rows, mainLive, live, held, lists, m, w);
    d, copies := a.CloneWithSub(held[w], lists[w]);
    TidyFrame(parents, rows, mainLive, live, held, lists, m, a.Parents(), a.SubRows(), a.subs.Live());
    CopiesBelong(parents, rows, live, a.Parents(), a.SubRows(), a.subs.Live(), held[w], lists[w], m[w], d, copies);
    ListsLive(parents, rows, mainLive, live, held, lists, m);
    TidyAdd(a.Parents(), a.SubRows(), mainLive, a.subs.Live(), held, lists, m, d, copies, m[w].(current := 0));
  }

  method FreeOne<F(0)>(a: MatchDocAllocator<F>, w: nat, held: seq<Doc>, ghost lists: seq<seq<Doc>>, m: seq<Known<F>>)
    requires Holds(a, held, lists, m) && w < |held|
    modifies a.main, a.subs, a.main.storage
    ensures w < |lists| && w < |m| && Holds(a, Without(held, w), Without(lists, w), Without(m, w))
    ensures a.main.size == old(a.main.size) && a.subs.size == old(a.subs.size)
  {
    hide Tidy, DocIds.LiveIds;
    ghost var parents, rows, mainLive, live := a.Parents(), a.SubRows(), a.main.Live(), a.subs.Live();
    TidyAt(parents, rows, mainLive, live, held, lists, m, w);
    a.Deallocate(held[w].index, lists[w]);
    TidyWithout(parents, rows, mainLive, live, held, lists, m, w);
  }

  lemma MovedIndices(held: seq<Doc>, offset: nat)
    ensures Indices(Moved(held, offset)) == RaisedIds(Indices(held), offset)
  {
    var moved := Moved(held, offset);
    forall x | x in RaisedIds(Indices(held), offset) ensures x in Indices(moved) {
      var i :| 0 <= i < |held| && held[i].index + offset == x;
      assert moved[i] in moved;
    }
    forall x | x in Indices(moved) ensures x in RaisedIds(Indices(held), offset) {
      var i :| 0 <= i < |moved| && moved[i].index == x;
      assert held[i] in held && held[i].index in Indices(held);
    }
  }

  /** The documents of a list, moved up, are the raised ones. */
  lemma ShiftedIndices<F>(rows: seq<SubRow<F>>, head: Doc, l: seq<Doc>, offset: nat)
    requires IsList(rows, head, l)
    ensures Indices(ShiftAll(l, offset)) == RaisedIds(Indices(l), offset)
    ensures forall i :: 0 <= i < |l| ==> ShiftAll(l, offset)[i] == Doc(l[i].index + offset, l[i].docid)
  {
    forall i | 0 <= i < |l| ensures !IsNone(l[i]) { ListAt(rows, head, l, i); }
    assert ShiftAll(l, offset) == Moved(l, offset);
    MovedIndices(l, offset);
  }

  /** The fields of moved parents, and those of moved sub-documents if there are any, are as they were. */
  ghost predicate FieldsMoved<F>(parents: seq<ParentRow<F>>, rows: seq<SubRow<F>>, parents': seq<ParentRow<F>>,
                                 rows': seq<SubRow<F>>, offset: nat, subOffset: nat, l: seq<Doc>) {
    && offset <= |parents'| && ParentFields(parents'[offset..], parents)
    && (l != [] ==> subOffset <= |rows'| && SubFields(rows'[subOffset..], rows))
  }

  ghost predicate Arrived<F>(parents: seq<ParentRow<F>>, rows: seq<SubRow<F>>, p: nat, l: seq<Doc>) {
    p < |parents| && IsList(rows, parents[p].first, l) && parents[p].current == parents[p].first
  }

  lemma MovedBelongs<F>(parents: seq<ParentRow<F>>, rows: seq<SubRow<F>>, live: set<nat>,
                        parents': seq<ParentRow<F>>, rows': seq<SubRow<F>>, live': set<nat>,
                        d: Doc, l: seq<Doc>, k: Known<F>, offset: nat, subOffset: nat)
    requires Belongs(parents, rows, live, d, l, k) && Arrived(parents', rows', d.index + offset, ShiftAll(l, subOffset))
    requires FieldsMoved(parents, rows, parents', rows', offset, subOffset, l)
    requires l != [] ==> RaisedIds(live, subOffset) <= live'
    ensures Belongs(parents', rows', live', Doc(d.index + offset, d.docid), ShiftAll(l, subOffset), k.(current := 0))
  {
    ShiftedIndices(rows, parents[d.index].first, l, subOffset);
    var l' := ShiftAll(l, subOffset);
    ListEmpty(rows', parents'[d.index + offset].first, l');
    assert parents'[offset..][d.index].fields == parents[d.index].fields;
    forall i | 0 <= i < |l| ensures l'[i].index in live' && IsSub(rows', l'[i], k.subs[i]) {
      assert IsSub(rows, l[i], k.subs[i]) && l[i].index + subOffset in RaisedIds(live, subOffset);
      assert rows'[subOffset..][l[i].index].fields == rows[l[i].index].fields;
    }
  }

  lemma BelongsShifted<F>(parents: seq<ParentRow<F>>, rows: seq<SubRow<F>>, live: set<nat>, d: Doc, l: seq<Doc>,
                          k: Known<F>, offset: nat)
    requires Belongs(parents, rows, live, d, l, k)
    ensures Indices(ShiftAll(l, offset)) == RaisedIds(Indices(l), offset)
  {
    ShiftedIndices(rows, parents[d.index].first, l, offset);
  }

  lemma MovedOne<F>(parents: seq<ParentRow<F>>, rows: seq<SubRow<F>>, mainLive: set<nat>, live: set<nat>,
                    held: seq<Doc>, lists: seq<seq<Doc>>, m: seq<Known<F>>,
                    parents': seq<ParentRow<F>>, rows': seq<SubRow<F>>, live': set<nat>, offset: nat, subOffset: nat,
                    i: nat)
    requires Tidy(parents, rows, mainLive, live, held, lists, m) && i < |held| && |held| == |lists| == |m|
    requires Arrived(parents', rows', held[i].index + offset, ShiftAll(lists[i], subOffset))
    requires Flatten(lists) != [] ==> RaisedIds(live, subOffset) <= live'
    requires FieldsMoved(parents, rows, parents', rows', offset, subOffset, Flatten(lists))
    ensures Belongs(parents', rows', live', Moved(held, offset)[i], ShiftLists(lists, subOffset)[i], Rewound(m)[i])
    ensures Indices(ShiftLists(lists, subOffset)[i]) == RaisedIds(Indices(lists[i]), subOffset)
  {
    hide Tidy, Belongs, Arrived, Flatten, ShiftAll, Indices, RaisedIds;
    TidyAt(parents, rows, mainLive, live, held, lists, m, i);
    if Flatten(lists) == [] { AllEmpty(lists, i); }
    MovedBelongs(parents, rows, live, parents', rows', live', held[i], lists[i], m[i], offset, subOffset);
    BelongsShifted(parents, rows, live, held[i], lists[i], m[i], subOffset);
  }

  lemma RaisedApart(a: set<nat>, b: set<nat>, offset: nat)
    requires a !! b
    ensures RaisedIds(a, offset) !! RaisedIds(b, offset)
  {
  }

  lemma RaisedAtLeast(a: set<nat>, offset: nat)
    ensures forall x :: x in RaisedIds(a, offset) ==> x >= offset
  {
  }

  /** The documents that were taken over are tidy among themselves. */
  lemma MovedTidy<F>(parents: seq<ParentRow<F>>, rows: seq<SubRow<F>>, mainLive: set<nat>, live: set<nat>,
                     held: seq<Doc>, lists: seq<seq<Doc>>, m: seq<Known<F>>,
                     parents': seq<ParentRow<F>>, rows': seq<SubRow<F>>, live': set<nat>, offset: nat, subOffset: nat)
    requires Tidy(parents, rows, mainLive, live, held, lists, m)
    requires forall i :: 0 <= i < |held| ==>
               Arrived(parents', rows', held[i].index + offset, ShiftAll(lists[i], subOffset))
    requires Flatten(lists) != [] ==> RaisedIds(live, subOffset) <= live'
    requires FieldsMoved(parents, rows, parents', rows', offset, subOffset, Flatten(lists))
    ensures Tidy(parents', rows', RaisedIds(mainLive, offset), live', Moved(held, offset), ShiftLists(lists, subOffset),
                 Rewound(m))
    ensures forall i, x :: 0 <= i < |lists| && x in Indices(ShiftLists(lists, subOffset)[i]) ==> x >= subOffset
  {
    hide Belongs, Arrived, IsList, Flatten, ShiftAll, Indices, RaisedIds, FieldsMoved;
    MovedIndices(held, offset);
    var held', lists', m' := Moved(held, offset), ShiftLists(lists, subOffset), Rewound(m);
    forall i | 0 <= i < |held|
      ensures Belongs(parents', rows', live', held'[i], lists'[i], m'[i])
      ensures Indices(lists'[i]) == RaisedIds(Indices(lists[i]), subOffset)
    {
      assert Arrived(parents', rows', held[i].index + offset, ShiftAll(lists[i], subOffset));
      MovedOne(parents, rows, mainLive, live, held, lists, m, parents', rows', live', offset, subOffset, i);
    }
    forall i, j | 0 <= i < j < |lists| ensures Indices(lists'[i]) !! Indices(lists'[j]) {
      RaisedApart(Indices(lists[i]), Indices(lists[j]), subOffset);
    }
    forall i, x | 0 <= i < |lists| && x in Indices(lists'[i]) ensures x >= subOffset {
      RaisedAtLeast(Indices(lists[i]), subOffset);
    }
    assert Tidy(parents', rows', RaisedIds(mainLive, offset), live', held', lists', m');
  }

  lemma TidyLengths<F>(parents: seq<ParentRow<F>>, rows: seq<SubRow<F>>, mainLive: set<nat>, live: set<nat>,
                       held: seq<Doc>, lists: seq<seq<Doc>>, m: seq<Known<F>>)
    requires Tidy(parents, rows, mainLive, live, held, lists, m)
    ensures |held| == |lists| == |m|
    ensures forall i :: 0 <= i < |held| ==>
              held[i].index < |parents| && IsList(rows, parents[held[i].index].first, lists[i])
  {
  }

  lemma LiveBelow<R(0)>(pool: DocIds.DocPool<R>)
    requires pool.Valid()
    ensures forall i :: i in pool.Live() ==> i < pool.capacity
  {
  }

  method MergeAll<F(0)>(a: MatchDocAllocator<F>, held: seq<Doc>, ghost lists: seq<seq<Doc>>, m: seq<Known<F>>,
                        b: MatchDocAllocator<F>, docs: seq<Doc>, ghost lists': seq<seq<Doc>>, m': seq<Known<F>>)
      returns (all: seq<Doc>)
    requires Holds(a, held, lists, m) && Holds(b, docs, lists', m') && a.Apart(b) && !b.merged
    requires a.subs.capacity + b.subs.capacity <= DocIds.INVALID
    modifies a, a.main, a.subs, a.main.storage, a.subs.storage, b, b.main.storage, b.subs.storage
    ensures Holds(a, all, lists + ShiftLists(lists', old(a.subs.capacity)), m + Rewound(m'))
    ensures a.merged == old(a.merged)
    ensures a.main.size <= old(a.main.capacity + b.main.size)
    ensures a.subs.size <= old(a.subs.capacity + b.subs.size)
  {
    hide Tidy, DocIds.LiveIds, Flatten, ShiftAll, RaisedIds, ParentFields, SubFields;
    ghost var parents, rows, mainLive, live := a.Parents(), a.SubRows(), a.main.Live(), a.subs.Live();
    ghost var theirs, theirRows, theirMain, theirLive := b.Parents(), b.SubRows(), b.main.Live(), b.subs.Live();
    ghost var offset, subOffset := a.main.capacity, a.subs.capacity;
    TidyLengths(parents, rows, mainLive, live, held, lists, m);
    TidyLengths(theirs, theirRows, theirMain, theirLive, docs, lists', m');
    LiveBelow(a.main);
    LiveBelow(a.subs);
    var ok;
    ok, all := a.MergeAllocatorOnlySame(b, true, docs, held, lists');
    if docs == [] {
      assert lists + ShiftLists(lists', subOffset) == lists && m + Rewound(m') == m && all == held;
      return;
    }
    forall i | 0 <= i < |docs|
      ensures Arrived(a.Parents(), a.SubRows(), docs[i].index + offset, ShiftAll(lists'[i], subOffset))
    {
      assert a.HasSubs(docs[i].index + offset, ShiftAll(lists'[i], subOffset)) && a.AtFirst(docs[i].index + offset);
    }
    MovedTidy(theirs, theirRows, theirMain, theirLive, docs, lists', m', a.Parents(), a.SubRows(), a.subs.Live(),
              offset, subOffset);
    TidyFrame(parents, rows, mainLive, live, held, lists, m, a.Parents(), a.SubRows(), a.subs.Live());
    ListsLive(parents, rows, mainLive, live, held, lists, m);
    RaisedAtLeast(theirMain, offset);
    TidyConcat(a.Parents(), a.SubRows(), mainLive, RaisedIds(theirMain, offset), a.subs.Live(), held, lists, m,
               Moved(docs, offset), ShiftLists(lists', subOffset), Rewound(m'));
  }

  /** The ids that merging may waste: each merge leaves the unused part of a chunk, and needs the last
      chunk of the other pool whole. */
  function Waste<F>(ops: seq<Op<F>>): nat {
    if Merges(ops) == 0 then 0 else CHUNK_SIZE * (Merges(ops) + 1)
  }

  /** Whether there are ids enough for a run. */
  predicate IdsSuffice<F>(ops: seq<Op<F>>) {
    DocsMade(ops) + Waste(ops) <= DocIds.INVALID && SubsMade(ops) + Waste(ops) <= DocIds.INVALID
  }

  ghost predicate Within<F(0)>(a: MatchDocAllocator<F>, docs: nat, subs: nat)
    reads a, a.main, a.subs
  {
    a.main.size <= docs && a.subs.size <= subs && a.main.size <= DocIds.INVALID && a.subs.size <= DocIds.INVALID
  }

  /** The ids that the merges of a step may waste. */
  function StepWaste<F>(op: Op<F>): nat { if op.Merge? then CHUNK_SIZE * (MergesOf(op) + 1) else 0 }

  lemma WasteSoFar<F>(ops: seq<Op<F>>, i: nat)
    requires i < |ops|
    ensures CHUNK_SIZE * Merges(ops[..i]) + StepWaste(ops[i]) <= Waste(ops)
  {
    RunStep(ops, i);
    MadeGrows(ops, i + 1);
  }

  lemma NoRun<F>()
    ensures After<F>([]) == [] && DocsMade<F>([]) == 0 && SubsMade<F>([]) == 0 && Merges<F>([]) == 0
  {
  }

  lemma NothingHeld<F(0)>(a: MatchDocAllocator<F>)
    requires a.Valid() && a.main.Live() == {} && a.subs.Live() == {}
    ensures Holds(a, [], [], [])
  {
  }

  lemma HoldsLengths<F(0)>(a: MatchDocAllocator<F>, held: seq<Doc>, lists: seq<seq<Doc>>, m: seq<Known<F>>)
    requires Holds(a, held, lists, m)
    ensures |held| == |lists| == |m|
  {
  }

  /** Every run, merges with the outcomes of other runs included, leaves the client with documents
      as its calls say, exactly the live ones, no two of them sharing a sub-document, and every
      sub-document in a list live.  It can only fail when the ids of its documents and what merging
      wastes exceed the ids there are. */
  method Run<F(0)>(ops: seq<Op<F>>)
      returns (ok: bool, a: MatchDocAllocator<F>, held: seq<Doc>, m: seq<Known<F>>, ghost lists: seq<seq<Doc>>)
    ensures fresh(a) && fresh(a.main) && fresh(a.subs) && fresh(a.main.storage) && fresh(a.subs.storage)
    ensures ok ==> Holds(a, held, lists, m) && m == After(ops) && !a.merged
    ensures ok ==> Within(a, DocsMade(ops) + CHUNK_SIZE * Merges(ops), SubsMade(ops) + CHUNK_SIZE * Merges(ops))
    ensures IdsSuffice(ops) ==> ok
    decreases ops, 0
  {
    hide Tidy, After, DocsMade, SubsMade, Merges, Next, DocsOf, SubsOf, MergesOf;
    a := new MatchDocAllocator();
    held, m, lists, ok := [], [], [], true;
    NoRun<F>();
    assert ops[..0] == [];
    NothingHeld(a);
    for i := 0 to |ops|
      invariant fresh(a) && fresh(a.main) && fresh(a.subs) && fresh(a.main.storage) && fresh(a.subs.storage)
      invariant Holds(a, held, lists, m) && m == After(ops[..i]) && !a.merged
      invariant Within(a, DocsMade(ops[..i]) + CHUNK_SIZE * Merges(ops[..i]),
                       SubsMade(ops[..i]) + CHUNK_SIZE * Merges(ops[..i]))
    {
      RunStep(ops, i);
      MadeGrows(ops, i + 1);
      WasteSoFar(ops, i);
      ok, held, m, lists := Step(a, ops[i], held, m, lists);
      if !ok {
        return;
      }
    }
    assert ops[..|ops|] == ops;
  }

  method Step<F(0)>(a: MatchDocAllocator<F>, op: Op<F>, held: seq<Doc>, m: seq<Known<F>>, ghost lists: seq<seq<Doc>>)
      returns (ok: bool, held': seq<Doc>, m': seq<Known<F>>, ghost lists': seq<seq<Doc>>)
    requires Holds(a, held, lists, m) && !a.merged && a.main.size <= DocIds.INVALID && a.subs.size <= DocIds.INVALID
    modifies a, a.main, a.subs, a.main.storage, a.subs.storage
    ensures ok ==> Holds(a, held', lists', m') && m' == Next(m, op) && !a.merged
    ensures ok ==> Within(a, old(a.main.size) + DocsOf(op) + CHUNK_SIZE * MergesOf(op),
                          old(a.subs.size) + SubsOf(m, op) + CHUNK_SIZE * MergesOf(op))
    ensures !ok ==> || old(a.main.size) + DocsOf(op) + StepWaste(op) > DocIds.INVALID
                    || old(a.subs.size) + SubsOf(m, op) + StepWaste(op) > DocIds.INVALID
    decreases op
  {
    hide Tidy, After, DocsMade, SubsMade, Merges, MatchDocAllocator.Valid, WithSub;
    HoldsLengths(a, held, lists, m);
    ok, held', m', lists' := true, held, m, lists;
    match op {
      case Allocate(docid, fields) =>
        ok := a.main.HasIds(1);
        if ok {
          var d := AllocateOne(a, docid, fields, held, lists, m);
          held', m', lists' := held + [d], m + [Known(docid, fields, [], 0)], lists + [[]];
        }
      case AllocateSub(w, docid, fields) =>
        if w < |held| {
          ok := a.subs.HasIds(1);
          if ok {
            ghost var l := AllocateSubOf(a, w, docid, fields, held, lists, m);
            m', lists' := m[w := WithSub(m[w], KnownSub(docid, fields))], lists[w := l];
          }
        }
      case Clone(w) =>
        if w < |held| {
          ok := a.main.HasIds(1) && a.subs.HasIds(|m[w].subs|);
          if ok {
            var d;
            ghost var copies;
            d, copies := CloneOne(a, w, held, lists, m);
            held', m', lists' := held + [d], m + [m[w].(current := 0)], lists + [copies];
          }
        }
      case Merge(run) =>
        ok, held', m', lists' := MergeRun(a, run, held, m, lists);
      case Free(w) =>
        if w < |held| {
          FreeOne(a, w, held, lists, m);
          held', m', lists' := Without(held, w), Without(m, w), Without(lists, w);
        }
    }
  }

  /** Takes over what another run leaves behind. */
  method MergeRun<F(0)>(a: MatchDocAllocator<F>, run: seq<Op<F>>, held: seq<Doc>, m: seq<Known<F>>,
                        ghost lists: seq<seq<Doc>>)
      returns (ok: bool, held': seq<Doc>, m': seq<Known<F>>, ghost lists': seq<seq<Doc>>)
    requires Holds(a, held, lists, m) && !a.merged && a.main.size <= DocIds.INVALID && a.subs.size <= DocIds.INVALID
    modifies a, a.main, a.subs, a.main.storage, a.subs.storage
    ensures ok ==> Holds(a, held', lists', m') && m' == m + Rewound(After(run)) && !a.merged
    ensures ok ==> Within(a, old(a.main.size) + DocsMade(run) + CHUNK_SIZE * (Merges(run) + 1),
                          old(a.subs.size) + SubsMade(run) + CHUNK_SIZE * (Merges(run) + 1))
    ensures !ok ==> || old(a.main.size) + DocsMade(run) + CHUNK_SIZE * (Merges(run) + 2) > DocIds.INVALID
                    || old(a.subs.size) + SubsMade(run) + CHUNK_SIZE * (Merges(run) + 2) > DocIds.INVALID
    decreases run, 1
  {
    hide Tidy, After, DocsMade, SubsMade, Merges;
    held', m', lists' := held, m, lists;
    var b, docs, known;
    ghost var theirs;
    ok, b, docs, known, theirs := Run<F>(run);
    if !ok {
      return;
    }
    ok := a.main.capacity + b.main.size <= DocIds.INVALID && a.subs.capacity + b.subs.capacity <= DocIds.INVALID;
    if ok {
      lists' := lists + ShiftLists(theirs, a.subs.capacity);
      held' := MergeAll(a, held, lists, m, b, docs, theirs, known);
      m' := m + Rewound(known);
    }
  }

  lemma {:induction false} InFlatten(lists: seq<seq<Doc>>, d: Doc)
    ensures d in Flatten(lists) <==> exists i :: 0 <= i < |lists| && d in lists[i]
  {
    if lists != [] {
      var n := |lists| - 1;
      InFlatten(lists[..n], d);
      assert lists == lists[..n] + [lists[n]];
    }
  }

  ghost function Place(held: seq<Doc>, p: nat): (i: nat)
    requires p in Indices(held)
    ensures i < |held| && held[i].index == p
  {
    var i: nat :| i < |held| && held[i].index == p;
    i
  }

  /** The sub-documents of each held document by its index. */
  ghost function ById(held: seq<Doc>, lists: seq<seq<Doc>>): map<nat, seq<Doc>>
    requires |held| == |lists| && forall i, j :: 0 <= i < j < |held| ==> held[i].index != held[j].index
  {
    map p | p in Indices(held) :: lists[Place(held, p)]
  }

  lemma ByIdKey(held: seq<Doc>, lists: seq<seq<Doc>>, p: nat) returns (i: nat)
    requires |held| == |lists| && forall i, j :: 0 <= i < j < |held| ==> held[i].index != held[j].index
    requires p in ById(held, lists)
    ensures i < |held| && held[i].index == p && ById(held, lists)[p] == lists[i]
  {
    i := Place(held, p);
  }

  lemma TidyById<F>(parents: seq<ParentRow<F>>, rows: seq<SubRow<F>>, mainLive: set<nat>, live: set<nat>,
                    held: seq<Doc>, lists: seq<seq<Doc>>, m: seq<Known<F>>)
    requires Tidy(parents, rows, mainLive, live, held, lists, m)
    ensures var byId := ById(held, lists);
            && byId.Keys == mainLive
            && (forall p :: p in byId ==> p < |parents| && IsList(rows, parents[p].first, byId[p]))
            && (forall p, i :: p in byId && 0 <= i < |byId[p]| ==> byId[p][i].index in live)
            && (forall p, q :: p in byId && q in byId && p != q ==> Indices(byId[p]) !! Indices(byId[q]))
  {
    var byId := ById(held, lists);
    assert byId.Keys == Indices(held);
    hide Indices, ById;
    forall p | p in byId
      ensures p < |parents| && IsList(rows, parents[p].first, byId[p])
      ensures forall i :: 0 <= i < |byId[p]| ==> byId[p][i].index in live
    {
      var i := ByIdKey(held, lists, p);
      assert Belongs(parents, rows, live, held[i], lists[i], m[i]);
    }
    forall p, q | p in byId && q in byId && p != q ensures Indices(byId[p]) !! Indices(byId[q]) {
      var i := ByIdKey(held, lists, p);
      var j := ByIdKey(held, lists, q);
      assert if i < j then Indices(lists[i]) !! Indices(lists[j]) else Indices(lists[j]) !! Indices(lists[i]);
    }
  }

  lemma ByIdAt(held: seq<Doc>, lists: seq<seq<Doc>>, i: nat)
    requires |held| == |lists| && forall i, j :: 0 <= i < j < |held| ==> held[i].index != held[j].index
    requires i < |held|
    ensures held[i].index in ById(held, lists) && ById(held, lists)[held[i].index] == lists[i]
  {
    HeldIndex(held, i);
  }

  lemma ListedIsFlat(held: seq<Doc>, lists: seq<seq<Doc>>)
    requires |held| == |lists| && forall i, j :: 0 <= i < j < |held| ==> held[i].index != held[j].index
    ensures Listed(ById(held, lists), Indices(held)) == Indices(Flatten(lists))
  {
    hide Flatten, ById;
    var byId := ById(held, lists);
    forall x | x in Listed(byId, Indices(held)) ensures x in Indices(Flatten(lists)) {
      var p :| p in byId && x in Indices(byId[p]);
      var i := ByIdKey(held, lists, p);
      var d :| d in lists[i] && d.index == x;
      InFlatten(lists, d);
    }
    forall x | x in Indices(Flatten(lists)) ensures x in Listed(byId, Indices(held)) {
      var d :| d in Flatten(lists) && d.index == x;
      InFlatten(lists, d);
      var i :| 0 <= i < |lists| && d in lists[i];
      ByIdAt(held, lists, i);
      HeldIndex(held, i);
      assert x in Indices(byId[held[i].index]);
    }
  }

  /** Freeing all documents a client holds visits each of them once, in ascending order, and frees
      each of their sub-documents once. */
  method FreeAll<F(0)>(a: MatchDocAllocator<F>, held: seq<Doc>, ghost lists: seq<seq<Doc>>, ghost m: seq<Known<F>>)
      returns (destroyed: seq<nat>)
    requires Holds(a, held, lists, m)
    modifies a.main, a.subs, a.main.storage
    ensures a.Valid() && Rising(destroyed) && forall p :: p in destroyed <==> p in Indices(held)
    ensures a.subs.Live() == old(a.subs.Live()) - Indices(Flatten(lists))
  {
    hide DocIds.LiveIds, Belongs, Flatten, Indices;
    ghost var byId := ById(held, lists);
    TidyById(a.Parents(), a.SubRows(), a.main.Live(), a.subs.Live(), held, lists, m);
    destroyed := a.DeallocateAll(byId);
    ListedIsFlat(held, lists);
  }

  /** A clone of a document with two sub-documents loses the second copy when one more is added. */
  lemma CloneThenAdd<F>(f: F)
    ensures After([Allocate(7, f), AllocateSub(0, 1, f), AllocateSub(0, 2, f), Clone(0), AllocateSub(1, 3, f)]) ==
            [Known(7, f, [KnownSub(1, f), KnownSub(2, f)], 1), Known(7, f, [KnownSub(1, f), KnownSub(3, f)], 1)]
  {
    var ops := [Allocate(7, f), AllocateSub(0, 1, f), AllocateSub(0, 2, f), Clone(0), AllocateSub(1, 3, f)];
    RunStep(ops, 0);
    assert After(ops[..1]) == [Known(7, f, [], 0)];
    RunStep(ops, 1);
    assert WithSub(Known(7, f, [], 0), KnownSub(1, f)).subs == [KnownSub(1, f)];
    assert After(ops[..2]) == [Known(7, f, [KnownSub(1, f)], 0)];
    RunStep(ops, 2);
    var known := Known(7, f, [KnownSub(1, f), KnownSub(2, f)], 1);
    assert WithSub(Known(7, f, [KnownSub(1, f)], 0), KnownSub(2, f)).subs == known.subs;
    assert After(ops[..3]) == [known];
    RunStep(ops, 3);
    assert After(ops[..4]) == [known, known.(current := 0)];
    RunStep(ops, 4);
    assert WithSub(known.(current := 0), KnownSub(3, f)).subs == [KnownSub(1, f), KnownSub(3, f)];
    assert ops[..5] == ops;
  }
}
