/** Allocation of document ids: ids below `size` are either live or on the list of freed ids. */
module DocIds {
  import opened Sequences
  import opened VectorStorage

  /** Ids from here on are not document ids. */
  const INVALID: nat := 0x7fff_ffff

  lemma PopLast(ids: seq<nat>)
    requires Distinct(ids) && ids != []
    ensures var n := |ids| - 1; Distinct(ids[..n]) && forall id :: id in ids[..n] <==> id in ids && id != ids[n]
  {
    var n := |ids| - 1;
    assert ids == ids[..n] + [ids[n]];
  }

  function Shifted(ids: seq<nat>, offset: nat): (r: seq<nat>) {
    seq(|ids|, i requires 0 <= i < |ids| => ids[i] + offset)
  }

  /** hi - 1, hi - 2, ..., lo */
  function CountDown(hi: nat, lo: nat): (r: seq<nat>)
    requires lo <= hi
  {
    seq(hi - lo, i requires 0 <= i < hi - lo => hi - 1 - i)
  }

  /** The freed ids of a merged pool: those of both pools and the ids this pool never used. */
  lemma MergedFreeIds(mine: seq<nat>, size: nat, capacity: nat, theirs: seq<nat>, otherSize: nat)
    requires Distinct(mine) && (forall id :: id in mine ==> id < size) && size <= capacity
    requires Distinct(theirs) && (forall id :: id in theirs ==> id < otherSize)
    ensures var ids := mine + Shifted(theirs, capacity) + CountDown(capacity, size);
            && Distinct(ids)
            && (forall id :: id in ids <==>
                 id in mine || size <= id < capacity || (id >= capacity && id - capacity in theirs))
  {
    var a, b, c := mine, Shifted(theirs, capacity), CountDown(capacity, size);
    forall id ensures id in b <==> id >= capacity && id - capacity in theirs {
      if id >= capacity && id - capacity in theirs {
        var j :| 0 <= j < |theirs| && theirs[j] == id - capacity;
        assert b[j] == id;
      }
    }
    forall id ensures id in c <==> size <= id < capacity {
      if size <= id < capacity { assert c[capacity - 1 - id] == id; }
    }
    DistinctConcat(a, b);
    DistinctConcat(a + b, c);
  }

  /** n, n + 1, ..., n + count - 1 */
  function CountUp(n: nat, count: nat): (r: seq<nat>) {
    seq(count, i => n + i)
  }

  ghost function LiveIds(freed: seq<nat>, size: nat): set<nat> {
    set id: nat | id < size && id !in freed
  }

  lemma FreshIds(freed: seq<nat>, size: nat, count: nat)
    requires Distinct(freed) && forall id :: id in freed ==> id < size
    ensures var ids := freed + CountUp(size, count);
            && Distinct(ids)
            && (forall id :: id in ids ==> id !in LiveIds(freed, size) && id < size + count)
            && LiveIds([], size + count) == LiveIds(freed, size) + set id | id in ids
  {
    var added := CountUp(size, count);
    forall id ensures id in added <==> size <= id < size + count {
      if size <= id < size + count { assert added[id - size] == id; }
    }
    DistinctConcat(freed, added);
  }

  lemma SplitFreed(freed: seq<nat>, offset: nat)
    requires Distinct(freed) && offset <= |freed|
    ensures Distinct(freed[..offset]) && Distinct(freed[offset..])
    ensures forall id :: id in freed[offset..] ==> id in freed && id !in freed[..offset]
    ensures forall id :: id in freed <==> id in freed[..offset] || id in freed[offset..]
  {
    assert freed == freed[..offset] + freed[offset..];
  }

  lemma RisingCons(first: nat, r: seq<nat>)
    requires Rising(r) && forall x :: x in r ==> first < x
    ensures Rising([first] + r)
  {
    var all := [first] + r;
    forall i, j | 0 <= i < j < |all| ensures all[i] < all[j] {
      assert all[j] == r[j - 1] && r[j - 1] in r;
    }
  }

  function InsertId(ids: seq<nat>, id: nat): (r: seq<nat>)
    requires Rising(ids) && id !in ids
    ensures Rising(r) && |r| == |ids| + 1 && forall x :: x in r <==> x == id || x in ids
  {
    if ids == [] then [id]
    else if id < ids[0] then [id] + ids
    else
      assert ids == [ids[0]] + ids[1..];
      var r := InsertId(ids[1..], id);
      assert forall x :: x in ids[1..] ==> ids[0] < x;
      RisingCons(ids[0], r);
      [ids[0]] + r
  }

  lemma NothingRises()
    ensures Rising([])
  {
  }

  lemma RisingSnoc(r: seq<nat>, last: nat)
    requires Rising(r) && forall x :: x in r ==> x < last
    ensures Rising(r + [last])
  {
    var all := r + [last];
    forall i, j | 0 <= i < j < |all| ensures all[i] < all[j] {
      assert all[i] == r[i] && r[i] in r;
    }
  }

  lemma RisingDistinct(r: seq<nat>)
    requires Rising(r)
    ensures Distinct(r)
  {
  }

  lemma RisingSteps(r: seq<nat>, k: nat)
    requires Rising(r) && k < |r|
    ensures k + 1 < |r| ==> r[k] < r[k + 1]
  {
  }

  /** A number strictly between two neighbours is not among rising numbers. */
  lemma NotAmong(r: seq<nat>, k: nat, x: nat)
    requires Rising(r) && k <= |r| && (k < |r| ==> x < r[k]) && forall j :: 0 <= j < k ==> r[j] < x
    ensures x !in r
  {
    forall j | 0 <= j < |r| ensures r[j] != x {
      if j > k { assert r[k] < r[j]; }
    }
  }

  function Sorted(ids: seq<nat>): (r: seq<nat>)
    requires Distinct(ids)
    ensures Rising(r) && |r| == |ids| && forall x :: x in r <==> x in ids
  {
    if ids == [] then []
    else
      assert ids == [ids[0]] + ids[1..];
      InsertId(Sorted(ids[1..]), ids[0])
  }

  lemma {:induction false} RisingAtLeast(r: seq<nat>, i: nat)
    requires Rising(r) && i < |r|
    ensures r[i] >= i
  {
    if i > 0 { RisingAtLeast(r, i - 1); }
  }

  lemma {:induction false} RisingAtMost(r: seq<nat>, n: nat, i: nat)
    requires Rising(r) && |r| == n && i < n && forall j :: 0 <= j < n ==> r[j] < n
    ensures r[i] <= i
    decreases n - i
  {
    if i + 1 < n { RisingAtMost(r, n, i + 1); }
  }

  lemma AllFreed(freed: seq<nat>, size: nat)
    requires Distinct(freed) && |freed| == size && forall id :: id in freed ==> id < size
    ensures LiveIds(freed, size) == {}
  {
    var r := Sorted(freed);
    forall id: nat | id < size ensures id in freed {
      assert forall i :: 0 <= i < |r| ==> r[i] in r;
      RisingAtLeast(r, id);
      RisingAtMost(r, size, id);
      assert r[id] == id;
    }
  }

  lemma MergedLive(mine: seq<nat>, size: nat, capacity: nat, theirs: seq<nat>, otherSize: nat)
    requires Distinct(mine) && (forall id :: id in mine ==> id < size) && size <= capacity
    requires Distinct(theirs) && (forall id :: id in theirs ==> id < otherSize)
    ensures var ids := mine + Shifted(theirs, capacity) + CountDown(capacity, size);
            LiveIds(ids, capacity + otherSize) ==
              LiveIds(mine, size) + set i | i in LiveIds(theirs, otherSize) :: i + capacity
  {
    MergedFreeIds(mine, size, capacity, theirs, otherSize);
    var ids := mine + Shifted(theirs, capacity) + CountDown(capacity, size);
    hide Shifted, CountDown, Distinct;
    var moved := set i | i in LiveIds(theirs, otherSize) :: i + capacity;
    forall id | id in LiveIds(ids, capacity + otherSize) ensures id in LiveIds(mine, size) + moved {
      if id >= capacity { assert id - capacity in LiveIds(theirs, otherSize); }
    }
  }

  class DocPool<R(0)> {
    var deletedIds: seq<nat>
    var size: nat
    var capacity: nat
    const storage: Storage<R>

    ghost predicate Sound()
      reads this, storage
    {
      && Distinct(deletedIds) && (forall id :: id in deletedIds ==> id < size)
      && size <= capacity && capacity % CHUNK_SIZE == 0
      && storage.Valid() && storage.Size() == capacity
    }

    /** At most one chunk is yet unused. */
    ghost predicate Valid()
      reads this, storage
    {
      Sound() && capacity <= size + CHUNK_SIZE
    }

    /** How many ids are in use. */
    function Used(): int
      reads this
    {
      size - |deletedIds|
    }

    /** There are n more ids below the first one that is none. */
    predicate HasIds(n: nat)
      reads this
    {
      size <= INVALID && Used() + n <= INVALID
    }

    /** From a size and a number of ids in use, n more have been taken, freed ones first. */
    ghost predicate Took(size': nat, used: int, n: nat)
      reads this
    {
      Used() == used + n && size == if size' < used + n then used + n else size'
    }

    ghost function Live(): set<nat>
      reads this
    {
      LiveIds(deletedIds, size)
    }

    constructor ()
      ensures Valid() && Live() == {} && size == 0 && deletedIds == [] && capacity == 0 && fresh(storage)
    {
      deletedIds, size, capacity := [], 0, 0;
      storage := new Storage();
    }

    method Grow()
      requires Sound()
      modifies this`capacity, storage
      ensures Sound() && capacity == old(capacity) + CHUNK_SIZE
      ensures old(storage.Rows()) <= storage.Rows()
    {
      capacity := capacity + CHUNK_SIZE;
      storage.GrowToSize(capacity);
    }

    /** A free id: the most recently freed one, or a new one. */
    method GetOne() returns (id: nat)
      requires Valid()
      modifies this, storage
      ensures Valid() && Took(old(size), old(Used()), 1) && old(storage.Rows()) <= storage.Rows()
      ensures id !in old(Live()) && Live() == old(Live()) + {id} && id < size
      ensures old(deletedIds) == if old(deletedIds) == [] then [] else deletedIds + [id]
      ensures old(deletedIds) == [] ==> id == old(size) && deletedIds == []
    {
      if deletedIds != [] {
        PopLast(deletedIds);
        id := deletedIds[|deletedIds| - 1];
        assert id in deletedIds;
        deletedIds := deletedIds[..|deletedIds| - 1];
      } else {
        if capacity <= size {
          Grow();
        }
        id := size;
        size := size + 1;
      }
      assert Live() == old(Live()) + {id};
    }

    /** Constructs the rows of the given ids. */
    method ConstructDocs(ids: seq<nat>, blank: R)
      requires storage.Valid() && forall id :: id in ids ==> id < storage.Size()
      modifies storage
      ensures storage.Valid() && storage.Size() == old(storage.Size())
      ensures forall i :: 0 <= i < storage.Size() ==>
                storage.Rows()[i] == if i in ids then blank else old(storage.Rows())[i]
    {
      for k := 0 to |ids|
        invariant storage.Valid() && storage.Size() == old(storage.Size())
        invariant forall i :: 0 <= i < storage.Size() ==>
                    storage.Rows()[i] == if i in ids[..k] then blank else old(storage.Rows())[i]
      {
        assert ids[..k + 1] == ids[..k] + [ids[k]] && ids[k] in ids;
        storage.Put(ids[k], blank);
      }
      assert ids[..|ids|] == ids;
    }

    method GrowPast(n: nat)
      requires Sound()
      modifies this`capacity, storage
      ensures Sound() && n < capacity && old(storage.Rows()) <= storage.Rows()
      ensures capacity <= if old(capacity) < n + CHUNK_SIZE then n + CHUNK_SIZE else old(capacity)
    {
      while capacity <= n
        invariant Sound() && old(storage.Rows()) <= storage.Rows()
        invariant capacity <= if old(capacity) < n + CHUNK_SIZE then n + CHUNK_SIZE else old(capacity)
      {
        Grow();
      }
    }

    /** All freed ids and then new ones, or the last freed ids. */
    method TakeIds(count: nat) returns (ids: seq<nat>)
      requires Valid()
      modifies this, storage
      ensures Valid() && Took(old(size), old(Used()), count) && old(storage.Rows()) <= storage.Rows()
      ensures |ids| == count && Distinct(ids) && forall id :: id in ids ==> id !in old(Live()) && id < capacity
      ensures Live() == old(Live()) + set id | id in ids
      ensures if old(|deletedIds|) < count then ids == old(deletedIds) + CountUp(old(size), count - old(|deletedIds|))
              else old(deletedIds) == deletedIds + ids
    {
      var freed := |deletedIds|;
      if freed < count {
        ids := deletedIds;
        var left := count - freed;
        GrowPast(size + left);
        FreshIds(deletedIds, size, left);
        deletedIds := [];
        for i := 0 to left
          invariant ids == old(deletedIds) + CountUp(old(size), left)[..i]
          invariant size == old(size) + i
          invariant deletedIds == [] && Sound() && size + (left - i) <= capacity <= old(size) + left + CHUNK_SIZE
          invariant old(storage.Rows()) <= storage.Rows()
        {
          ids := ids + [size];
          size := size + 1;
        }
        assert CountUp(old(size), left)[..left] == CountUp(old(size), left);
      } else {
        var offset := freed - count;
        SplitFreed(deletedIds, offset);
        ids := deletedIds[offset..];
        deletedIds := deletedIds[..offset];
      }
    }

    /** A number of free ids at once, put behind those the caller's vector has already.  Unless the
        caller advises against it and nothing in them needs to be destructed later, the rows of the
        whole vector are constructed, also those that were there before. */
    method BatchAllocate(count: nat, construct: bool, blank: R, acc: seq<nat>) returns (all: seq<nat>)
      requires Valid() && forall id :: id in acc ==> id < capacity
      modifies this, storage
      ensures Valid() && Took(old(size), old(Used()), count) && |storage.Rows()| >= |old(storage.Rows())|
      ensures |all| == |acc| + count && all[..|acc|] == acc && Distinct(all[|acc|..])
      ensures forall id :: id in all[|acc|..] ==> id !in old(Live())
      ensures forall id :: id in all ==> id < |storage.Rows()|
      ensures Live() == old(Live()) + set id | id in all[|acc|..]
      ensures if old(|deletedIds|) < count
              then all[|acc|..] == old(deletedIds) + CountUp(old(size), count - old(|deletedIds|))
              else old(deletedIds) == deletedIds + all[|acc|..]
      ensures forall id :: 0 <= id < |storage.Rows()| && construct && id in all ==> storage.Rows()[id] == blank
      ensures forall id :: 0 <= id < |old(storage.Rows())| && !(construct && id in all) ==>
                storage.Rows()[id] == old(storage.Rows())[id]
    {
      var ids := TakeIds(count);
      all := acc + ids;
      assert all[|acc|..] == ids;
      if construct {
        ConstructDocs(all, blank);
      }
    }

    /** Visits every live document once, in ascending order, by walking the sorted freed ids with a
        sentinel at their end. */
    method DeallocateAll() returns (destroyed: seq<nat>)
      requires Valid()
      modifies this`deletedIds
      ensures Valid() && Live() == old(Live()) && forall id :: id in deletedIds <==> id in old(deletedIds)
      ensures Rising(destroyed) && forall id :: id in destroyed <==> id in Live()
    {
      hide Rising;
      destroyed := [];
      NothingRises();
      if |deletedIds| == size {
        AllFreed(deletedIds, size);
        return;
      }
      var freed := Sorted(deletedIds);
      RisingDistinct(freed);
      deletedIds := freed;
      var ids := freed + [size];
      var id, k := 0, 0;
      while id < size
        invariant 0 <= id <= size && 0 <= k <= |freed| && deletedIds == freed
        invariant forall j :: 0 <= j < k ==> freed[j] < id
        invariant id <= ids[k]
        invariant Rising(destroyed) && forall d :: d in destroyed <==> 0 <= d < id && d !in freed
      {
        assert ids[|freed|] == size;
        if id != ids[k] {
          NotAmong(freed, k, id);
          RisingSnoc(destroyed, id);
          destroyed := destroyed + [id];
        } else {
          RisingSteps(freed, k);
          k := k + 1;
        }
        id := id + 1;
      }
    }

    /** Frees a live id. */
    method Deallocate(id: nat)
      requires Valid() && id in Live()
      modifies this`deletedIds
      ensures Valid() && Live() == old(Live()) - {id} && Used() == old(Used()) - 1
      ensures deletedIds == old(deletedIds) + [id]
    {
      deletedIds := deletedIds + [id];
    }

    method FreeIdsAfterMerge(other: DocPool<R>) returns (ids: seq<nat>)
      requires size <= capacity
      ensures ids == deletedIds + Shifted(other.deletedIds, capacity) + CountDown(capacity, size)
    {
      ids := deletedIds;
      for i := 0 to |other.deletedIds|
        invariant ids == deletedIds + Shifted(other.deletedIds, capacity)[..i]
      {
        ids := ids + [other.deletedIds[i] + capacity];
      }
      var index := capacity;
      while index > size
        invariant size <= index <= capacity
        invariant ids == deletedIds + Shifted(other.deletedIds, capacity) +
                  CountDown(capacity, size)[..capacity - index]
      {
        index := index - 1;
        ids := ids + [index];
      }
    }

    /** Takes over the rows and ids of another pool; its ids move up by the capacity of this one. */
    method AppendIds(other: DocPool<R>)
      requires Valid() && other.Valid() && other != this && other.storage != storage
      modifies this, storage, other.storage
      ensures Valid() && capacity == old(capacity) + other.capacity && size == old(capacity) + other.size
      ensures Live() == old(Live()) + (set i | i in old(other.Live()) :: i + old(capacity))
      ensures storage.Rows() == old(storage.Rows()) + old(other.storage.Rows())
      ensures deletedIds ==
              old(deletedIds) + Shifted(old(other.deletedIds), old(capacity)) + CountDown(old(capacity), old(size))
    {
      hide Distinct, Shifted, CountDown;
      MergedFreeIds(deletedIds, size, capacity, other.deletedIds, other.size);
      MergedLive(deletedIds, size, capacity, other.deletedIds, other.size);
      var freed := FreeIdsAfterMerge(other);
      storage.Append(other.storage);
      deletedIds := freed;
      size := capacity + other.size;
      capacity := capacity + other.capacity;
    }
  }

  /** What a client may do with a pool; `Free` names one of the documents it holds, `Merge` takes
      over another pool that came about by a run of its own. */
  datatype Op = Allocate | Batch(count: nat) | Free(which: nat) | Merge(run: seq<Op>)

  lemma WithoutOne(held: seq<nat>, i: nat)
    requires Distinct(held) && i < |held|
    ensures Distinct(Without(held, i)) && forall id :: id in Without(held, i) <==> id in held && id != held[i]
  {
    assert held == held[..i] + [held[i]] + held[i + 1..];
  }

  lemma HeldAfterMerge(mine: seq<nat>, theirs: seq<nat>, capacity: nat)
    requires Distinct(mine) && Distinct(theirs) && forall id :: id in mine ==> id < capacity
    ensures Distinct(mine + Shifted(theirs, capacity))
    ensures forall id :: id in Shifted(theirs, capacity) <==> id >= capacity && id - capacity in theirs
  {
    var moved := Shifted(theirs, capacity);
    forall id ensures id in moved <==> id >= capacity && id - capacity in theirs {
      if id >= capacity && id - capacity in theirs {
        var j :| 0 <= j < |theirs| && theirs[j] == id - capacity;
        assert moved[j] == id;
      }
    }
    DistinctConcat(mine, moved);
  }

  /** How many documents a client holds after a run. */
  function Holding(ops: seq<Op>): nat
    decreases ops
  {
    if ops == [] then 0
    else
      var n := Holding(ops[..|ops| - 1]);
      match ops[|ops| - 1]
      case Allocate => n + 1
      case Batch(count) => n + count
      case Free(which) => if which < n then n - 1 else n
      case Merge(run) => n + Holding(run)
  }

  /** In every run, the documents a client holds are pairwise different and exactly the live ones. */
  method RunClient<R(0)>(ops: seq<Op>) returns (pool: DocPool<R>, held: seq<nat>)
    ensures fresh(pool) && fresh(pool.storage) && pool.Valid() && |held| == Holding(ops)
    ensures Distinct(held) && forall id :: id in held <==> id in pool.Live()
    decreases ops
  {
    pool := new DocPool();
    held := [];
    for i := 0 to |ops|
      invariant fresh(pool) && fresh(pool.storage) && pool.Valid()
      invariant Distinct(held) && forall id :: id in held <==> id in pool.Live()
      invariant |held| == Holding(ops[..i])
    {
      assert ops[..i + 1][..i] == ops[..i];
      held := Step(pool, held, ops[i]);
    }
    assert ops[..|ops|] == ops;
  }

  method Step<R(0)>(pool: DocPool<R>, held: seq<nat>, op: Op) returns (r: seq<nat>)
    requires pool.Valid() && Distinct(held) && forall id :: id in held <==> id in pool.Live()
    modifies pool, pool.storage
    ensures pool.Valid() && Distinct(r) && forall id :: id in r <==> id in pool.Live()
    ensures |r| == match op
            case Allocate => |held| + 1
            case Batch(count) => |held| + count
            case Free(which) => if which < |held| then |held| - 1 else |held|
            case Merge(run) => |held| + Holding(run)
    decreases op
  {
    r := held;
    match op {
      case Allocate =>
        var id := pool.GetOne();
        r := held + [id];
        DistinctConcat(held, [id]);
      case Batch(count) =>
        var blank: R := *;
        r := pool.BatchAllocate(count, true, blank, held);
        DistinctConcat(held, r[|held|..]);
        assert r == held + r[|held|..];
      case Free(i) =>
        if i < |held| {
          WithoutOne(held, i);
          assert held[i] in held;
          pool.Deallocate(held[i]);
          r := Without(held, i);
        }
      case Merge(run) =>
        var other, theirs := RunClient<R>(run);
        if theirs != [] {
          HeldAfterMerge(held, theirs, pool.capacity);
          r := held + Shifted(theirs, pool.capacity);
          pool.AppendIds(other);
        }
    }
  }
}
