/** A pool of equally sized memory blocks carved from big chunks.  The first word of a free block
    links to the next free block; `memory` holds these words by address, and 0 is the null address. */
module BlockPools {
  import opened Arithmetic
  import opened Sequences

  ghost function After(l: seq<nat>, i: nat): nat { if i + 1 < |l| then l[i + 1] else 0 }

  ghost predicate LinkedTo(memory: map<nat, nat>, block: nat, next: nat) {
    block != 0 && block in memory && memory[block] == next
  }

  /** From `head` the links run through exactly the blocks of l and end there. */
  ghost predicate Threads(memory: map<nat, nat>, head: nat, l: seq<nat>) {
    && head == (if l == [] then 0 else l[0])
    && forall i :: 0 <= i < |l| ==> LinkedTo(memory, l[i], After(l, i))
  }

  /** The blocks of vs are linked each to the next; where the last one leads is left open. */
  ghost predicate Strung(memory: map<nat, nat>, vs: seq<nat>) {
    && (forall i :: 0 <= i < |vs| ==> vs[i] != 0)
    && forall i :: 0 <= i < |vs| - 1 ==> LinkedTo(memory, vs[i], vs[i + 1])
  }

  lemma SpliceKeeps(memory: map<nat, nat>, head: nat, l: seq<nat>, vs: seq<nat>)
    requires Threads(memory, head, l) && Strung(memory, vs) && vs != []
    requires Distinct(vs) && forall i :: 0 <= i < |vs| ==> vs[i] !in l
    ensures Threads(memory[vs[|vs| - 1] := head], vs[0], vs + l)
  {
    var m, all, last := memory[vs[|vs| - 1] := head], vs + l, vs[|vs| - 1];
    forall i | 0 <= i < |all| ensures LinkedTo(m, all[i], After(all, i)) {
      if i >= |vs| {
        assert all[i] == l[i - |vs|] && l[i - |vs|] in l;
        assert LinkedTo(memory, l[i - |vs|], After(l, i - |vs|));
      } else if i + 1 < |vs| {
        assert vs[i] != last;
      }
    }
    assert Threads(m, vs[0], all);
  }

  lemma PopKeeps(memory: map<nat, nat>, l: seq<nat>)
    requires l != [] && Threads(memory, l[0], l) && Distinct(l)
    ensures l[0] in memory && Threads(memory, memory[l[0]], l[1..]) && Distinct(l[1..]) && l[0] !in l[1..]
  {
    assert LinkedTo(memory, l[0], After(l, 0));
    var rest := l[1..];
    forall i | 0 <= i < |rest| ensures LinkedTo(memory, rest[i], After(rest, i)) {
      assert LinkedTo(memory, l[i + 1], After(l, i + 1));
    }
    assert Threads(memory, memory[l[0]], rest);
  }

  function Elements(l: seq<nat>): set<nat> { set x | x in l }

  lemma {:induction false} CountDistinct(l: seq<nat>)
    requires Distinct(l)
    ensures |Elements(l)| == |l|
  {
    if l != [] {
      var n := |l| - 1;
      CountDistinct(l[..n]);
      assert l == l[..n] + [l[n]];
      assert Elements(l) == Elements(l[..n]) + {l[n]};
    }
  }

  /** The blocks of a chunk, in address order. */
  ghost function Cells(chunk: nat, blockSize: nat, count: nat): (r: seq<nat>)
    ensures |r| == count
  {
    seq(count, i => chunk + i * blockSize)
  }

  lemma CellsInChunk(chunk: nat, blockSize: nat, count: nat)
    requires blockSize > 0
    ensures Distinct(Cells(chunk, blockSize, count))
    ensures forall a :: a in Cells(chunk, blockSize, count) ==> chunk <= a && a + blockSize <= chunk + count * blockSize
  {
    var cs := Cells(chunk, blockSize, count);
    forall i, j | 0 <= i < j < count ensures cs[i] != cs[j] { Bigger(i, j, blockSize); }
    forall i | 0 <= i < count ensures chunk <= cs[i] && cs[i] + blockSize <= chunk + count * blockSize {
      AtMostTimes(i + 1, count, blockSize);
      OneMoreTimes(i, blockSize);
    }
  }

  lemma RoomForOne(n: nat, size: nat, capacity: nat)
    requires size > 0 && capacity % size == 0 && n * size < capacity
    ensures (n + 1) * size <= capacity
  {
    var q := capacity / size;
    assert capacity == q * size;
    if q <= n { AtMostTimes(q, n, size); }
    AtMostTimes(n + 1, q, size);
  }

  /** The blocks of all chunks. */
  ghost function AllCells(chunks: seq<nat>, blockSize: nat, count: nat): set<nat> {
    if chunks == [] then {}
    else AllCells(chunks[..|chunks| - 1], blockSize, count) + Elements(Cells(chunks[|chunks| - 1], blockSize, count))
  }

  lemma AllCellsGrow(chunks: seq<nat>, chunk: nat, blockSize: nat, count: nat)
    ensures AllCells(chunks + [chunk], blockSize, count) == AllCells(chunks, blockSize, count) +
            Elements(Cells(chunk, blockSize, count))
  {
    assert (chunks + [chunk])[..|chunks|] == chunks;
  }

  /** Every block lies aligned and whole within one of the chunks. */
  lemma {:induction false} CellOfChunk(chunks: seq<nat>, blockSize: nat, count: nat, a: nat) returns (i: nat, k: nat)
    requires blockSize > 0 && a in AllCells(chunks, blockSize, count)
    ensures i < |chunks| && k < count && a == chunks[i] + k * blockSize
    ensures a + blockSize <= chunks[i] + count * blockSize
  {
    var n := |chunks| - 1;
    if a in Cells(chunks[n], blockSize, count) {
      CellsInChunk(chunks[n], blockSize, count);
      i := n;
      k :| 0 <= k < count && a == Cells(chunks[n], blockSize, count)[k];
    } else {
      i, k := CellOfChunk(chunks[..n], blockSize, count, a);
    }
  }

  predicate Apart(chunks: seq<nat>, size: nat, chunk: nat) {
    chunk > 0 && forall i :: 0 <= i < |chunks| ==> chunk + size <= chunks[i] || chunks[i] + size <= chunk
  }

  lemma NewCells(chunks: seq<nat>, chunk: nat, blockSize: nat, count: nat)
    requires blockSize > 0 && Apart(chunks, count * blockSize, chunk)
    ensures forall a :: a in Cells(chunk, blockSize, count) ==> a > 0 && a !in AllCells(chunks, blockSize, count)
  {
    CellsInChunk(chunk, blockSize, count);
    forall a | a in Cells(chunk, blockSize, count) ensures a !in AllCells(chunks, blockSize, count) {
      if a in AllCells(chunks, blockSize, count) {
        var i, k := CellOfChunk(chunks, blockSize, count, a);
      }
    }
  }

  lemma WithinChunk(k: nat, count: nat, blockSize: nat)
    requires blockSize > 0
    ensures k * blockSize + blockSize <= count * blockSize <==> k < count
  {
    OneMoreTimes(k, blockSize);
    if k < count { AtMostTimes(k + 1, count, blockSize); } else { Bigger(count, k + 1, blockSize); }
  }

  lemma StringOneMore(memory: map<nat, nat>, cells: seq<nat>, k: nat)
    requires 0 < k < |cells| && Strung(memory, cells[..k]) && Distinct(cells) && cells[k] != 0
    ensures Strung(memory[cells[k - 1] := cells[k]], cells[..k + 1])
  {
    var m, longer := memory[cells[k - 1] := cells[k]], cells[..k + 1];
    forall i | 0 <= i < |longer| - 1 ensures LinkedTo(m, longer[i], longer[i + 1]) {
      assert longer[i] == cells[i];
      if i < k - 1 {
        assert LinkedTo(memory, cells[..k][i], cells[..k][i + 1]);
      } else {
        assert cells[..k][i] == cells[i];
      }
    }
    forall i | 0 <= i < |longer| ensures longer[i] != 0 {
      if i < k { assert longer[i] == cells[..k][i]; }
    }
  }

  lemma ThreadsFrame(m: map<nat, nat>, m': map<nat, nat>, head: nat, l: seq<nat>)
    requires Threads(m, head, l)
    requires forall a :: a in l && a in m ==> a in m' && m'[a] == m[a]
    ensures Threads(m', head, l)
  {
    forall i | 0 <= i < |l| ensures LinkedTo(m', l[i], After(l, i)) {
      assert LinkedTo(m, l[i], After(l, i)) && l[i] in l;
    }
  }

  lemma FirstStrung(m: map<nat, nat>, cells: seq<nat>)
    requires cells != [] && cells[0] != 0
    ensures Strung(m, cells[..1])
  {
  }

  /** Links the blocks of a chunk in address order, leaving the last one's link to the caller. */
  method StringTogether(memory: map<nat, nat>, chunk: nat, chunkSize: nat, blockSize: nat)
    returns (m: map<nat, nat>, tail: nat)
    requires chunk > 0 && 0 < blockSize <= chunkSize && chunkSize % blockSize == 0
    ensures |Cells(chunk, blockSize, chunkSize / blockSize)| > 0
    ensures Strung(m, Cells(chunk, blockSize, chunkSize / blockSize))
    ensures tail == Cells(chunk, blockSize, chunkSize / blockSize)[chunkSize / blockSize - 1]
    ensures memory.Keys <= m.Keys
    ensures forall a :: a in memory && a !in Cells(chunk, blockSize, chunkSize / blockSize) ==> m[a] == memory[a]
  {
    hide Strung, Distinct, LinkedTo;
    ghost var count := chunkSize / blockSize;
    ghost var cells := Cells(chunk, blockSize, count);
    ghost var k := 1;
    CellsInChunk(chunk, blockSize, count);
    assert chunkSize == count * blockSize;
    m, tail := memory, chunk;
    var cur := chunk;
    var end := cur + chunkSize - blockSize;
    cur := cur + blockSize;
    FirstStrung(m, cells);
    while cur <= end
      invariant 1 <= k <= count && tail == cells[k - 1] && cur == chunk + k * blockSize && Strung(m, cells[..k])
      invariant memory.Keys <= m.Keys
      invariant forall a :: a in memory && a !in cells ==> m[a] == memory[a]
      decreases end + 1 - cur
    {
      WithinChunk(k, count, blockSize);
      StringOneMore(m, cells, k);
      OneMoreTimes(k, blockSize);
      m := m[tail := cur];
      tail := cur;
      cur := cur + blockSize;
      k := k + 1;
    }
    WithinChunk(k, count, blockSize);
    assert cells[..k] == cells;
  }

  /** The blocks of a vector that are not null. */
  function NonNull(blocks: seq<nat>): seq<nat> {
    if blocks == [] then []
    else NonNull(blocks[..|blocks| - 1]) + if blocks[|blocks| - 1] == 0 then [] else [blocks[|blocks| - 1]]
  }

  lemma NothingStrung(m: map<nat, nat>)
    ensures Strung(m, [])
  {
  }

  lemma {:induction false} NonNullFacts(blocks: seq<nat>)
    ensures 0 !in NonNull(blocks) && (blocks == [] ==> NonNull(blocks) == [])
    ensures forall b :: b in NonNull(blocks) <==> b in blocks && b != 0
  {
    if blocks != [] {
      var n := |blocks| - 1;
      NonNullFacts(blocks[..n]);
      assert blocks == blocks[..n] + [blocks[n]];
    }
  }

  /** One more block of the vector is one more block of its non-null ones, or is null. */
  lemma {:induction false} NonNullStep(blocks: seq<nat>, i: nat)
    requires i < |blocks|
    ensures NonNull(blocks[..i + 1]) == NonNull(blocks[..i]) + if blocks[i] == 0 then [] else [blocks[i]]
    ensures NonNull(blocks[..i + 1]) <= NonNull(blocks)
    decreases |blocks|
  {
    assert blocks[..i + 1][..i] == blocks[..i];
    var n := |blocks| - 1;
    if i < n {
      NonNullStep(blocks[..n], i);
      assert blocks[..n][..i + 1] == blocks[..i + 1];
    } else {
      assert blocks[..i + 1] == blocks;
    }
  }

  /** Links the non-null blocks of a vector each to the next. */
  method LinkAll(memory: map<nat, nat>, blocks: seq<nat>) returns (m: map<nat, nat>, head: nat, tail: nat, count: nat)
    requires Distinct(NonNull(blocks)) && Elements(NonNull(blocks)) <= memory.Keys
    ensures count == |NonNull(blocks)| && Strung(m, NonNull(blocks))
    ensures head == (if count == 0 then 0 else NonNull(blocks)[0])
    ensures tail == (if count == 0 then 0 else NonNull(blocks)[count - 1])
    ensures m.Keys == memory.Keys && forall a :: a in memory && a !in NonNull(blocks) ==> m[a] == memory[a]
  {
    hide NonNull, Strung, Distinct, LinkedTo;
    ghost var vs := NonNull(blocks);
    m, head, tail, count := memory, 0, 0, 0;
    NothingStrung(m);
    NonNullFacts(blocks);
    NonNullFacts([]);
    assert vs[..0] == [] && blocks[..0] == [];
    for i := 0 to |blocks|
      invariant count <= |vs| && NonNull(blocks[..i]) == vs[..count] && Strung(m, vs[..count])
      invariant head == (if count == 0 then 0 else vs[0]) && tail == (if count == 0 then 0 else vs[count - 1])
      invariant m.Keys == memory.Keys
      invariant forall a :: a in m && a !in vs ==> m[a] == memory[a]
    {
      NonNullStep(blocks, i);
      if blocks[i] != 0 {
        assert NonNull(blocks[..i + 1])[count] == blocks[i];
        assert vs[count] == blocks[i];
        if head == 0 {
          head, tail := blocks[i], blocks[i];
          FirstStrung(m, vs);
        } else {
          StringOneMore(m, vs, count);
          assert tail in Elements(vs);
          m := m[tail := blocks[i]];
          tail := blocks[i];
        }
        count := count + 1;
      }
    }
    assert blocks[..|blocks|] == blocks;
  }

  lemma ElementsApart(vs: seq<nat>, used: set<nat>, free: seq<nat>)
    requires Elements(vs) <= used && forall a :: a in free ==> a !in used
    ensures forall b :: b in vs ==> b !in free
    ensures forall i :: 0 <= i < |vs| ==> vs[i] !in free
    ensures forall b :: b in vs <==> b in Elements(vs)
  {
    forall b | b in vs ensures b !in free { assert b in Elements(vs); }
    forall i | 0 <= i < |vs| ensures vs[i] !in free { assert vs[i] in vs; }
  }

  lemma FirstOfList(memory: map<nat, nat>, head: nat, l: seq<nat>)
    requires Threads(memory, head, l) && l != []
    ensures head == l[0] && head != 0
  {
    assert LinkedTo(memory, l[0], After(l, 0));
  }

  lemma Regroup(n: nat, size: nat, unit: nat)
    requires unit > 0 && size % unit == 0
    ensures n * (size / unit) * unit == n * size
  {
    assert size / unit * unit == size;
  }

  lemma FitsWhole(n: nat, unit: nat, total: nat)
    requires unit > 0 && n * unit <= total
    ensures n <= total / unit
  {
    if total / unit < n {
      AtMostTimes(total / unit + 1, n, unit);
      OneMoreTimes(total / unit, unit);
    }
  }

  lemma CountLess(whole: set<nat>, part: set<nat>)
    requires part <= whole
    ensures |whole| == |whole - part| + |part|
  {
    assert whole == (whole - part) + part;
  }

  class BlockPool {
    var capacity: nat
    var chunkSize: nat
    var usedSize: nat
    var freeThreshold: nat
    var freeList: nat
    var freeCount: nat
    var blockSize: nat
    var bigChunk: seq<nat>
    var memory: map<nat, nat>
    ghost var free: seq<nat>
    ghost var used: set<nat>

    ghost predicate Ready()
      reads this
    {
      && 8 <= blockSize <= chunkSize <= capacity && freeThreshold < capacity
      && capacity % chunkSize == 0 && chunkSize % blockSize == 0
    }

    ghost function PerChunk(): nat
      reads `blockSize, `chunkSize
    {
      if blockSize == 0 then 0 else chunkSize / blockSize
    }

    ghost predicate Configured()
      reads this
    {
      if blockSize == 0 then capacity == 0 && chunkSize == 0 && freeThreshold == 0 && bigChunk == [] else Ready()
    }

    /** Free and handed-out blocks split the blocks of the chunks, and the counters count them. */
    ghost predicate Accounted()
      reads `free, `used, `bigChunk, `blockSize, `chunkSize, `freeCount, `usedSize, `capacity
    {
      && (forall a :: a in free ==> a !in used)
      && (forall a :: a in free || a in used <==> a in AllCells(bigChunk, blockSize, PerChunk()))
      && |free| + |used| == |bigChunk| * PerChunk()
      && freeCount == |free| && usedSize == |used| * blockSize
      && |bigChunk| * chunkSize <= capacity
    }

    ghost predicate Valid()
      reads this
    {
      && Configured() && Accounted()
      && Distinct(free) && Threads(memory, freeList, free)
      && 0 !in used && used <= memory.Keys
    }

    constructor ()
      ensures Valid() && blockSize == 0 && free == [] && used == {}
    {
      capacity, chunkSize, usedSize, freeThreshold, freeList, freeCount, blockSize := 0, 0, 0, 0, 0, 0, 0;
      bigChunk, memory := [], map[];
      free, used := [], {};
    }

    method Init(capacity: nat, chunkSize: nat, blockSize: nat, freeThreshold: nat) returns (ok: bool)
      requires Valid()
      modifies this
      ensures Valid()
      ensures ok ==> old(this.blockSize) == 0 && this.capacity == capacity && this.chunkSize == chunkSize
      ensures ok ==> this.blockSize == blockSize && this.freeThreshold == freeThreshold && Ready() && free == []
      ensures ok ==> used == {}
      ensures !ok ==> unchanged(this)
      ensures ok <==>
        && old(this.blockSize) == 0 && 8 <= blockSize <= chunkSize <= capacity && freeThreshold < capacity
        && capacity % chunkSize == 0 && chunkSize % blockSize == 0
    {
      if || blockSize < 8 || chunkSize > capacity || blockSize > chunkSize || freeThreshold >= capacity
         || capacity % chunkSize != 0 || chunkSize % blockSize != 0 {
        return false;
      }
      if this.blockSize > 0 || this.chunkSize > 0 || this.capacity > 0 || this.freeThreshold > 0 {
        return false;
      }
      this.capacity, this.chunkSize := capacity, chunkSize;
      this.blockSize, this.freeThreshold := blockSize, freeThreshold;
      ok := true;
    }

    /** Threads a new chunk's blocks in front of the free list. */
    method Split(chunk: nat)
      requires Ready() && Threads(memory, freeList, free) && Distinct(free)
      requires chunk > 0 && forall a :: a in Cells(chunk, blockSize, PerChunk()) ==> a !in free
      modifies `memory, `freeList, `freeCount, `free
      ensures free == Cells(chunk, blockSize, PerChunk()) + old(free) && freeCount == old(freeCount) + PerChunk()
      ensures Threads(memory, freeList, free) && Distinct(free)
      ensures old(memory.Keys) <= memory.Keys
      ensures forall a :: a in old(memory) && a !in Cells(chunk, blockSize, PerChunk()) ==> memory[a] == old(memory[a])
    {
      hide Threads, Strung, Distinct, LinkedTo;
      ghost var cells := Cells(chunk, blockSize, PerChunk());
      CellsInChunk(chunk, blockSize, PerChunk());
      var m, tail := StringTogether(memory, chunk, chunkSize, blockSize);
      ThreadsFrame(memory, m, freeList, free);
      SpliceKeeps(m, freeList, free, cells);
      DistinctConcat(cells, free);
      memory := m;
      memory := memory[tail := freeList];
      freeList := chunk;
      freeCount := freeCount + chunkSize / blockSize;
      free := cells + free;
    }

    /** Maps one more chunk; `mapped` is the address the system gives, 0 when it has none to give. */
    method GetOneBigChunk(mapped: nat) returns (ok: bool)
      requires Valid() && Ready() && |bigChunk| * chunkSize < capacity
      requires mapped != 0 ==> Apart(bigChunk, chunkSize, mapped)
      modifies `memory, `freeList, `freeCount, `free, `bigChunk
      ensures Valid() && (ok <==> mapped != 0) && (!ok ==> unchanged(this))
      ensures ok ==> bigChunk == old(bigChunk) + [mapped] && free == Cells(mapped, blockSize, PerChunk()) + old(free)
      ensures forall a :: a in used ==> a in old(memory) && memory[a] == old(memory[a])
    {
      hide Threads, Distinct, Cells, AllCells;
      if mapped == 0 {
        return false;
      }
      ghost var cells := Cells(mapped, blockSize, PerChunk());
      NewCells(bigChunk, mapped, blockSize, PerChunk());
      Split(mapped);
      AllCellsGrow(bigChunk, mapped, blockSize, PerChunk());
      RoomForOne(|bigChunk|, chunkSize, capacity);
      OneMoreTimes(|bigChunk|, PerChunk());
      bigChunk := bigChunk + [mapped];
      ok := true;
    }

    lemma Counts()
      requires Valid() && Ready()
      ensures freeCount == |free| && PerChunk() > 0 && chunkSize * |bigChunk| == |bigChunk| * chunkSize
      ensures used <= memory.Keys
    {
      hide Threads, Distinct, AllCells;
    }

    method TakeFirst() returns (block: nat)
      requires Valid() && Ready() && freeCount > 0
      modifies `freeList, `freeCount, `free, `used, `usedSize
      ensures Valid() && block != 0 && block !in old(used) && used == old(used) + {block}
      ensures old(free) == [block] + free && usedSize == old(usedSize) + blockSize
    {
      hide Threads, Distinct, Cells, AllCells;
      FirstOfList(memory, freeList, free);
      PopKeeps(memory, free);
      OneMoreTimes(|used|, blockSize);
      block := freeList;
      freeList := memory[block];
      freeCount := freeCount - 1;
      usedSize := usedSize + blockSize;
      assert free == [block] + free[1..];
      used := used + {block};
      free := free[1..];
    }

    method GetBlock(mapped: nat) returns (block: nat)
      requires Valid() && Ready()
      requires mapped != 0 ==> Apart(bigChunk, chunkSize, mapped)
      modifies `memory, `freeList, `freeCount, `free, `bigChunk, `used, `usedSize
      ensures Valid()
      ensures block == 0 <==> old(freeCount) == 0 && (old(|bigChunk|) * chunkSize >= capacity || mapped == 0)
      ensures block == 0 ==> unchanged(this)
      ensures block != 0 ==> block !in old(used) && used == old(used) + {block} && usedSize == old(usedSize) + blockSize
      ensures block != 0 && old(freeCount) > 0 ==> [block] + free == old(free) && bigChunk == old(bigChunk)
      ensures forall a :: a in old(used) ==> a in old(memory) && a in memory && memory[a] == old(memory[a])
    {
      hide Valid, Cells;
      Counts();
      if freeCount == 0 {
        if chunkSize * |bigChunk| >= capacity {
          return 0;
        }
        var ok := GetOneBigChunk(mapped);
        if !ok {
          return 0;
        }
      }
      Counts();
      block := TakeFirst();
    }

    method FreeBlock(block: nat)
      requires Valid() && Ready() && (block != 0 ==> block in used)
      modifies `memory, `freeList, `freeCount, `free, `used, `usedSize
      ensures Valid() && used == old(used) - {block} && (block == 0 ==> unchanged(this))
      ensures block != 0 ==> free == [block] + old(free) && memory == old(memory)[block := old(freeList)]
      ensures block != 0 ==> usedSize == old(usedSize) - blockSize
    {
      hide Threads, AllCells;
      if block == 0 {
        return;
      }
      SpliceKeeps(memory, freeList, free, [block]);
      DistinctConcat([block], free);
      assert |used| == |used - {block}| + 1;
      OneMoreTimes(|used - {block}|, blockSize);
      memory := memory[block := freeList];
      freeList := block;
      freeCount := freeCount + 1;
      usedSize := usedSize - blockSize;
      free := [block] + free;
      used := used - {block};
    }

    lemma UsedApart()
      requires Accounted()
      ensures forall a :: a in free ==> a !in used
    {
    }

    /** What the holder of a block does with it; the link word of the block is overwritten too. */
    method Write(block: nat, word: nat)
      requires Valid() && block in used
      modifies `memory
      ensures Valid() && memory == old(memory)[block := word]
    {
      hide Threads, Distinct, LinkedTo, Accounted;
      UsedApart();
      ThreadsFrame(memory, memory[block := word], freeList, free);
      memory := memory[block := word];
    }

    /** The part of freeing many blocks that runs before the lock is taken: it links the caller's
        own blocks to each other and touches nothing else. */
    method LinkBlocks(blocks: seq<nat>) returns (head: nat, tail: nat, count: nat)
      requires Valid() && Distinct(NonNull(blocks)) && Elements(NonNull(blocks)) <= used
      modifies `memory
      ensures Valid() && count == |NonNull(blocks)| && Strung(memory, NonNull(blocks))
      ensures head == (if count == 0 then 0 else NonNull(blocks)[0])
      ensures tail == (if count == 0 then 0 else NonNull(blocks)[count - 1])
      ensures memory.Keys == old(memory.Keys)
      ensures forall a :: a in memory && a !in NonNull(blocks) ==> memory[a] == old(memory[a])
    {
      hide Threads, Strung, Distinct, LinkedTo, Accounted;
      var m;
      m, head, tail, count := LinkAll(memory, blocks);
      UsedApart();
      NonNullFacts(blocks);
      ThreadsFrame(memory, m, freeList, free);
      memory := m;
    }

    /** The part that runs under the lock: it puts blocks already linked in front of the free list. */
    method SpliceBlocks(head: nat, tail: nat, count: nat, ghost vs: seq<nat>)
      requires Valid() && Ready() && Strung(memory, vs) && Distinct(vs) && Elements(vs) <= used
      requires vs != [] && head == vs[0] && tail == vs[|vs| - 1] && count == |vs|
      modifies `memory, `freeList, `freeCount, `free, `used, `usedSize
      ensures Valid() && free == vs + old(free) && used == old(used) - Elements(vs)
      ensures memory == old(memory)[tail := old(freeList)] && usedSize == old(usedSize) - count * blockSize
    {
      hide Threads, AllCells, Distinct, Strung, Elements;
      ElementsApart(vs, used, free);
      SpliceKeeps(memory, freeList, free, vs);
      DistinctConcat(vs, free);
      CountDistinct(vs);
      assert |used| == |used - Elements(vs)| + |vs| by { CountLess(used, Elements(vs)); }
      PlusTimes(|used - Elements(vs)|, |vs|, blockSize);
      memory := memory[tail := freeList];
      freeList := head;
      freeCount := freeCount + count;
      usedSize := usedSize - blockSize * count;
      free := vs + free;
      used := used - Elements(vs);
    }

    method FreeBlocks(blocks: seq<nat>)
      requires Valid() && Ready() && Distinct(NonNull(blocks)) && Elements(NonNull(blocks)) <= used
      modifies `memory, `freeList, `freeCount, `free, `used, `usedSize
      ensures Valid() && free == NonNull(blocks) + old(free) && used == old(used) - Elements(NonNull(blocks))
      ensures usedSize == old(usedSize) - |NonNull(blocks)| * blockSize
      ensures forall a :: a in used ==> a in old(memory) && memory[a] == old(memory[a])
    {
      var head, tail, count := LinkBlocks(blocks);
      if head == 0 {
        return;
      }
      SpliceBlocks(head, tail, count, NonNull(blocks));
    }

    /** Nothing is lost: free and handed-out bytes together make up the chunks, within the capacity. */
    lemma Conservation()
      requires Valid() && Ready()
      ensures freeCount * blockSize + usedSize == |bigChunk| * chunkSize <= capacity
      ensures |bigChunk| * PerChunk() <= capacity / blockSize
      ensures forall a :: a in used ==> a in AllCells(bigChunk, blockSize, PerChunk()) && a !in free
    {
      hide Threads, Distinct, AllCells;
      PlusTimes(freeCount, |used|, blockSize);
      Regroup(|bigChunk|, chunkSize, blockSize);
      FitsWhole(|bigChunk| * PerChunk(), blockSize, capacity);
    }

    /** How much must be returned for the unused part of the capacity to reach the threshold. */
    method NeedFreeSize() returns (r: nat)
      requires Valid() && Ready()
      ensures usedSize <= capacity && r <= usedSize && capacity - (usedSize - r) >= freeThreshold
      ensures r > 0 ==> capacity - (usedSize - r) == freeThreshold
    {
      hide Valid;
      Conservation();
      r := if capacity - usedSize < freeThreshold then freeThreshold + usedSize - capacity else 0;
    }
  }

  /** One step of some thread: an operation under the lock, the linking that comes before it, or the
      use of a block the thread holds. */
  datatype Op =
    | Get(mapped: nat)
    | Free(block: nat)
    | Link(blocks: seq<nat>)
    | Splice(which: nat)
    | Write(block: nat, word: nat)

  ghost predicate Waits(memory: map<nat, nat>, used: set<nat>, held: set<nat>, vs: seq<nat>) {
    vs != [] && Strung(memory, vs) && Distinct(vs) && Elements(vs) <= used && Elements(vs) !! held
  }

  /** Every handed-out block has one owner: it is held, or it waits in one linked vector. */
  ghost predicate Owned(memory: map<nat, nat>, used: set<nat>, held: set<nat>, waiting: seq<seq<nat>>) {
    && held <= used
    && (forall k :: 0 <= k < |waiting| ==> Waits(memory, used, held, waiting[k]))
    && (forall j, k :: 0 <= j < k < |waiting| ==> Elements(waiting[j]) !! Elements(waiting[k]))
    && forall a :: a in used && a !in held ==> exists k :: 0 <= k < |waiting| && a in Elements(waiting[k])
  }

  lemma StrungFrame(m: map<nat, nat>, m': map<nat, nat>, vs: seq<nat>)
    requires Strung(m, vs)
    requires forall a :: a in Elements(vs) && a in m ==> a in m' && m'[a] == m[a]
    ensures Strung(m', vs)
  {
    forall i | 0 <= i < |vs| - 1 ensures LinkedTo(m', vs[i], vs[i + 1]) {
      assert LinkedTo(m, vs[i], vs[i + 1]) && vs[i] in Elements(vs);
    }
  }

  lemma OwnedAfterGet(m: map<nat, nat>, m': map<nat, nat>, used: set<nat>, held: set<nat>, waiting: seq<seq<nat>>,
                      block: nat)
    requires Owned(m, used, held, waiting) && block !in used
    requires forall a :: a in used ==> a in m && a in m' && m'[a] == m[a]
    ensures Owned(m', used + {block}, held + {block}, waiting)
  {
    hide Strung, Distinct, Elements;
    forall k | 0 <= k < |waiting| ensures Waits(m', used + {block}, held + {block}, waiting[k]) {
      assert Waits(m, used, held, waiting[k]);
      StrungFrame(m, m', waiting[k]);
    }
  }

  lemma OwnedAfterFree(m: map<nat, nat>, used: set<nat>, held: set<nat>, waiting: seq<seq<nat>>, block: nat, next: nat)
    requires Owned(m, used, held, waiting) && block in held
    ensures Owned(m[block := next], used - {block}, held - {block}, waiting)
  {
    hide Strung, Distinct, Elements;
    forall k | 0 <= k < |waiting| ensures Waits(m[block := next], used - {block}, held - {block}, waiting[k]) {
      assert Waits(m, used, held, waiting[k]);
      StrungFrame(m, m[block := next], waiting[k]);
    }
  }

  lemma OwnedAfterWrite(m: map<nat, nat>, used: set<nat>, held: set<nat>, waiting: seq<seq<nat>>, block: nat, word: nat)
    requires Owned(m, used, held, waiting) && block in held
    ensures Owned(m[block := word], used, held, waiting)
  {
    hide Strung, Distinct, Elements;
    forall k | 0 <= k < |waiting| ensures Waits(m[block := word], used, held, waiting[k]) {
      assert Waits(m, used, held, waiting[k]);
      StrungFrame(m, m[block := word], waiting[k]);
    }
  }

  lemma OwnedAfterLink(m: map<nat, nat>, m': map<nat, nat>, used: set<nat>, held: set<nat>, waiting: seq<seq<nat>>,
                       vs: seq<nat>)
    requires Owned(m, used, held, waiting) && vs != [] && Strung(m', vs) && Distinct(vs) && Elements(vs) <= held
    requires m'.Keys == m.Keys && forall a :: a in m && a !in Elements(vs) ==> m'[a] == m[a]
    ensures Owned(m', used, held - Elements(vs), waiting + [vs])
  {
    hide Strung, Distinct, Elements;
    var more := waiting + [vs];
    forall k | 0 <= k < |waiting| ensures Waits(m', used, held - Elements(vs), waiting[k]) {
      assert Waits(m, used, held, waiting[k]);
      StrungFrame(m, m', waiting[k]);
    }
    forall a | a in used && a !in held - Elements(vs) ensures exists k :: 0 <= k < |more| && a in Elements(more[k]) {
      if a in Elements(vs) {
        assert a in Elements(more[|waiting|]);
      } else {
        var k :| 0 <= k < |waiting| && a in Elements(waiting[k]);
        assert a in Elements(more[k]);
      }
    }
    forall j, k | 0 <= j < k < |more| ensures Elements(more[j]) !! Elements(more[k]) {
      assert Waits(m, used, held, waiting[j]);
    }
  }

  lemma OwnedAfterSplice(m: map<nat, nat>, used: set<nat>, held: set<nat>, waiting: seq<seq<nat>>, which: nat,
                         tail: nat, next: nat)
    requires Owned(m, used, held, waiting) && which < |waiting| && tail in Elements(waiting[which])
    ensures Owned(m[tail := next], used - Elements(waiting[which]), held, waiting[..which] + waiting[which + 1..])
  {
    hide Strung, Distinct, Elements;
    var gone, rest := Elements(waiting[which]), waiting[..which] + waiting[which + 1..];
    assert Waits(m, used, held, waiting[which]);
    forall k | 0 <= k < |rest| ensures Waits(m[tail := next], used - gone, held, rest[k]) {
      var j := if k < which then k else k + 1;
      assert rest[k] == waiting[j] && Waits(m, used, held, waiting[j]) && Elements(waiting[j]) !! gone;
      StrungFrame(m, m[tail := next], waiting[j]);
    }
    forall a | a in used - gone && a !in held ensures exists k :: 0 <= k < |rest| && a in Elements(rest[k]) {
      var j :| 0 <= j < |waiting| && a in Elements(waiting[j]);
      assert a in Elements(rest[if j < which then j else j - 1]);
    }
    assert forall j, k :: 0 <= j < k < |rest| ==> Elements(rest[j]) !! Elements(rest[k]);
  }

  datatype Snapshot = Snapshot(free: seq<nat>, held: set<nat>, waiting: seq<seq<nat>>)

  ghost predicate GainsBlock(s: Snapshot, s': Snapshot, block: nat) {
    && block !in s.held && s'.held == s.held + {block}
    && (forall k :: 0 <= k < |s.waiting| ==> block !in Elements(s.waiting[k]))
    && (s.free != [] ==> [block] + s'.free == s.free)
  }

  /** One block nobody had becomes held, the first of the free list when there is one. */
  ghost predicate Gains(s: Snapshot, s': Snapshot) {
    exists block :: GainsBlock(s, s', block)
  }

  /** What a step must do; a step whose blocks are not the thread's to give is not taken. */
  ghost predicate Takes(s: Snapshot, op: Op, s': Snapshot) {
    match op
    case Get(_) => s'.waiting == s.waiting && ((s' == s && s.free == []) || Gains(s, s'))
    case Free(block) =>
      s' == if block != 0 && block in s.held then Snapshot([block] + s.free, s.held - {block}, s.waiting) else s
    case Link(blocks) =>
      var vs := NonNull(blocks);
      s' == if vs != [] && Distinct(vs) && Elements(vs) <= s.held
      then Snapshot(s.free, s.held - Elements(vs), s.waiting + [vs]) else s
    case Splice(which) =>
      s' == if which < |s.waiting|
      then Snapshot(s.waiting[which] + s.free, s.held, s.waiting[..which] + s.waiting[which + 1..]) else s
    case Write(_, _) => s' == s
  }

  lemma NoOwner(m: map<nat, nat>)
    ensures Owned(m, {}, {}, [])
  {
  }

  lemma GetGains(m: map<nat, nat>, used: set<nat>, s: Snapshot, s': Snapshot, block: nat)
    requires Owned(m, used, s.held, s.waiting) && block !in used && s'.held == s.held + {block}
    requires s.free != [] ==> [block] + s'.free == s.free
    ensures Gains(s, s')
  {
    forall k | 0 <= k < |s.waiting| ensures block !in Elements(s.waiting[k]) {
      assert Waits(m, used, s.held, s.waiting[k]);
    }
    assert GainsBlock(s, s', block);
  }

  lemma HeldIsUsed(m: map<nat, nat>, used: set<nat>, held: set<nat>, waiting: seq<seq<nat>>)
    requires Owned(m, used, held, waiting)
    ensures held <= used
  {
  }

  lemma WaitsInTurn(m: map<nat, nat>, used: set<nat>, held: set<nat>, waiting: seq<seq<nat>>, which: nat)
    requires Owned(m, used, held, waiting) && which < |waiting|
    ensures Waits(m, used, held, waiting[which]) && waiting[which][|waiting[which]| - 1] in Elements(waiting[which])
  {
  }

  method Step(pool: BlockPool, op: Op, held: set<nat>, waiting: seq<seq<nat>>)
      returns (held': set<nat>, waiting': seq<seq<nat>>)
    requires pool.Valid() && pool.Ready() && Owned(pool.memory, pool.used, held, waiting)
    modifies pool
    ensures pool.Valid() && pool.Ready() && Owned(pool.memory, pool.used, held', waiting')
    ensures Takes(old(Snapshot(pool.free, held, waiting)), op, Snapshot(pool.free, held', waiting'))
    ensures op.Write? && op.block in held ==> pool.memory == old(pool.memory)[op.block := op.word]
  {
    hide BlockPool.Valid, Owned, Strung, Distinct, Apart, NonNull, Gains;
    held', waiting' := held, waiting;
    ghost var m, used, s := pool.memory, pool.used, Snapshot(pool.free, held, waiting);
    match op {
      case Get(mapped) =>
        pool.Counts();
        var block := pool.GetBlock(if Apart(pool.bigChunk, pool.chunkSize, mapped) then mapped else 0);
        if block != 0 {
          OwnedAfterGet(m, pool.memory, used, held, waiting, block);
          held' := held + {block};
          GetGains(m, used, s, Snapshot(pool.free, held', waiting), block);
        }
      case Free(block) =>
        if block != 0 && block in held {
          HeldIsUsed(m, used, held, waiting);
          OwnedAfterFree(m, used, held, waiting, block, pool.freeList);
          pool.FreeBlock(block);
          held' := held - {block};
        }
      case Link(blocks) =>
        var vs := NonNull(blocks);
        if vs != [] && Distinct(vs) && Elements(vs) <= held {
          HeldIsUsed(m, used, held, waiting);
          var _, _, _ := pool.LinkBlocks(blocks);
          OwnedAfterLink(m, pool.memory, used, held, waiting, vs);
          held', waiting' := held - Elements(vs), waiting + [vs];
        }
      case Splice(which) =>
        if which < |waiting| {
          var vs := waiting[which];
          WaitsInTurn(m, used, held, waiting, which);
          OwnedAfterSplice(m, used, held, waiting, which, vs[|vs| - 1], pool.freeList);
          pool.SpliceBlocks(vs[0], vs[|vs| - 1], |vs|, vs);
          waiting' := waiting[..which] + waiting[which + 1..];
        }
      case Write(block, word) =>
        if block in held {
          HeldIsUsed(m, used, held, waiting);
          OwnedAfterWrite(m, used, held, waiting, block, word);
          pool.Write(block, word);
        }
    }
  }

  /** In every interleaving of the threads' steps the pool stays sound whatever is written into the
      blocks, no block has two owners, and a vector linked before the lock was taken is still linked
      when it is spliced. */
  method Run(pool: BlockPool, ops: seq<Op>) returns (held: set<nat>, waiting: seq<seq<nat>>, ghost trace: seq<Snapshot>)
    requires pool.Valid() && pool.Ready() && pool.used == {}
    modifies pool
    ensures pool.Valid() && pool.Ready() && Owned(pool.memory, pool.used, held, waiting)
    ensures |trace| == |ops| + 1 && trace[0] == Snapshot(old(pool.free), {}, [])
    ensures trace[|ops|] == Snapshot(pool.free, held, waiting)
    ensures forall i :: 0 <= i < |ops| ==> Takes(trace[i], ops[i], trace[i + 1])
  {
    hide Takes, Owned, BlockPool.Valid;
    held, waiting, trace := {}, [], [Snapshot(pool.free, {}, [])];
    NoOwner(pool.memory);
    for i := 0 to |ops|
      invariant pool.Valid() && pool.Ready() && Owned(pool.memory, pool.used, held, waiting)
      invariant |trace| == i + 1 && trace[0] == Snapshot(old(pool.free), {}, [])
      invariant trace[i] == Snapshot(pool.free, held, waiting)
      invariant forall j :: 0 <= j < i ==> Takes(trace[j], ops[j], trace[j + 1])
    {
      held, waiting := Step(pool, ops[i], held, waiting);
      trace := trace + [Snapshot(pool.free, held, waiting)];
    }
  }
}
