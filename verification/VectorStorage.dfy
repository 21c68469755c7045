/** Chunked row storage: row i lives in chunk i >> 10 at offset i & 1023. */
module VectorStorage {

  const CHUNK_SIZE: nat := 1024

  function ChunkCount(size: nat): (n: nat)
    ensures CHUNK_SIZE * n >= size && (n > 0 ==> CHUNK_SIZE * (n - 1) < size)
  {
    (size + CHUNK_SIZE - 1) / CHUNK_SIZE
  }

  class Storage<R(0)> {
    var chunks: seq<seq<R>>

    ghost predicate Valid()
      reads this
    {
      forall i :: 0 <= i < |chunks| ==> |chunks[i]| == CHUNK_SIZE
    }

    function Size(): (n: nat)
      reads this
    {
      |chunks| * CHUNK_SIZE
    }

    function Get(index: nat): (r: R)
      requires Valid() && index < Size()
      reads this
    {
      chunks[index / CHUNK_SIZE][index % CHUNK_SIZE]
    }

    /** All rows by index. */
    ghost function Rows(): (rows: seq<R>)
      requires Valid()
      reads this
      ensures |rows| == Size()
      ensures forall i :: 0 <= i < Size() ==> rows[i] == Get(i)
    {
      seq(Size(), i requires 0 <= i < Size() reads this requires Valid() => Get(i))
    }

    constructor ()
      ensures Valid() && Size() == 0
    {
      chunks := [];
    }

    /** Wraps the rows of a buffer: whole chunks as they are, a partial last chunk as a copy. */
    constructor FromBuffer(buffer: seq<R>)
      ensures Valid() && Size() == ChunkCount(|buffer|) * CHUNK_SIZE
      ensures Rows()[..|buffer|] == buffer
    {
      var count := ChunkCount(|buffer|);
      var made: seq<seq<R>> := [];
      for k := 0 to count
        invariant |made| == k && forall i :: 0 <= i < k ==> |made[i]| == CHUNK_SIZE
        invariant forall i :: 0 <= i < k * CHUNK_SIZE && i < |buffer| ==>
                  made[i / CHUNK_SIZE][i % CHUNK_SIZE] == buffer[i]
      {
        var from := k * CHUNK_SIZE;
        if from + CHUNK_SIZE <= |buffer| {
          made := made + [buffer[from..from + CHUNK_SIZE]];
        } else {
          var junk: R := *;
          made := made + [buffer[from..] + seq(CHUNK_SIZE - (|buffer| - from), _ => junk)];
        }
      }
      chunks := made;
    }

    method Put(index: nat, r: R)
      requires Valid() && index < Size()
      modifies this
      ensures Valid() && Size() == old(Size()) && Rows() == old(Rows())[index := r]
    {
      var chunk, offset := index / CHUNK_SIZE, index % CHUNK_SIZE;
      chunks := chunks[chunk := chunks[chunk][offset := r]];
      forall i | 0 <= i < Size() ensures Get(i) == old(Rows())[index := r][i] {
        if i / CHUNK_SIZE == chunk && i % CHUNK_SIZE == offset { assert i == index; }
      }
    }

    /** Adds chunks of unspecified rows until the size is reached. */
    method GrowToSize(size: nat)
      requires Valid()
      modifies this
      ensures Valid() && old(Rows()) <= Rows()
      ensures Size() == if size <= old(Size()) then old(Size()) else ChunkCount(size) * CHUNK_SIZE
    {
      if size <= Size() {
        return;
      }
      var count := ChunkCount(size) - |chunks|;
      ghost var before := chunks;
      for i := 0 to count
        invariant Valid() && before <= chunks && |chunks| == |before| + i
      {
        var junk: R := *;
        chunks := chunks + [seq(CHUNK_SIZE, _ => junk)];
      }
      assert forall i :: 0 <= i < |before| ==> chunks[i] == before[i];
    }

    /** Takes over the chunks of another storage of the same row size. */
    method Append(other: Storage<R>)
      requires Valid() && other.Valid() && other != this
      modifies this, other
      ensures Valid() && other.Valid() && other.Size() == 0
      ensures Rows() == old(Rows()) + old(other.Rows())
    {
      ghost var mine, theirs := chunks, other.chunks;
      for i := 0 to |other.chunks|
        invariant other.chunks == theirs && chunks == mine + theirs[..i]
      {
        chunks := chunks + [other.chunks[i]];
      }
      other.chunks := [];
      assert theirs[..|theirs|] == theirs;
    }
  }
}
