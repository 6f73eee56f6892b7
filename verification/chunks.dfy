/**
  Chunk arithmetic shared by the seeder, the downloader and the part splitter.
  A file is cut into CHUNK_SIZE-byte chunks; only the last one may be shorter.
 */
module Chunks {

  /** A byte, as Python's `bytes` holds them. */
  type Byte = b: int | 0 <= b < 256

  type Bytes = seq<Byte>

  /** A directory: file name to contents. */
  type Dir = map<string, Bytes>

  /** 512 KiB, the chunk size of every file and every transfer. */
  const CHUNK_SIZE: nat := 524288

  function Min(a: int, b: int): int {
    if a <= b then a else b
  }

  /** `(size + CHUNK_SIZE - 1) // CHUNK_SIZE`: the number of chunks of a file of `size` bytes. */
  function ChunkCount(size: nat): (n: nat)
    ensures n * CHUNK_SIZE >= size
    ensures n == 0 || (n - 1) * CHUNK_SIZE < size
    ensures n == 0 <==> size == 0
  {
    (size + CHUNK_SIZE - 1) / CHUNK_SIZE
  }

  /** The chunk holding byte `offset`, derived from the byte counter and never stored. */
  function ChunkIndex(offset: nat): (i: nat)
    ensures i * CHUNK_SIZE <= offset < i * CHUNK_SIZE + CHUNK_SIZE
  {
    offset / CHUNK_SIZE
  }

  /** What `seek(i * CHUNK_SIZE)` followed by `read(CHUNK_SIZE)` yields: empty past the end. */
  function ChunkAt(data: Bytes, i: nat): (c: Bytes)
    ensures |c| <= CHUNK_SIZE
    ensures |c| > 0 <==> i < ChunkCount(|data|)
    ensures |c| > 0 ==> i * CHUNK_SIZE + |c| <= |data| && c == data[i * CHUNK_SIZE .. i * CHUNK_SIZE + |c|]
    ensures |c| > 0 ==> |c| == CHUNK_SIZE || i * CHUNK_SIZE + |c| == |data|
  {
    var lo := i * CHUNK_SIZE;
    if lo >= |data| then [] else data[lo .. Min(|data|, lo + CHUNK_SIZE)]
  }

  /** The successive results of `f.read(CHUNK_SIZE)` until it returns nothing. */
  function Parts(data: Bytes): seq<Bytes>
    decreases |data|
  {
    if |data| == 0 then []
    else
      var n := Min(|data|, CHUNK_SIZE);
      [data[..n]] + Parts(data[n..])
  }

  /** Writing the parts one after another. */
  function Flatten(parts: seq<Bytes>): Bytes
    decreases |parts|
  {
    if |parts| == 0 then [] else parts[0] + Flatten(parts[1..])
  }

  lemma {:induction false} FlattenAppend(a: seq<Bytes>, b: seq<Bytes>)
    ensures Flatten(a + b) == Flatten(a) + Flatten(b)
    decreases |a|
  {
    if |a| == 0 {
      assert a + b == b;
    } else {
      assert (a + b)[1..] == a[1..] + b;
      FlattenAppend(a[1..], b);
    }
  }

  /** The parts put back together are the file. */
  lemma {:induction false} PartsFlatten(data: Bytes)
    ensures Flatten(Parts(data)) == data
    decreases |data|
  {
    if |data| > 0 {
      var n := Min(|data|, CHUNK_SIZE);
      PartsFlatten(data[n..]);
      assert data[..n] + data[n..] == data;
    }
  }

  /** The i-th part is the i-th chunk, and there are ChunkCount of them. */
  lemma {:induction false} PartsAreChunks(data: Bytes)
    ensures |Parts(data)| == ChunkCount(|data|)
    ensures forall i :: 0 <= i < |Parts(data)| ==> Parts(data)[i] == ChunkAt(data, i)
    decreases |data|
  {
    if |data| > 0 {
      var n := Min(|data|, CHUNK_SIZE);
      var rest := data[n..];
      PartsAreChunks(rest);
      var ps := Parts(data);
      assert ps == [data[..n]] + Parts(rest);
      if |data| <= CHUNK_SIZE {
        assert |rest| == 0;
        assert ChunkCount(|data|) == 1;
      } else {
        assert n == CHUNK_SIZE;
        assert ChunkCount(|data|) == ChunkCount(|rest|) + 1;
        forall i | 1 <= i < |ps|
          ensures ps[i] == ChunkAt(data, i)
        {
          assert ps[i] == Parts(rest)[i - 1] == ChunkAt(rest, i - 1);
          ChunkShift(data, i);
        }
      }
    }
  }

  /** Dropping the first chunk shifts every later chunk down by one index. */
  lemma ChunkShift(data: Bytes, i: nat)
    requires |data| > CHUNK_SIZE && i >= 1
    ensures ChunkAt(data[CHUNK_SIZE..], i - 1) == ChunkAt(data, i)
  {
    var rest := data[CHUNK_SIZE..];
    var lo := (i - 1) * CHUNK_SIZE;
    assert lo + CHUNK_SIZE == i * CHUNK_SIZE;
    if lo < |rest| {
      var hi := Min(|rest|, lo + CHUNK_SIZE);
      assert rest[lo..hi] == data[lo + CHUNK_SIZE .. hi + CHUNK_SIZE];
    }
  }

  /** Every part but the last is a full chunk; the last holds 1..CHUNK_SIZE bytes. */
  lemma PartSizes(data: Bytes)
    ensures forall i :: 0 <= i < |Parts(data)| - 1 ==> |Parts(data)[i]| == CHUNK_SIZE
    ensures |Parts(data)| > 0 ==> 0 < |Parts(data)[|Parts(data)| - 1]| <= CHUNK_SIZE
  {
    PartsAreChunks(data);
    var ps := Parts(data);
    forall i | 0 <= i < |ps| - 1
      ensures |ps[i]| == CHUNK_SIZE
    {
      assert |ChunkAt(data, i)| > 0;
    }
  }

  /** Requesting chunks 0 .. ChunkCount-1 and concatenating them in order reproduces the file. */
  lemma ChunksReassemble(data: Bytes)
    ensures Flatten(seq(ChunkCount(|data|), i requires 0 <= i => ChunkAt(data, i))) == data
  {
    PartsAreChunks(data);
    PartsFlatten(data);
    assert Parts(data) == seq(ChunkCount(|data|), i requires 0 <= i => ChunkAt(data, i));
  }
}
