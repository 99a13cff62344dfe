/** `get_chunk`: the file handle read `size` bytes at a time until a read
    comes back empty. With the file already in memory the generator is plain
    sequence splitting. */
module Chunking {
  import opened Results
  import opened Bytes
  import opened PyArith

  /** The chunks `get_chunk(fh, size)` yields for a read size `fh.read`
      accepts. A read of size 0 is empty and ends the generator at once; a
      read of size -1 takes the rest of the file. */
  function GetChunk(data: seq<Byte>, size: int): (chunks: seq<seq<Byte>>)
    requires size >= -1
    ensures forall i :: 0 <= i < |chunks| ==> 0 < |chunks[i]|
    ensures |data| == 0 || size == 0 <==> chunks == []
    ensures size == -1 && |data| > 0 ==> chunks == [data]
    decreases |data|
  {
    if |data| == 0 || size == 0 then []
    else if size == -1 || |data| <= size then [data]
    else [data[..size]] + GetChunk(data[size..], size)
  }

  /** Running the generator: the first `fh.read(size)` raises ValueError
      for a size below -1, whatever the file holds; otherwise the chunks are
      those of `GetChunk`. */
  function ReadChunks(data: seq<Byte>, size: int): (r: Result<seq<seq<Byte>>>)
    ensures r.Err? <==> size < -1
    ensures r.Err? ==> r.error == ReadSize
    ensures r.Ok? ==> forall i :: 0 <= i < |r.value| ==> 0 < |r.value[i]|
    ensures r.Ok? && size != 0 ==> Flatten(r.value) == data
  {
    if size < -1 then Err(ReadSize)
    else if size == 0 then Ok(GetChunk(data, size))
    else
      GetChunkFlatten(data, size);
      Ok(GetChunk(data, size))
  }

  /** Chunks laid end to end. */
  function Flatten(chunks: seq<seq<Byte>>): seq<Byte>
  {
    if |chunks| == 0 then [] else chunks[0] + Flatten(chunks[1..])
  }

  /** There are `ceil(|data| / size)` chunks. */
  lemma {:induction false} GetChunkCount(data: seq<Byte>, size: int)
    requires size >= 1
    ensures |GetChunk(data, size)| == CeilDiv(|data|, size)
    decreases |data|
  {
    if |data| == 0 {
      CeilDivUnique(0, size, 0);
    } else if |data| <= size {
      CeilDivUnique(|data|, size, 1);
    } else {
      var rest := data[size..];
      GetChunkCount(rest, size);
      assert GetChunk(data, size) == [data[..size]] + GetChunk(rest, size);
      assert |rest| == |data| - size;
      var n := CeilDiv(|rest|, size);
      assert (n - 1) * size < |rest| <= n * size;
      assert (n + 1 - 1) * size < |data| <= (n + 1) * size by {
        assert (n + 1) * size == n * size + size;
      }
      CeilDivUnique(|data|, size, n + 1);
    }
  }

  /** Chunk `i` is the slice `[i*size, (i+1)*size)` of the file, clipped to
      its end. */
  lemma {:induction false} GetChunkAt(data: seq<Byte>, size: int, i: nat)
    requires size >= 1 && i < |GetChunk(data, size)|
    ensures i * size < |data|
    ensures GetChunk(data, size)[i] == data[i * size .. Min((i + 1) * size, |data|)]
    decreases i
  {
    if i > 0 {
      var rest := data[size..];
      var j := i - 1;
      assert GetChunk(data, size) == [data[..size]] + GetChunk(rest, size);
      assert GetChunk(data, size)[i] == GetChunk(rest, size)[j];
      GetChunkAt(rest, size, j);
      var lo, hi := j * size, Min((j + 1) * size, |rest|);
      NextMultiple(j, size);
      NextMultiple(i, size);
      assert lo + size == i * size;
      assert hi + size == Min((i + 1) * size, |data|);
      SliceShift(data, size, lo, hi);
    }
  }

  lemma NextMultiple(j: nat, size: int)
    ensures (j + 1) * size == j * size + size
  {
  }

  /** Slicing after dropping `size` bytes is slicing `size` further on. */
  lemma SliceShift(data: seq<Byte>, size: nat, lo: nat, hi: nat)
    requires size <= |data| && lo <= hi <= |data| - size
    ensures data[size..][lo..hi] == data[lo + size .. hi + size]
  {
    var rest := data[size..];
    forall k | 0 <= k < hi - lo
      ensures rest[lo..hi][k] == data[lo + size .. hi + size][k]
    {
      assert rest[lo + k] == data[size + lo + k];
    }
  }

  /** Every chunk but the last is exactly `size` bytes; the last is at most
      `size` bytes. */
  lemma ChunkLengths(data: seq<Byte>, size: int)
    requires size >= 1
    ensures forall i :: 0 <= i < |GetChunk(data, size)| ==> |GetChunk(data, size)[i]| <= size
    ensures forall i :: 0 <= i < |GetChunk(data, size)| - 1 ==> |GetChunk(data, size)[i]| == size
  {
    var chunks := GetChunk(data, size);
    forall i | 0 <= i < |chunks|
      ensures |chunks[i]| <= size
      ensures i < |chunks| - 1 ==> |chunks[i]| == size
    {
      GetChunkAt(data, size, i);
      assert (i + 1) * size == i * size + size;
      if i < |chunks| - 1 {
        GetChunkAt(data, size, i + 1);
        assert (i + 1) * size < |data|;
      }
    }
  }

  /** The chunks partition the file: laid end to end they give it back. */
  lemma {:induction false} GetChunkFlatten(data: seq<Byte>, size: int)
    requires size >= -1 && size != 0
    ensures Flatten(GetChunk(data, size)) == data
    decreases |data|
  {
    if |data| == 0 {
    } else if size == -1 || |data| <= size {
      assert Flatten([data]) == data + Flatten([]);
    } else {
      GetChunkFlatten(data[size..], size);
      var chunks := GetChunk(data, size);
      assert chunks[1..] == GetChunk(data[size..], size);
      assert data == data[..size] + data[size..];
    }
  }
}
