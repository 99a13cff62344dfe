/** `section_ent_line`'s block walk. Block boundaries fall at multiples of
    `block_len = -(-len // block_size)`. The first block holds `block_len`
    bytes; the byte at each interior multiple is skipped, so each later
    block holds `block_len - 1` bytes, the last one clipped to the content.
    Each block's entropy is smoothed against the previous block's. */
module SectionBlocks {
  import opened Results
  import opened Bytes
  import opened PyArith
  import opened Smoothing

  /** `block_len = -(-len(content) // block_size)`. */
  function BlockLen(len: nat, blockSize: int): (blockLen: int)
    requires blockSize != 0
    ensures blockSize > 0 ==> 0 <= blockLen && (blockLen - 1) * blockSize < len <= blockLen * blockSize
    ensures blockSize > 0 && len > 0 ==> blockLen >= 1
    ensures blockSize < 0 ==> blockLen <= 0
    ensures len == 0 ==> blockLen == 0
  {
    CeilDivSign(len, blockSize);
    CeilDiv(len, blockSize)
  }

  lemma CeilDivSign(len: nat, blockSize: int)
    requires blockSize != 0
    ensures blockSize > 0 ==> 0 <= CeilDiv(len, blockSize)
    ensures blockSize > 0 && len > 0 ==> CeilDiv(len, blockSize) >= 1
    ensures blockSize < 0 ==> CeilDiv(len, blockSize) <= 0
    ensures len == 0 ==> CeilDiv(len, blockSize) == 0
  {
    var q := CeilDiv(len, blockSize);
    if blockSize > 0 && q < 0 {
      MulMonotone(q, -1, blockSize);
    }
    if blockSize > 0 && len > 0 && q < 1 {
      MulMonotone(q, 0, blockSize);
    }
    if blockSize < 0 && q > 0 {
      MulMonotone(1, q, -blockSize);
    }
    if len == 0 && blockSize > 0 && q > 0 {
      MulMonotone(1, q, blockSize);
    }
    if len == 0 && blockSize < 0 && q < 0 {
      MulMonotone(1, -q, -blockSize);
    }
  }

  /** `block_start` of iteration `i` (counting from 1): 0 for the first
      block, one past the previous `block_end` afterwards. */
  function BlockStart(blockLen: nat, i: nat): (prevEnd: nat)
    requires i >= 1
    ensures i == 1 ==> prevEnd == 0
    ensures i >= 2 ==> prevEnd == BlockEnd(blockLen, i - 1) + 1
  {
    if i == 1 then 0 else (i - 1) * blockLen + 1
  }

  /** `block_end = i * block_len`. */
  function BlockEnd(blockLen: int, i: int): int
  {
    i * blockLen
  }

  /** Python's `s[lo:hi]` for non-negative bounds: both are clipped to the
      length and a reversed range is empty. */
  function Slice(s: seq<Byte>, lo: nat, hi: nat): (r: seq<Byte>)
    ensures lo <= hi && lo <= |s| ==> |r| == (if hi <= |s| then hi else |s|) - lo
    ensures hi <= lo || |s| <= lo ==> r == []
    ensures forall k :: 0 <= k < |r| ==> lo + k < |s| && r[k] == s[lo + k]
  {
    var a := if lo <= |s| then lo else |s|;
    var b := if hi <= |s| then hi else |s|;
    if a < b then s[a..b] else []
  }

  /** The walk terminates: blocks have positive length, or the content is
      empty and the single iteration ends it. */
  predicate Walks(len: nat, blockLen: int)
  {
    blockLen >= 1 || (len == 0 && blockLen == 0)
  }

  /** How many iterations the `while prev_end <= len` loop makes: the last
      one is admitted by the guard and the one after it is not. */
  function BlockCount(len: nat, blockLen: nat): (count: nat)
    requires Walks(len, blockLen)
    ensures count >= 1
    ensures BlockStart(blockLen, count) <= len < BlockStart(blockLen, count + 1)
  {
    if len == 0 then 1
    else
      var q := FloorDiv(len - 1, blockLen);
      assert q >= 0 by {
        if q < 0 {
          MulMonotone(q, -1, blockLen);
        }
      }
      assert (q + 1) * blockLen == q * blockLen + blockLen;
      1 + q
  }

  /** The content of block `i`. */
  function Block(content: seq<Byte>, blockLen: nat, i: nat): seq<Byte>
    requires i >= 1
  {
    Slice(content, BlockStart(blockLen, i), BlockEnd(blockLen, i))
  }

  /** The blocks the walk visits, in order: block `k` (from 0) is the
      content from `block_start` to `block_end` of iteration `k + 1`, clipped
      to the content, and each block ends before the next one starts. */
  function Blocks(content: seq<Byte>, blockLen: nat): (blocks: seq<seq<Byte>>)
    requires Walks(|content|, blockLen)
    ensures |blocks| == BlockCount(|content|, blockLen)
    ensures forall k :: 0 <= k < |blocks| ==> blocks[k] == Block(content, blockLen, k + 1)
    ensures forall k :: 0 <= k < |blocks| ==>
      && BlockStart(blockLen, k + 1) <= Min(BlockEnd(blockLen, k + 1), |content|)
      && blocks[k] == content[BlockStart(blockLen, k + 1) .. Min(BlockEnd(blockLen, k + 1), |content|)]
    ensures forall i, j :: 1 <= i < j <= |blocks| ==> BlockEnd(blockLen, i) < BlockStart(blockLen, j)
  {
    var blocks := seq(BlockCount(|content|, blockLen), k requires 0 <= k => Block(content, blockLen, k + 1));
    assert forall k :: 0 <= k < |blocks| ==> blocks[k] == Block(content, blockLen, k + 1);
    AllBlockSlices(content, blockLen);
    blocks
  }

  /** `BlockSlices` for every block at once. */
  lemma AllBlockSlices(content: seq<Byte>, blockLen: nat)
    requires Walks(|content|, blockLen)
    ensures forall i :: 1 <= i <= BlockCount(|content|, blockLen) ==>
      && BlockStart(blockLen, i) <= Min(BlockEnd(blockLen, i), |content|)
      && Block(content, blockLen, i) == content[BlockStart(blockLen, i) .. Min(BlockEnd(blockLen, i), |content|)]
    ensures forall i, j :: 1 <= i < j <= BlockCount(|content|, blockLen) ==> BlockEnd(blockLen, i) < BlockStart(blockLen, j)
  {
    forall i | 1 <= i <= BlockCount(|content|, blockLen)
      ensures BlockStart(blockLen, i) <= Min(BlockEnd(blockLen, i), |content|)
      ensures Block(content, blockLen, i) == content[BlockStart(blockLen, i) .. Min(BlockEnd(blockLen, i), |content|)]
      ensures forall j :: i < j <= BlockCount(|content|, blockLen) ==> BlockEnd(blockLen, i) < BlockStart(blockLen, j)
    {
      BlockSlices(content, blockLen, i);
    }
  }

  /** Reference definition of one section's samples. A block size of 0
      raises ZeroDivisionError; a negative one on non-empty content makes
      `block_len` non-positive and the loop never exits. */
  function SectionSamples(content: seq<Byte>, blockSize: int, ent: EntropyFn): (r: Result<seq<real>>)
    ensures r == Err(ZeroDivision) <==> blockSize == 0
    ensures r == Err(NonTermination) <==> blockSize < 0 && |content| > 0
    ensures r.Ok? ==> |r.value| >= 1
  {
    if blockSize == 0 then Err(ZeroDivision)
    else if blockSize < 0 && |content| > 0 then Err(NonTermination)
    else
      var blocks := Blocks(content, BlockLen(|content|, blockSize));
      Ok(Smooth(Entropies(blocks, ent)))
  }

  /** The loop guard `prev_end <= len` holds before iteration `i` exactly
      when `i` is within the block count. */
  lemma BlockGuard(len: nat, blockLen: nat, i: nat)
    requires Walks(len, blockLen) && i >= 1
    ensures BlockStart(blockLen, i) <= len <==> i <= BlockCount(len, blockLen)
  {
    if len > 0 && i >= 2 {
      FloorDivBound(len - 1, blockLen, i - 1);
    }
  }

  /** One iteration of the walk: when the guard admits iteration `i`, its
      slice is block `i`, and the next `prev_end` is the next block's start,
      strictly further on. */
  lemma WalkStep(content: seq<Byte>, blockLen: nat, i: nat)
    requires Walks(|content|, blockLen) && i >= 1 && BlockStart(blockLen, i) <= |content|
    ensures i <= BlockCount(|content|, blockLen)
    ensures Slice(content, BlockStart(blockLen, i), BlockEnd(blockLen, i)) == Blocks(content, blockLen)[i - 1]
    ensures BlockEnd(blockLen, i) + 1 == BlockStart(blockLen, i + 1) > BlockStart(blockLen, i)
  {
    BlockGuard(|content|, blockLen, i);
    if i >= 2 {
      assert i * blockLen == (i - 1) * blockLen + blockLen;
    }
  }

  /** The state of the walk before iteration `i`: `prev_end` is block
      `i`'s start, and the samples and `prev_ent` are those of the first
      `i - 1` blocks. */
  ghost predicate WalkState(content: seq<Byte>, blockLen: nat, ent: EntropyFn,
                            i: nat, prevEnd: int, samples: seq<real>, prevEnt: real)
  {
    && Walks(|content|, blockLen)
    && var raws := Entropies(Blocks(content, blockLen), ent);
    && 1 <= i <= |raws| + 1
    && prevEnd == BlockStart(blockLen, i)
    && samples == Smooth(raws[..i - 1])
    && prevEnt == Previous(raws[..i - 1])
  }

  /** One admitted iteration takes the walk from the state before block `i`
      to the state before block `i + 1`, strictly advancing `prev_end`. */
  lemma Advance(content: seq<Byte>, blockLen: nat, ent: EntropyFn,
                i: nat, prevEnd: int, samples: seq<real>, prevEnt: real)
    requires WalkState(content, blockLen, ent, i, prevEnd, samples, prevEnt) && prevEnd <= |content|
    ensures
      var blockEnd := BlockEnd(blockLen, i);
      var realEnt := ent(Slice(content, prevEnd, blockEnd));
      && prevEnd < blockEnd + 1
      && WalkState(content, blockLen, ent, i + 1, blockEnd + 1, samples + [Median2(realEnt, prevEnt)], realEnt)
  {
    var raws := Entropies(Blocks(content, blockLen), ent);
    WalkStep(content, blockLen, i);
    var realEnt := ent(Slice(content, prevEnd, BlockEnd(blockLen, i)));
    assert realEnt == raws[i - 1];
    PrefixExtend(raws, i - 1);
    SmoothSnoc(raws[..i - 1], realEnt);
  }

  /** When the guard fails, the walk has visited every block. */
  lemma WalkDone(content: seq<Byte>, blockLen: nat, ent: EntropyFn,
                 i: nat, prevEnd: int, samples: seq<real>, prevEnt: real)
    requires WalkState(content, blockLen, ent, i, prevEnd, samples, prevEnt) && |content| < prevEnd
    ensures samples == Smooth(Entropies(Blocks(content, blockLen), ent))
  {
    var raws := Entropies(Blocks(content, blockLen), ent);
    WalkEnd(content, blockLen, i);
    assert raws[..|raws|] == raws;
  }

  lemma PrefixExtend(s: seq<real>, n: nat)
    requires n < |s|
    ensures s[..n + 1] == s[..n] + [s[n]]
  {
  }

  /** `section_ent_line`'s `while` loop for one section. */
  method SectionEntLine(content: seq<Byte>, blockSize: int, ent: EntropyFn) returns (r: Result<seq<real>>)
    ensures r == SectionSamples(content, blockSize, ent)
  {
    if blockSize == 0 {
      return Err(ZeroDivision);
    }
    if blockSize < 0 && |content| > 0 {
      return Err(NonTermination);
    }
    var blockLen := BlockLen(|content|, blockSize);
    var samples := WalkBlocks(content, blockLen, ent);
    r := Ok(samples);
  }

  /** The `while prev_end <= len(section.content)` loop proper. */
  method WalkBlocks(content: seq<Byte>, blockLen: nat, ent: EntropyFn) returns (samples: seq<real>)
    requires Walks(|content|, blockLen)
    ensures samples == Smooth(Entropies(Blocks(content, blockLen), ent))
  {
    samples := [];
    var i := 1;
    var prevEnd := 0;
    var prevEnt := 0.0;
    while prevEnd <= |content|
      invariant WalkState(content, blockLen, ent, i, prevEnd, samples, prevEnt)
      decreases |content| + 1 - prevEnd
    {
      Advance(content, blockLen, ent, i, prevEnd, samples, prevEnt);
      var blockStart := prevEnd;
      var blockEnd := BlockEnd(blockLen, i);
      var block := Slice(content, blockStart, blockEnd);
      var realEnt := ent(block);
      var smoothed := Median2(realEnt, prevEnt);
      prevEnt := realEnt;
      samples := samples + [smoothed];
      prevEnd := blockEnd + 1;
      i := i + 1;
    }
    WalkDone(content, blockLen, ent, i, prevEnd, samples, prevEnt);
  }

  lemma WalkEnd(content: seq<Byte>, blockLen: nat, i: nat)
    requires Walks(|content|, blockLen) && 1 <= i <= BlockCount(|content|, blockLen) + 1
    requires !(BlockStart(blockLen, i) <= |content|)
    ensures i == BlockCount(|content|, blockLen) + 1
  {
    BlockGuard(|content|, blockLen, i);
  }

  /** With a positive block size the walk produces `ceil(len / block_len)`
      samples, never more than the block size; empty content gives exactly
      one sample, over an empty slice. */
  lemma SectionSampleCount(content: seq<Byte>, blockSize: int, ent: EntropyFn)
    requires blockSize >= 1
    ensures SectionSamples(content, blockSize, ent).Ok?
    ensures
      var blockLen := BlockLen(|content|, blockSize);
      var n := |SectionSamples(content, blockSize, ent).value|;
      && (|content| > 0 ==> n == CeilDiv(|content|, blockLen))
      && n <= blockSize
      && (|content| == 0 ==> Blocks(content, blockLen) == [[]])
  {
    var blockLen := BlockLen(|content|, blockSize);
    var blocks := Blocks(content, blockLen);
    assert |SectionSamples(content, blockSize, ent).value| == |blocks|;
    if |content| > 0 {
      BlockCountIsCeiling(|content|, blockSize);
    } else {
      assert |blocks| == 1 && blocks[0] == Block(content, blockLen, 1);
    }
  }

  /** For a positive block size the walk makes `ceil(len / block_len)`
      iterations, no more than the block size. */
  lemma BlockCountIsCeiling(len: nat, blockSize: int)
    requires blockSize >= 1 && len > 0
    ensures
      var blockLen := BlockLen(len, blockSize);
      BlockCount(len, blockLen) == CeilDiv(len, blockLen) <= blockSize
  {
    var blockLen := BlockLen(len, blockSize);
    var f := (len - 1) / blockLen;
    assert f * blockLen <= len - 1 < f * blockLen + blockLen;
    assert (f + 1) * blockLen == f * blockLen + blockLen;
    CeilDivUnique(len, blockLen, f + 1);
    assert len <= blockSize * blockLen;
    CeilDivLeast(len, blockLen, blockSize);
  }

  /** A negative block size on non-empty content leaves `block_len` at or
      below 0, so after every iteration `i` the next `prev_end` is still
      within the content and the loop guard holds forever. */
  lemma NegativeBlockSizeNeverExits(len: nat, blockSize: int, i: nat)
    requires blockSize < 0 && len >= 1 && i >= 1
    ensures BlockEnd(BlockLen(len, blockSize), i) + 1 <= len
  {
    var blockLen := BlockLen(len, blockSize);
    MulMonotone(blockLen, 0, i);
  }

  /** Block 1 is `content[0:block_len]` and block `i` is
      `content[(i-1)*block_len + 1 : i*block_len]` clipped to the content.
      Blocks come in increasing order and never overlap. */
  lemma BlockSlices(content: seq<Byte>, blockLen: nat, i: nat)
    requires Walks(|content|, blockLen) && 1 <= i <= BlockCount(|content|, blockLen)
    ensures BlockStart(blockLen, i) <= Min(BlockEnd(blockLen, i), |content|)
    ensures Block(content, blockLen, i) == content[BlockStart(blockLen, i) .. Min(BlockEnd(blockLen, i), |content|)]
    ensures i == 1 ==> Block(content, blockLen, i) == content[..Min(blockLen, |content|)]
    ensures forall j :: i < j <= BlockCount(|content|, blockLen) ==> BlockEnd(blockLen, i) < BlockStart(blockLen, j)
  {
    BlockGuard(|content|, blockLen, i);
    if i >= 2 {
      assert i * blockLen == (i - 1) * blockLen + blockLen;
    }
    forall j | i < j <= BlockCount(|content|, blockLen)
      ensures BlockEnd(blockLen, i) < BlockStart(blockLen, j)
    {
      MulMonotone(i, j - 1, blockLen);
    }
  }

  /** Block sizes: the first block holds `block_len` bytes and every later
      one `block_len - 1`, each clipped to the content. */
  lemma BlockSizes(content: seq<Byte>, blockLen: nat, i: nat)
    requires Walks(|content|, blockLen) && 1 <= i <= BlockCount(|content|, blockLen)
    ensures i == 1 ==> |Block(content, blockLen, i)| == Min(blockLen, |content|)
    ensures i >= 2 ==> |Block(content, blockLen, i)| <= blockLen - 1
    ensures i >= 2 && BlockEnd(blockLen, i) <= |content| ==> |Block(content, blockLen, i)| == blockLen - 1
  {
    BlockSlices(content, blockLen, i);
    if i >= 2 {
      assert i * blockLen == (i - 1) * blockLen + blockLen;
    }
  }

  /** Byte `j` lies in the index range of block `i`. */
  predicate InBlock(blockLen: nat, i: nat, j: int)
    requires i >= 1
  {
    BlockStart(blockLen, i) <= j < BlockEnd(blockLen, i)
  }

  /** Some block of the walk covers byte `j`. */
  predicate Sampled(len: nat, blockLen: nat, j: int)
    requires Walks(len, blockLen)
  {
    exists i :: 1 <= i <= BlockCount(len, blockLen) && InBlock(blockLen, i, j)
  }

  /** The walk reads every byte of the content except those at the interior
      multiples of `block_len`: those are the bytes skipped between blocks. */
  lemma SkippedBytes(len: nat, blockLen: nat, j: int)
    requires blockLen >= 1 && 0 <= j < len
    ensures Sampled(len, blockLen, j) <==> j == 0 || j % blockLen != 0
  {
    if j == 0 || j % blockLen != 0 {
      ReadByBlock(len, blockLen, j);
    } else {
      SkippedByAll(len, blockLen, j);
    }
  }

  /** Byte 0, and a byte whose index is no multiple of `block_len`, lies in
      the block after the last multiple below it. */
  lemma ReadByBlock(len: nat, blockLen: nat, j: int)
    requires blockLen >= 1 && 0 <= j < len && (j == 0 || j % blockLen != 0)
    ensures Sampled(len, blockLen, j)
  {
    var m := j / blockLen;
    assert j == m * blockLen + j % blockLen;
    var i := m + 1;
    FloorDivBound(len - 1, blockLen, m);
    MulMonotone(m, m, blockLen);
    assert i * blockLen == m * blockLen + blockLen;
    assert 1 <= i <= BlockCount(len, blockLen);
    assert InBlock(blockLen, i, j);
  }

  /** A non-zero multiple of `block_len` is the byte between two blocks. */
  lemma SkippedByAll(len: nat, blockLen: nat, j: int)
    requires blockLen >= 1 && 0 < j < len && j % blockLen == 0
    ensures !Sampled(len, blockLen, j)
  {
    var m := j / blockLen;
    assert j == m * blockLen;
    forall i | 1 <= i <= BlockCount(len, blockLen)
      ensures !InBlock(blockLen, i, j)
    {
      if i <= m {
        MulMonotone(i, m, blockLen);
      } else {
        MulMonotone(m, i - 1, blockLen);
      }
    }
  }


  /** With `block_len` 1 every block after the first is empty. */
  lemma UnitBlocksEmpty(content: seq<Byte>, i: nat)
    requires |content| > 0 && 2 <= i <= BlockCount(|content|, 1)
    ensures Block(content, 1, i) == []
  {
  }

  /** Every section sample is the mean of its block's entropy and the
      previous block's, the first being half its block's entropy; with
      entropy in [0, 1], so are the samples. */
  lemma SectionSamplesMeaning(content: seq<Byte>, blockSize: int, ent: EntropyFn)
    requires SectionSamples(content, blockSize, ent).Ok?
    ensures
      var samples := SectionSamples(content, blockSize, ent).value;
      var blocks := Blocks(content, BlockLen(|content|, blockSize));
      && |samples| == |blocks|
      && samples[0] == ent(blocks[0]) / 2.0
      && (forall k :: 0 < k < |samples| ==> samples[k] == (ent(blocks[k]) + ent(blocks[k - 1])) / 2.0)
      && (Normalized(ent) ==> forall k :: 0 <= k < |samples| ==> 0.0 <= samples[k] <= 1.0)
  {
    var blocks := Blocks(content, BlockLen(|content|, blockSize));
    SmoothedEntropies(blocks, ent);
  }
}
