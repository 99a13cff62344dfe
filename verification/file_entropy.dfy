/** `bin_ent`'s numeric part: the file is cut into chunks of
    `-(-fs // chunks)` bytes, each chunk gives one entropy sample and, per
    tracked-byte group, one percentage. */
module FileEntropy {
  import opened Results
  import opened Bytes
  import opened PyArith
  import opened Chunking
  import opened Smoothing

  /** The series `bin_ent` hands to the plotting code. */
  datatype EntReport = EntReport(
    chunkSize: int,                       // the rounded-up chunk size
    samples: seq<real>,                   // one entropy value per chunk
    byteRanges: map<string, seq<real>>)   // per group, one percentage per chunk

  /** `100 * occurrences / len(chunk)` for one group's byte list. */
  function Percentage(chunk: seq<Byte>, bs: seq<int>): (p: real)
    requires |chunk| > 0
    ensures 0.0 <= p
    ensures p == 0.0 <==> forall k :: 0 <= k < |bs| ==> bs[k] !in chunk
  {
    ShareSign(Occurrences(chunk, bs), |chunk|);
    (Occurrences(chunk, bs) as real / |chunk| as real) * 100.0
  }

  /** One percentage per chunk for one group's byte list. */
  function PercentSeries(cs: seq<seq<Byte>>, bs: seq<int>): seq<real>
    requires forall i :: 0 <= i < |cs| ==> 0 < |cs[i]|
  {
    seq(|cs|, i requires 0 <= i < |cs| => Percentage(cs[i], bs))
  }

  /** Reference definition of `bin_ent`'s series: the samples are the raw
      chunk entropies and each group's series holds one percentage per chunk.
      A chunk count of 0 raises ZeroDivisionError; a negative count at most
      half the file size makes the chunk size fall below -1, and the first
      `fh.read` raises ValueError. */
  function BinEntSpec(data: seq<Byte>, chunks: int, ibytes: map<string, seq<int>>, ent: EntropyFn): (r: Result<EntReport>)
    ensures r == Err(ZeroDivision) <==> chunks == 0
    ensures r == Err(ReadSize) <==> chunks < 0 && |data| >= -2 * chunks
    ensures r.Err? <==> chunks == 0 || (chunks < 0 && |data| >= -2 * chunks)
    ensures r.Ok? ==> r.value.byteRanges.Keys == ibytes.Keys
    ensures r.Ok? ==> forall group :: group in r.value.byteRanges ==> |r.value.byteRanges[group]| == |r.value.samples|
  {
    if chunks == 0 then Err(ZeroDivision)
    else
      var size := CeilDiv(|data|, chunks);
      CeilDivBelowMinusOne(|data|, chunks);
      var read := ReadChunks(data, size);
      if read.Err? then Err(read.error)
      else
        var cs := read.value;
        Ok(EntReport(
          size,
          Entropies(cs, ent),
          map group | group in ibytes :: PercentSeries(cs, ibytes[group])))
  }

  /** The inner loop over a group's byte list: `occurance += cbytes[b]`. */
  method CountOccurrences(chunk: seq<Byte>, bs: seq<int>) returns (occurance: nat)
    ensures occurance == Occurrences(chunk, bs)
  {
    occurance := 0;
    for k := 0 to |bs|
      invariant occurance == Occurrences(chunk, bs[..k])
    {
      assert bs[..k + 1][..k] == bs[..k];
      occurance := occurance + Count(chunk, bs[k]);
    }
    assert bs[..|bs|] == bs;
  }

  /** Appends this chunk's percentage to every group's series. The groups
      are visited in an order the model leaves open, and the result holds for
      every order, including the insertion order `ibytes.items()` follows. */
  method AppendPercentages(chunk: seq<Byte>, ibytes: map<string, seq<int>>, byteRanges: map<string, seq<real>>)
    returns (updated: map<string, seq<real>>)
    requires |chunk| > 0
    requires byteRanges.Keys == ibytes.Keys
    ensures updated.Keys == ibytes.Keys
    ensures forall group :: group in updated ==> updated[group] == byteRanges[group] + [Percentage(chunk, ibytes[group])]
  {
    updated := byteRanges;
    var todo := ibytes.Keys;
    while todo != {}
      invariant todo <= ibytes.Keys
      invariant updated.Keys == ibytes.Keys
      invariant forall group :: group in updated && group in todo ==> updated[group] == byteRanges[group]
      invariant forall group :: group in updated && group !in todo ==>
        updated[group] == byteRanges[group] + [Percentage(chunk, ibytes[group])]
      decreases todo
    {
      var group :| group in todo;
      var occurance := CountOccurrences(chunk, ibytes[group]);
      updated := updated[group := updated[group] + [(occurance as real / |chunk| as real) * 100.0]];
      todo := todo - {group};
    }
  }

  /** Appending chunk `k`'s percentage to every group's series of the first
      `k` chunks gives the series of the first `k + 1`. */
  lemma SeriesStep(cs: seq<seq<Byte>>, k: nat, ibytes: map<string, seq<int>>,
                   before: map<string, seq<real>>, after: map<string, seq<real>>)
    requires k < |cs| && forall i :: 0 <= i < |cs| ==> 0 < |cs[i]|
    requires before.Keys == ibytes.Keys && after.Keys == ibytes.Keys
    requires forall group :: group in before ==> before[group] == PercentSeries(cs[..k], ibytes[group])
    requires forall group :: group in after ==> after[group] == before[group] + [Percentage(cs[k], ibytes[group])]
    ensures forall group :: group in after ==> after[group] == PercentSeries(cs[..k + 1], ibytes[group])
  {
    forall group | group in after
      ensures after[group] == PercentSeries(cs[..k + 1], ibytes[group])
    {
      PercentSeriesSnoc(cs, k, ibytes[group]);
    }
  }

  lemma PercentSeriesSnoc(cs: seq<seq<Byte>>, k: nat, bs: seq<int>)
    requires k < |cs| && forall i :: 0 <= i < |cs| ==> 0 < |cs[i]|
    ensures PercentSeries(cs[..k + 1], bs) == PercentSeries(cs[..k], bs) + [Percentage(cs[k], bs)]
  {
  }

  /** The body of `bin_ent`'s `for chunk in get_chunk(...)` loop. The median
      computed for each chunk is overwritten by the raw entropy before it is
      stored, so the samples are unsmoothed. */
  method SampleChunks(cs: seq<seq<Byte>>, ibytes: map<string, seq<int>>, ent: EntropyFn)
    returns (samples: seq<real>, byteRanges: map<string, seq<real>>)
    requires forall i :: 0 <= i < |cs| ==> 0 < |cs[i]|
    ensures samples == Entropies(cs, ent)
    ensures byteRanges == map group | group in ibytes :: PercentSeries(cs, ibytes[group])
  {
    samples := [];
    byteRanges := map group | group in ibytes :: [];
    var prevEnt := 0.0;
    for k := 0 to |cs|
      invariant samples == Entropies(cs[..k], ent)
      invariant byteRanges.Keys == ibytes.Keys
      invariant forall group :: group in byteRanges ==> byteRanges[group] == PercentSeries(cs[..k], ibytes[group])
    {
      var chunk := cs[k];
      var realEnt := ent(chunk);
      var smoothed := Median2(realEnt, prevEnt);
      prevEnt := realEnt;
      smoothed := realEnt;
      samples := samples + [smoothed];
      EntropiesSnoc(cs, k, ent);
      if |ibytes| > 0 {
        ghost var before := byteRanges;
        byteRanges := AppendPercentages(chunk, ibytes, byteRanges);
        SeriesStep(cs, k, ibytes, before, byteRanges);
      }
    }
    assert cs[..|cs|] == cs;
  }

  /** `bin_ent` from the file size to the finished series. */
  method BinEnt(data: seq<Byte>, chunks: int, ibytes: map<string, seq<int>>, ent: EntropyFn) returns (r: Result<EntReport>)
    ensures r == BinEntSpec(data, chunks, ibytes, ent)
  {
    if chunks == 0 {
      return Err(ZeroDivision);
    }
    var chunkSize := CeilDiv(|data|, chunks);
    if chunkSize < -1 {
      return Err(ReadSize);
    }
    var cs := GetChunk(data, chunkSize);
    var samples, byteRanges := SampleChunks(cs, ibytes, ent);
    r := Ok(EntReport(chunkSize, samples, byteRanges));
  }

  /** A chunk count of 0 fails, and so does a negative one at most half the
      file size. With at least one chunk requested: the chunk size is the
      rounded-up `|data| / chunks`, there are `ceil(|data| / chunkSize)`
      samples and no more than requested, an empty file gives none, and
      every group series is index-aligned with the samples. A negative count
      that does not fail gives chunk size 0 and no samples when it exceeds the
      file size, and otherwise chunk size -1 and one sample of the whole
      file. */
  lemma BinEntShape(data: seq<Byte>, chunks: int, ibytes: map<string, seq<int>>, ent: EntropyFn)
    ensures BinEntSpec(data, chunks, ibytes, ent).Err? <==> chunks == 0 || (chunks < 0 && |data| >= -2 * chunks)
    ensures chunks < 0 && |data| < -2 * chunks ==>
      var rep := BinEntSpec(data, chunks, ibytes, ent).value;
      && (|data| < -chunks ==> rep.chunkSize == 0 && rep.samples == [])
      && (-chunks <= |data| ==> rep.chunkSize == -1 && rep.samples == [ent(data)])
    ensures chunks >= 1 ==>
      var rep := BinEntSpec(data, chunks, ibytes, ent).value;
      && (rep.chunkSize - 1) * chunks < |data| <= rep.chunkSize * chunks
      && (|data| == 0 <==> rep.samples == [])
      && (|data| > 0 ==> |rep.samples| == CeilDiv(|data|, rep.chunkSize) <= chunks)
      && rep.byteRanges.Keys == ibytes.Keys
      && (forall group :: group in rep.byteRanges ==> |rep.byteRanges[group]| == |rep.samples|)
  {
    if chunks >= 1 && |data| > 0 {
      var size := CeilDiv(|data|, chunks);
      GetChunkCount(data, size);
      CeilDivLeast(|data|, size, chunks);
    } else if chunks < 0 && |data| < -2 * chunks {
      CeilDivSmallNegative(|data|, chunks);
    }
  }

  /** Each sample is the raw entropy of its chunk, and the chunks are
      consecutive slices of the file that together make up all of it. */
  lemma BinEntSamples(data: seq<Byte>, chunks: int, ibytes: map<string, seq<int>>, ent: EntropyFn)
    requires chunks >= 1
    ensures
      var rep := BinEntSpec(data, chunks, ibytes, ent).value;
      var cs := GetChunk(data, rep.chunkSize);
      && |rep.samples| == |cs|
      && (forall i :: 0 <= i < |cs| ==> rep.samples[i] == ent(cs[i]))
      && Flatten(cs) == data
      && (forall i :: 0 <= i < |cs| ==> 0 < |cs[i]| <= rep.chunkSize)
      && (forall i :: 0 <= i < |cs| - 1 ==> |cs[i]| == rep.chunkSize)
  {
    var size := CeilDiv(|data|, chunks);
    if |data| > 0 {
      GetChunkFlatten(data, size);
      ChunkLengths(data, size);
    }
  }

  /** For a byte list without repeats the percentage is the share of the
      chunk's bytes whose value is listed: between 0 and 100, 100 exactly when
      every byte is listed and 0 exactly when none is. It never divides by
      zero, chunks being non-empty. */
  lemma PercentageOfDistinct(chunk: seq<Byte>, bs: seq<int>)
    requires |chunk| > 0 && Distinct(bs)
    ensures Percentage(chunk, bs) == (CountIn(chunk, ValuesOf(bs)) as real / |chunk| as real) * 100.0
    ensures 0.0 <= Percentage(chunk, bs) <= 100.0
    ensures Percentage(chunk, bs) == 100.0 <==> forall i :: 0 <= i < |chunk| ==> chunk[i] in bs
    ensures Percentage(chunk, bs) == 0.0 <==> forall i :: 0 <= i < |chunk| ==> chunk[i] !in bs
  {
    var values := ValuesOf(bs);
    var c := CountIn(chunk, values);
    OccurrencesOfDistinct(chunk, bs);
    assert Percentage(chunk, bs) == (c as real / |chunk| as real) * 100.0;
    ShareBounds(c, |chunk|);
    CountInAll(chunk, values);
    CountInNone(chunk, values);
    assert forall x :: x in values <==> x in bs;
  }

  /** `(n / len) * 100` for a count `n` out of `len`. */
  lemma ShareBounds(n: nat, len: nat)
    requires 0 < len && n <= len
    ensures 0.0 <= (n as real / len as real) * 100.0 <= 100.0
    ensures (n as real / len as real) * 100.0 == 100.0 <==> n == len
    ensures (n as real / len as real) * 100.0 == 0.0 <==> n == 0
  {
    var x := n as real;
    var l := len as real;
    var q := x / l;
    DivTimes(x, l);
    assert 1.0 * l == l && 0.0 * l == 0.0;
    Scale(q, 1.0, l);
    Scale(0.0, q, l);
    assert 0.0 <= q <= 1.0;
    assert q == 1.0 <==> x == l;
    assert q == 0.0 <==> x == 0.0;
    assert x == l <==> n == len;
  }

  /** `(n / len) * 100` is never negative and is 0 exactly when `n` is. */
  lemma ShareSign(n: nat, len: nat)
    requires 0 < len
    ensures 0.0 <= (n as real / len as real) * 100.0
    ensures (n as real / len as real) * 100.0 == 0.0 <==> n == 0
  {
    var x := n as real;
    var l := len as real;
    var q := x / l;
    DivTimes(x, l);
    assert 0.0 * l == 0.0;
    Scale(0.0, q, l);
    assert 0.0 <= q;
    assert q == 0.0 <==> x == 0.0;
  }

  /** Dividing by a positive real and multiplying back. */
  lemma DivTimes(x: real, l: real)
    requires l > 0.0
    ensures (x / l) * l == x
  {
  }

  /** Multiplying by a positive real keeps order and equality. */
  lemma Scale(a: real, b: real, l: real)
    requires l > 0.0
    ensures a <= b <==> a * l <= b * l
    ensures a == b <==> a * l == b * l
  {
    if a < b {
      assert b * l - a * l == (b - a) * l;
    } else if b < a {
      assert a * l - b * l == (a - b) * l;
    }
  }

  /** A file of zero bytes: every sample is the entropy of a constant chunk,
      0, and a group tracking only byte 0 reads 100 in every chunk. */
  lemma ZeroFileScenario(data: seq<Byte>, chunks: int, ibytes: map<string, seq<int>>, ent: EntropyFn, zeros: string)
    requires chunks >= 1 && ZeroOnConstant(ent)
    requires forall i :: 0 <= i < |data| ==> data[i] == 0
    requires zeros in ibytes && ibytes[zeros] == [0]
    ensures
      var rep := BinEntSpec(data, chunks, ibytes, ent).value;
      && (forall i :: 0 <= i < |rep.samples| ==> rep.samples[i] == 0.0)
      && (forall i :: 0 <= i < |rep.byteRanges[zeros]| ==> rep.byteRanges[zeros][i] == 100.0)
  {
    var size := CeilDiv(|data|, chunks);
    var cs := GetChunk(data, size);
    if |data| > 0 {
      forall i | 0 <= i < |cs|
        ensures AllEqual(cs[i])
        ensures Percentage(cs[i], [0]) == 100.0
      {
        GetChunkAt(data, size, i);
        assert forall j :: 0 <= j < |cs[i]| ==> cs[i][j] == 0;
        PercentageOfDistinct(cs[i], [0]);
      }
    }
  }
}
