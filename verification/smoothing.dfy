/** Entropy samples and the two-point median smoothing. The Shannon entropy
    itself (NumPy logarithms) is not modelled: every operation takes the
    entropy as a function parameter, and the range the real function keeps
    is stated as a predicate on that parameter. */
module Smoothing {
  import opened Bytes

  /** The entropy of a byte sequence, normalised to base 256. */
  type EntropyFn = seq<Byte> -> real

  /** Normalised Shannon entropy lies in [0, 1]. */
  ghost predicate Normalized(ent: EntropyFn)
  {
    forall s :: 0.0 <= ent(s) <= 1.0
  }

  /** The entropy of each block, in order. */
  function Entropies(blocks: seq<seq<Byte>>, ent: EntropyFn): (raws: seq<real>)
    ensures |raws| == |blocks|
    ensures forall k :: 0 <= k < |blocks| ==> raws[k] == ent(blocks[k])
  {
    seq(|blocks|, k requires 0 <= k < |blocks| => ent(blocks[k]))
  }

  /** One more block, one more raw sample at the end. */
  lemma EntropiesSnoc(blocks: seq<seq<Byte>>, k: nat, ent: EntropyFn)
    requires k < |blocks|
    ensures Entropies(blocks[..k + 1], ent) == Entropies(blocks[..k], ent) + [ent(blocks[k])]
  {
  }

  /** Every byte of `s` has the same value. */
  predicate AllEqual(s: seq<Byte>)
  {
    forall i, j :: 0 <= i < |s| && 0 <= j < |s| ==> s[i] == s[j]
  }

  /** Shannon entropy of a single repeated value (or of nothing) is 0. */
  ghost predicate ZeroOnConstant(ent: EntropyFn)
  {
    forall s :: AllEqual(s) ==> ent(s) == 0.0
  }

  /** `statistics.median([a, b])`: the mean of the two middle values of the
      sorted list, which for two values is their mean. */
  function Median2(a: real, b: real): (m: real)
    ensures m == (a + b) / 2.0
  {
    var lo := if a <= b then a else b;
    var hi := if a <= b then b else a;
    (lo + hi) / 2.0
  }

  /** The raw sample before the next one: the last so far, or 0 at the start. */
  function Previous(raws: seq<real>): real
  {
    if |raws| == 0 then 0.0 else raws[|raws| - 1]
  }

  /** The smoothing loop: each raw sample, in order, is replaced by its
      median with the raw sample before it, the one before the first being 0. */
  function Smooth(raws: seq<real>): (smoothed: seq<real>)
    ensures |smoothed| == |raws|
    ensures |raws| > 0 ==> smoothed[0] == raws[0] / 2.0
    ensures forall k :: 0 < k < |raws| ==> smoothed[k] == (raws[k] + raws[k - 1]) / 2.0
  {
    if |raws| == 0 then []
    else
      var init := raws[..|raws| - 1];
      var r := Smooth(init) + [Median2(raws[|raws| - 1], Previous(init))];
      assert forall k :: 0 <= k < |init| ==> r[k] == Smooth(init)[k] && init[k] == raws[k];
      r
  }

  /** Smoothing one more raw sample appends its median with the previous one. */
  lemma SmoothSnoc(raws: seq<real>, x: real)
    ensures Smooth(raws + [x]) == Smooth(raws) + [Median2(x, Previous(raws))]
  {
    assert (raws + [x])[..|raws|] == raws;
  }

  /** Smoothing keeps samples inside [0, 1]. */
  lemma SmoothBounded(raws: seq<real>)
    requires forall k :: 0 <= k < |raws| ==> 0.0 <= raws[k] <= 1.0
    ensures forall k :: 0 <= k < |raws| ==> 0.0 <= Smooth(raws)[k] <= 1.0
  {
  }

  /** The smoothed entropies of a block sequence: the first is half the
      first block's entropy, each later one the mean of its block's and the
      previous block's; normalised entropy keeps them in [0, 1]. */
  lemma SmoothedEntropies(blocks: seq<seq<Byte>>, ent: EntropyFn)
    requires |blocks| > 0
    ensures
      var samples := Smooth(Entropies(blocks, ent));
      && |samples| == |blocks|
      && samples[0] == ent(blocks[0]) / 2.0
      && (forall k :: 0 < k < |samples| ==> samples[k] == (ent(blocks[k]) + ent(blocks[k - 1])) / 2.0)
      && (Normalized(ent) ==> forall k :: 0 <= k < |samples| ==> 0.0 <= samples[k] <= 1.0)
  {
    var raws := Entropies(blocks, ent);
    if Normalized(ent) {
      SmoothBounded(raws);
    }
  }
}
