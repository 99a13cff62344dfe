/** The byte histograms of `section_byte_occurance_histogram` and `bin_hist`
    (the two functions build the same rows): a row of counts ordered by byte
    value, and the same counts sorted largest first. */
module Histogram {
  import opened Results
  import opened Bytes

  /** The first byte value a row covers: `range(ignore_0, 256)`. */
  function FirstValue(ignoreZero: bool): nat
  {
    if ignoreZero then 1 else 0
  }

  /** `Counter(data)[x]` for `n` consecutive values `x` from `lo`. */
  function CountsFrom(data: seq<Byte>, lo: nat, n: nat): (row: seq<nat>)
    ensures |row| == n
    ensures forall k :: 0 <= k < n ==> row[k] == Count(data, lo + k)
    decreases n
  {
    if n == 0 then [] else [Count(data, lo)] + CountsFrom(data, lo + 1, n - 1)
  }

  /** The value-ordered row: one count per byte value from `ignore_0` to 255. */
  function ValueRow(data: seq<Byte>, ignoreZero: bool): (row: seq<nat>)
    ensures |row| == 256 - FirstValue(ignoreZero)
    ensures forall k :: 0 <= k < |row| ==> row[k] == Count(data, FirstValue(ignoreZero) + k)
  {
    CountsFrom(data, FirstValue(ignoreZero), 256 - FirstValue(ignoreZero))
  }

  function Sum(s: seq<nat>): nat
  {
    if |s| == 0 then 0 else s[0] + Sum(s[1..])
  }

  /** The integers from `lo` up to but excluding `hi`. */
  function Range(lo: int, hi: int): (r: set<int>)
    ensures forall x :: x in r <==> lo <= x < hi
    decreases hi - lo
  {
    if hi <= lo then {} else {lo} + Range(lo + 1, hi)
  }

  /** Summing the counts of consecutive values counts the bytes in that
      value range. */
  lemma {:induction false} SumCountsFrom(data: seq<Byte>, lo: nat, n: nat)
    ensures Sum(CountsFrom(data, lo, n)) == CountIn(data, Range(lo, lo + n))
    decreases n
  {
    if n == 0 {
      CountInEmpty(data);
      assert Range(lo, lo) == {};
    } else {
      SumCountsFrom(data, lo + 1, n - 1);
      assert Range(lo, lo + n) == Range(lo + 1, lo + n) + {lo};
      CountInInsert(data, Range(lo + 1, lo + n), lo);
    }
  }

  /** Counts of the values from `lo` (0 or 1) up to a bound above every
      byte add up to the number of bytes, less the zero bytes when `lo` is 1. */
  lemma SumCountsBelow(data: seq<Byte>, lo: nat, hi: nat)
    requires lo <= 1 <= hi && forall i :: 0 <= i < |data| ==> data[i] < hi
    ensures Sum(CountsFrom(data, lo, hi - lo)) == |data| - (if lo == 1 then Count(data, 0) else 0)
  {
    SumCountsFrom(data, lo, hi - lo);
    CountInAll(data, Range(0, hi));
    if lo == 1 {
      assert Range(0, hi) == Range(1, hi) + {0};
      CountInInsert(data, Range(1, hi), 0);
    }
  }

  /** The row's counts add up to the number of bytes, less the zero bytes
      when zeros are ignored. */
  lemma ValueRowSum(data: seq<Byte>, ignoreZero: bool)
    ensures Sum(ValueRow(data, ignoreZero)) == |data| - (if ignoreZero then Count(data, 0) else 0)
  {
    SumCountsBelow(data, FirstValue(ignoreZero), 256);
  }

  predicate Ascending(s: seq<nat>)
  {
    forall i, j :: 0 <= i < j < |s| ==> s[i] <= s[j]
  }

  predicate NonIncreasing(s: seq<nat>)
  {
    forall i, j :: 0 <= i < j < |s| ==> s[i] >= s[j]
  }

  /** Inserts `x` into an ascending list, keeping it ascending. */
  function Insert(x: nat, s: seq<nat>): (r: seq<nat>)
    requires Ascending(s)
    ensures Ascending(r)
    ensures multiset(r) == multiset(s) + multiset{x}
  {
    if |s| == 0 then [x]
    else if x <= s[0] then
      InsertFront(x, s);
      [x] + s
    else
      AscendingTail(s);
      var t := Insert(x, s[1..]);
      InsertBehind(x, s, t);
      [s[0]] + t
  }

  /** A value no larger than the head of an ascending list may lead it. */
  lemma InsertFront(x: nat, s: seq<nat>)
    requires Ascending(s) && |s| > 0 && x <= s[0]
    ensures Ascending([x] + s)
  {
    assert forall k :: 0 <= k < |s| ==> s[0] <= s[k];
    AscendingCons(x, s);
  }

  /** The tail of an ascending list is ascending. */
  lemma AscendingTail(s: seq<nat>)
    requires Ascending(s) && |s| > 0
    ensures Ascending(s[1..])
  {
    var tail := s[1..];
    assert forall k :: 0 <= k < |tail| ==> tail[k] == s[k + 1];
  }

  /** Inserting behind a smaller head: the head still leads the result. */
  lemma InsertBehind(x: nat, s: seq<nat>, t: seq<nat>)
    requires Ascending(s) && |s| > 0 && s[0] < x
    requires Ascending(t) && multiset(t) == multiset(s[1..]) + multiset{x}
    ensures Ascending([s[0]] + t)
    ensures multiset([s[0]] + t) == multiset(s) + multiset{x}
  {
    var tail := s[1..];
    assert s == [s[0]] + tail;
    assert forall k :: 0 <= k < |tail| ==> tail[k] == s[k + 1];
    LeastOfInsert(s[0], x, tail, t);
    AscendingCons(s[0], t);
    assert multiset([s[0]] + t) == multiset{s[0]} + multiset(t);
  }

  /** A lower bound of `x` and of a list bounds what inserting `x` gives. */
  lemma LeastOfInsert(h: nat, x: nat, s: seq<nat>, t: seq<nat>)
    requires h <= x && forall k :: 0 <= k < |s| ==> h <= s[k]
    requires multiset(t) == multiset(s) + multiset{x}
    ensures forall k :: 0 <= k < |t| ==> h <= t[k]
  {
    forall k | 0 <= k < |t| ensures h <= t[k] {
      assert t[k] in multiset(t);
      if t[k] != x {
        assert t[k] in multiset(s);
      }
    }
  }

  /** A value at most every element of an ascending list may lead it. */
  lemma AscendingCons(h: nat, t: seq<nat>)
    requires Ascending(t)
    requires forall k :: 0 <= k < |t| ==> h <= t[k]
    ensures Ascending([h] + t)
  {
    var r := [h] + t;
    forall i, j | 0 <= i < j < |r| ensures r[i] <= r[j] {
      if i > 0 {
        assert r[i] == t[i - 1] && r[j] == t[j - 1];
      } else {
        assert r[j] == t[j - 1];
      }
    }
  }

  /** `list.sort()` on integers: the ascending arrangement of the counts. */
  function SortAscending(s: seq<nat>): (r: seq<nat>)
    ensures Ascending(r)
    ensures multiset(r) == multiset(s)
  {
    if |s| == 0 then []
    else
      assert s == [s[0]] + s[1..];
      Insert(s[0], SortAscending(s[1..]))
  }

  /** `list.reverse()`. */
  function Reverse(s: seq<nat>): (r: seq<nat>)
    ensures |r| == |s|
    ensures forall i :: 0 <= i < |s| ==> r[i] == s[|s| - 1 - i]
    ensures multiset(r) == multiset(s)
  {
    if |s| == 0 then []
    else
      assert s == [s[0]] + s[1..];
      Reverse(s[1..]) + [s[0]]
  }

  /** `sorted_row.sort(); sorted_row.reverse()`: the result is
      non-increasing and holds the same counts as `row`. */
  function OrderedRow(row: seq<nat>): (ordered: seq<nat>)
    ensures NonIncreasing(ordered)
    ensures multiset(ordered) == multiset(row)
  {
    Reverse(SortAscending(row))
  }

  /** The head of a non-increasing list is its largest element. */
  lemma HeadIsLargest(a: seq<nat>, x: nat)
    requires NonIncreasing(a) && x in multiset(a)
    ensures |a| > 0 && x <= a[0]
  {
    assert x in a;
  }

  /** Two non-increasing arrangements of one multiset start alike and
      continue with arrangements of one multiset. */
  lemma SameHeadSameTail(a: seq<nat>, b: seq<nat>)
    requires NonIncreasing(a) && NonIncreasing(b) && multiset(a) == multiset(b) && |a| > 0
    ensures |b| > 0 && a[0] == b[0]
    ensures multiset(a[1..]) == multiset(b[1..])
    ensures NonIncreasing(a[1..]) && NonIncreasing(b[1..])
  {
    assert a[0] in multiset(a);
    HeadIsLargest(b, a[0]);
    assert b[0] in multiset(b);
    HeadIsLargest(a, b[0]);
    DropHead(a);
    DropHead(b);
  }

  /** Dropping the head of a non-increasing list leaves a non-increasing
      list of the other values. */
  lemma DropHead(a: seq<nat>)
    requires NonIncreasing(a) && |a| > 0
    ensures multiset(a[1..]) == multiset(a) - multiset{a[0]}
    ensures NonIncreasing(a[1..])
  {
    var tail := a[1..];
    assert a == [a[0]] + tail;
    assert forall k :: 0 <= k < |tail| ==> tail[k] == a[k + 1];
  }

  /** A non-increasing arrangement of a multiset of counts is unique, so any
      correct descending sort yields exactly the ordered row. */
  lemma {:induction false} DescendingPermutationUnique(a: seq<nat>, b: seq<nat>)
    requires NonIncreasing(a) && NonIncreasing(b) && multiset(a) == multiset(b)
    ensures a == b
    decreases |a|
  {
    if |a| == 0 {
      assert |b| == |multiset(b)| == |multiset(a)| == 0;
    } else {
      SameHeadSameTail(a, b);
      DescendingPermutationUnique(a[1..], b[1..]);
      calc {
        a;
        [a[0]] + a[1..];
        [b[0]] + b[1..];
        b;
      }
    }
  }

  /** The two rows the histogram functions plot; the ordered row only when
      `ordered` is set. */
  datatype Rows = Rows(valueRow: seq<nat>, orderedRow: Option<seq<nat>>)

  /** Both histogram rows of a byte sequence. */
  function ByteHistogram(data: seq<Byte>, ignoreZero: bool, ordered: bool): (h: Rows)
    ensures |h.valueRow| == 256 - FirstValue(ignoreZero)
    ensures ordered <==> h.orderedRow.Some?
  {
    var row := ValueRow(data, ignoreZero);
    Rows(row, if ordered then Some(OrderedRow(row)) else None)
  }

  /** The value-ordered row has `256 - ignore_0` entries, the count of byte
      `x` at `x - ignore_0`, summing to the bytes considered; when requested,
      the ordered row is a non-increasing permutation of it. */
  lemma ByteHistogramRows(data: seq<Byte>, ignoreZero: bool, ordered: bool)
    ensures
      var h := ByteHistogram(data, ignoreZero, ordered);
      && |h.valueRow| == 256 - FirstValue(ignoreZero)
      && (forall x :: FirstValue(ignoreZero) <= x < 256 ==> h.valueRow[x - FirstValue(ignoreZero)] == Count(data, x))
      && Sum(h.valueRow) == |data| - (if ignoreZero then Count(data, 0) else 0)
      && (ordered <==> h.orderedRow.Some?)
      && (ordered ==> NonIncreasing(h.orderedRow.value) && multiset(h.orderedRow.value) == multiset(h.valueRow))
  {
    ValueRowSum(data, ignoreZero);
  }
}
