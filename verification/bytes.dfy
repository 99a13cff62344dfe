/** Bytes and occurrence counting, the model of `collections.Counter` over a
    byte string. */
module Bytes {

  /** One byte of a file, as Python's `list(bytes)` yields it. */
  type Byte = b: int | 0 <= b < 256

  /** `Counter(s)[x]`: how often `x` occurs in `s`; 0 for any value that is
      not a byte. */
  function Count(s: seq<Byte>, x: int): (n: nat)
    ensures n <= |s|
    ensures n == 0 <==> x !in s
  {
    if |s| == 0 then 0
    else
      assert x in s <==> s[0] == x || x in s[1..];
      (if s[0] == x then 1 else 0) + Count(s[1..], x)
  }

  /** Count agrees with the multiset of the bytes. */
  lemma {:induction false} CountIsMultiplicity(s: seq<Byte>, x: Byte)
    ensures Count(s, x) == multiset(s)[x]
  {
    if |s| > 0 {
      CountIsMultiplicity(s[1..], x);
      assert s == [s[0]] + s[1..];
    }
  }

  /** How many bytes of `s` have a value in `values`. */
  function CountIn(s: seq<Byte>, values: set<int>): (n: nat)
    ensures n <= |s|
  {
    if |s| == 0 then 0
    else (if s[0] in values then 1 else 0) + CountIn(s[1..], values)
  }

  /** The sum of `Counter(s)[b]` over the list `bs`, duplicates counted each
      time they appear, in the list's order. */
  function Occurrences(s: seq<Byte>, bs: seq<int>): (n: nat)
    ensures n == 0 <==> forall k :: 0 <= k < |bs| ==> bs[k] !in s
  {
    if |bs| == 0 then 0
    else
      var init := bs[..|bs| - 1];
      assert forall k :: 0 <= k < |init| ==> init[k] == bs[k];
      Occurrences(s, init) + Count(s, bs[|bs| - 1])
  }

  /** The values a list holds. */
  function ValuesOf(bs: seq<int>): set<int>
  {
    set b | b in bs
  }

  /** A list without repeated entries. */
  predicate Distinct(bs: seq<int>)
  {
    forall i, j :: 0 <= i < j < |bs| ==> bs[i] != bs[j]
  }

  lemma {:induction false} CountInInsert(s: seq<Byte>, values: set<int>, b: int)
    requires b !in values
    ensures CountIn(s, values + {b}) == CountIn(s, values) + Count(s, b)
  {
    if |s| > 0 {
      CountInInsert(s[1..], values, b);
    }
  }

  /** For a list without repeats, summing per-value counts is counting the
      bytes whose value is in the list. */
  lemma {:induction false} OccurrencesOfDistinct(s: seq<Byte>, bs: seq<int>)
    requires Distinct(bs)
    ensures Occurrences(s, bs) == CountIn(s, ValuesOf(bs))
  {
    if |bs| == 0 {
      CountInEmpty(s);
      assert ValuesOf(bs) == {};
    } else {
      var init := bs[..|bs| - 1];
      var last := bs[|bs| - 1];
      OccurrencesOfDistinct(s, init);
      assert last !in ValuesOf(init) by {
        forall i | 0 <= i < |init| ensures init[i] != last {
          assert init[i] == bs[i];
        }
      }
      assert ValuesOf(bs) == ValuesOf(init) + {last} by {
        assert bs == init + [last];
      }
      CountInInsert(s, ValuesOf(init), last);
    }
  }

  lemma {:induction false} CountInEmpty(s: seq<Byte>)
    ensures CountIn(s, {}) == 0
  {
    if |s| > 0 {
      CountInEmpty(s[1..]);
    }
  }

  /** Every byte of `s` is counted exactly when all its values are in the set. */
  lemma {:induction false} CountInAll(s: seq<Byte>, values: set<int>)
    ensures CountIn(s, values) == |s| <==> forall i :: 0 <= i < |s| ==> s[i] in values
  {
    if |s| > 0 {
      CountInAll(s[1..], values);
      if forall i :: 0 <= i < |s| ==> s[i] in values {
        assert forall i :: 0 <= i < |s[1..]| ==> s[1..][i] in values by {
          forall i | 0 <= i < |s[1..]| ensures s[1..][i] in values {
            assert s[1..][i] == s[i + 1];
          }
        }
      } else {
        var i :| 0 <= i < |s| && s[i] !in values;
        if i > 0 {
          assert s[1..][i - 1] == s[i];
        }
      }
    }
  }

  /** No byte is counted exactly when no value of `s` is in the set. */
  lemma {:induction false} CountInNone(s: seq<Byte>, values: set<int>)
    ensures CountIn(s, values) == 0 <==> forall i :: 0 <= i < |s| ==> s[i] !in values
  {
    if |s| > 0 {
      CountInNone(s[1..], values);
      if forall i :: 0 <= i < |s| ==> s[i] !in values {
        forall i | 0 <= i < |s[1..]| ensures s[1..][i] !in values {
          assert s[1..][i] == s[i + 1];
        }
      } else {
        var i :| 0 <= i < |s| && s[i] in values;
        if i > 0 {
          assert s[1..][i - 1] == s[i];
        }
      }
    }
  }
}
