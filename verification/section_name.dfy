/** `fix_section_name`: a section whose name is missing or empty is
    reported as `sect_<index>`. */
module SectionName {
  import opened Results

  predicate IsDigit(c: char)
  {
    '0' <= c <= '9'
  }

  predicate AllDigits(s: string)
  {
    forall i :: 0 <= i < |s| ==> IsDigit(s[i])
  }

  function DigitChar(d: nat): (c: char)
    requires d < 10
    ensures IsDigit(c)
  {
    ('0' as int + d) as char
  }

  /** `str(n)` for a non-negative integer: decimal digits, no leading zero. */
  function NatToDecimal(n: nat): (s: string)
    ensures 0 < |s| && AllDigits(s)
    ensures |s| > 1 ==> s[0] != '0'
    decreases n
  {
    if n < 10 then [DigitChar(n)] else NatToDecimal(n / 10) + [DigitChar(n % 10)]
  }

  /** The number a string of decimal digits denotes. */
  function DecimalValue(s: string): nat
    requires AllDigits(s)
  {
    if |s| == 0 then 0
    else DecimalValue(s[..|s| - 1]) * 10 + (s[|s| - 1] as int - '0' as int)
  }

  /** Reading back the decimal text of `n` gives `n`. */
  lemma {:induction false} DecimalRoundTrip(n: nat)
    ensures DecimalValue(NatToDecimal(n)) == n
    decreases n
  {
    if n >= 10 {
      DecimalRoundTrip(n / 10);
      var s := NatToDecimal(n);
      assert s[..|s| - 1] == NatToDecimal(n / 10);
    }
  }

  /** Two indices never share a default name. */
  lemma NatToDecimalInjective(m: nat, n: nat)
    requires NatToDecimal(m) == NatToDecimal(n)
    ensures m == n
  {
    DecimalRoundTrip(m);
    DecimalRoundTrip(n);
  }

  /** Digits with a non-zero lead denote a positive number. */
  lemma {:induction false} LeadingDigitPositive(s: string)
    requires AllDigits(s) && |s| > 0 && s[0] != '0'
    ensures DecimalValue(s) >= 1
    decreases |s|
  {
    if |s| > 1 {
      var init := s[..|s| - 1];
      assert init[0] == s[0];
      LeadingDigitPositive(init);
    }
  }

  /** Decimal text without a leading zero is the text of the number it
      denotes: such text is unique. */
  lemma {:induction false} DecimalTextUnique(t: string)
    requires AllDigits(t) && |t| > 0 && (|t| > 1 ==> t[0] != '0')
    ensures t == NatToDecimal(DecimalValue(t))
    decreases |t|
  {
    var d := t[|t| - 1] as int - '0' as int;
    assert 0 <= d < 10;
    assert DigitChar(d) == t[|t| - 1];
    if |t| == 1 {
      assert DecimalValue(t) == d;
    } else {
      var init := t[..|t| - 1];
      assert init[0] == t[0];
      DecimalTextUnique(init);
      LeadingDigitPositive(init);
      var v := DecimalValue(t);
      assert v == DecimalValue(init) * 10 + d;
      assert v / 10 == DecimalValue(init) && v % 10 == d;
      assert t == init + [t[|t| - 1]];
    }
  }

  /** The name a section is shown under: a present, non-empty name is kept;
      otherwise it is `sect_` followed by digits that read back as the
      section's index. The result is never empty. */
  function FixSectionName(name: Option<string>, index: nat): (r: string)
    ensures |r| > 0
    ensures name.Some? && name.value != "" ==> r == name.value
    ensures name.None? || name.value == "" ==>
      && |r| > 5 && r[..5] == "sect_" && AllDigits(r[5..]) && DecimalValue(r[5..]) == index
      && (|r| > 6 ==> r[5] != '0')
  {
    if name == Some("") || name == None then
      DecimalRoundTrip(index);
      var r := "sect_" + NatToDecimal(index);
      assert r[5..] == NatToDecimal(index);
      r
    else name.value
  }

  /** The default name is exactly `'sect_' + str(index)`. */
  lemma DefaultNameIsSectIndex(name: Option<string>, index: nat)
    requires name.None? || name.value == ""
    ensures FixSectionName(name, index) == "sect_" + NatToDecimal(index)
  {
    var r := FixSectionName(name, index);
    var t := r[5..];
    if |t| > 1 {
      assert t[0] == r[5];
    }
    DecimalTextUnique(t);
    assert r == r[..5] + t;
  }
}
