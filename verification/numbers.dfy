/**
 * The numeric extractors of the converter: `extract_gYear`
 * (tools/convert_to_rdf/convert_to_rdf.py lines 139-160) and the unanchored
 * searches `\d+` and `\d+(?:\.\d+)?` used for folio counts and page
 * dimensions (lines 405-418).
 */
module Numbers {
  import opened Wrappers
  import opened Text

  /** `\b\d+\b` matches a whole digit run starting at `i`. */
  predicate DigitRunAt(s: string, i: nat) {
    && i < |s|
    && IsDigit(s[i])
    && BoundaryBefore(s, i)
    && BoundaryAfter(s, SpanEnd(s, i, IsDigit))
  }

  function RunLength(s: string, i: nat): nat
    requires i <= |s|
  {
    SpanEnd(s, i, IsDigit) - i
  }

  /** A word-bounded run of four or more digits starts at `i`. */
  predicate LongRunAt(s: string, i: nat) {
    DigitRunAt(s, i) && RunLength(s, i) >= 4
  }

  /** A word-bounded run of exactly three digits starts at `i`. */
  predicate ShortRunAt(s: string, i: nat) {
    DigitRunAt(s, i) && RunLength(s, i) == 3
  }

  /** A lexical `xsd:gYear` as the converter writes it: exactly four digits. */
  predicate IsGYear(y: string) {
    |y| == 4 && All(y, IsDigit)
  }

  /**
   * `extract_gYear`: the first four digits of the leftmost bounded run of four or
   * more digits; failing that, the leftmost bounded run of exactly three digits
   * with a leading zero; otherwise nothing.
   */
  function ExtractGYear(text: Option<string>): (y: Option<string>)
    ensures text.None? ==> y.None?
    ensures y.Some? ==> IsGYear(y.value)
    ensures text.Some? ==>
      (y.Some? <==> exists i: nat :: LongRunAt(text.value, i) || ShortRunAt(text.value, i))
    ensures text.Some? && y.Some? && (exists i: nat :: LongRunAt(text.value, i)) ==>
      exists i: nat :: LongRunAt(text.value, i) && y.value == text.value[i..i + 4]
                    && forall k: nat :: k < i ==> !LongRunAt(text.value, k)
    ensures text.Some? && y.Some? && (forall i: nat :: !LongRunAt(text.value, i)) ==>
      exists i: nat :: ShortRunAt(text.value, i) && y.value == "0" + text.value[i..i + 3]
                    && forall k: nat :: k < i ==> !ShortRunAt(text.value, k)
  {
    if text.None? || text.value == "" then None
    else
      var s := text.value;
      match FirstAt(|s|, 0, (i: nat) => LongRunAt(s, i))
      case Some(i) =>
        assert forall k: nat :: k < i ==> !LongRunAt(s, k) by {
          forall k: nat | k < i ensures !LongRunAt(s, k) {
            assert !((i: nat) => LongRunAt(s, i))(k);
          }
        }
        Some(s[i..i + 4])
      case None =>
        assert forall k: nat :: !LongRunAt(s, k) by {
          forall k: nat ensures !LongRunAt(s, k) {
            if k < |s| {
              assert !((i: nat) => LongRunAt(s, i))(k);
            }
          }
        }
        match FirstAt(|s|, 0, (i: nat) => ShortRunAt(s, i))
        case Some(i) =>
          assert forall k: nat :: k < i ==> !ShortRunAt(s, k) by {
            forall k: nat | k < i ensures !ShortRunAt(s, k) {
              assert !((i: nat) => ShortRunAt(s, i))(k);
            }
          }
          Some("0" + s[i..i + 3])
        case None =>
          assert forall k: nat :: !ShortRunAt(s, k) by {
            forall k: nat ensures !ShortRunAt(s, k) {
              if k < |s| {
                assert !((i: nat) => ShortRunAt(s, i))(k);
              }
            }
          }
          None
  }

  /** "c. 845 AD": the only bounded run has three digits, so it is padded. */
  lemma GYearCirca845()
    ensures ExtractGYear(Some("c. 845 AD")) == Some("0845")
  {
    var s := "c. 845 AD";
    SpanEndUnique(s, 3, IsDigit, 6);
    assert ShortRunAt(s, 3);
    forall k: nat ensures !LongRunAt(s, k) {
      if k != 3 && k < |s| {
        assert !IsDigit(s[k]) || !BoundaryBefore(s, k);
      }
    }
    assert forall k: nat :: k < 3 ==> !ShortRunAt(s, k);
    var y := ExtractGYear(Some(s));
    var i: nat :| ShortRunAt(s, i) && y.value == "0" + s[i..i + 3]
                 && forall k: nat :: k < i ==> !ShortRunAt(s, k);
    assert i == 3;
    assert s[3..6] == "845";
    assert "0" + "845" == "0845";
  }

  /** "circa 1200-1250": the first of two long runs wins. */
  lemma GYearCirca1200()
    ensures ExtractGYear(Some("circa 1200-1250")) == Some("1200")
  {
    var s := "circa 1200-1250";
    SpanEndUnique(s, 6, IsDigit, 10);
    assert LongRunAt(s, 6);
    assert forall k: nat :: k < 6 ==> !LongRunAt(s, k);
    assert s[6..10] == "1200";
  }

  /** "9th century": a one-digit run glued to letters is no year at all. */
  lemma GYearNinthCentury()
    ensures ExtractGYear(Some("9th century")) == None
  {
    NinthCenturyHasNoRun();
  }

  lemma NinthCenturyHasNoRun()
    ensures forall k: nat :: !DigitRunAt("9th century", k)
  {
    var s := "9th century";
    forall k: nat ensures !DigitRunAt(s, k) {
      if k == 0 {
        SpanEndUnique(s, 0, IsDigit, 1);
      } else if k < |s| {
        assert !IsDigit(s[k]);
      }
    }
  }

  /** "850/851": the leftmost three-digit run wins, not the last. */
  lemma GYear850Slash851()
    ensures ExtractGYear(Some("850/851")) == Some("0850")
  {
    var s := "850/851";
    SpanEndUnique(s, 0, IsDigit, 3);
    assert ShortRunAt(s, 0);
    NoLongRunIn850Slash851();
    var y := ExtractGYear(Some(s));
    var i: nat :| ShortRunAt(s, i) && y.value == "0" + s[i..i + 3]
                 && forall k: nat :: k < i ==> !ShortRunAt(s, k);
    assert i == 0;
    assert s[0..3] == "850";
    assert "0" + "850" == "0850";
  }

  lemma NoLongRunIn850Slash851()
    ensures forall k: nat :: !LongRunAt("850/851", k)
  {
    var s := "850/851";
    forall k: nat ensures !LongRunAt(s, k) {
      if k == 0 {
        SpanEndUnique(s, 0, IsDigit, 3);
      } else if k == 4 {
        SpanEndUnique(s, 4, IsDigit, 7);
      } else if k < |s| {
        assert !IsDigit(s[k]) || !BoundaryBefore(s, k);
      }
    }
  }

  /** A long run later in the text beats an earlier three-digit run: "850 or 1200" gives 1200. */
  lemma GYearLongRunPreferred()
    ensures ExtractGYear(Some("850 or 1200")) == Some("1200")
  {
    var s := "850 or 1200";
    SpanEndUnique(s, 7, IsDigit, 11);
    assert LongRunAt(s, 7);
    forall k: nat | k < 7 ensures !LongRunAt(s, k) {
      if k == 0 {
        SpanEndUnique(s, 0, IsDigit, 3);
      } else {
        assert !BoundaryBefore(s, k) || !IsDigit(s[k]);
      }
    }
    assert s[7..11] == "1200";
  }

  function DigitValue(c: char): nat
    requires IsDigit(c)
  {
    c as int - '0' as int
  }

  /** Python's `int()` on a string of ASCII digits. */
  function DecimalValue(ds: string): nat
    requires All(ds, IsDigit)
    decreases |ds|
  {
    if ds == [] then 0 else 10 * DecimalValue(ds[..|ds| - 1]) + DigitValue(ds[|ds| - 1])
  }

  /** The decimal numeral of `n` without leading zeros (`str(n)`). */
  function DecimalText(n: nat): (ds: string)
    ensures |ds| > 0 && All(ds, IsDigit)
    ensures |ds| > 1 ==> ds[0] != '0'
    decreases n
  {
    var last := [('0' as int + n % 10) as char];
    if n < 10 then last else DecimalText(n / 10) + last
  }

  /** Reading back the numeral of `n` gives `n`: the integer literal's lexical form round-trips. */
  lemma {:induction false} DecimalValueOfText(n: nat)
    ensures DecimalValue(DecimalText(n)) == n
    decreases n
  {
    var ds := DecimalText(n);
    if n >= 10 {
      DecimalValueOfText(n / 10);
      assert ds[..|ds| - 1] == DecimalText(n / 10);
    }
  }

  /** `int()` ignores leading zeros: "007" reads as 7. */
  lemma {:induction false} DecimalValueLeadingZero(ds: string)
    requires All(ds, IsDigit)
    ensures DecimalValue("0" + ds) == DecimalValue(ds)
    decreases |ds|
  {
    if ds != [] {
      var ds' := ds[..|ds| - 1];
      DecimalValueLeadingZero(ds');
      assert ("0" + ds)[..|"0" + ds| - 1] == "0" + ds';
    }
  }

  /** `i` holds the first digit of `s`: where an unanchored `\d` search starts its match. */
  predicate FirstDigitAt(s: string, i: nat) {
    i < |s| && IsDigit(s[i]) && forall k :: 0 <= k < i ==> !IsDigit(s[k])
  }

  function FirstDigit(s: string): (i: Option<nat>)
    ensures i.Some? ==> FirstDigitAt(s, i.value)
    ensures i.None? ==> forall k :: 0 <= k < |s| ==> !IsDigit(s[k])
  {
    match FirstAt(|s|, 0, (k: nat) => k < |s| && IsDigit(s[k]))
    case None =>
      assert forall k :: 0 <= k < |s| ==> !IsDigit(s[k]) by {
        forall k | 0 <= k < |s| ensures !IsDigit(s[k]) {
          assert !((k: nat) => k < |s| && IsDigit(s[k]))(k);
        }
      }
      None
    case Some(i) =>
      assert forall k :: 0 <= k < i ==> !IsDigit(s[k]) by {
        forall k | 0 <= k < i ensures !IsDigit(s[k]) {
          assert !((k: nat) => k < |s| && IsDigit(s[k]))(k);
        }
      }
      Some(i)
  }

  /** The value of the leftmost maximal run of digits, if the text holds any digit. */
  function FirstInteger(s: string): (n: Option<nat>)
    ensures n.Some? <==> exists k :: 0 <= k < |s| && IsDigit(s[k])
    ensures n.Some? ==>
      exists i: nat :: FirstDigitAt(s, i) && n.value == DecimalValue(s[i..SpanEnd(s, i, IsDigit)])
  {
    match FirstDigit(s)
    case None => None
    case Some(i) =>
      var ds := s[i..SpanEnd(s, i, IsDigit)];
      assert All(ds, IsDigit);
      Some(DecimalValue(ds))
  }

  /** The text `\d+(?:\.\d+)?` matches: digits, then optionally a point and more digits. */
  predicate IsDecimalLexeme(d: string) {
    var e := SpanEnd(d, 0, IsDigit);
    e >= 1 && (e == |d| || (d[e] == '.' && e + 1 < |d| && SpanEnd(d, e + 1, IsDigit) == |d|))
  }

  /** The end of the decimal match that starts at digit `i`: the fraction is taken only if a digit follows the point. */
  function DecimalEnd(s: string, i: nat): (j: nat)
    requires i < |s| && IsDigit(s[i])
    ensures i < j <= |s|
    ensures j == |s| || !IsDigit(s[j])
  {
    var e := SpanEnd(s, i, IsDigit);
    if e + 1 < |s| && s[e] == '.' && IsDigit(s[e + 1]) then SpanEnd(s, e + 1, IsDigit) else e
  }

  /** A run end seen through a slice. */
  lemma SpanEndSlice(s: string, a: nat, b: nat, k: nat, p: char -> bool)
    requires a <= k <= b <= |s|
    requires SpanEnd(s, k, p) <= b
    ensures SpanEnd(s[a..b], k - a, p) == SpanEnd(s, k, p) - a
  {
    var e := SpanEnd(s, k, p);
    SpanEndUnique(s[a..b], k - a, p, e - a);
  }

  /** The first decimal-looking token of `s`, verbatim, if `s` has a digit. */
  function FirstDecimal(s: string): (d: Option<string>)
    ensures d.Some? <==> exists k :: 0 <= k < |s| && IsDigit(s[k])
    ensures d.Some? ==> IsDecimalLexeme(d.value)
    ensures d.Some? ==> exists i: nat :: FirstDigitAt(s, i) && d.value == s[i..DecimalEnd(s, i)]
  {
    match FirstDigit(s)
    case None => None
    case Some(i) =>
      var j := DecimalEnd(s, i);
      DecimalEndIsLexeme(s, i);
      Some(s[i..j])
  }

  lemma DecimalEndIsLexeme(s: string, i: nat)
    requires i < |s| && IsDigit(s[i])
    ensures IsDecimalLexeme(s[i..DecimalEnd(s, i)])
  {
    var j := DecimalEnd(s, i);
    var e := SpanEnd(s, i, IsDigit);
    SpanEndSlice(s, i, j, i, IsDigit);
    if e + 1 < |s| && s[e] == '.' && IsDigit(s[e + 1]) {
      SpanEndSlice(s, i, j, e + 1, IsDigit);
    }
  }
}
