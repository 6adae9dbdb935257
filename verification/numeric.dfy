/** Coercion of cleaned text to a number: a plain decimal numeral, with an
    optional sign and an optional fractional part, read exactly as a real. */
module Numeric {
  import opened Results

  predicate IsDigit(c: char) {
    '0' <= c <= '9'
  }

  predicate AllDigits(s: string) {
    forall i :: 0 <= i < |s| ==> IsDigit(s[i])
  }

  /** The characters a decimal numeral may contain. */
  predicate IsNumeralChar(c: char) {
    IsDigit(c) || c == '.' || c == '-' || c == '+'
  }

  function DigitValue(c: char): (d: nat)
    requires IsDigit(c)
    ensures d < 10
  {
    c as int - '0' as int
  }

  function DigitChar(d: nat): (c: char)
    requires d < 10
    ensures IsDigit(c) && DigitValue(c) == d
  {
    ('0' as int + d) as char
  }

  function Pow10(n: nat): (p: nat)
    ensures p >= 1
  {
    if n == 0 then 1 else 10 * Pow10(n - 1)
  }

  /** The natural number written by a string of decimal digits, most
      significant first; the empty string reads as zero. */
  function DigitsValue(ds: string): (v: nat)
    requires AllDigits(ds)
    ensures v < Pow10(|ds|)
    decreases |ds|
  {
    if |ds| == 0 then 0
    else
      var rest := DigitsValue(ds[..|ds| - 1]);
      var d := DigitValue(ds[|ds| - 1]);
      assert rest * 10 + d < Pow10(|ds| - 1) * 10 by {
        assert rest + 1 <= Pow10(|ds| - 1);
        assert (rest + 1) * 10 <= Pow10(|ds| - 1) * 10;
      }
      rest * 10 + d
  }

  /** The decimal numeral of `n`, without leading zeros. */
  function NatToDigits(n: nat): (s: string)
    ensures |s| > 0 && AllDigits(s)
    ensures DigitsValue(s) == n
    ensures n > 0 ==> s[0] != '0'
    decreases n
  {
    if n < 10 then [DigitChar(n)]
    else
      var prefix := NatToDigits(n / 10);
      var s := prefix + [DigitChar(n % 10)];
      assert s[..|s| - 1] == prefix;
      s
  }

  /** The position of the first `c` in `s`, or `|s|` when there is none. */
  function IndexOf(s: string, c: char): (k: nat)
    ensures k <= |s|
    ensures k < |s| ==> s[k] == c
    ensures forall i :: 0 <= i < k ==> s[i] != c
    decreases |s|
  {
    if |s| == 0 then 0
    else if s[0] == c then 0
    else 1 + IndexOf(s[1..], c)
  }

  /** The value of the numeral `whole.frac`. */
  function Positional(whole: string, frac: string): (v: real)
    requires AllDigits(whole) && AllDigits(frac)
    ensures v >= 0.0
  {
    DigitsValue(whole) as real + DigitsValue(frac) as real / Pow10(|frac|) as real
  }

  /** An unsigned numeral: digits, optionally a point and more digits, with
      at least one digit in all. */
  function ParseUnsigned(s: string): (r: Option<real>)
    ensures r.Some? ==> |s| > 0 && forall i :: 0 <= i < |s| ==> IsDigit(s[i]) || s[i] == '.'
    ensures r.Some? ==> r.value >= 0.0
  {
    var k := IndexOf(s, '.');
    var whole := s[..k];
    var frac := if k < |s| then s[k + 1..] else "";
    if AllDigits(whole) && AllDigits(frac) && |whole| + |frac| > 0 then
      assert forall i :: k < i < |s| ==> s[i] == frac[i - k - 1];
      Some(Positional(whole, frac))
    else None
  }

  /** The number a cleaned cell's text denotes, or None when it is not a
      decimal numeral (the empty string included). */
  function ParseDecimal(s: string): (r: Option<real>)
    ensures r.Some? ==> |s| > 0 && forall i :: 0 <= i < |s| ==> IsNumeralChar(s[i])
  {
    if |s| > 0 && (s[0] == '-' || s[0] == '+') then
      match ParseUnsigned(s[1..])
      case None => None
      case Some(v) => Some(if s[0] == '-' then -v else v)
    else ParseUnsigned(s)
  }

  predicate IsSign(c: char) {
    c == '-' || c == '+'
  }

  /** The unsigned numerals: digits and at most one point, with at least
      one digit somewhere. */
  predicate IsUnsignedNumeral(s: string) {
    && (forall i :: 0 <= i < |s| ==> IsDigit(s[i]) || s[i] == '.')
    && (forall i, j :: 0 <= i < j < |s| && s[i] == '.' ==> s[j] != '.')
    && (exists i :: 0 <= i < |s| && IsDigit(s[i]))
  }

  /** The decimal numerals: an unsigned numeral, possibly after one sign. */
  predicate IsNumeral(s: string) {
    IsUnsignedNumeral(s) || (|s| > 0 && IsSign(s[0]) && IsUnsignedNumeral(s[1..]))
  }

  /** The unsigned reader accepts exactly the unsigned numerals. */
  lemma UnsignedNumeralIff(s: string)
    ensures ParseUnsigned(s).Some? <==> IsUnsignedNumeral(s)
  {
    var k := IndexOf(s, '.');
    var whole := s[..k];
    var frac := if k < |s| then s[k + 1..] else "";
    assert forall i :: 0 <= i < k ==> s[i] == whole[i];
    assert forall i :: k < i < |s| ==> s[i] == frac[i - k - 1];
    if ParseUnsigned(s).Some? {
      assert AllDigits(whole) && AllDigits(frac) && |whole| + |frac| > 0;
      forall i | 0 <= i < |s|
        ensures IsDigit(s[i]) || s[i] == '.'
      {
        if i < k {
          assert IsDigit(whole[i]);
        } else if i > k {
          assert IsDigit(frac[i - k - 1]);
        }
      }
      forall i, j | 0 <= i < j < |s| && s[i] == '.'
        ensures s[j] != '.'
      {
        assert IsDigit(frac[j - k - 1]);
      }
      if |whole| > 0 {
        assert IsDigit(s[0]);
      } else {
        assert IsDigit(s[k + 1]);
      }
    }
    if IsUnsignedNumeral(s) {
      assert AllDigits(whole);
      forall i | 0 <= i < |frac|
        ensures IsDigit(frac[i])
      {
        assert s[k] == '.' && s[i + k + 1] == frac[i];
      }
      var w :| 0 <= w < |s| && IsDigit(s[w]);
      assert w < k || k < w;
    }
  }

  /** The reader accepts exactly the decimal numerals. */
  lemma ParseDecimalIff(s: string)
    ensures ParseDecimal(s).Some? <==> IsNumeral(s)
  {
    UnsignedNumeralIff(s);
    if |s| > 0 && IsSign(s[0]) {
      UnsignedNumeralIff(s[1..]);
      assert !IsUnsignedNumeral(s) by {
        assert !(IsDigit(s[0]) || s[0] == '.');
      }
    }
  }

  /** The first point of `whole + "." + frac` sits right after `whole`. */
  lemma PointPosition(whole: string, frac: string)
    requires AllDigits(whole)
    ensures IndexOf(whole + "." + frac, '.') == |whole|
  {
    var s := whole + "." + frac;
    var k := IndexOf(s, '.');
    assert s[|whole|] == '.';
    assert forall i :: 0 <= i < |whole| ==> s[i] == whole[i];
  }

  /** A numeral of the form `whole.frac` reads as its positional value. */
  lemma ParsePointed(whole: string, frac: string)
    requires AllDigits(whole) && AllDigits(frac) && |whole| + |frac| > 0
    ensures ParseDecimal(whole + "." + frac)
         == Some(Positional(whole, frac))
  {
    var s := whole + "." + frac;
    PointPosition(whole, frac);
    assert s[..|whole|] == whole;
    assert s[|whole| + 1..] == frac;
    var k := IndexOf(s, '.');
    assert k < |s|;
    var frac' := if k < |s| then s[k + 1..] else "";
    assert frac' == frac;
    assert s[..k] == whole;
    assert ParseUnsigned(s)
        == Some(Positional(whole, frac));
    assert s[0] != '-' && s[0] != '+' by {
      if |whole| == 0 {
        assert s[0] == '.';
      } else {
        assert s[0] == whole[0];
      }
    }
  }

  /** Without fractional digits the positional value is the whole value. */
  lemma PositionalWhole(ds: string)
    requires AllDigits(ds)
    ensures Positional(ds, "") == DigitsValue(ds) as real
  {
    var zero := DigitsValue("");
    assert zero == 0;
    var one := Pow10(|""|);
    assert one == 1;
    assert zero as real / one as real == 0.0;
  }

  /** A string of digits has no point. */
  lemma NoPoint(ds: string)
    requires AllDigits(ds)
    ensures IndexOf(ds, '.') == |ds|
  {
  }

  /** A string of digits reads, unsigned, as its whole value. */
  lemma UnsignedWhole(ds: string)
    requires |ds| > 0 && AllDigits(ds)
    ensures ParseUnsigned(ds) == Some(Positional(ds, ""))
  {
    NoPoint(ds);
    assert ds[..|ds|] == ds;
  }

  /** A string of digits reads as the whole number it writes. */
  lemma ParseWhole(ds: string)
    requires |ds| > 0 && AllDigits(ds)
    ensures ParseDecimal(ds) == Some(DigitsValue(ds) as real)
  {
    assert ds[0] != '-' && ds[0] != '+' by {
      assert IsDigit(ds[0]);
    }
    assert ParseDecimal(ds) == ParseUnsigned(ds);
    UnsignedWhole(ds);
    PositionalWhole(ds);
  }

  /** The numeral of a natural number reads back as that number. */
  lemma ParseNatRoundTrip(n: nat)
    ensures ParseDecimal(NatToDigits(n)) == Some(n as real)
  {
    ParseWhole(NatToDigits(n));
  }

  /** A negative sign in front of a numeral negates its value. */
  lemma ParseNegated(s: string)
    requires ParseUnsigned(s).Some?
    ensures ParseDecimal("-" + s) == Some(-ParseUnsigned(s).value)
  {
    assert ("-" + s)[1..] == s;
  }

  /** A plus sign in front of a numeral leaves its value unchanged. */
  lemma ParsePlus(s: string)
    requires ParseUnsigned(s).Some?
    ensures ParseDecimal("+" + s) == Some(ParseUnsigned(s).value)
  {
    assert ("+" + s)[1..] == s;
  }
}
