/**
 * Numerals as the scripts read and write them. Values are exact decimals
 * (`real`); Python's `float()` is modelled on the decimal numerals the
 * patterns capture, and each script's pre-conversion rewriting (comma to
 * dot, deleting '+' or spaces, stripping) is a function of its own.
 */
module Numerals {
  import opened Wrappers
  import opened Text

  function DigitValue(c: char): nat
    requires IsDigit(c)
  {
    c as int - '0' as int
  }

  /** The number a string of ASCII digits denotes (0 for the empty string). */
  function DigitsValue(s: string): nat
    requires AllDigits(s)
  {
    if s == [] then 0 else DigitsValue(s[..|s| - 1]) * 10 + DigitValue(s[|s| - 1])
  }

  function Pow10(k: nat): (p: nat)
    ensures p >= 1
  {
    if k == 0 then 1 else 10 * Pow10(k - 1)
  }

  /** A numeral as the patterns capture it once ',' became '.': digits, optionally '.' and digits. */
  predicate IsDecimalNumeral(s: string) {
    var d := Find(s, ".");
    if d == -1 then s != [] && AllDigits(s)
    else d > 0 && d + 1 < |s| && AllDigits(s[..d]) && AllDigits(s[d + 1..])
  }

  /** `float()` on an unsigned decimal: digits with at most one '.', not both sides empty. */
  function ParseUnsigned(t: string): (r: Option<real>)
    ensures r.Some? ==> r.value >= 0.0
  {
    var d := Find(t, ".");
    if d == -1 then
      if t != [] && AllDigits(t) then Some(DigitsValue(t) as real) else None
    else
      var ip, fp := t[..d], t[d + 1..];
      if AllDigits(ip) && AllDigits(fp) && (ip != [] || fp != []) then
        Some(DigitsValue(ip) as real + Fraction(fp))
      else None
  }

  /** The digits after the point: their value divided by ten to the power of their count. */
  function Fraction(fp: string): (q: real)
    requires AllDigits(fp)
    ensures q >= 0.0
  {
    QuotientNonNegative(DigitsValue(fp), Pow10(|fp|));
    DigitsValue(fp) as real / Pow10(|fp|) as real
  }

  lemma QuotientNonNegative(x: nat, y: nat)
    requires y >= 1
    ensures x as real / y as real >= 0.0
  {
  }

  /** Every numeral the patterns capture is accepted. */
  lemma ParseUnsignedAcceptsDecimal(t: string)
    requires IsDecimalNumeral(t)
    ensures ParseUnsigned(t).Some?
  {
  }

  /** A text that starts with neither a digit nor '.' is refused. */
  lemma ParseUnsignedRefusesOtherStart(t: string)
    requires t != [] && !IsDigit(t[0]) && t[0] != '.'
    ensures ParseUnsigned(t).None?
  {
    var d := Find(t, ".");
    assert d >= 0 ==> t[d] == '.' by {
      if d >= 0 {
        assert OccursAt(t, ".", d);
        assert t[d] == t[d..d + 1][0];
      }
    }
    assert d != 0;
    if d == -1 {
      assert !AllDigits(t);
    } else {
      var ip := t[..d];
      assert ip[0] == t[0];
      assert !AllDigits(ip);
    }
  }

  /** A run of digits holds no '.'. */
  lemma NoPointInDigits(s: string)
    requires AllDigits(s)
    ensures Find(s, ".") == -1
  {
    forall i: nat | i < |s| ensures !OccursAt(s, ".", i) {
      assert s[i..i + 1][0] == s[i];
    }
  }

  /** After a run of digits, the first '.' is the one that ends the run. */
  lemma FirstPointAfterDigits(ip: string, rest: string)
    requires AllDigits(ip) && rest != [] && rest[0] == '.'
    ensures Find(ip + rest, ".") == |ip|
  {
    var t := ip + rest;
    assert OccursAt(t, ".", |ip|) by {
      assert t[|ip|..|ip| + 1] == [rest[0]];
    }
    forall i: nat | i < |ip| ensures !OccursAt(t, ".", i) {
      assert t[i..i + 1][0] == ip[i];
    }
  }

  /** `float(str(n)) == n`. */
  lemma ParseUnsignedOfDigits(n: nat)
    ensures ParseUnsigned(Digits(n)) == Some(n as real)
  {
    NoPointInDigits(Digits(n));
  }

  /** A point between two runs of digits: the whole part plus the fraction shifted right by its length. */
  lemma ParseUnsignedOfPointed(ip: string, fp: string)
    requires ip != [] && AllDigits(ip) && AllDigits(fp)
    ensures ParseUnsigned(ip + "." + fp)
      == Some(DigitsValue(ip) as real + Fraction(fp))
  {
    var t := ip + "." + fp;
    assert t == ip + ("." + fp);
    FirstPointAfterDigits(ip, "." + fp);
    var d := Find(t, ".");
    assert t[..d] == ip;
    assert t[d + 1..] == fp;
    assert ParseUnsigned(t) == Some(DigitsValue(t[..d]) as real + Fraction(t[d + 1..]));
  }

  /** `float(str(n) + "." + str(f))` is n plus f shifted right by the length of its digits. */
  lemma ParseUnsignedOfFraction(n: nat, f: nat)
    ensures var fd := Digits(f);
      ParseUnsigned(Digits(n) + "." + fd) == Some(n as real + f as real / Pow10(|fd|) as real)
  {
    var ip, fd := Digits(n), Digits(f);
    ParseUnsignedOfPointed(ip, fd);
    assert DigitsValue(ip) == n && DigitsValue(fd) == f;
  }

  function Negate(r: Option<real>): Option<real> {
    match r
    case Some(v) => Some(-v)
    case None => None
  }

  /**
   * Python's `float(s)` on decimal numerals: outer whitespace is ignored, one
   * leading sign is allowed, then an unsigned decimal. A space between the sign
   * and the digits is refused, as Python refuses it.
   */
  function ParseFloat(s: string): (r: Option<real>)
    ensures r.Some? && r.value < 0.0 ==> '-' in s
  {
    var t := Strip(s);
    assert t != [] ==> t[0] == s[LeadingSpaces(s)] && s[LeadingSpaces(s)] in s;
    ParseSigned(t)
  }

  /** `float()` once the outer whitespace is gone: one optional sign, then an unsigned decimal. */
  function ParseSigned(t: string): (r: Option<real>)
    ensures r.Some? && r.value < 0.0 ==> t != [] && t[0] == '-'
  {
    if t != [] && t[0] == '-' then Negate(ParseUnsigned(t[1..]))
    else if t != [] && t[0] == '+' then ParseUnsigned(t[1..])
    else ParseUnsigned(t)
  }

  /** `float()` refuses a sign followed by whitespace or by nothing at all. */
  lemma SignedSpaceRefused(s: string)
    requires var t := Strip(s); t != [] && (t[0] == '-' || t[0] == '+') && (|t| == 1 || IsSpace(t[1]))
    ensures ParseFloat(s).None?
  {
    SignThenSpaceRefused(Strip(s));
  }

  lemma SignThenSpaceRefused(t: string)
    requires t != [] && (t[0] == '-' || t[0] == '+') && (|t| == 1 || IsSpace(t[1]))
    ensures ParseSigned(t).None?
  {
    assert |t| == 1 || t[1..][0] == t[1];
    NothingOrSpaceRefused(t[1..]);
  }

  lemma NothingOrSpaceRefused(u: string)
    requires u == [] || IsSpace(u[0])
    ensures ParseUnsigned(u).None?
  {
    if u == [] {
      assert Find(u, ".") == -1;
    } else {
      ParseUnsignedRefusesOtherStart(u);
    }
  }

  lemma DecimalNumeralStart(s: string)
    requires IsDecimalNumeral(s)
    ensures s != [] && IsDigit(s[0]) && IsDigit(s[|s| - 1])
  {
    var d := Find(s, ".");
    if d != -1 {
      assert s[0] == s[..d][0];
      assert s[|s| - 1] == s[d + 1..][|s| - d - 2];
    }
  }

  /** Every numeral the patterns capture converts, to a non-negative value. */
  lemma ParseFloatDecimal(s: string)
    requires IsDecimalNumeral(s)
    ensures ParseFloat(s) == ParseUnsigned(s)
    ensures ParseFloat(s).Some? && ParseFloat(s).value >= 0.0
  {
    DecimalNumeralStart(s);
    StripDecimal(s);
    assert ParseSigned(s) == ParseUnsigned(s);
    ParseUnsignedAcceptsDecimal(s);
  }

  /** A '-' before a captured numeral negates its value. */
  lemma ParseFloatNegative(u: string)
    requires IsDecimalNumeral(u)
    ensures ParseFloat("-" + u) == Negate(ParseUnsigned(u))
    ensures ParseFloat("-" + u).Some?
  {
    DecimalNumeralStart(u);
    ParseUnsignedAcceptsDecimal(u);
    var s := "-" + u;
    assert TrimLeft(s) == s;
    assert s[|s| - 1] == u[|u| - 1];
    assert TrimRight(s) == s;
    assert s[1..] == u;
  }

  /** `to_float` of src/04 and src/05, and `parse_number` of src/08: ',' becomes '.', then strip. */
  function ToFloat(x: string): (r: Option<real>)
    ensures '-' !in x && r.Some? ==> r.value >= 0.0
  {
    var t := Strip(ReplaceChar(x, ',', '.'));
    MinusNotIntroduced(x);
    ParseFloat(t)
  }

  /** A numeral the patterns capture has no outer whitespace. */
  lemma StripDecimal(t: string)
    requires IsDecimalNumeral(t)
    ensures Strip(t) == t
  {
    DecimalNumeralStart(t);
    assert TrimLeft(t) == t;
    assert TrimRight(t) == t;
  }

  /** `to_float` never refuses an unsigned numeral written with a decimal comma or point, and its value is not negative. */
  lemma ToFloatDecimal(n: string)
    requires IsDecimalNumeral(ReplaceChar(n, ',', '.'))
    ensures ToFloat(n) == ParseFloat(ReplaceChar(n, ',', '.'))
    ensures ToFloat(n).Some? && ToFloat(n).value >= 0.0
  {
    StripDecimal(ReplaceChar(n, ',', '.'));
    ParseFloatDecimal(ReplaceChar(n, ',', '.'));
  }

  /** `parse_number` of src/10: ',' becomes '.', every '+' is deleted, then strip. */
  function ParseNumberUnsignedPlus(x: string): (r: Option<real>)
    ensures '-' !in x && r.Some? ==> r.value >= 0.0
  {
    var t := Strip(DeleteChar(ReplaceChar(x, ',', '.'), '+'));
    MinusNotIntroduced(x);
    MinusNotIntroducedByStrip(DeleteChar(ReplaceChar(x, ',', '.'), '+'));
    ParseFloat(t)
  }

  /** Turning ',' into '.' and stripping never bring in a '-'. */
  lemma MinusNotIntroduced(x: string)
    ensures '-' !in x ==> '-' !in ReplaceChar(x, ',', '.') && '-' !in Strip(ReplaceChar(x, ',', '.'))
  {
    if '-' !in x {
      var u := ReplaceChar(x, ',', '.');
      forall i | 0 <= i < |u| ensures u[i] != '-' {
        assert x[i] in x;
      }
      MinusNotIntroducedByStrip(u);
    }
  }

  lemma MinusNotIntroducedByStrip(v: string)
    ensures '-' !in v ==> '-' !in Strip(v)
  {
    var t := Strip(v);
    var a := LeadingSpaces(v);
    assert t == v[a..a + |t|];
    SliceAbsent(v, a, a + |t|, '-');
  }

  lemma SliceAbsent(v: string, a: nat, b: nat, c: char)
    requires a <= b <= |v|
    ensures c !in v ==> c !in v[a..b]
  {
    if c in v[a..b] {
      var k :| 0 <= k < b - a && v[a..b][k] == c;
      assert v[a + k] == c;
    }
  }

  /** The numeral rewriting of `extract_value` (src/12) and `find_ihpc_global_phrase` (src/11): spaces deleted, ',' becomes '.'. */
  function CompactNumeral(x: string): (r: string)
    ensures ' ' !in r && ',' !in r
  {
    ReplaceChar(DeleteChar(x, ' '), ',', '.')
  }

  /**
   * The sign rule: a "baisse" (fall) makes a positive figure negative; a
   * "hausse" (rise) keeps the figure as parsed. The direction is compared
   * after lower-casing, as the scripts do with `.lower()`.
   */
  function ApplyDirection(direction: string, v: real): (r: real)
    ensures LowerString(direction) == "baisse" ==> r <= 0.0
    ensures LowerString(direction) != "baisse" ==> r == v
    ensures r == v || r == -v
  {
    if LowerString(direction) == "baisse" && v > 0.0 then -v else v
  }

  // ---------------------------------------------------------------------------
  // Writing integers: str(n) and the zero-padded "%0Nd" format
  // ---------------------------------------------------------------------------

  function DigitChar(d: nat): (c: char)
    requires d < 10
    ensures IsDigit(c) && DigitValue(c) == d
  {
    ('0' as int + d) as char
  }

  /** `str(n)` for a natural number: its decimal digits, without leading zeros. */
  function Digits(n: nat): (s: string)
    ensures 1 <= |s| && AllDigits(s)
    ensures DigitsValue(s) == n
    ensures n < Pow10(|s| - 1) * 10
    ensures |s| > 1 ==> Pow10(|s| - 1) <= n
  {
    if n < 10 then [DigitChar(n)]
    else
      var s := Digits(n / 10) + [DigitChar(n % 10)];
      assert s[..|s| - 1] == Digits(n / 10);
      s
  }

  function Zeros(k: nat): (s: string)
    ensures |s| == k && AllDigits(s) && DigitsValue(s) == 0
  {
    if k == 0 then [] else
      var s := Zeros(k - 1) + ['0'];
      assert s[..|s| - 1] == Zeros(k - 1);
      s
  }

  lemma {:induction false} DigitsValueAppend(a: string, b: string)
    requires AllDigits(a) && AllDigits(b)
    ensures AllDigits(a + b)
    ensures DigitsValue(a + b) == DigitsValue(a) * Pow10(|b|) + DigitsValue(b)
    decreases |b|
  {
    if b == [] {
      assert a + b == a;
    } else {
      var b' := b[..|b| - 1];
      var c := b[|b| - 1];
      assert AllDigits(b') by {
        forall k | 0 <= k < |b'| ensures IsDigit(b'[k]) {
          assert b'[k] == b[k];
        }
      }
      DigitsValueAppend(a, b');
      assert (a + b)[..|a + b| - 1] == a + b';
      assert (a + b)[|a + b| - 1] == c;
      var x, y, p := DigitsValue(a), DigitsValue(b'), Pow10(|b'|);
      calc {
        DigitsValue(a + b);
        DigitsValue(a + b') * 10 + DigitValue(c);
        (x * p + y) * 10 + DigitValue(c);
        { ShiftByTen(x, p, y); }
        x * (p * 10) + (y * 10 + DigitValue(c));
        { assert Pow10(|b|) == 10 * p; }
        x * Pow10(|b|) + DigitsValue(b);
      }
    }
  }

  lemma ShiftByTen(x: int, p: int, y: int)
    ensures (x * p + y) * 10 == x * (p * 10) + y * 10
  {
  }

  /**
   * Python's `f"{n:0{width}d}"`: the digits of |n| padded on the left with
   * zeros so that the whole field, sign included, is at least `width` long.
   */
  function ZeroPadded(n: int, width: nat): (s: string)
    ensures n >= 0 ==> AllDigits(s) && DigitsValue(s) == n
    ensures n < 0 ==> s != [] && s[0] == '-' && AllDigits(s[1..]) && DigitsValue(s[1..]) == -n
    ensures |s| >= width
  {
    if n >= 0 then
      var d := Digits(n);
      var z := Zeros(if |d| < width then width - |d| else 0);
      LeadingZerosKeepValue(z, d);
      z + d
    else
      var d := Digits(-n);
      var w := if width == 0 then 0 else width - 1;
      var z := Zeros(if |d| < w then w - |d| else 0);
      LeadingZerosKeepValue(z, d);
      var s := "-" + (z + d);
      assert s[1..] == z + d;
      s
  }

  lemma LeadingZerosKeepValue(z: string, d: string)
    requires AllDigits(z) && DigitsValue(z) == 0 && AllDigits(d)
    ensures AllDigits(z + d) && DigitsValue(z + d) == DigitsValue(d)
  {
    DigitsValueAppend(z, d);
    assert DigitsValue(z) * Pow10(|d|) == 0;
  }

  lemma {:induction false} DigitsLengthBound(n: nat, k: nat)
    requires 1 <= k && n < Pow10(k)
    ensures |Digits(n)| <= k
  {
    var s := Digits(n);
    if |s| > k {
      PowMonotone(k, |s| - 1);
    }
  }

  lemma {:induction false} PowMonotone(a: nat, b: nat)
    requires a <= b
    ensures Pow10(a) <= Pow10(b)
    decreases b
  {
    if a < b { PowMonotone(a, b - 1); }
  }

  /** A zero-padded field of a number that fits the width is exactly `width` characters long. */
  lemma ZeroPaddedFits(n: nat, width: nat)
    requires 1 <= width && n < Pow10(width)
    ensures |ZeroPadded(n, width)| == width
  {
    DigitsLengthBound(n, width);
  }
}
