/**
 * The pieces of java.lang the core leans on: ASCII case mapping, String.trim,
 * Integer/Long/BigInteger parsing and printing, two's-complement narrowing,
 * and BigDecimal's text form. Only what the modelled code calls is here.
 */
module JavaText {
  import opened Base

  // ---------------------------------------------------------------------
  // Case mapping (Character.toUpperCase / toLowerCase / isUpperCase),
  // restricted to ASCII letters.

  predicate IsUpper(c: char) { 'A' <= c <= 'Z' }

  predicate IsLower(c: char) { 'a' <= c <= 'z' }

  function ToUpper(c: char): (r: char)
    ensures IsLower(c) ==> IsUpper(r) && r as int == c as int - 32
    ensures !IsLower(c) ==> r == c
  {
    if IsLower(c) then (c as int - 32) as char else c
  }

  function ToLower(c: char): (r: char)
    ensures IsUpper(c) ==> IsLower(r) && r as int == c as int + 32
    ensures !IsUpper(c) ==> r == c
  {
    if IsUpper(c) then (c as int + 32) as char else c
  }

  /** String.toLowerCase. */
  function LowerString(s: string): (r: string)
    ensures |r| == |s|
    ensures forall i :: 0 <= i < |s| ==> r[i] == ToLower(s[i])
  {
    if |s| == 0 then [] else [ToLower(s[0])] + LowerString(s[1..])
  }

  /** String.equalsIgnoreCase. */
  predicate EqualsIgnoreCase(a: string, b: string)
  {
    |a| == |b| && forall i :: 0 <= i < |a| ==> ToLower(a[i]) == ToLower(b[i])
  }

  // ---------------------------------------------------------------------
  // String.trim: drops every leading and trailing character <= U+0020.

  /** Where the first visible character at or after i sits (|s| when there is none). */
  function SkipBlank(s: string, i: nat): (n: nat)
    requires i <= |s|
    ensures i <= n <= |s|
    decreases |s| - i
  {
    if i < |s| && s[i] <= ' ' then SkipBlank(s, i + 1) else i
  }

  /** Where the blank run that ends at e begins (0 when everything before e is blank). */
  function BackBlank(s: string, e: nat): (n: nat)
    requires e <= |s|
    ensures n <= e
  {
    if e > 0 && s[e - 1] <= ' ' then BackBlank(s, e - 1) else e
  }

  /** The characters SkipBlank passes over are blank, and it stops at a visible one. */
  lemma {:induction false} SkipBlankSpec(s: string, i: nat)
    requires i <= |s|
    ensures forall k :: i <= k < SkipBlank(s, i) ==> s[k] <= ' '
    ensures SkipBlank(s, i) < |s| ==> s[SkipBlank(s, i)] > ' '
    decreases |s| - i
  {
    if i < |s| && s[i] <= ' ' {
      SkipBlankSpec(s, i + 1);
    }
  }

  /** The characters BackBlank passes over are blank, and it stops after a visible one. */
  lemma {:induction false} BackBlankSpec(s: string, e: nat)
    requires e <= |s|
    ensures forall k :: BackBlank(s, e) <= k < e ==> s[k] <= ' '
    ensures BackBlank(s, e) > 0 ==> s[BackBlank(s, e) - 1] > ' '
  {
    if e > 0 && s[e - 1] <= ' ' {
      BackBlankSpec(s, e - 1);
    }
  }

  /** When some character is visible, the visible span is not empty. */
  lemma BlankSpans(s: string)
    requires SkipBlank(s, 0) < |s|
    ensures SkipBlank(s, 0) < BackBlank(s, |s|)
  {
    var a, e := SkipBlank(s, 0), BackBlank(s, |s|);
    SkipBlankSpec(s, 0);
    BackBlankSpec(s, |s|);
    assert s[a] > ' ';
  }

  function Trim(s: string): (r: string)
    ensures |r| <= |s|
    ensures |r| > 0 ==> r[0] > ' ' && r[|r| - 1] > ' '
    ensures |r| == 0 <==> forall i :: 0 <= i < |s| ==> s[i] <= ' '
  {
    SkipBlankSpec(s, 0);
    BackBlankSpec(s, |s|);
    if SkipBlank(s, 0) == |s| then []
    else
      BlankSpans(s);
      s[SkipBlank(s, 0)..BackBlank(s, |s|)]
  }

  /** Text with visible characters at both ends is its own trim. */
  lemma TrimVisible(s: string)
    requires |s| > 0 && s[0] > ' ' && s[|s| - 1] > ' '
    ensures Trim(s) == s
  {
    assert s[0..|s|] == s;
  }

  /** Case differences never touch blanks, so trim skips the same leading run. */
  lemma {:induction false} SkipIgnoreCase(s: string, t: string, i: nat)
    requires EqualsIgnoreCase(s, t) && i <= |s|
    ensures SkipBlank(s, i) == SkipBlank(t, i)
    decreases |s| - i
  {
    if i < |s| {
      assert ToLower(s[i]) == ToLower(t[i]);
      SkipIgnoreCase(s, t, i + 1);
    }
  }

  /** Case differences never touch blanks, so trim drops the same trailing run. */
  lemma {:induction false} BackIgnoreCase(s: string, t: string, e: nat)
    requires EqualsIgnoreCase(s, t) && e <= |s|
    ensures BackBlank(s, e) == BackBlank(t, e)
  {
    if e > 0 {
      assert ToLower(s[e - 1]) == ToLower(t[e - 1]);
      BackIgnoreCase(s, t, e - 1);
    }
  }

  /** Trimming two texts that differ only in case leaves texts with the same lower-case form. */
  lemma TrimIgnoreCase(s: string, t: string)
    requires EqualsIgnoreCase(s, t)
    ensures LowerString(Trim(s)) == LowerString(Trim(t))
  {
    SkipIgnoreCase(s, t, 0);
    BackIgnoreCase(s, t, |s|);
    var a, e := SkipBlank(s, 0), BackBlank(s, |s|);
    if a < |s| {
      BlankSpans(s);
      assert Trim(s) == s[a..e] && Trim(t) == t[a..e];
      LowerSlice(s, t, a, e);
    }
  }

  lemma LowerSlice(s: string, t: string, l: nat, e: nat)
    requires EqualsIgnoreCase(s, t) && l <= e <= |s|
    ensures LowerString(s[l..e]) == LowerString(t[l..e])
  {
    var a, b := s[l..e], t[l..e];
    assert forall i :: 0 <= i < |a| ==> a[i] == s[l + i] && b[i] == t[l + i];
  }

  /** Lower-casing keeps hexadecimal digits and their value. */
  lemma {:induction false} DigitsValueLower(s: string, radix: nat)
    requires AllDigits(s, radix)
    ensures AllDigits(LowerString(s), radix)
    ensures DigitsValue(LowerString(s), radix) == DigitsValue(s, radix)
  {
    if |s| > 0 {
      var p := s[..|s| - 1];
      assert LowerString(s)[..|s| - 1] == LowerString(p);
      DigitsValueLower(p, radix);
    }
  }

  // ---------------------------------------------------------------------
  // Digits (Character.digit restricted to ASCII, Character.forDigit).

  function DigitValue(c: char): (r: nat)
    ensures r <= 36
  {
    if '0' <= c <= '9' then c as int - '0' as int
    else if 'a' <= c <= 'z' then c as int - 'a' as int + 10
    else if 'A' <= c <= 'Z' then c as int - 'A' as int + 10
    else 36
  }

  predicate IsDigit(c: char, radix: nat) { DigitValue(c) < radix }

  predicate AllDigits(s: string, radix: nat)
  {
    forall i :: 0 <= i < |s| ==> IsDigit(s[i], radix)
  }

  /** The value of a run of digits, read most significant first. */
  function DigitsValue(s: string, radix: nat): nat
    requires AllDigits(s, radix)
  {
    if |s| == 0 then 0
    else DigitsValue(s[..|s| - 1], radix) * radix + DigitValue(s[|s| - 1])
  }

  function DigitChar(d: nat): (c: char)
    requires d < 10
    ensures DigitValue(c) == d
  {
    ('0' as int + d) as char
  }

  /** The decimal digits of a natural number, without leading zeros. */
  function DigitsText(n: nat): (r: string)
    ensures |r| > 0 && AllDigits(r, 10)
    ensures forall i :: 0 <= i < |r| ==> '0' <= r[i] <= '9'
  {
    if n < 10 then [DigitChar(n)] else DigitsText(n / 10) + [DigitChar(n % 10)]
  }

  /** Integer.toString / Long.toString / BigInteger.toString in radix 10. */
  function IntText(n: int): (r: string)
    ensures |r| > 0
    ensures forall i :: 0 <= i < |r| ==> r[i] == '-' || '0' <= r[i] <= '9'
  {
    if n < 0 then "-" + DigitsText(-n) else DigitsText(n)
  }

  lemma {:induction false} DigitsTextValue(n: nat)
    ensures DigitsValue(DigitsText(n), 10) == n
  {
    if n >= 10 {
      var s := DigitsText(n);
      assert s[..|s| - 1] == DigitsText(n / 10);
      DigitsTextValue(n / 10);
    }
  }

  /**
   * Integer.parseInt / Long.parseLong / new BigInteger(s, radix) before the
   * range check: one optional '-' or '+', then at least one digit.
   */
  function ParseInteger(s: string, radix: nat): Option<int>
  {
    if |s| == 0 then None
    else if s[0] == '-' || s[0] == '+' then
      if |s| == 1 || !AllDigits(s[1..], radix) then None
      else if s[0] == '-' then Some(0 - DigitsValue(s[1..], radix))
      else Some(DigitsValue(s[1..], radix))
    else if AllDigits(s, radix) then Some(DigitsValue(s, radix))
    else None
  }

  /** A printed integer has no blanks, so trim leaves it alone. */
  lemma IntTextTrimmed(n: int)
    ensures Trim(IntText(n)) == IntText(n)
  {
    var s := IntText(n);
    assert s[0] > ' ' && s[|s| - 1] > ' ';
    TrimVisible(s);
  }

  /** Printing an integer and parsing the text back gives the integer. */
  lemma IntTextRoundTrip(n: int)
    ensures ParseInteger(IntText(n), 10) == Some(n)
  {
    if n < 0 {
      DigitsRoundTrip(-n);
      NegativeParse(DigitsText(-n));
    } else {
      DigitsRoundTrip(n);
    }
  }

  /** The digits of a natural number parse back to it. */
  lemma DigitsRoundTrip(m: nat)
    ensures ParseInteger(DigitsText(m), 10) == Some(m)
    ensures DigitsValue(DigitsText(m), 10) == m
  {
    var t := DigitsText(m);
    DigitsTextValue(m);
    UnsignedParse(t);
  }

  lemma UnsignedParse(t: string)
    requires |t| > 0 && AllDigits(t, 10) && '0' <= t[0] <= '9'
    ensures ParseInteger(t, 10) == Some(DigitsValue(t, 10))
  {
  }

  lemma NegativeParse(t: string)
    requires |t| > 0 && AllDigits(t, 10)
    ensures ParseInteger("-" + t, 10) == Some(0 - DigitsValue(t, 10))
  {
    assert ("-" + t)[1..] == t;
  }

  // ---------------------------------------------------------------------
  // Fixed-width two's-complement integers.

  function Pow2(k: nat): (r: nat)
    ensures r >= 1
  {
    if k == 0 then 1 else 2 * Pow2(k - 1)
  }

  lemma {:induction false} Pow2Add(a: nat, b: nat)
    ensures Pow2(a + b) == Pow2(a) * Pow2(b)
    decreases a
  {
    if a > 0 {
      Pow2Add(a - 1, b);
    }
  }

  /** The powers behind byte and short. */
  lemma Pow2Short()
    ensures Pow2(7) == 0x80 && Pow2(8) == 0x100
    ensures Pow2(15) == 0x8000 && Pow2(16) == 0x1_0000
  {
    assert Pow2(4) == 16 by {
      assert Pow2(1) == 2 && Pow2(2) == 4 && Pow2(3) == 8;
    }
    Pow2Add(4, 4);
    Pow2Add(8, 8);
  }

  /** The powers behind int. */
  lemma Pow2Int()
    ensures Pow2(31) == 0x8000_0000 && Pow2(32) == 0x1_0000_0000
  {
    Pow2Short();
    Pow2Add(16, 16);
  }

  predicate InRange(n: int, bits: nat)
    requires bits > 0
  {
    0 - Pow2(bits - 1) <= n < Pow2(bits - 1)
  }

  /**
   * The narrowing cast (byte), (short), (int), (long): keep the low bits.
   * The result differs from n by a multiple of 2^bits.
   */
  function Wrap(n: int, bits: nat): (r: int)
    requires bits > 0
    ensures InRange(r, bits)
    ensures InRange(n, bits) ==> r == n
  {
    var h, m := Pow2(bits - 1), Pow2(bits);
    assert m == 2 * h;
    var k := n + h;
    DivMod(k, m);
    k % m - h
  }

  /** Multiples of 2^bits wrap to zero. */
  lemma {:induction false} WrapMultiple(m: int, bits: nat)
    requires bits > 0
    ensures Wrap(m * Pow2(bits), bits) == 0
  {
    var h, w := Pow2(bits - 1), Pow2(bits);
    assert w == 2 * h;
    assert m * w + h == m * w + h;
    DivUnique(m * w + h, w, m, h);
  }

  /** The cast keeps n's residue: the two differ by a multiple of 2^bits. */
  lemma WrapCongruent(n: int, bits: nat)
    requires bits > 0
    ensures Wrap(n, bits) == n - ((n + Pow2(bits - 1)) / Pow2(bits)) * Pow2(bits)
  {
    var h, m := Pow2(bits - 1), Pow2(bits);
    DivMod(n + h, m);
  }

  /** Shifting by 256 does not change the (byte) cast. */
  lemma ByteShift(n: int)
    ensures Wrap(n - 256, 8) == Wrap(n, 8)
  {
    Pow2Short();
    WrapResidue(n, 8);
    WrapResidue(n - 256, 8);
    ModShift(n + 128, 256);
    assert n - 256 + 128 == n + 128 - 256;
  }

  /** The cast is zero exactly for the multiples of 2^bits. */
  lemma WrapZero(n: int, bits: nat)
    requires bits > 0
    ensures Wrap(n, bits) == 0 <==> n % Pow2(bits) == 0
  {
    var h, m := Pow2(bits - 1), Pow2(bits);
    WrapResidue(n, bits);
    ModOffset(n, h, m);
  }

  /** The cast is the residue of n + 2^(bits-1), moved back down. */
  lemma WrapResidue(n: int, bits: nat)
    requires bits > 0
    ensures Pow2(bits) == 2 * Pow2(bits - 1)
    ensures Wrap(n, bits) == (n + Pow2(bits - 1)) % Pow2(bits) - Pow2(bits - 1)
  {
  }

  lemma ModShift(k: int, m: int)
    requires m > 0
    ensures (k - m) % m == k % m
  {
    DivMod(k, m);
    var q, r := k / m, k % m;
    assert k - m == (q - 1) * m + r;
    DivUnique(k - m, m, q - 1, r);
  }

  /** With m == 2h, (n + h) mod m is h exactly when m divides n. */
  lemma ModOffset(n: int, h: int, m: int)
    requires h > 0 && m == 2 * h
    ensures (n + h) % m == h <==> n % m == 0
  {
    DivMod(n, m);
    var q, r := n / m, n % m;
    if r < h {
      DivUnique(n + h, m, q, r + h);
    } else {
      assert n + h == (q + 1) * m + (r - h);
      DivUnique(n + h, m, q + 1, r - h);
    }
  }

  lemma DivMod(k: int, m: int)
    requires m > 0
    ensures k == (k / m) * m + k % m && 0 <= k % m < m
    ensures 0 <= k < m ==> k / m == 0
  {
  }

  /** Quotient and remainder are the only pair that rebuilds k. */
  lemma {:induction false} DivUnique(k: int, m: int, q: int, r: int)
    requires m > 0 && k == q * m + r && 0 <= r < m
    ensures k / m == q && k % m == r
  {
    DivMod(k, m);
    var q', r' := k / m, k % m;
    assert (q - q') * m == r' - r;
    if q > q' {
      MulAtLeast(q - q', m);
    } else if q < q' {
      MulAtLeast(q' - q, m);
    }
  }

  /** A product is zero only when a factor is. */
  lemma MulZero(a: int, b: int)
    requires b > 0
    ensures a * b == 0 <==> a == 0
  {
  }

  lemma MulAtLeast(a: int, m: int)
    requires a >= 1 && m > 0
    ensures a * m >= m
  {
  }

  /** Integer.parseInt / Long.parseLong: out of range is a NumberFormatException. */
  function ParseJavaInteger(s: string, radix: nat, bits: nat): (r: Result<int>)
    requires bits > 0
    ensures r.Ok? ==> InRange(r.value, bits) && ParseInteger(s, radix) == Some(r.value)
    ensures r.Err? ==> r.error == NumberFormat
  {
    match ParseInteger(s, radix)
    case None => Err(NumberFormat)
    case Some(n) => if InRange(n, bits) then Ok(n) else Err(NumberFormat)
  }

  // ---------------------------------------------------------------------
  // java.math.BigDecimal: unscaled * 10^-scale.

  datatype Decimal = Decimal(unscaled: int, scale: int)

  function Pow10(k: nat): (r: nat)
    ensures r >= 1
  {
    if k == 0 then 1 else 10 * Pow10(k - 1)
  }

  /** The decimal has no fractional part. */
  predicate IsIntegral(d: Decimal)
  {
    d.scale <= 0 || d.unscaled % Pow10(d.scale) == 0
  }

  function IntegralValue(d: Decimal): (r: int)
    requires IsIntegral(d)
    ensures d.scale >= 0 ==> r * Pow10(d.scale) == d.unscaled
    ensures d.scale < 0 ==> r == d.unscaled * Pow10(-d.scale)
  {
    if d.scale <= 0 then d.unscaled * Pow10(-d.scale) else d.unscaled / Pow10(d.scale)
  }

  /** n written with s fraction digits of zeros (5.00 for n = 5, s = 2) is integral with value n. */
  lemma {:induction false} ScaledIntegral(n: int, s: nat)
    ensures IsIntegral(Decimal(n * Pow10(s), s)) && IntegralValue(Decimal(n * Pow10(s), s)) == n
  {
    DivUnique(n * Pow10(s), Pow10(s), n, 0);
  }

  /** BigDecimal.compareTo(ZERO) == 0, whatever the scale. */
  predicate IsZero(d: Decimal) { d.unscaled == 0 }

  function Zeros(n: nat): (r: string)
    ensures |r| == n && forall i :: 0 <= i < n ==> r[i] == '0'
  {
    if n == 0 then [] else Zeros(n - 1) + ['0']
  }

  /** BigDecimal.toString (scientific notation when the exponent calls for it). */
  function DecimalText(d: Decimal): string
  {
    var coeff := DigitsText(if d.unscaled < 0 then -d.unscaled else d.unscaled);
    var adjusted := -d.scale + (|coeff| - 1);
    var sign := if d.unscaled < 0 then "-" else "";
    if d.scale == 0 then sign + coeff
    else if d.scale > 0 && adjusted >= -6 then sign + PointText(coeff, d.scale)
    else sign + SciText(coeff, adjusted)
  }

  /** The coefficient's digits with a point scale digits from the right, zero-padded. */
  function PointText(coeff: string, scale: nat): string
    requires scale > 0
  {
    var len := |coeff|;
    if scale >= len then "0." + Zeros(scale - len) + coeff
    else coeff[..len - scale] + "." + coeff[len - scale..]
  }

  /** One digit, the point and the rest, then "E" and the adjusted exponent unless it is 0. */
  function SciText(coeff: string, adjusted: int): string
    requires |coeff| > 0
  {
    coeff[..1] + (if |coeff| > 1 then "." + coeff[1..] else "")
    + (if adjusted != 0 then "E" + (if adjusted > 0 then "+" else "") + IntText(adjusted) else "")
  }

  function IndexOf(s: string, p: char -> bool): (r: nat)
    ensures r <= |s|
    ensures r < |s| ==> p(s[r])
    ensures forall i :: 0 <= i < r ==> !p(s[i])
  {
    if |s| == 0 then 0 else if p(s[0]) then 0 else 1 + IndexOf(s[1..], p)
  }

  predicate IsExponentMark(c: char) { c == 'e' || c == 'E' }

  predicate IsPoint(c: char) { c == '.' }

  /**
   * new BigDecimal(String): an optional sign, digits with at most one '.',
   * at least one digit, then an optional exponent introduced by 'e' or 'E'.
   * The exponent and the resulting scale must both fit an int.
   */
  function ParseDecimal(s: string): (r: Option<Decimal>)
    ensures r.Some? ==> InRange(r.value.scale, 32)
  {
    var body := if |s| > 0 && (s[0] == '-' || s[0] == '+') then s[1..] else s;
    match ParseMagnitude(body)
    case None => None
    case Some(d) => Some(if |s| > 0 && s[0] == '-' then Decimal(0 - d.unscaled, d.scale) else d)
  }

  /** Without a sign the body is read as it is. */
  lemma ParseUnsigned(body: string)
    requires |body| > 0 && body[0] != '+' && body[0] != '-'
    ensures ParseDecimal(body) == ParseMagnitude(body)
  {
  }

  /** A '-' negates what the body reads as. */
  lemma ParseNegative(body: string, d: Decimal)
    requires |body| > 0 && body[0] != '+' && body[0] != '-'
    requires ParseMagnitude(body) == Some(d)
    ensures ParseDecimal("-" + body) == Some(Decimal(0 - d.unscaled, d.scale))
  {
    assert ("-" + body)[1..] == body;
  }

  /** The exponent after 'e' or 'E', 0 when there is none; None when it is not an integer. */
  function Exponent(body: string): Option<int>
  {
    var e := IndexOf(body, IsExponentMark);
    if e < |body| then ParseInteger(body[e + 1..], 10) else Some(0)
  }

  /** The text before the first 'e' or 'E'. */
  function Mantissa(body: string): string
  {
    body[..IndexOf(body, IsExponentMark)]
  }

  /** The mantissa's digits before the point (all of them when there is no point). */
  function Whole(mantissa: string): string
  {
    mantissa[..IndexOf(mantissa, IsPoint)]
  }

  /** The mantissa's digits after the point, none when there is no point. */
  function Fraction(mantissa: string): string
  {
    var dot := IndexOf(mantissa, IsPoint);
    if dot < |mantissa| then mantissa[dot + 1..] else []
  }

  /** The unsigned part: digits around an optional point, then the exponent. */
  function ParseMagnitude(body: string): (r: Option<Decimal>)
    ensures r.Some? ==> Exponent(body).Some? && InRange(Exponent(body).value, 32)
    ensures r.Some? ==> InRange(r.value.scale, 32)
  {
    var whole := Whole(Mantissa(body));
    var fraction := Fraction(Mantissa(body));
    var exponent := Exponent(body);
    if |whole| + |fraction| == 0 || !AllDigits(whole + fraction, 10) || exponent.None? then None
    else if !InRange(exponent.value, 32) || !InRange(|fraction| - exponent.value, 32) then None
    else Some(Decimal(DigitsValue(whole + fraction, 10), |fraction| - exponent.value))
  }

  /** Digits, 'e', then an exponent outside int range: new BigDecimal throws, whatever the digits. */
  lemma DecimalExponentOverflow(digits: string, x: string)
    requires |digits| > 0 && forall i :: 0 <= i < |digits| ==> '0' <= digits[i] <= '9'
    requires ParseInteger(x, 10).Some? && !InRange(ParseInteger(x, 10).value, 32)
    ensures ParseDecimal(digits + "e" + x) == None
  {
    var s := digits + "e" + x;
    NoMarks(digits);
    IndexOfAppend(digits, "e" + x, IsExponentMark);
    assert s == digits + ("e" + x);
    assert s[0] == digits[0];
    assert s[|digits| + 1..] == x;
    assert Exponent(s) == ParseInteger(x, 10);
  }

  lemma {:induction false} IndexOfAppend(a: string, b: string, p: char -> bool)
    requires forall i :: 0 <= i < |a| ==> !p(a[i])
    ensures IndexOf(a + b, p) == |a| + IndexOf(b, p)
  {
    if |a| > 0 {
      assert (a + b)[0] == a[0];
      assert (a + b)[1..] == a[1..] + b;
      IndexOfAppend(a[1..], b, p);
    } else {
      assert a + b == b;
    }
  }

  /** An integer's own text reads back as that integer with scale 0. */
  lemma ParseDecimalOfIntText(n: int)
    ensures ParseDecimal(IntText(n)) == Some(Decimal(n, 0))
  {
    var m := if n < 0 then -n else n;
    DigitsTextValue(m);
    MagnitudeOfDigits(DigitsText(m));
    var s := IntText(n);
    assert (if |s| > 0 && (s[0] == '-' || s[0] == '+') then s[1..] else s) == DigitsText(m);
  }

  /** A run of digits reads as its value with scale 0. */
  lemma MagnitudeOfDigits(body: string)
    requires |body| > 0 && forall i :: 0 <= i < |body| ==> '0' <= body[i] <= '9'
    ensures AllDigits(body, 10)
    ensures ParseMagnitude(body) == Some(Decimal(DigitsValue(body, 10), 0))
  {
    NoMarks(body);
    assert AllDigits(body, 10);
    var mantissa := body[..IndexOf(body, IsExponentMark)];
    assert mantissa == body;
    var whole := mantissa[..IndexOf(mantissa, IsPoint)];
    assert whole == body;
    assert whole + [] == body;
  }

  /**
   * Digits, a point, digits, 'E' and an int's text: every digit goes into the
   * unscaled value, and the scale is the number of fraction digits less the exponent.
   */
  lemma MagnitudeOfParts(w: string, f: string, x: int)
    requires forall i :: 0 <= i < |w| ==> '0' <= w[i] <= '9'
    requires forall i :: 0 <= i < |f| ==> '0' <= f[i] <= '9'
    requires |w| + |f| > 0 && InRange(x, 32) && InRange(|f| - x, 32)
    ensures AllDigits(w + f, 10)
    ensures ParseMagnitude(w + "." + f + "E" + IntText(x)) == Some(Decimal(DigitsValue(w + f, 10), |f| - x))
  {
    var m := w + "." + f;
    var t := IntText(x);
    PointNoMarks(w, f);
    ExponentAfter(m, t);
    IntTextRoundTrip(x);
    PointAfter(w, f);
    DigitsAppend(w, f);
    MagnitudeSplit(m + ("E" + t), m, w, f, x);
    AppendAssoc(m, "E", t);
  }

  /** Such a text starts with a digit or the point and ends with the exponent's last character. */
  lemma PartsVisible(w: string, f: string, t: string)
    requires forall i :: 0 <= i < |w| ==> '0' <= w[i] <= '9'
    requires |t| > 0 && t[|t| - 1] > ' '
    ensures var body := w + "." + f + "E" + t;
      body[0] > ' ' && body[0] != '+' && body[0] != '-' && body[|body| - 1] > ' '
  {
    var body := w + "." + f + "E" + t;
    assert body[0] == (if |w| > 0 then w[0] else '.');
    assert body[|body| - 1] == t[|t| - 1];
  }

  /** Digits, a point and digits without an exponent: the scale is the number of fraction digits. */
  lemma MagnitudeOfPoint(w: string, f: string)
    requires forall i :: 0 <= i < |w| ==> '0' <= w[i] <= '9'
    requires forall i :: 0 <= i < |f| ==> '0' <= f[i] <= '9'
    requires |w| + |f| > 0 && InRange(|f|, 32)
    ensures AllDigits(w + f, 10)
    ensures ParseMagnitude(w + "." + f) == Some(Decimal(DigitsValue(w + f, 10), |f|))
  {
    var m := w + "." + f;
    PointNoMarks(w, f);
    assert IndexOf(m, IsExponentMark) == |m|;
    assert Mantissa(m) == m;
    assert Exponent(m) == Some(0);
    PointAfter(w, f);
    DigitsAppend(w, f);
    MagnitudeSplit(m, m, w, f, 0);
  }

  /** ParseMagnitude once the mark, the point and the exponent have been located. */
  lemma MagnitudeSplit(body: string, m: string, w: string, f: string, x: int)
    requires Mantissa(body) == m && Exponent(body) == Some(x)
    requires Whole(m) == w && Fraction(m) == f
    requires |w| + |f| > 0 && AllDigits(w + f, 10) && InRange(x, 32) && InRange(|f| - x, 32)
    ensures ParseMagnitude(body) == Some(Decimal(DigitsValue(w + f, 10), |f| - x))
  {
    Pow2Int();
  }

  /** A point between two runs of digits holds no exponent mark. */
  lemma PointNoMarks(w: string, f: string)
    requires forall i :: 0 <= i < |w| ==> '0' <= w[i] <= '9'
    requires forall i :: 0 <= i < |f| ==> '0' <= f[i] <= '9'
    ensures forall i :: 0 <= i < |w + "." + f| ==> !IsExponentMark((w + "." + f)[i])
  {
    var m := w + "." + f;
    forall i | 0 <= i < |m|
      ensures !IsExponentMark(m[i])
    {
      if i < |w| {
        assert m[i] == w[i];
      } else if i > |w| {
        assert m[i] == f[i - |w| - 1];
      } else {
        assert m[i] == '.';
      }
    }
  }

  /** The first mark is the 'E' after a mark-free mantissa, and the exponent is what follows it. */
  lemma ExponentAfter(m: string, t: string)
    requires forall i :: 0 <= i < |m| ==> !IsExponentMark(m[i])
    ensures Mantissa(m + ("E" + t)) == m
    ensures Exponent(m + ("E" + t)) == ParseInteger(t, 10)
  {
    IndexOfAppend(m, "E" + t, IsExponentMark);
    assert (m + ("E" + t))[..|m|] == m;
    assert (m + ("E" + t))[|m| + 1..] == t;
  }

  /** The point after a run of digits splits the mantissa into those digits and the rest. */
  lemma PointAfter(w: string, f: string)
    requires forall i :: 0 <= i < |w| ==> '0' <= w[i] <= '9'
    ensures Whole(w + "." + f) == w && Fraction(w + "." + f) == f
  {
    NoMarks(w);
    IndexOfAppend(w, "." + f, IsPoint);
    assert w + "." + f == w + ("." + f);
    assert (w + "." + f)[..|w|] == w;
    assert (w + "." + f)[|w| + 1..] == f;
  }


  lemma DigitsAppend(w: string, f: string)
    requires forall i :: 0 <= i < |w| ==> '0' <= w[i] <= '9'
    requires forall i :: 0 <= i < |f| ==> '0' <= f[i] <= '9'
    ensures AllDigits(w + f, 10)
  {
    forall i | 0 <= i < |w + f|
      ensures IsDigit((w + f)[i], 10)
    {
      if i < |w| {
        assert (w + f)[i] == w[i];
      } else {
        assert (w + f)[i] == f[i - |w|];
      }
    }
  }

  lemma NoMarks(s: string)
    requires forall i :: 0 <= i < |s| ==> '0' <= s[i] <= '9'
    ensures IndexOf(s, IsExponentMark) == |s| && IndexOf(s, IsPoint) == |s|
  {
  }

  /** A decimal printed with scale 0 is the integer's text: no exponent, no point. */
  lemma DecimalTextOfInteger(n: int)
    ensures DecimalText(Decimal(n, 0)) == IntText(n)
  {
    var coeff := DigitsText(if n < 0 then -n else n);
    assert DecimalText(Decimal(n, 0)) == (if n < 0 then "-" else "") + coeff;
  }

  /** Characters between '+' and 'E': digits, signs, the point and the exponent mark. */
  predicate Numeric(s: string)
  {
    forall i :: 0 <= i < |s| ==> '+' <= s[i] <= 'E'
  }

  lemma NumericAppend(a: string, b: string)
    requires Numeric(a) && Numeric(b)
    ensures Numeric(a + b)
  {
    forall i | 0 <= i < |a + b|
      ensures '+' <= (a + b)[i] <= 'E'
    {
      if i < |a| {
        assert (a + b)[i] == a[i];
      } else {
        assert (a + b)[i] == b[i - |a|];
      }
    }
  }

  /** BigDecimal.toString writes only digits, signs, '.' and 'E'. */
  lemma DecimalTextNumeric(d: Decimal)
    ensures Numeric(DecimalText(d))
  {
    var coeff := DigitsText(if d.unscaled < 0 then -d.unscaled else d.unscaled);
    var adjusted := -d.scale + (|coeff| - 1);
    var sign := if d.unscaled < 0 then "-" else "";
    var body := DecimalBody(coeff, d.scale, adjusted);
    assert DecimalText(d) == sign + body;
    DecimalBodyNumeric(coeff, d.scale, adjusted);
    assert Numeric(sign);
    NumericAppend(sign, body);
  }

  /** The unsigned part of DecimalText: plain digits, point form or scientific form. */
  function DecimalBody(coeff: string, scale: int, adjusted: int): string
    requires |coeff| > 0
  {
    if scale == 0 then coeff
    else if scale > 0 && adjusted >= -6 then PointText(coeff, scale)
    else SciText(coeff, adjusted)
  }

  lemma DecimalBodyNumeric(coeff: string, scale: int, adjusted: int)
    requires |coeff| > 0 && Numeric(coeff)
    ensures Numeric(DecimalBody(coeff, scale, adjusted))
  {
    if scale == 0 {
    } else if scale > 0 && adjusted >= -6 {
      PointTextNumeric(coeff, scale);
    } else {
      SciTextNumeric(coeff, adjusted);
    }
  }

  lemma PointTextNumeric(coeff: string, scale: nat)
    requires scale > 0 && Numeric(coeff)
    ensures Numeric(PointText(coeff, scale))
  {
    var len := |coeff|;
    if scale >= len {
      assert Numeric("0.");
      NumericAppend("0.", Zeros(scale - len));
      NumericAppend("0." + Zeros(scale - len), coeff);
    } else {
      var hi, lo := coeff[..len - scale], coeff[len - scale..];
      assert Numeric(hi) && Numeric(lo) && Numeric(".");
      NumericAppend(hi, ".");
      NumericAppend(hi + ".", lo);
    }
  }

  lemma SciTextNumeric(coeff: string, adjusted: int)
    requires |coeff| > 0 && Numeric(coeff)
    ensures Numeric(SciText(coeff, adjusted))
  {
    var frac := if |coeff| > 1 then "." + coeff[1..] else "";
    assert Numeric(coeff[1..]) && Numeric(".") && Numeric(coeff[..1]);
    NumericAppend(".", coeff[1..]);
    var mark := "E" + (if adjusted > 0 then "+" else "");
    assert Numeric(mark) && Numeric(IntText(adjusted));
    NumericAppend(mark, IntText(adjusted));
    var exp := if adjusted != 0 then mark + IntText(adjusted) else "";
    NumericAppend(coeff[..1], frac);
    NumericAppend(coeff[..1] + frac, exp);
  }
}
