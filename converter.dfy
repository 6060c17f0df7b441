/**
 * The scalar converters of jsonic-1.2 (Converter.java): the Map/List
 * unwrapping every converter starts with, the primitive defaults, the
 * Boolean, Character, Byte, Short, Integer, Long, BigInteger, BigDecimal and
 * CharSequence rules, and flattenProperties, which writes a value tree into
 * java.util.Properties under dotted keys. No NumberFormat is configured.
 */
module Converter {
  import opened Base
  import opened JavaText
  import opened Values

  // ---------------------------------------------------------------------
  // Targets and defaults.

  /** The class a converter is asked for; primitive is int.class versus Integer.class. */
  datatype Target = Target(kind: TargetKind, primitive: bool)

  datatype TargetKind = BooleanKind | CharKind | IntegralKind(num: NumberKind)

  /** The width of byte, short, int and long (BigInteger is unbounded). */
  function Bits(k: NumberKind): (b: nat)
    requires k != BigIntNum
    ensures b in {8, 16, 32, 64}
  {
    match k
    case ByteNum => 8
    case ShortNum => 16
    case IntNum => 32
    case LongNum => 64
  }

  /**
   * PlainConverter.getDefaultValue: the zero of a primitive class, null for
   * every other class.
   */
  function DefaultValue(t: Target): (r: Value)
    requires t.kind.IntegralKind? ==> t.kind.num != BigIntNum
    ensures r.Null? <==> !t.primitive
    ensures t.primitive && t.kind.BooleanKind? ==> r == Bool(false)
    ensures t.primitive && t.kind.CharKind? ==> r == Char('\0')
    ensures t.primitive && t.kind.IntegralKind? ==> r == Num(t.kind.num, 0)
  {
    if !t.primitive then Null
    else match t.kind
      case BooleanKind => Bool(false)
      case CharKind => Char('\0')
      case IntegralKind(k) => Num(k, 0)
  }

  /**
   * The prologue of every converter: a Map stands for its value at the null
   * key, a List for its first element; an absent key or an empty list is null.
   */
  function Unwrap(value: Value): (v: Value)
    ensures value.Map? ==> v == (match Get(value.entries, None) case Some(x) => x case None => Null)
    ensures value.List? ==> v == (if |value.items| == 0 then Null else value.items[0])
    ensures !value.Map? && !value.List? ==> v == value
  {
    match value
    case Map(es) => (match Get(es, None) case Some(x) => x case None => Null)
    case List(items) => if |items| == 0 then Null else items[0]
    case _ => value
  }

  /** A map built by putting x under the null key unwraps to x, whatever else it holds. */
  lemma UnwrapPutNull(es: seq<Entry>, x: Value)
    ensures Unwrap(Map(Put(es, None, x))) == x
  {
    PutSpec(es, None, x);
  }

  // ---------------------------------------------------------------------
  // BooleanConverter.

  /** The trimmed texts that read as false: blank, f/false/no/off in any case, and NaN exactly. */
  predicate FalseWord(t: string)
  {
    |t| == 0
    || EqualsIgnoreCase(t, "f") || EqualsIgnoreCase(t, "false")
    || EqualsIgnoreCase(t, "no") || EqualsIgnoreCase(t, "off")
    || t == "NaN"
  }

  /** The truth of a non-null object's toString(). */
  predicate StringTruth(s: string)
  {
    !FalseWord(Trim(s))
  }

  /**
   * BigDecimal's branch as written: !value.equals(BigDecimal.ZERO), and
   * BigDecimal.equals compares the scale too, so 0.0 is not ZERO.
   */
  predicate DecimalTruthAsWritten(d: Decimal)
  {
    d != Decimal(0, 0)
  }

  /** BigDecimal's branch as intended: every zero, whatever its scale, is false. */
  predicate DecimalTruth(d: Decimal)
  {
    !IsZero(d)
  }

  /** The two readings part on a zero with a scale: 0.0 is true as written, false as intended. */
  lemma DecimalTruthScaledZero()
    ensures DecimalTruthAsWritten(Decimal(0, 1)) && !DecimalTruth(Decimal(0, 1))
    ensures forall d: Decimal :: !IsZero(d) ==> (DecimalTruth(d) && DecimalTruthAsWritten(d))
  {
  }

  /**
   * BooleanConverter.convert. Other numbers go through intValue(), which
   * keeps the low 32 bits of a long. An object with no modelled toString()
   * is NotModelled. A BigDecimal takes the corrected reading DecimalTruth
   * (every zero is false), not the scale-sensitive DecimalTruthAsWritten.
   */
  function ToBoolean(value: Value, primitive: bool): (r: Result<Value>)
    ensures r.Ok? ==> r.value.Bool? || (r.value.Null? && !primitive)
    ensures r.Err? ==> r.error == NotModelled
    ensures Unwrap(value).Null? ==> r == Ok(DefaultValue(Target(BooleanKind, primitive)))
  {
    var v := Unwrap(value);
    if v.Str? then Ok(Bool(StringTruth(v.s)))
    else if v.Null? then Ok(DefaultValue(Target(BooleanKind, primitive)))
    else if v.Bool? then Ok(v)
    else if v.Num? then Ok(Bool(if v.kind == BigIntNum then v.n != 0 else Wrap(v.n, 32) != 0))
    else if v.Dec? then Ok(Bool(DecimalTruth(v.d)))
    else if TextOf(v).Some? then Ok(Bool(StringTruth(TextOf(v).value)))
    else Err(NotModelled)
  }

  /** A BigDecimal converts to false exactly when it is zero, whatever its scale. */
  lemma BooleanOfDecimal(d: Decimal, primitive: bool)
    ensures ToBoolean(Dec(d), primitive) == Ok(Bool(!IsZero(d)))
    ensures ToBoolean(Dec(Decimal(0, 1)), primitive) == Ok(Bool(false))
  {
  }

  /** A string converts to false exactly when its trimmed text is a false word. */
  lemma {:induction false} BooleanOfString(s: string, primitive: bool)
    ensures ToBoolean(Str(s), primitive) == Ok(Bool(!FalseWord(Trim(s))))
    ensures ToBoolean(List([Str(s)]), primitive) == ToBoolean(Str(s), primitive)
  {
    assert Unwrap(Str(s)) == Str(s);
    assert TextOf(Str(s)) == Some(s);
    assert ToBoolean(Str(s), primitive) == Ok(Bool(StringTruth(s)));
  }

  /** Text with no blank at either end converts to false exactly when it is a false word. */
  lemma BooleanOfVisible(s: string, primitive: bool)
    requires |s| > 0 && s[0] > ' ' && s[|s| - 1] > ' '
    ensures ToBoolean(Str(s), primitive) == Ok(Bool(!FalseWord(s)))
  {
    BooleanOfString(s, primitive);
    TrimVisible(s);
  }

  /** A false word read with any letter case and no surrounding blanks converts to false. */
  lemma {:induction false} FalseWordsAnyCase(s: string, w: string, primitive: bool)
    requires w in ["f", "false", "no", "off"] && EqualsIgnoreCase(s, w)
    ensures ToBoolean(Str(s), primitive) == Ok(Bool(false))
  {
    assert ToLower(s[0]) == ToLower(w[0]) && ToLower(s[|s| - 1]) == ToLower(w[|w| - 1]);
    BooleanOfVisible(s, primitive);
  }

  /** Only the exact text "NaN" is false: "nan" or "NAN" read as true. */
  lemma {:induction false} OnlyExactNaN(s: string, primitive: bool)
    requires EqualsIgnoreCase(s, "NaN") && s != "NaN"
    ensures ToBoolean(Str(s), primitive) == Ok(Bool(true))
  {
    assert ToLower(s[0]) == 'n' && ToLower(s[2]) == 'n';
    NaNNotFalse(s);
    BooleanOfVisible(s, primitive);
  }

  lemma NaNNotFalse(s: string)
    requires EqualsIgnoreCase(s, "NaN") && s != "NaN"
    ensures !FalseWord(s)
  {
    assert ToLower(s[0]) == 'n';
    assert ToLower("off"[0]) == 'o';
  }

  /** Text made only of decimal digits, "0" included, is no false word, so it reads as true. */
  lemma {:induction false} DigitsAreTrue(s: string, primitive: bool)
    requires |s| > 0 && AllDigits(s, 10)
    ensures ToBoolean(Str(s), primitive) == Ok(Bool(true))
  {
    assert IsDigit(s[0], 10) && IsDigit(s[|s| - 1], 10);
    DigitsNotFalse(s);
    BooleanOfVisible(s, primitive);
  }

  lemma DigitsNotFalse(s: string)
    requires |s| > 0 && AllDigits(s, 10)
    ensures !FalseWord(s)
  {
    assert IsDigit(s[0], 10);
    assert ToLower(s[0]) == s[0];
    assert ToLower("f"[0]) == 'f' && ToLower("no"[0]) == 'n' && ToLower("off"[0]) == 'o';
    assert s != "NaN" by {
      if |s| == 3 {
        assert !IsDigit("NaN"[0], 10);
      }
    }
  }

  /** A long reads through its low 32 bits, so every multiple of 2^32 is false; a BigInteger is false only at zero. */
  lemma {:induction false} BooleanOfLongMultiple(m: int, primitive: bool)
    ensures ToBoolean(Num(LongNum, m * Pow2(32)), primitive) == Ok(Bool(false))
    ensures ToBoolean(Num(BigIntNum, m * Pow2(32)), primitive) == Ok(Bool(m != 0))
  {
    var x := m * Pow2(32);
    WrapMultiple(m, 32);
    MulZero(m, Pow2(32));
    assert Unwrap(Num(LongNum, x)) == Num(LongNum, x) && Unwrap(Num(BigIntNum, x)) == Num(BigIntNum, x);
    assert ToBoolean(Num(LongNum, x), primitive) == Ok(Bool(Wrap(x, 32) != 0));
    assert ToBoolean(Num(BigIntNum, x), primitive) == Ok(Bool(x != 0));
  }

  /** A Boolean passes through unchanged, for either target. */
  lemma BooleanOfBoolean(b: bool, primitive: bool)
    ensures ToBoolean(Bool(b), primitive) == Ok(Bool(b))
  {
  }

  /** A byte, short or int (or a long that fits an int) is true exactly when it is not zero. */
  lemma BooleanOfNumber(k: NumberKind, n: int, primitive: bool)
    requires k != BigIntNum && InRange(n, 32)
    ensures ToBoolean(Num(k, n), primitive) == Ok(Bool(n != 0))
  {
    assert Unwrap(Num(k, n)) == Num(k, n);
  }

  /** A long goes through intValue(): it is true exactly when its low 32 bits are not all zero. */
  lemma BooleanOfLong(n: int, primitive: bool)
    ensures ToBoolean(Num(LongNum, n), primitive) == Ok(Bool(n % Pow2(32) != 0))
  {
    WrapZero(n, 32);
    assert Unwrap(Num(LongNum, n)) == Num(LongNum, n);
  }

  // ---------------------------------------------------------------------
  // CharacterConverter.

  /** A Java char code (0..65535) as a Dafny char; the surrogate codes have none. */
  function CodeUnit(n: int): (r: Result<char>)
    requires 0 <= n < 0x1_0000
    ensures r.Ok? <==> !(0xD800 <= n < 0xE000)
    ensures r.Ok? ==> r.value as int == n
  {
    if 0xD800 <= n < 0xE000 then Err(NotModelled) else Ok(n as char)
  }

  /**
   * BigDecimal.intValueExact / longValueExact / shortValueExact /
   * byteValueExact: ArithmeticException when there is a fraction or the value
   * does not fit.
   */
  function ValueExact(d: Decimal, bits: nat): (r: Result<int>)
    requires bits > 0
    ensures r.Ok? <==> IsIntegral(d) && InRange(IntegralValue(d), bits)
    ensures r.Ok? ==> r.value == IntegralValue(d)
    ensures r.Err? ==> r.error == Arithmetic
  {
    if IsIntegral(d) && InRange(IntegralValue(d), bits) then Ok(IntegralValue(d)) else Err(Arithmetic)
  }

  /**
   * CharacterConverter.convert: a Boolean is '1' or '0', a BigDecimal is
   * (char) intValueExact(), a String its first char or the default when
   * empty; any other non-null object is unsupported.
   */
  function ToCharacter(value: Value, primitive: bool): (r: Result<Value>)
    ensures r.Ok? ==> r.value.Char? || (r.value.Null? && !primitive)
    ensures Unwrap(value).Str? && |Unwrap(value).s| > 0 ==> r == Ok(Char(Unwrap(value).s[0]))
    ensures Unwrap(value).Null? ==> r == Ok(DefaultValue(Target(CharKind, primitive)))
    ensures r.Err? ==> r.error in {Arithmetic, NotModelled, UnsupportedOperation}
  {
    var v := Unwrap(value);
    if v.Str? then
      if |v.s| > 0 then Ok(Char(v.s[0])) else Ok(DefaultValue(Target(CharKind, primitive)))
    else if v.Null? then Ok(DefaultValue(Target(CharKind, primitive)))
    else if v.Bool? then Ok(Char(if v.b then '1' else '0'))
    else if v.Dec? then
      (match ValueExact(v.d, 32)
       case Err(e) => Err(e)
       case Ok(n) =>
         (match CodeUnit(n % 0x1_0000)
          case Err(e) => Err(e)
          case Ok(c) => Ok(Char(c))))
    else Err(UnsupportedOperation)
  }

  /** A character value itself is not accepted, nor an integer: only the listed types are. */
  lemma CharacterRejects(c: char, n: int)
    ensures ToCharacter(Char(c), true) == Err(UnsupportedOperation)
    ensures ToCharacter(Num(IntNum, n), true) == Err(UnsupportedOperation)
    ensures ToCharacter(Bool(true), true) == Ok(Char('1'))
    ensures ToCharacter(Str(""), true) == Ok(Char('\0')) && ToCharacter(Str(""), false) == Ok(Null)
  {
  }

  /** true is '1' and false is '0', for either target. */
  lemma CharacterOfBoolean(b: bool, primitive: bool)
    ensures ToCharacter(Bool(b), primitive) == Ok(Char(if b then '1' else '0'))
  {
  }

  /** An integral BigDecimal that fits an int becomes the char of its value modulo 2^16, whatever its scale. */
  lemma {:induction false} CharacterOfDecimal(n: int, s: nat, primitive: bool)
    requires InRange(n, 32) && !(0xD800 <= n % 0x1_0000 < 0xE000)
    ensures ToCharacter(Dec(Decimal(n * Pow10(s), s)), primitive) == Ok(Char((n % 0x1_0000) as char))
  {
    ScaledIntegral(n, s);
  }

  // ---------------------------------------------------------------------
  // ByteConverter, ShortConverter, IntegerConverter, LongConverter.

  /**
   * The text after an optional '+': its digits and their radix, 16 after a
   * "0x" prefix, 10 otherwise (str.startsWith("0x", start)).
   */
  function RadixDigits(str: string): (r: (string, nat))
    ensures r.1 == 10 || r.1 == 16
    ensures |r.0| <= |str|
  {
    var body := if |str| > 0 && str[0] == '+' then str[1..] else str;
    if |body| >= 2 && body[..2] == "0x" then (body[2..], 16) else (body, 10)
  }

  /**
   * The String branch of the four fixed-width converters on the trimmed text:
   * Integer.parseInt for byte, short and int, Long.parseLong for long; byte
   * lower-cases first and maps num > 127 to num - 256 before the (byte) cast;
   * short casts with (short).
   */
  function IntegralText(k: NumberKind, str: string): (r: Result<int>)
    requires k != BigIntNum
    ensures r.Ok? ==> InRange(r.value, Bits(k))
    ensures r.Err? ==> r.error == NumberFormat
    ensures r.Err? <==>
      var (digits, radix) := RadixDigits(if k == ByteNum then LowerString(str) else str);
      ParseInteger(digits, radix).None? || !InRange(ParseInteger(digits, radix).value, if k == LongNum then 64 else 32)
    ensures r.Ok? ==>
      var (digits, radix) := RadixDigits(if k == ByteNum then LowerString(str) else str);
      ParseInteger(digits, radix).Some? && r.value == Wrap(ParseInteger(digits, radix).value, Bits(k))
  {
    if k == ByteNum then
      var (digits, radix) := RadixDigits(LowerString(str));
      match ParseJavaInteger(digits, radix, 32)
      case Err(e) => Err(e)
      case Ok(num) =>
        ByteShift(num);
        Ok(Wrap(if num > 127 then num - 256 else num, 8))
    else
      var (digits, radix) := RadixDigits(str);
      match ParseJavaInteger(digits, radix, if k == LongNum then 64 else 32)
      case Err(e) => Err(e)
      case Ok(num) => Ok(if k == ShortNum then Wrap(num, 16) else num)
  }

  /** The String branch: blank text is the default, other text is parsed. */
  function IntegralOfString(s: string, k: NumberKind, primitive: bool): (r: Result<Value>)
    requires k != BigIntNum
    ensures r.Ok? && r.value.Num? ==> r.value.kind == k && InRange(r.value.n, Bits(k))
    ensures |Trim(s)| == 0 ==> r == Ok(DefaultValue(Target(IntegralKind(k), primitive)))
    ensures r.Err? ==> r.error == NumberFormat
  {
    var str := Trim(s);
    if |str| == 0 then Ok(DefaultValue(Target(IntegralKind(k), primitive)))
    else
      match IntegralText(k, str)
      case Err(e) => Err(e)
      case Ok(n) => Ok(Num(k, n))
  }

  /**
   * ByteConverter / ShortConverter / IntegerConverter / LongConverter. A
   * Boolean becomes 1 or 0, boxed as an Integer by the byte, short and int
   * converters and as a Long by the long one; a BigDecimal must be exactly
   * integral and in range; any other number is narrowed by its xxxValue().
   */
  function ToIntegral(value: Value, k: NumberKind, primitive: bool): (r: Result<Value>)
    requires k != BigIntNum
    ensures r.Ok? && r.value.Num? && !Unwrap(value).Bool? ==> r.value.kind == k && InRange(r.value.n, Bits(k))
    ensures r.Ok? ==> r.value.Num? || (r.value.Null? && !primitive)
    ensures Unwrap(value).Null? ==> r == Ok(DefaultValue(Target(IntegralKind(k), primitive)))
    ensures r.Err? ==> r.error in {Arithmetic, NumberFormat, UnsupportedOperation}
  {
    var v := Unwrap(value);
    if v.Str? then IntegralOfString(v.s, k, primitive)
    else if v.Null? then Ok(DefaultValue(Target(IntegralKind(k), primitive)))
    else if v.Bool? then Ok(Num(if k == LongNum then LongNum else IntNum, if v.b then 1 else 0))
    else if v.Num? then Ok(Num(k, Wrap(v.n, Bits(k))))
    else if v.Dec? then
      (match ValueExact(v.d, Bits(k))
       case Err(e) => Err(e)
       case Ok(n) => Ok(Num(k, n)))
    else Err(UnsupportedOperation)
  }

  /** A Boolean is 1 or 0, boxed as an Integer, or as a Long by the long converter. */
  lemma IntegralOfBoolean(b: bool, k: NumberKind, primitive: bool)
    requires k != BigIntNum
    ensures ToIntegral(Bool(b), k, primitive) == Ok(Num(if k == LongNum then LongNum else IntNum, if b then 1 else 0))
  {
  }

  /**
   * byteValue() / shortValue() / intValue() / longValue(): a number of any
   * kind is cast to the target's width, and one that fits comes through as is.
   */
  lemma IntegralOfNumber(j: NumberKind, n: int, k: NumberKind, primitive: bool)
    requires k != BigIntNum
    ensures ToIntegral(Num(j, n), k, primitive) == Ok(Num(k, Wrap(n, Bits(k))))
    ensures InRange(n, Bits(k)) ==> ToIntegral(Num(j, n), k, primitive) == Ok(Num(k, n))
  {
    assert Unwrap(Num(j, n)) == Num(j, n);
  }

  /** The (short) cast applied to what the int converter gives; null and errors pass through. */
  function ShortCast(r: Result<Value>): Result<Value>
  {
    match r
    case Ok(Num(_, n)) => Ok(Num(ShortNum, Wrap(n, 16)))
    case _ => r
  }

  /** The short converter reads text exactly as the int converter does, then casts with (short). */
  lemma ShortIsIntCast(s: string, primitive: bool)
    ensures ToIntegral(Str(s), ShortNum, primitive) == ShortCast(ToIntegral(Str(s), IntNum, primitive))
  {
    assert Unwrap(Str(s)) == Str(s);
    assert ToIntegral(Str(s), ShortNum, primitive) == IntegralOfString(s, ShortNum, primitive);
    assert ToIntegral(Str(s), IntNum, primitive) == IntegralOfString(s, IntNum, primitive);
    ShortStringCast(s, primitive);
  }

  lemma ShortStringCast(s: string, primitive: bool)
    ensures IntegralOfString(s, ShortNum, primitive) == ShortCast(IntegralOfString(s, IntNum, primitive))
  {
    var str := Trim(s);
    if |str| == 0 {
      assert InRange(0, 16);
    } else {
      var a, b := IntegralText(ShortNum, str), IntegralText(IntNum, str);
      assert IntegralOfString(s, ShortNum, primitive) == (match a case Err(e) => Err(e) case Ok(n) => Ok(Num(ShortNum, n)));
      assert IntegralOfString(s, IntNum, primitive) == (match b case Err(e) => Err(e) case Ok(n) => Ok(Num(IntNum, n)));
      ShortTextCast(str);
      CastOfText(a, b);
    }
  }

  lemma CastOfText(a: Result<int>, b: Result<int>)
    requires a == (match b case Ok(n) => Ok(Wrap(n, 16)) case Err(e) => Err(e))
    ensures (match a case Err(e) => Err(e) case Ok(n) => Ok(Num(ShortNum, n)))
      == ShortCast(match b case Err(e) => Err(e) case Ok(n) => Ok(Num(IntNum, n)))
  {
  }

  lemma ShortTextCast(str: string)
    ensures IntegralText(ShortNum, str) == (match IntegralText(IntNum, str) case Ok(n) => Ok(Wrap(n, 16)) case Err(e) => Err(e))
  {
  }

  /** "0xFF" and "+0xFF" convert to the short 255. */
  lemma ShortOfFF(pre: string, primitive: bool)
    requires pre == "0x" || pre == "+0x"
    ensures ToIntegral(Str(pre + "FF"), ShortNum, primitive) == Ok(Num(ShortNum, 255))
  {
    var ff := "FF";
    HexFF();
    Pow2Short();
    Pow2Int();
    HexShape(ff);
    HexParse(IntNum, ff);
    ShortTextCast(pre + ff);
    assert InRange(255, 16);
    OfTrimmed(pre + ff, ShortNum, primitive, 255);
  }

  /** A decimal converts exactly when it is integral and fits; 5.00 is 5, 5.01 fails. */
  lemma {:induction false} IntegralOfDecimal(d: Decimal, k: NumberKind, primitive: bool)
    requires k != BigIntNum
    ensures ToIntegral(Dec(d), k, primitive).Ok? <==> IsIntegral(d) && InRange(IntegralValue(d), Bits(k))
    ensures ToIntegral(Dec(d), k, primitive).Ok? ==> ToIntegral(Dec(d), k, primitive).value == Num(k, IntegralValue(d))
  {
  }

  /** n scaled by 10^s (5.00 for n = 5, s = 2) converts to n exactly when n fits the type. */
  lemma {:induction false} ScaledDecimal(n: int, s: nat, k: NumberKind, primitive: bool)
    requires k != BigIntNum
    ensures ToIntegral(Dec(Decimal(n * Pow10(s), s)), k, primitive)
      == (if InRange(n, Bits(k)) then Ok(Num(k, n)) else Err(Arithmetic))
  {
    ScaledIntegral(n, s);
    IntegralOfDecimal(Decimal(n * Pow10(s), s), k, primitive);
  }

  /** An int's decimal text converts back to that int. */
  lemma {:induction false} IntegerOfText(n: int, primitive: bool)
    requires InRange(n, 32)
    ensures ToIntegral(Str(IntText(n)), IntNum, primitive) == Ok(Num(IntNum, n))
  {
    var s := IntText(n);
    IntTextRoundTrip(n);
    NoPrefix(n);
    IntTextTrimmed(n);
    DecimalIntegral(IntNum, s, n);
    OfTrimmed(s, IntNum, primitive, n);
  }

  /** A leading '+' is skipped: "+" followed by an int's text converts like the text alone. */
  lemma {:induction false} PlusIntegerOfText(n: int, primitive: bool)
    requires 0 <= n && InRange(n, 32)
    ensures ToIntegral(Str("+" + IntText(n)), IntNum, primitive) == Ok(Num(IntNum, n))
  {
    var s := IntText(n);
    var p := "+" + s;
    IntTextRoundTrip(n);
    NoPrefix(n);
    TrimVisible(p);
    assert p[1..] == s;
    SameRadix(IntNum, p, s);
    DecimalIntegral(IntNum, s, n);
    OfTrimmed(p, IntNum, primitive, n);
  }

  /** Decimal text of a value in range parses to it. */
  lemma DecimalIntegral(k: NumberKind, s: string, n: int)
    requires k == IntNum || k == LongNum
    requires RadixDigits(s) == (s, 10) && ParseInteger(s, 10) == Some(n) && InRange(n, Bits(k))
    ensures IntegralText(k, s) == Ok(n)
  {
  }

  /** Texts with the same digits and radix parse alike (byte aside, which lower-cases first). */
  lemma SameRadix(k: NumberKind, a: string, b: string)
    requires k != BigIntNum && k != ByteNum && RadixDigits(a) == RadixDigits(b)
    ensures IntegralText(k, a) == IntegralText(k, b)
  {
  }

  /** Text that trim leaves alone goes straight to the string branch. */
  lemma OfTrimmed(s: string, k: NumberKind, primitive: bool, n: int)
    requires k != BigIntNum && |s| > 0 && Trim(s) == s && IntegralText(k, s) == Ok(n)
    ensures ToIntegral(Str(s), k, primitive) == Ok(Num(k, n))
  {
    assert Unwrap(Str(s)) == Str(s);
    assert ToIntegral(Str(s), k, primitive) == IntegralOfString(s, k, primitive);
    assert Trim(s) == s;
  }
  /** A long's decimal text converts back to that long. */
  lemma {:induction false} LongOfText(n: int, primitive: bool)
    requires InRange(n, 64)
    ensures ToIntegral(Str(IntText(n)), LongNum, primitive) == Ok(Num(LongNum, n))
  {
    IntTextRoundTrip(n);
    NoPrefix(n);
    IntTextTrimmed(n);
    DecimalIntegral(LongNum, IntText(n), n);
    OfTrimmed(IntText(n), LongNum, primitive, n);
  }

  /** Integer text starts with '-' or a digit, so neither the '+' nor the "0x" branch applies. */
  lemma NoPrefix(n: int)
    ensures RadixDigits(IntText(n)) == (IntText(n), 10)
  {
    var s := IntText(n);
    assert |s| < 2 || s[..2] != "0x" by {
      if |s| >= 2 {
        assert s[..2][1] == s[1];
      }
    }
  }


  /** "0x" then hexadecimal digits parses in radix 16, with or without a leading '+'. */
  lemma {:induction false} HexOfText(digits: string, k: NumberKind, primitive: bool)
    requires k == IntNum || k == LongNum
    requires |digits| > 0 && AllDigits(digits, 16) && InRange(DigitsValue(digits, 16), Bits(k))
    ensures ToIntegral(Str("0x" + digits), k, primitive) == Ok(Num(k, DigitsValue(digits, 16)))
    ensures ToIntegral(Str("+0x" + digits), k, primitive) == Ok(Num(k, DigitsValue(digits, 16)))
  {
    var s, p := "0x" + digits, "+0x" + digits;
    HexShape(digits);
    HexParse(k, digits);
    OfTrimmed(s, k, primitive, DigitsValue(digits, 16));
    OfTrimmed(p, k, primitive, DigitsValue(digits, 16));
  }

  /** Both texts are free of blanks at the ends and carry the digits in radix 16. */
  lemma HexShape(digits: string)
    requires |digits| > 0 && AllDigits(digits, 16)
    ensures Trim("0x" + digits) == "0x" + digits && Trim("+0x" + digits) == "+0x" + digits
    ensures RadixDigits("0x" + digits) == (digits, 16) && RadixDigits("+0x" + digits) == (digits, 16)
  {
    var s, p := "0x" + digits, "+0x" + digits;
    assert IsDigit(digits[|digits| - 1], 16);
    assert s[|s| - 1] == digits[|digits| - 1] && p[|p| - 1] == digits[|digits| - 1];
    TrimVisible(s);
    TrimVisible(p);
    assert s[..2] == "0x" && s[2..] == digits;
    assert p[1..] == s;
  }

  lemma HexParse(k: NumberKind, digits: string)
    requires k == IntNum || k == LongNum
    requires |digits| > 0 && AllDigits(digits, 16) && InRange(DigitsValue(digits, 16), Bits(k))
    requires RadixDigits("0x" + digits) == (digits, 16) && RadixDigits("+0x" + digits) == (digits, 16)
    ensures IntegralText(k, "0x" + digits) == Ok(DigitsValue(digits, 16))
    ensures IntegralText(k, "+0x" + digits) == Ok(DigitsValue(digits, 16))
  {
    var bits := if k == LongNum then 64 else 32;
    assert bits == Bits(k);
    HexDigitsParse(digits, bits);
  }

  lemma HexDigitsParse(digits: string, bits: nat)
    requires bits > 0 && |digits| > 0 && AllDigits(digits, 16) && InRange(DigitsValue(digits, 16), bits)
    ensures ParseJavaInteger(digits, 16, bits) == Ok(DigitsValue(digits, 16))
  {
    assert IsDigit(digits[0], 16);
  }

  /** Every byte value in 128..255 written as a decimal comes back as value - 256. */
  lemma {:induction false} ByteWraps(n: int, primitive: bool)
    requires 128 <= n < 256
    ensures ToIntegral(Str(IntText(n)), ByteNum, primitive) == Ok(Num(ByteNum, n - 256))
  {
    var s := IntText(n);
    ByteText(n);
    IntTextTrimmed(n);
    OfTrimmed(s, ByteNum, primitive, n - 256);
  }

  lemma ByteText(n: int)
    requires 128 <= n < 256
    ensures IntegralText(ByteNum, IntText(n)) == Ok(n - 256)
  {
    var s := IntText(n);
    IntTextRoundTrip(n);
    NoPrefix(n);
    DigitsLower(s);
    Pow2Short();
    Pow2Int();
    assert ParseJavaInteger(s, 10, 32) == Ok(n);
    ByteOfParsed(s, s, 10, n);
    assert InRange(n - 256, 8);
  }

  lemma DigitsLower(s: string)
    requires forall i :: 0 <= i < |s| ==> s[i] == '-' || '0' <= s[i] <= '9'
    ensures LowerString(s) == s
  {
  }

  /** ByteConverter lower-cases the trimmed text: texts that differ only in case convert alike. */
  lemma ByteIgnoresCase(s: string, t: string, primitive: bool)
    requires EqualsIgnoreCase(s, t)
    ensures ToIntegral(Str(s), ByteNum, primitive) == ToIntegral(Str(t), ByteNum, primitive)
  {
    TrimIgnoreCase(s, t);
    var a, b := Trim(s), Trim(t);
    assert |a| == |LowerString(a)| == |LowerString(b)| == |b|;
    assert IntegralText(ByteNum, a) == IntegralText(ByteNum, b);
    assert Unwrap(Str(s)) == Str(s) && Unwrap(Str(t)) == Str(t);
  }

  /**
   * Hexadecimal text whose value is 128..255 wraps to value - 256, after
   * "0x" or "+0x" written in either case, whichever case the digits are in.
   */
  lemma ByteHexWraps(pre: string, digits: string, primitive: bool)
    requires EqualsIgnoreCase(pre, "0x") || EqualsIgnoreCase(pre, "+0x")
    requires |digits| > 0 && AllDigits(digits, 16) && 128 <= DigitsValue(digits, 16) < 256
    ensures ToIntegral(Str(pre + digits), ByteNum, primitive) == Ok(Num(ByteNum, DigitsValue(digits, 16) - 256))
  {
    var s := pre + digits;
    var low := LowerString(digits);
    DigitsValueLower(digits, 16);
    var v: int := DigitsValue(digits, 16);
    assert DigitsValue(low, 16) == v;
    HexShape(low);
    if |pre| == 2 {
      HexPrefixTrimmed(pre, "0x", digits);
      HexPrefixLowered(pre, "0x", digits);
    } else {
      HexPrefixTrimmed(pre, "+0x", digits);
      HexPrefixLowered(pre, "+0x", digits);
    }
    assert RadixDigits(LowerString(s)) == (low, 16);
    ByteHexText(s, low);
    OfTrimmed(s, ByteNum, primitive, v - 256);
  }

  /** A hexadecimal prefix followed by digits has no blank at either end. */
  lemma HexPrefixTrimmed(pre: string, lowPre: string, digits: string)
    requires lowPre == "0x" || lowPre == "+0x"
    requires EqualsIgnoreCase(pre, lowPre) && |digits| > 0 && AllDigits(digits, 16)
    ensures Trim(pre + digits) == pre + digits
  {
    var s := pre + digits;
    assert ToLower(pre[0]) == ToLower(lowPre[0]);
    assert IsDigit(digits[|digits| - 1], 16) && s[|s| - 1] == digits[|digits| - 1];
    TrimVisible(s);
  }

  /** Lower-casing the prefix gives lowPre. */
  lemma HexPrefixLowered(pre: string, lowPre: string, digits: string)
    requires lowPre == "0x" || lowPre == "+0x"
    requires EqualsIgnoreCase(pre, lowPre)
    ensures LowerString(pre + digits) == lowPre + LowerString(digits)
  {
    var s := pre + digits;
    var a, b := LowerString(s), lowPre + LowerString(digits);
    forall i | 0 <= i < |a|
      ensures a[i] == b[i]
    {
      if i < |pre| {
        assert s[i] == pre[i] && ToLower(pre[i]) == ToLower(lowPre[i]);
        assert !IsUpper(lowPre[i]);
      } else {
        assert s[i] == digits[i - |pre|];
      }
    }
  }

  /** The byte branch on text whose lower-cased form reads as hexadecimal digits worth 128..255. */
  lemma ByteHexText(str: string, low: string)
    requires |low| > 0 && AllDigits(low, 16) && 128 <= DigitsValue(low, 16) < 256
    requires RadixDigits(LowerString(str)) == (low, 16)
    ensures IntegralText(ByteNum, str) == Ok(DigitsValue(low, 16) - 256)
  {
    var v: int := DigitsValue(low, 16);
    Pow2Short();
    Pow2Int();
    HexDigitsParse(low, 32);
    ByteOfParsed(str, low, 16, v);
    assert InRange(v - 256, 8);
  }

  /** The byte branch once the lower-cased text has been split and parsed. */
  lemma ByteOfParsed(str: string, digits: string, radix: nat, num: int)
    requires RadixDigits(LowerString(str)) == (digits, radix) && ParseJavaInteger(digits, radix, 32) == Ok(num)
    ensures IntegralText(ByteNum, str) == Ok(Wrap(if num > 127 then num - 256 else num, 8))
  {
  }

  lemma HexFF()
    ensures AllDigits("FF", 16) && DigitsValue("FF", 16) == 255
  {
    var ff := "FF";
    assert ff[..1] == "F";
    assert DigitsValue(ff[..1], 16) == 15;
  }

  /** "0xFF" and "+0xFF" convert to (byte)0xFF, that is -1. */
  lemma ByteOfFF(pre: string, primitive: bool)
    requires pre == "0x" || pre == "+0x"
    ensures ToIntegral(Str(pre + "FF"), ByteNum, primitive) == Ok(Num(ByteNum, -1))
  {
    var ff := "FF";
    HexFF();
    assert EqualsIgnoreCase(pre, pre);
    ByteHexWraps(pre, ff, primitive);
  }

  // ---------------------------------------------------------------------
  // BigIntegerConverter and BigDecimalConverter (no primitive class; null
  // and blank text give null).

  function ToBigInteger(value: Value): (r: Result<Value>)
    ensures r.Ok? ==> r.value.Null? || (r.value.Num? && r.value.kind == BigIntNum)
    ensures Unwrap(value).Null? ==> r == Ok(Null)
    ensures Unwrap(value).Num? && Unwrap(value).kind == BigIntNum ==> r == Ok(Unwrap(value))
    ensures r.Err? ==> r.error in {Arithmetic, NumberFormat, UnsupportedOperation}
  {
    var v := Unwrap(value);
    if v.Str? then BigIntegerOfString(v.s)
    else if v.Null? then Ok(Null)
    else if v.Bool? then Ok(Num(BigIntNum, if v.b then 1 else 0))
    else if v.Num? then Ok(Num(BigIntNum, if v.kind == BigIntNum then v.n else Wrap(v.n, 64)))
    else if v.Dec? then
      if IsIntegral(v.d) then Ok(Num(BigIntNum, IntegralValue(v.d))) else Err(Arithmetic)
    else Err(UnsupportedOperation)
  }

  /** The String branch: blank text is null, other text is new BigInteger(digits, radix). */
  function BigIntegerOfString(s: string): (r: Result<Value>)
    ensures r.Ok? ==> r.value.Null? || (r.value.Num? && r.value.kind == BigIntNum)
    ensures r.Err? ==> r.error == NumberFormat
    ensures |Trim(s)| == 0 ==> r == Ok(Null)
    ensures |Trim(s)| > 0 ==>
      var (digits, radix) := RadixDigits(Trim(s));
      (r.Ok? <==> ParseInteger(digits, radix).Some?) && (r.Ok? ==> r.value == Num(BigIntNum, ParseInteger(digits, radix).value))
  {
    var str := Trim(s);
    if |str| == 0 then Ok(Null)
    else
      var (digits, radix) := RadixDigits(str);
      match ParseInteger(digits, radix)
      case None => Err(NumberFormat)
      case Some(n) => Ok(Num(BigIntNum, n))
  }

  /** Any integer's text, however large, converts back to it. */
  lemma {:induction false} BigIntegerOfText(n: int)
    ensures ToBigInteger(Str(IntText(n))) == Ok(Num(BigIntNum, n))
  {
    IntTextRoundTrip(n);
    NoPrefix(n);
    IntTextTrimmed(n);
  }

  /** A Boolean is BigInteger.ONE or BigInteger.ZERO. */
  lemma BigIntegerOfBoolean(b: bool)
    ensures ToBigInteger(Bool(b)) == Ok(Num(BigIntNum, if b then 1 else 0))
  {
  }

  /** toBigIntegerExact: an integral decimal gives its value, any other an ArithmeticException. */
  lemma BigIntegerOfDecimal(d: Decimal)
    ensures ToBigInteger(Dec(d)).Ok? <==> IsIntegral(d)
    ensures IsIntegral(d) ==> ToBigInteger(Dec(d)) == Ok(Num(BigIntNum, IntegralValue(d)))
    ensures !IsIntegral(d) ==> ToBigInteger(Dec(d)) == Err(Arithmetic)
  {
    assert Unwrap(Dec(d)) == Dec(d);
  }

  /** BigInteger.valueOf(longValue()): a byte, short, int or long keeps its value. */
  lemma BigIntegerOfNumber(k: NumberKind, n: int)
    requires k != BigIntNum && InRange(n, 64)
    ensures ToBigInteger(Num(k, n)) == Ok(Num(BigIntNum, n))
  {
    assert Unwrap(Num(k, n)) == Num(k, n);
  }

  /** "0x" or "+0x" then hexadecimal digits reads the digits in radix 16, however many there are. */
  lemma BigIntegerOfHex(digits: string)
    requires |digits| > 0 && AllDigits(digits, 16)
    ensures ToBigInteger(Str("0x" + digits)) == Ok(Num(BigIntNum, DigitsValue(digits, 16)))
    ensures ToBigInteger(Str("+0x" + digits)) == Ok(Num(BigIntNum, DigitsValue(digits, 16)))
  {
    HexShape(digits);
    assert IsDigit(digits[0], 16);
    assert ParseInteger(digits, 16) == Some(DigitsValue(digits, 16));
    assert Unwrap(Str("0x" + digits)) == Str("0x" + digits);
    assert Unwrap(Str("+0x" + digits)) == Str("+0x" + digits);
  }

  function ToBigDecimal(value: Value): (r: Result<Value>)
    ensures r.Ok? ==> r.value.Null? || r.value.Dec?
    ensures Unwrap(value).Null? ==> r == Ok(Null)
    ensures Unwrap(value).Dec? ==> r == Ok(Unwrap(value))
    ensures Unwrap(value).Num? ==> r == Err(UnsupportedOperation)
    ensures r.Err? ==> r.error in {NumberFormat, UnsupportedOperation}
  {
    var v := Unwrap(value);
    if v.Str? then BigDecimalOfString(v.s)
    else if v.Null? then Ok(Null)
    else if v.Dec? then Ok(v)
    else Err(UnsupportedOperation)
  }

  /** The String branch: blank text is null, a leading '+' is dropped, the rest is new BigDecimal(str). */
  function BigDecimalOfString(s: string): (r: Result<Value>)
    ensures r.Ok? ==> r.value.Null? || r.value.Dec?
    ensures r.Err? ==> r.error == NumberFormat
    ensures |Trim(s)| == 0 ==> r == Ok(Null)
    ensures r.Ok? && r.value.Dec? ==> InRange(r.value.d.scale, 32)
  {
    var str := Trim(s);
    if |str| == 0 then Ok(Null)
    else
      match ParseDecimal(if str[0] == '+' then str[1..] else str)
      case None => Err(NumberFormat)
      case Some(d) => Ok(Dec(d))
  }

  /** One leading '+' is dropped before new BigDecimal sees the text. */
  lemma BigDecimalDropsPlus(t: string)
    requires |t| > 0 && Trim(t) == t && t[0] != '+'
    ensures BigDecimalOfString("+" + t) == BigDecimalOfString(t)
  {
    var p := "+" + t;
    assert t[|t| - 1] > ' ';
    assert p[|p| - 1] == t[|t| - 1];
    TrimVisible(p);
    assert p[1..] == t;
  }

  /** An integer's text is the BigDecimal of that integer with scale 0. */
  lemma {:induction false} BigDecimalOfText(n: int)
    ensures ToBigDecimal(Str(IntText(n))) == Ok(Dec(Decimal(n, 0)))
  {
    var s := IntText(n);
    ParseDecimalOfIntText(n);
    IntTextTrimmed(n);
    assert s[0] != '+';
    assert ToBigDecimal(Str(s)) == BigDecimalOfString(s) by {
      assert Unwrap(Str(s)) == Str(s);
    }
  }

  /**
   * An unsigned text with visible ends converts to what new BigDecimal reads
   * it as, with or without one leading '+'. JavaText.MagnitudeOfParts gives
   * that value for digits, a point, digits and an exponent.
   */
  lemma BigDecimalOfUnsigned(body: string, d: Decimal)
    requires |body| > 0 && body[0] > ' ' && body[0] != '+' && body[0] != '-' && body[|body| - 1] > ' '
    requires ParseMagnitude(body) == Some(d)
    ensures BigDecimalOfString(body) == Ok(Dec(d))
    ensures BigDecimalOfString("+" + body) == Ok(Dec(d))
  {
    ParseUnsigned(body);
    BigDecimalOfVisible(body, d);
    TrimVisible(body);
    BigDecimalDropsPlus(body);
  }

  /** After a '-' the same text converts to the negated value at the same scale. */
  lemma BigDecimalOfNegative(body: string, d: Decimal)
    requires |body| > 0 && body[0] > ' ' && body[0] != '+' && body[0] != '-' && body[|body| - 1] > ' '
    requires ParseMagnitude(body) == Some(d)
    ensures BigDecimalOfString("-" + body) == Ok(Dec(Decimal(0 - d.unscaled, d.scale)))
  {
    var s := "-" + body;
    assert s[0] == '-' && s[|s| - 1] == body[|body| - 1];
    ParseNegative(body, d);
    BigDecimalOfVisible(s, Decimal(0 - d.unscaled, d.scale));
  }

  /** Text with visible ends and no leading '+' is parsed as it stands. */
  lemma BigDecimalOfVisible(s: string, d: Decimal)
    requires |s| > 0 && s[0] > ' ' && s[0] != '+' && s[|s| - 1] > ' '
    requires ParseDecimal(s) == Some(d)
    ensures BigDecimalOfString(s) == Ok(Dec(d))
  {
    TrimVisible(s);
  }

  /** A string is its own unwrapped value, so the converter takes the String branch. */
  lemma BigDecimalOfStr(s: string)
    ensures ToBigDecimal(Str(s)) == BigDecimalOfString(s)
  {
    assert Unwrap(Str(s)) == Str(s);
  }

  // ---------------------------------------------------------------------
  // CharSequenceConverter.

  /** toString() of the unwrapped value; null stays null. */
  function ToCharSequence(value: Value): (r: Result<Value>)
    ensures r.Ok? ==> r.value.Null? || r.value.Str?
    ensures r.Ok? && r.value.Str? ==> TextOf(Unwrap(value)) == Some(r.value.s)
    ensures Unwrap(value).Str? ==> r == Ok(Unwrap(value))
    ensures Unwrap(value).Null? ==> r == Ok(Null)
    ensures TextOf(Unwrap(value)).Some? ==> r == Ok(Str(TextOf(Unwrap(value)).value))
    ensures r.Err? <==> !Unwrap(value).Null? && TextOf(Unwrap(value)).None?
    ensures r.Err? ==> r.error == NotModelled
  {
    var v := Unwrap(value);
    if v.Null? then Ok(Null)
    else match TextOf(v)
      case Some(s) => Ok(Str(s))
      case None => Err(NotModelled)
  }

  /** A number written as a CharSequence reads back as the same number. */
  lemma {:induction false} CharSequenceOfInt(n: int, primitive: bool)
    requires InRange(n, 32)
    ensures ToCharSequence(Num(IntNum, n)) == Ok(Str(IntText(n)))
    ensures ToIntegral(ToCharSequence(Num(IntNum, n)).value, IntNum, primitive) == Ok(Num(IntNum, n))
  {
    IntegerOfText(n, primitive);
  }
}
