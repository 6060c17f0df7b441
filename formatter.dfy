/**
 * The serialiser of jsonic 1.2 (Formatter.java). Every formatter appends
 * the text of one value to a sink; here the text a value gets is the
 * function Text, and the formatting methods of module FormatterMethods are
 * proved to append exactly that text.
 */
module Formatter {
  import opened Base
  import opened JavaText
  import opened Values

  datatype Mode = Strict | Traditional | Script

  /** JSON.Context as the formatters read it; level is the nesting depth. */
  datatype Context = Context(mode: Mode, prettyPrint: bool, suppressNull: bool, level: nat)

  /** context.enter(key): a child is formatted one level deeper. */
  function Enter(ctx: Context): Context
  {
    ctx.(level := ctx.level + 1)
  }

  // ---------------------------------------------------------------------
  // StringFormatter.serialize

  /**
   * The ESCAPE_CHARS table, read for a character below 128: the letter
   * written after a backslash (> 0), -1 for a \u00XY escape in every mode,
   * -2 for a \u00XY escape in SCRIPT mode only, 0 for a character copied.
   */
  function EscapeCode(c: char): (x: int)
    ensures -2 <= x < 128
    ensures x < 0 ==> c as int < 128
  {
    if c as int >= 128 then 0
    else if c as int == 8 then 'b' as int
    else if c == '\t' then 't' as int
    else if c == '\n' then 'n' as int
    else if c as int == 12 then 'f' as int
    else if c == '\r' then 'r' as int
    else if c == '"' then '"' as int
    else if c == '\\' then '\\' as int
    else if c as int < 0x20 || c as int == 0x7F then -1
    else if c == '<' || c == '>' then -2
    else 0
  }

  /** "0123456789ABCDEF".charAt(d) */
  function HexChar(d: nat): (c: char)
    requires d < 16
    ensures IsDigit(c, 16) && DigitValue(c) == d
  {
    if d < 10 then ('0' as int + d) as char else ('A' as int + d - 10) as char
  }

  /** The text serialize writes for one character of its input. */
  function EscapeChar(mode: Mode, c: char): string
  {
    var x := EscapeCode(c);
    if x > 0 then ['\\', x as char]
    else if x == -1 || (x == -2 && mode == Script) then
      "\\u00" + [HexChar(c as int / 16), HexChar(c as int % 16)]
    else [c]
  }

  /** The body serialize writes between the quotes. */
  function Escaped(mode: Mode, s: string): string
  {
    if |s| == 0 then [] else EscapeChar(mode, s[0]) + Escaped(mode, s[1..])
  }

  /** The whole text serialize writes. */
  function Quoted(mode: Mode, s: string): string
  {
    "\"" + Escaped(mode, s) + "\""
  }

  lemma {:induction false} EscapedAppend(mode: Mode, a: string, b: string)
    ensures Escaped(mode, a + b) == Escaped(mode, a) + Escaped(mode, b)
  {
    if |a| == 0 {
      assert a + b == b;
    } else {
      assert (a + b)[0] == a[0] && (a + b)[1..] == a[1..] + b;
      EscapedAppend(mode, a[1..], b);
    }
  }

  /**
   * The characters serialize does not copy: those section 7 of RFC 8259
   * requires to be escaped, DEL, and '<' and '>' in SCRIPT mode.
   */
  predicate NeedsEscape(mode: Mode, c: char)
  {
    c as int < 0x20 || c as int == 0x7F || c == '"' || c == '\\'
    || (mode == Script && (c == '<' || c == '>'))
  }

  /** A character is copied as it is exactly when it needs no escape. */
  lemma CopiedIff(mode: Mode, c: char)
    ensures EscapeChar(mode, c) == [c] <==> !NeedsEscape(mode, c)
  {
  }

  /** A character a JSON text may carry unescaped; in pretty mode also the layout characters. */
  predicate CleanChar(c: char, pretty: bool)
  {
    (c as int >= 0x20 && c as int != 0x7F) || (pretty && (c == '\n' || c == '\t'))
  }

  predicate Clean(s: string, pretty: bool)
  {
    forall j :: 0 <= j < |s| ==> CleanChar(s[j], pretty)
  }

  lemma CleanAppend(a: string, b: string, pretty: bool)
    requires Clean(a, pretty) && Clean(b, pretty)
    ensures Clean(a + b, pretty)
  {
    forall j | 0 <= j < |a + b|
      ensures CleanChar((a + b)[j], pretty)
    {
      if j < |a| {
        assert (a + b)[j] == a[j];
      } else {
        assert (a + b)[j] == b[j - |a|];
      }
    }
  }

  /**
   * The escaped text holds no control character and no DEL, and in SCRIPT
   * mode no '<' or '>'.
   */
  lemma {:induction false} EscapedClean(mode: Mode, s: string)
    ensures Clean(Escaped(mode, s), false)
    ensures mode == Script ==> forall j :: 0 <= j < |Escaped(mode, s)| ==> Escaped(mode, s)[j] != '<' && Escaped(mode, s)[j] != '>'
  {
    if |s| > 0 {
      EscapedClean(mode, s[1..]);
      var head, tail := EscapeChar(mode, s[0]), Escaped(mode, s[1..]);
      assert Clean(head, false);
      CleanAppend(head, tail, false);
      if mode == Script {
        forall j | 0 <= j < |head + tail|
          ensures (head + tail)[j] != '<' && (head + tail)[j] != '>'
        {
          if j < |head| {
            assert (head + tail)[j] == head[j];
          } else {
            assert (head + tail)[j] == tail[j - |head|];
          }
        }
      }
    }
  }

  /** The character a two-character escape of section 7 of RFC 8259 stands for. */
  function ShortEscape(e: char): Option<char>
  {
    if e == '"' then Some('"')
    else if e == '\\' then Some('\\')
    else if e == '/' then Some('/')
    else if e == 'b' then Some(8 as char)
    else if e == 'f' then Some(12 as char)
    else if e == 'n' then Some('\n')
    else if e == 'r' then Some('\r')
    else if e == 't' then Some('\t')
    else None
  }

  function Prepend(c: char, r: Option<string>): Option<string>
  {
    if r.Some? then Some([c] + r.value) else None
  }

  lemma FourHexDigits(t: string)
    requires |t| == 4 && AllDigits(t, 16)
    ensures DigitsValue(t, 16) < 0x10000
  {
    assert t[..3][..2][..1][..0] == [];
    assert t[..3][..2] == t[..2] && t[..3][..2][..1] == t[..1];
    assert DigitsValue(t[..1], 16) < 16;
    assert DigitsValue(t[..2], 16) < 256;
    assert DigitsValue(t[..3], 16) < 4096;
  }

  /**
   * The characters of a string body as section 7 of RFC 8259 reads it; None
   * when the text is not one (a raw quote or control character, or a bad
   * escape). A \u escape of a surrogate code unit is refused, since a
   * character here is a Unicode scalar value.
   */
  function Unescape(t: string): Option<string>
    decreases |t|
  {
    if |t| == 0 then Some([])
    else if t[0] == '\\' then
      if |t| < 2 then None
      else if ShortEscape(t[1]).Some? then Prepend(ShortEscape(t[1]).value, Unescape(t[2..]))
      else if t[1] == 'u' && |t| >= 6 && AllDigits(t[2..6], 16) then
        FourHexDigits(t[2..6]);
        var n := DigitsValue(t[2..6], 16);
        if 0xD800 <= n < 0xE000 then None else Prepend(n as char, Unescape(t[6..]))
      else None
    else if t[0] == '"' || t[0] as int < 0x20 then None
    else Prepend(t[0], Unescape(t[1..]))
  }

  lemma UnescapeEscapeChar(mode: Mode, c: char, rest: string)
    ensures Unescape(EscapeChar(mode, c) + rest) == Prepend(c, Unescape(rest))
  {
    var x := EscapeCode(c);
    var t := EscapeChar(mode, c) + rest;
    if x > 0 {
      UnescapeShort(c, rest);
    } else if x == -1 || (x == -2 && mode == Script) {
      UnescapeUnicode(c, rest);
    } else {
      assert t[0] == c && t[1..] == rest;
    }
  }

  lemma UnescapeShort(c: char, rest: string)
    requires EscapeCode(c) > 0
    ensures Unescape(['\\', EscapeCode(c) as char] + rest) == Prepend(c, Unescape(rest))
  {
    var t := ['\\', EscapeCode(c) as char] + rest;
    assert t[0] == '\\' && t[1] == EscapeCode(c) as char && t[2..] == rest;
    assert ShortEscape(EscapeCode(c) as char) == Some(c);
  }

  lemma UnescapeUnicode(c: char, rest: string)
    requires c as int < 128
    ensures Unescape("\\u00" + [HexChar(c as int / 16), HexChar(c as int % 16)] + rest) == Prepend(c, Unescape(rest))
  {
    var h := ['0', '0', HexChar(c as int / 16), HexChar(c as int % 16)];
    var t := "\\u00" + h[2..] + rest;
    assert t[0] == '\\' && t[1] == 'u' && ShortEscape('u').None?;
    assert t[2..6] == h && t[6..] == rest;
    HexPairValue(c);
  }

  /** The four digits 0, 0, hi, lo of a \u00XY escape read back as the character. */
  lemma HexPairValue(c: char)
    requires c as int < 128
    ensures var h := ['0', '0', HexChar(c as int / 16), HexChar(c as int % 16)];
      AllDigits(h, 16) && DigitsValue(h, 16) == c as int
  {
    var hi, lo := HexChar(c as int / 16), HexChar(c as int % 16);
    DigitsSnoc([], '0', 16);
    assert [] + ['0'] == ['0'];
    DigitsSnoc(['0'], '0', 16);
    assert ['0'] + ['0'] == ['0', '0'];
    DigitsSnoc(['0', '0'], hi, 16);
    assert ['0', '0'] + [hi] == ['0', '0', hi];
    DigitsSnoc(['0', '0', hi], lo, 16);
    assert ['0', '0', hi] + [lo] == ['0', '0', hi, lo];
    DivMod(c as int, 16);
  }

  lemma DigitsSnoc(s: string, c: char, radix: nat)
    requires AllDigits(s, radix) && IsDigit(c, radix)
    ensures AllDigits(s + [c], radix)
    ensures DigitsValue(s + [c], radix) == DigitsValue(s, radix) * radix + DigitValue(c)
  {
    assert (s + [c])[..|s|] == s;
  }

  /** Reading back what serialize wrote gives the original string. */
  lemma {:induction false} UnescapeEscaped(mode: Mode, s: string)
    ensures Unescape(Escaped(mode, s)) == Some(s)
  {
    if |s| > 0 {
      UnescapeEscapeChar(mode, s[0], Escaped(mode, s[1..]));
      UnescapeEscaped(mode, s[1..]);
      assert [s[0]] + s[1..] == s;
    }
  }

  // ---------------------------------------------------------------------
  // The text of every value.

  function Tabs(n: nat): (r: string)
    ensures |r| == n && forall j :: 0 <= j < n ==> r[j] == '\t'
  {
    if n == 0 then [] else Tabs(n - 1) + ['\t']
  }

  /** What precedes each element of a list or map: a new line indented one level deeper. */
  function Lead(ctx: Context): string
  {
    if ctx.prettyPrint then "\n" + Tabs(ctx.level + 1) else ""
  }

  /** What precedes the closing bracket of a container of n elements. */
  function Closing(ctx: Context, n: nat): string
  {
    if ctx.prettyPrint && n > 0 then "\n" + Tabs(ctx.level) else ""
  }

  /** Texts joined by a separator, in order. */
  function Join(ts: seq<string>, sep: string): string
  {
    if |ts| == 0 then [] else if |ts| == 1 then ts[0]
    else Join(ts[..|ts| - 1], sep) + sep + ts[|ts| - 1]
  }

  /** Locale.toString().replace('_', '-') */
  function LocaleTag(tag: string): (r: string)
    ensures |r| == |tag|
    ensures forall j :: 0 <= j < |r| ==> r[j] != '_' && (tag[j] != '_' ==> r[j] == tag[j])
  {
    if |tag| == 0 then [] else LocaleTag(tag[..|tag| - 1]) + [if tag[|tag| - 1] == '_' then '-' else tag[|tag| - 1]]
  }

  /** DateFormatter without a DateFormat. */
  function DateText(ctx: Context, millis: int): string
  {
    if ctx.mode == Script then "new Date(" + IntText(millis) + ")" else IntText(millis)
  }

  function BoolTexts(bs: seq<bool>): (r: seq<string>)
    ensures |r| == |bs|
  {
    seq(|bs|, i requires 0 <= i < |bs| => if bs[i] then "true" else "false")
  }

  function IntTexts(xs: seq<int>): (r: seq<string>)
    ensures |r| == |xs|
  {
    seq(|xs|, i requires 0 <= i < |xs| => IntText(xs[i]))
  }

  /** A primitive array: on one line, ", " between elements in pretty mode. */
  function InlineText(ctx: Context, ts: seq<string>): string
  {
    "[" + Join(ts, if ctx.prettyPrint then ", " else ",") + "]"
  }

  /** The formatters that return true. */
  predicate IsContainer(v: Value)
  {
    v.Bools? || v.Ints? || v.List? || v.Objects? || v.Map?
  }

  /**
   * json.format of a value other than the reference to the root, at the
   * context's level: Boolean by PlainFormatter, Character, String and
   * char[] by StringFormatter, Byte by ByteFormatter, the other integral
   * numbers and BigDecimal by NumberFormatter (toString).
   */
  function Text(ctx: Context, v: Value): string
    requires !v.SrcRef?
    decreases v, 3, 0
  {
    match v
    case Null => "null"
    case Bool(b) => if b then "true" else "false"
    case Char(c) => Quoted(ctx.mode, [c])
    case Num(kind, n) => if kind == ByteNum then IntText(n % 256) else IntText(n)
    case Dec(d) => DecimalText(d)
    case Str(s) => Quoted(ctx.mode, s)
    case Chars(cs) => Quoted(ctx.mode, cs)
    case Date(ms) => DateText(ctx, ms)
    case Locale(tag) => Quoted(ctx.mode, LocaleTag(tag))
    case Bools(bs) => InlineText(ctx, BoolTexts(bs))
    case Ints(_, xs) => InlineText(ctx, IntTexts(xs))
    case List(items) => ListText(ctx, items)
    case Objects(elems) => ListText(ctx, elems)
    case Map(entries) => MapText(ctx, entries)
  }

  /** An element of a list or array; the reference to the root is written as null. */
  function ItemText(ctx: Context, item: Value): string
    decreases item, 4, 0
  {
    if item.SrcRef? then "null" else Text(Enter(ctx), item)
  }

  function ItemTexts(ctx: Context, items: seq<Value>): (r: seq<string>)
    ensures |r| == |items| && forall i :: 0 <= i < |items| ==> r[i] == ItemText(ctx, items[i])
    decreases items, 1, 0
  {
    seq(|items|, i requires 0 <= i < |items| => ItemText(ctx, items[i]))
  }

  /** The texts of the elements, in order, each after a comma (but the first) and the lead. */
  function Pieces(ctx: Context, ts: seq<string>): string
  {
    if |ts| == 0 then []
    else Pieces(ctx, ts[..|ts| - 1]) + (if |ts| > 1 then "," else "") + Lead(ctx) + ts[|ts| - 1]
  }

  function ListText(ctx: Context, items: seq<Value>): string
    decreases items, 2, 0
  {
    "[" + Pieces(ctx, ItemTexts(ctx, items)) + Closing(ctx, |items|) + "]"
  }

  /** MapFormatter writes an entry unless its key is null, its value is the root, or it is a suppressed null. */
  predicate Kept(ctx: Context, e: Entry)
  {
    e.key.Some? && !e.val.SrcRef? && !(ctx.suppressNull && e.val.Null?)
  }

  function PairText(ctx: Context, e: Entry): string
    requires Kept(ctx, e)
    decreases e, 0, 0
  {
    Quoted(ctx.mode, e.key.value) + ":" + (if ctx.prettyPrint then " " else "") + Text(Enter(ctx), e.val)
  }

  /** The texts of the entries MapFormatter writes, in order. */
  function PairTexts(ctx: Context, es: seq<Entry>): (r: seq<string>)
    ensures |r| <= |es|
    decreases es, 1, 0
  {
    if |es| == 0 then []
    else
      var e := es[|es| - 1];
      assert e in es;
      PairTexts(ctx, es[..|es| - 1]) + (if Kept(ctx, e) then [PairText(ctx, e)] else [])
  }

  function MapText(ctx: Context, es: seq<Entry>): string
    decreases es, 2, 0
  {
    var ts := PairTexts(ctx, es);
    "{" + Pieces(ctx, ts) + Closing(ctx, |ts|) + "}"
  }

  // ---------------------------------------------------------------------
  // What the text of a value promises.

  /** serialize writes a quote, a body that reads back as the string, and a quote. */
  lemma QuotedRoundTrip(mode: Mode, s: string)
    ensures var t := Quoted(mode, s);
      |t| >= 2 && t[0] == '"' && t[|t| - 1] == '"' && Unescape(t[1..|t| - 1]) == Some(s)
  {
    var t := Quoted(mode, s);
    assert t[1..|t| - 1] == Escaped(mode, s);
    UnescapeEscaped(mode, s);
  }

  lemma {:induction false} JoinSnoc(ts: seq<string>, sep: string, t: string)
    ensures Join(ts + [t], sep) == if |ts| == 0 then t else Join(ts, sep) + sep + t
  {
    var u := ts + [t];
    assert u[..|u| - 1] == ts && u[|u| - 1] == t;
  }

  lemma PiecesSnoc(ctx: Context, ts: seq<string>, t: string)
    ensures Pieces(ctx, ts + [t]) == Pieces(ctx, ts) + (if |ts| > 0 then "," else "") + Lead(ctx) + t
  {
    assert (ts + [t])[..|ts|] == ts;
  }

  lemma InlineStep(ts: seq<string>, sep: string, i: nat)
    requires i < |ts|
    ensures "[" + Join(ts[..i], sep) + (if i > 0 then sep else "") + ts[i] == "[" + Join(ts[..i + 1], sep)
  {
    assert ts[..i + 1] == ts[..i] + [ts[i]];
    JoinSnoc(ts[..i], sep, ts[i]);
    if i > 0 {
      assert "[" + Join(ts[..i], sep) + sep + ts[i] == "[" + (Join(ts[..i], sep) + sep + ts[i]);
    } else {
      assert Join(ts[..i], sep) == [];
    }
  }

  /** Each text after the lead. */
  function Leaded(ctx: Context, ts: seq<string>): (r: seq<string>)
    ensures |r| == |ts| && forall i :: 0 <= i < |ts| ==> r[i] == Lead(ctx) + ts[i]
  {
    seq(|ts|, i requires 0 <= i < |ts| => Lead(ctx) + ts[i])
  }

  /** The pieces are the led texts joined by commas. */
  lemma {:induction false} PiecesJoin(ctx: Context, ts: seq<string>)
    ensures Pieces(ctx, ts) == Join(Leaded(ctx, ts), ",")
  {
    if |ts| > 0 {
      var init, t, l := ts[..|ts| - 1], ts[|ts| - 1], Lead(ctx);
      PiecesJoin(ctx, init);
      LeadedSnoc(ctx, ts);
      JoinSnoc(Leaded(ctx, init), ",", l + t);
      var a := Join(Leaded(ctx, init), ",");
      if |ts| > 1 {
        AppendAssoc(a + ",", l, t);
      } else {
        assert a + "" == [];
      }
    }
  }

  lemma LeadedSnoc(ctx: Context, ts: seq<string>)
    requires |ts| > 0
    ensures Leaded(ctx, ts) == Leaded(ctx, ts[..|ts| - 1]) + [Lead(ctx) + ts[|ts| - 1]]
  {
  }

  /**
   * A list or Object[] is "[", its elements in order (the root written as
   * null), each after the lead and separated by commas, then the closing
   * line in pretty mode, then "]".
   */
  lemma ListLayout(ctx: Context, items: seq<Value>)
    ensures Text(ctx, List(items)) == "[" + Join(Leaded(ctx, ItemTexts(ctx, items)), ",") + Closing(ctx, |items|) + "]"
    ensures Text(ctx, Objects(items)) == Text(ctx, List(items))
    ensures forall i :: 0 <= i < |items| ==> ItemTexts(ctx, items)[i] == if items[i].SrcRef? then "null" else Text(Enter(ctx), items[i])
  {
    PiecesJoin(ctx, ItemTexts(ctx, items));
  }

  /** The entries MapFormatter writes, in order. */
  function KeptEntries(ctx: Context, es: seq<Entry>): (r: seq<Entry>)
    ensures |r| <= |es| && forall i :: 0 <= i < |r| ==> Kept(ctx, r[i])
  {
    if |es| == 0 then []
    else KeptEntries(ctx, es[..|es| - 1]) + (if Kept(ctx, es[|es| - 1]) then [es[|es| - 1]] else [])
  }

  lemma {:induction false} PairTextsOfKept(ctx: Context, es: seq<Entry>)
    ensures |PairTexts(ctx, es)| == |KeptEntries(ctx, es)|
    ensures forall i :: 0 <= i < |PairTexts(ctx, es)| ==> PairTexts(ctx, es)[i] == PairText(ctx, KeptEntries(ctx, es)[i])
  {
    if |es| > 0 {
      PairTextsOfKept(ctx, es[..|es| - 1]);
    }
  }

  /**
   * A map is "{", the entries it keeps (key not null, value not the root,
   * value not null when nulls are suppressed) in order, each after the lead,
   * written as key, ":" (": " in pretty mode) and value and separated by
   * commas, then the closing line in pretty mode when one was written, "}".
   */
  lemma MapLayout(ctx: Context, es: seq<Entry>)
    ensures var kept := KeptEntries(ctx, es);
      |PairTexts(ctx, es)| == |kept|
      && (forall i :: 0 <= i < |kept| ==> PairTexts(ctx, es)[i] == PairText(ctx, kept[i]))
      && Text(ctx, Map(es)) == "{" + Join(Leaded(ctx, PairTexts(ctx, es)), ",") + Closing(ctx, |kept|) + "}"
  {
    PairTextsOfKept(ctx, es);
    PiecesJoin(ctx, PairTexts(ctx, es));
  }

  /** A key is kept exactly when it is not null, its value is not the root, and no suppressed null. */
  lemma {:induction false} KeptEntriesFilter(ctx: Context, es: seq<Entry>, e: Entry)
    ensures e in KeptEntries(ctx, es) <==> e in es && Kept(ctx, e)
  {
    if |es| > 0 {
      KeptEntriesFilter(ctx, es[..|es| - 1], e);
      assert es == es[..|es| - 1] + [es[|es| - 1]];
    }
  }

  /** Containers with nothing to write print as "[]" and "{}", in pretty mode too. */
  lemma EmptyContainers(ctx: Context, kind: ArrayKind, es: seq<Entry>)
    requires forall i :: 0 <= i < |es| ==> !Kept(ctx, es[i])
    ensures Text(ctx, List([])) == "[]" && Text(ctx, Objects([])) == "[]"
    ensures Text(ctx, Bools([])) == "[]" && Text(ctx, Ints(kind, [])) == "[]"
    ensures Text(ctx, Map(es)) == "{}"
  {
    NoneKept(ctx, es);
  }

  lemma {:induction false} NoneKept(ctx: Context, es: seq<Entry>)
    requires forall i :: 0 <= i < |es| ==> !Kept(ctx, es[i])
    ensures PairTexts(ctx, es) == []
  {
    if |es| > 0 {
      NoneKept(ctx, es[..|es| - 1]);
    }
  }

  lemma {:induction false} JoinClean(ts: seq<string>, sep: string, pretty: bool)
    requires Clean(sep, pretty) && forall i :: 0 <= i < |ts| ==> Clean(ts[i], pretty)
    ensures Clean(Join(ts, sep), pretty)
  {
    if |ts| > 1 {
      JoinClean(ts[..|ts| - 1], sep, pretty);
      CleanAppend(Join(ts[..|ts| - 1], sep), sep, pretty);
      CleanAppend(Join(ts[..|ts| - 1], sep) + sep, ts[|ts| - 1], pretty);
    }
  }

  lemma QuotedClean(mode: Mode, s: string, pretty: bool)
    ensures Clean(Quoted(mode, s), pretty)
  {
    EscapedClean(mode, s);
    CleanAppend("\"", Escaped(mode, s), pretty);
    CleanAppend("\"" + Escaped(mode, s), "\"", pretty);
  }

  lemma LayoutClean(ctx: Context, n: nat)
    ensures Clean(Lead(ctx), ctx.prettyPrint) && Clean(Closing(ctx, n), ctx.prettyPrint)
  {
  }

  lemma InlineClean(ctx: Context, ts: seq<string>)
    requires forall i :: 0 <= i < |ts| ==> Clean(ts[i], false)
    ensures Clean(InlineText(ctx, ts), ctx.prettyPrint)
  {
    var sep := if ctx.prettyPrint then ", " else ",";
    JoinClean(ts, sep, ctx.prettyPrint);
    CleanAppend("[", Join(ts, sep), ctx.prettyPrint);
    CleanAppend("[" + Join(ts, sep), "]", ctx.prettyPrint);
  }

  /**
   * Output holds no raw control character and no DEL: compact output is a
   * single line, and pretty output adds only new lines and tabs.
   */
  lemma {:induction false} TextClean(ctx: Context, v: Value)
    requires !v.SrcRef?
    ensures Clean(Text(ctx, v), ctx.prettyPrint)
    decreases v, 3, 0
  {
    match v
    case List(items) => ListClean(ctx, items);
    case Objects(elems) => ListClean(ctx, elems);
    case Map(es) => MapClean(ctx, es);
    case _ => ScalarClean(ctx, v);
  }

  lemma IntTextClean(n: int, p: bool)
    ensures Clean(IntText(n), p)
  {
  }

  lemma ScalarClean(ctx: Context, v: Value)
    requires !v.SrcRef? && !v.List? && !v.Objects? && !v.Map?
    ensures Clean(Text(ctx, v), ctx.prettyPrint)
  {
    match v
    case Char(c) => QuotedClean(ctx.mode, [c], ctx.prettyPrint);
    case Str(s) => QuotedClean(ctx.mode, s, ctx.prettyPrint);
    case Chars(cs) => QuotedClean(ctx.mode, cs, ctx.prettyPrint);
    case Locale(tag) => QuotedClean(ctx.mode, LocaleTag(tag), ctx.prettyPrint);
    case Bools(bs) => InlineClean(ctx, BoolTexts(bs));
    case Ints(_, xs) => InlineClean(ctx, IntTexts(xs));
    case _ => WordClean(ctx, v);
  }

  lemma WordClean(ctx: Context, v: Value)
    requires v.Null? || v.Bool? || v.Num? || v.Dec? || v.Date?
    ensures Clean(Text(ctx, v), ctx.prettyPrint)
  {
    match v
    case Null =>
    case Bool(b) =>
    case Num(kind, n) => IntTextClean(if kind == ByteNum then n % 256 else n, ctx.prettyPrint);
    case Dec(d) => DecimalTextNumeric(d);
    case Date(ms) =>
      IntTextClean(ms, ctx.prettyPrint);
      if ctx.mode == Script {
        CleanAppend("new Date(", IntText(ms), ctx.prettyPrint);
        CleanAppend("new Date(" + IntText(ms), ")", ctx.prettyPrint);
      }
  }

  lemma {:induction false} PiecesClean(ctx: Context, ts: seq<string>)
    requires forall i :: 0 <= i < |ts| ==> Clean(ts[i], ctx.prettyPrint)
    ensures Clean(Pieces(ctx, ts), ctx.prettyPrint)
  {
    if |ts| > 0 {
      var p := ctx.prettyPrint;
      var init := ts[..|ts| - 1];
      PiecesClean(ctx, init);
      LayoutClean(ctx, 0);
      var a := Pieces(ctx, init) + (if |ts| > 1 then "," else "");
      CleanAppend(Pieces(ctx, init), if |ts| > 1 then "," else "", p);
      CleanAppend(a, Lead(ctx), p);
      CleanAppend(a + Lead(ctx), ts[|ts| - 1], p);
    }
  }

  lemma Enclosed(open: string, body: string, close: string, closing: string, p: bool)
    requires Clean(open, p) && Clean(body, p) && Clean(close, p) && Clean(closing, p)
    ensures Clean(open + body + closing + close, p)
  {
    CleanAppend(open, body, p);
    CleanAppend(open + body, closing, p);
    CleanAppend(open + body + closing, close, p);
  }

  lemma {:induction false} ListClean(ctx: Context, items: seq<Value>)
    ensures Clean(ListText(ctx, items), ctx.prettyPrint)
    decreases items, 2, 0
  {
    var ts := ItemTexts(ctx, items);
    forall i | 0 <= i < |ts|
      ensures Clean(ts[i], ctx.prettyPrint)
    {
      ItemClean(ctx, items, i);
    }
    PiecesClean(ctx, ts);
    LayoutClean(ctx, |items|);
    Enclosed("[", Pieces(ctx, ts), "]", Closing(ctx, |items|), ctx.prettyPrint);
  }

  lemma {:induction false} ItemClean(ctx: Context, items: seq<Value>, i: nat)
    requires i < |items|
    ensures Clean(ItemTexts(ctx, items)[i], ctx.prettyPrint)
    decreases items, 1, 0
  {
    if !items[i].SrcRef? {
      TextClean(Enter(ctx), items[i]);
    }
  }

  lemma {:induction false} MapClean(ctx: Context, es: seq<Entry>)
    ensures Clean(MapText(ctx, es), ctx.prettyPrint)
    decreases es, 2, 0
  {
    var ts := PairTexts(ctx, es);
    PairTextsClean(ctx, es);
    PiecesClean(ctx, ts);
    LayoutClean(ctx, |ts|);
    Enclosed("{", Pieces(ctx, ts), "}", Closing(ctx, |ts|), ctx.prettyPrint);
  }

  lemma {:induction false} PairTextsClean(ctx: Context, es: seq<Entry>)
    ensures forall i :: 0 <= i < |PairTexts(ctx, es)| ==> Clean(PairTexts(ctx, es)[i], ctx.prettyPrint)
    decreases es, 1, 0
  {
    if |es| > 0 {
      var e := es[|es| - 1];
      assert e in es;
      PairTextsClean(ctx, es[..|es| - 1]);
      if Kept(ctx, e) {
        PairClean(ctx, e);
      }
    }
  }

  lemma {:induction false} PairClean(ctx: Context, e: Entry)
    requires Kept(ctx, e)
    ensures Clean(PairText(ctx, e), ctx.prettyPrint)
    decreases e, 0, 0
  {
    var p := ctx.prettyPrint;
    var q, sp, t := Quoted(ctx.mode, e.key.value), (if p then " " else ""), Text(Enter(ctx), e.val);
    QuotedClean(ctx.mode, e.key.value, p);
    TextClean(Enter(ctx), e.val);
    assert Clean(":", p) && Clean(sp, p);
    CleanAppend(q, ":", p);
    CleanAppend(q + ":", sp, p);
    CleanAppend(q + ":" + sp, t, p);
    assert PairText(ctx, e) == q + ":" + sp + t;
  }

  /** ByteFormatter writes the unsigned value of the byte (b & 0xFF). */
  lemma ByteUnsigned(ctx: Context, b: int)
    requires -128 <= b < 128
    ensures ParseInteger(Text(ctx, Num(ByteNum, b)), 10) == Some(if b < 0 then b + 256 else b)
  {
    var u := if b < 0 then b + 256 else b;
    assert b % 256 == u;
    assert Text(ctx, Num(ByteNum, b)) == IntText(u);
    IntTextRoundTrip(u);
  }

  /** A date without a DateFormat is its milliseconds, wrapped in new Date(...) in SCRIPT mode. */
  lemma DateMillis(ctx: Context, millis: int)
    ensures var t := Text(ctx, Date(millis));
      if ctx.mode == Script then
        |t| > 10 && t[..9] == "new Date(" && t[|t| - 1] == ')' && ParseInteger(t[9..|t| - 1], 10) == Some(millis)
      else ParseInteger(t, 10) == Some(millis)
  {
    IntTextRoundTrip(millis);
    var t := Text(ctx, Date(millis));
    if ctx.mode == Script {
      assert t[9..|t| - 1] == IntText(millis);
    }
  }

  /** A locale is written as a string whose text has '-' wherever Locale.toString has '_'. */
  lemma LocaleDashes(ctx: Context, tag: string)
    ensures var t := Text(ctx, Locale(tag));
      |t| >= 2 && Unescape(t[1..|t| - 1]) == Some(LocaleTag(tag))
      && forall j :: 0 <= j < |tag| ==> LocaleTag(tag)[j] == if tag[j] == '_' then '-' else tag[j]
  {
    QuotedRoundTrip(ctx.mode, LocaleTag(tag));
    LocaleTagDashes(tag);
  }

  lemma {:induction false} LocaleTagDashes(tag: string)
    ensures forall j :: 0 <= j < |tag| ==> LocaleTag(tag)[j] == if tag[j] == '_' then '-' else tag[j]
  {
    if |tag| > 0 {
      LocaleTagDashes(tag[..|tag| - 1]);
    }
  }
}
