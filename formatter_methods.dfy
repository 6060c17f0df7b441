/**
 * The formatters of Formatter.java as methods: each returns the text it
 * appends to the sink, built piece by piece in the loops of the source, and
 * is proved to return the Text of module Formatter.
 */
module FormatterMethods {
  import opened Base
  import opened JavaText
  import opened Values
  import opened Formatter

  /** StringFormatter.serialize: runs of copied characters between escapes. */
  method Serialize(mode: Mode, s: string) returns (out: string)
    ensures out == Quoted(mode, s)
  {
    out := "\"";
    var start := 0;
    var i := 0;
    while i < |s|
      invariant 0 <= start <= i <= |s|
      invariant out == "\"" + Escaped(mode, s[..start])
      invariant forall j :: start <= j < i ==> !NeedsEscape(mode, s[j])
    {
      var c := s[i];
      var x := EscapeCode(c);
      EscapeTest(mode, c);
      if x > 0 || x == -1 || (x == -2 && mode == Script) {
        var esc;
        if x > 0 {
          esc := ['\\', x as char];
        } else {
          esc := "\\u00" + [HexChar(c as int / 16), HexChar(c as int % 16)];
        }
        EscapeStep(mode, s, start, i, out, esc);
        out := out + (s[start..i] + esc);
        start := i + 1;
      }
      i := i + 1;
    }
    EndStep(mode, s, start, out);
    out := out + s[start..] + "\"";
  }

  /** The test serialize applies to the ESCAPE_CHARS entry is NeedsEscape. */
  lemma EscapeTest(mode: Mode, c: char)
    ensures var x := EscapeCode(c);
      (x > 0 || x == -1 || (x == -2 && mode == Script)) <==> NeedsEscape(mode, c)
  {
  }

  /** A run of characters that need no escape is copied as it is. */
  lemma {:induction false} CopiedRun(mode: Mode, run: string)
    requires forall j :: 0 <= j < |run| ==> !NeedsEscape(mode, run[j])
    ensures Escaped(mode, run) == run
  {
    if |run| > 0 {
      CopiedIff(mode, run[0]);
      CopiedRun(mode, run[1..]);
    }
  }

  /** Writing the pending run and the escape of s[i]. */
  lemma EscapeStep(mode: Mode, s: string, start: nat, i: nat, out: string, esc: string)
    requires start <= i < |s| && forall j :: start <= j < i ==> !NeedsEscape(mode, s[j])
    requires out == "\"" + Escaped(mode, s[..start])
    requires esc == EscapeChar(mode, s[i])
    ensures out + (s[start..i] + esc) == "\"" + Escaped(mode, s[..i + 1])
  {
    CopiedRun(mode, s[start..i]);
    EscapedPrefixSnoc(mode, s, i);
    EscapedPrefixSplit(mode, s, start, i);
    EscapedSingle(mode, s[i]);
    var e := Escaped(mode, s[..start]);
    AppendAssoc(e, s[start..i], esc);
    AppendAssoc("\"", e, s[start..i] + esc);
  }

  /** The last run and the closing quote. */
  lemma EndStep(mode: Mode, s: string, start: nat, out: string)
    requires start <= |s| && forall j :: start <= j < |s| ==> !NeedsEscape(mode, s[j])
    requires out == "\"" + Escaped(mode, s[..start])
    ensures out + s[start..] + "\"" == Quoted(mode, s)
  {
    CopiedRun(mode, s[start..]);
    EscapedPrefixSplit(mode, s, start, |s|);
    assert s[..|s|] == s && s[start..|s|] == s[start..];
    AppendAssoc("\"", Escaped(mode, s[..start]), s[start..]);
  }

  lemma EscapedPrefixSnoc(mode: Mode, s: string, i: nat)
    requires i < |s|
    ensures Escaped(mode, s[..i + 1]) == Escaped(mode, s[..i]) + Escaped(mode, [s[i]])
  {
    assert s[..i + 1] == s[..i] + [s[i]];
    EscapedAppend(mode, s[..i], [s[i]]);
  }

  lemma EscapedPrefixSplit(mode: Mode, s: string, start: nat, i: nat)
    requires start <= i <= |s|
    ensures Escaped(mode, s[..i]) == Escaped(mode, s[..start]) + Escaped(mode, s[start..i])
  {
    assert s[..i] == s[..start] + s[start..i];
    EscapedAppend(mode, s[..start], s[start..i]);
  }

  lemma EscapedSingle(mode: Mode, c: char)
    ensures Escaped(mode, [c]) == EscapeChar(mode, c)
  {
    assert [c][1..] == [];
  }

  /**
   * json.format of one value: the formatter the value's class selects, and
   * whether that formatter wrote a container (the value it returns).
   */
  method FormatValue(ctx: Context, v: Value) returns (out: string, container: bool)
    requires !v.SrcRef?
    ensures out == Text(ctx, v)
    ensures container == IsContainer(v)
    decreases v, 3
  {
    container := true;
    match v
    case Bools(bs) => out := FormatBools(ctx, bs);
    case Ints(_, xs) => out := FormatInts(ctx, xs);
    case List(items) => out := FormatItems(ctx, items);
    case Objects(elems) => out := FormatItems(ctx, elems);
    case Map(es) => out := FormatMap(ctx, es);
    case _ =>
      out := FormatScalar(ctx, v);
      container := false;
  }

  /**
   * The formatters that return false: NullFormatter, PlainFormatter for
   * Boolean, StringFormatter for Character, String and (CharArrayFormatter)
   * char[], ByteFormatter, NumberFormatter and DateFormatter without a
   * format, LocaleFormatter.
   */
  method FormatScalar(ctx: Context, v: Value) returns (out: string)
    requires !v.SrcRef? && !IsContainer(v)
    ensures out == Text(ctx, v)
  {
    match v
    case Null => out := "null";
    case Bool(b) => out := if b then "true" else "false";
    case Char(c) => out := Serialize(ctx.mode, [c]);
    case Num(kind, n) =>
      if kind == ByteNum {
        out := IntText(n % 256);
      } else {
        out := IntText(n);
      }
    case Dec(d) => out := DecimalText(d);
    case Str(s) => out := Serialize(ctx.mode, s);
    case Chars(cs) => out := Serialize(ctx.mode, cs);
    case Date(ms) =>
      if ctx.mode == Script {
        out := "new Date(" + IntText(ms) + ")";
      } else {
        out := IntText(ms);
      }
    case Locale(tag) => out := Serialize(ctx.mode, LocaleTag(tag));
  }

  /** BooleanArrayFormatter */
  method FormatBools(ctx: Context, a: seq<bool>) returns (out: string)
    ensures out == InlineText(ctx, BoolTexts(a))
  {
    ghost var ts := BoolTexts(a);
    ghost var sep := if ctx.prettyPrint then ", " else ",";
    out := "[";
    var i := 0;
    while i < |a|
      invariant 0 <= i <= |a|
      invariant out == "[" + Join(ts[..i], sep) + (if 0 < i < |a| then sep else "")
    {
      var text := if a[i] then "true" else "false";
      var after := if i == |a| - 1 then "" else if ctx.prettyPrint then ", " else ",";
      InlineStep(ts, sep, i, out, text, after);
      out := out + text + after;
      i := i + 1;
    }
    InlineEnd(ts, sep, out);
    out := out + "]";
  }

  /** ShortArrayFormatter, IntArrayFormatter and LongArrayFormatter, without a NumberFormat. */
  method FormatInts(ctx: Context, a: seq<int>) returns (out: string)
    ensures out == InlineText(ctx, IntTexts(a))
  {
    ghost var ts := IntTexts(a);
    ghost var sep := if ctx.prettyPrint then ", " else ",";
    out := "[";
    var i := 0;
    while i < |a|
      invariant 0 <= i <= |a|
      invariant out == "[" + Join(ts[..i], sep) + (if 0 < i < |a| then sep else "")
    {
      var text := IntText(a[i]);
      var after := if i == |a| - 1 then "" else if ctx.prettyPrint then ", " else ",";
      InlineStep(ts, sep, i, out, text, after);
      out := out + text + after;
      i := i + 1;
    }
    InlineEnd(ts, sep, out);
    out := out + "]";
  }

  /** One element of a primitive array, then the separator unless it is the last. */
  lemma InlineStep(ts: seq<string>, sep: string, i: nat, out: string, text: string, after: string)
    requires i < |ts| && text == ts[i]
    requires out == "[" + Join(ts[..i], sep) + (if 0 < i < |ts| then sep else "")
    requires after == if i + 1 < |ts| then sep else ""
    ensures out + text + after == "[" + Join(ts[..i + 1], sep) + (if 0 < i + 1 < |ts| then sep else "")
  {
    assert ts[..i + 1] == ts[..i] + [ts[i]];
    JoinSnoc(ts[..i], sep, ts[i]);
    var j := Join(ts[..i], sep);
    if i > 0 {
      AppendAssoc("[", j + sep, text);
      AppendAssoc("[", j, sep);
    } else {
      assert j == [];
      assert out + text == "[" + Join(ts[..i + 1], sep);
    }
  }

  lemma InlineEnd(ts: seq<string>, sep: string, out: string)
    requires out == "[" + Join(ts[..|ts|], sep) + (if 0 < |ts| < |ts| then sep else "")
    ensures out + "]" == "[" + Join(ts, sep) + "]"
  {
    assert ts[..|ts|] == ts;
  }

  /**
   * ListFormatter, and ObjectArrayFormatter, IteratorFormatter and
   * EnumerationFormatter, which run the same loop over their elements.
   */
  method FormatItems(ctx: Context, items: seq<Value>) returns (out: string)
    ensures out == ListText(ctx, items)
    decreases items, 2
  {
    ghost var ts := ItemTexts(ctx, items);
    out := "[";
    var i := 0;
    while i < |items|
      invariant 0 <= i <= |items|
      invariant out == "[" + Pieces(ctx, ts[..i])
    {
      var item := items[i];
      var lead := (if i != 0 then "," else "") + (if ctx.prettyPrint then "\n" + Tabs(ctx.level + 1) else "");
      var text, nested := "null", false;
      if !item.SrcRef? {
        text, nested := FormatValue(Enter(ctx), item);
      }
      ItemStep(ctx, ts, i, out, lead, text);
      out := out + (lead + text);
      i := i + 1;
    }
    ItemsEnd(ctx, items, out);
    out := out + Closing(ctx, i) + "]";
  }

  /** The closing line and bracket complete the list's text. */
  lemma ItemsEnd(ctx: Context, items: seq<Value>, out: string)
    requires out == "[" + Pieces(ctx, ItemTexts(ctx, items)[..|items|])
    ensures out + Closing(ctx, |items|) + "]" == ListText(ctx, items)
  {
    assert ItemTexts(ctx, items)[..|items|] == ItemTexts(ctx, items);
  }

  lemma ItemStep(ctx: Context, ts: seq<string>, i: nat, out: string, lead: string, text: string)
    requires i < |ts| && text == ts[i]
    requires out == "[" + Pieces(ctx, ts[..i])
    requires lead == (if i != 0 then "," else "") + (if ctx.prettyPrint then "\n" + Tabs(ctx.level + 1) else "")
    ensures out + (lead + text) == "[" + Pieces(ctx, ts[..i + 1])
  {
    assert ts[..i + 1] == ts[..i] + [text];
    PiecesStep(ctx, "[", ts[..i], lead, text);
  }

  /** MapFormatter: i counts the entries written, which decides the commas. */
  method FormatMap(ctx: Context, es: seq<Entry>) returns (out: string)
    ensures out == MapText(ctx, es)
    decreases es, 2
  {
    out := "{";
    var i := 0;
    var k := 0;
    ghost var ts: seq<string> := [];
    while k < |es|
      invariant 0 <= k <= |es|
      invariant ts == PairTexts(ctx, es[..k])
      invariant i == |ts| && out == "{" + Pieces(ctx, ts)
    {
      var e := es[k];
      assert e in es;
      if e.key.Some? && !e.val.SrcRef? && !(ctx.suppressNull && e.val.Null?) {
        var piece := FormatEntry(ctx, e, i == 0);
        ts := MapKeep(ctx, es, k, ts, out, piece);
        out := out + piece;
        i := i + 1;
      } else {
        MapSkip(ctx, es, k);
      }
      k := k + 1;
    }
    MapEnd(ctx, es, out, i);
    out := out + Closing(ctx, i) + "}";
  }

  /** One written entry of the loop of MapFormatter: comma, lead, key, colon, value. */
  method FormatEntry(ctx: Context, e: Entry, first: bool) returns (piece: string)
    requires Kept(ctx, e)
    ensures piece == (if first then "" else ",") + (if ctx.prettyPrint then "\n" + Tabs(ctx.level + 1) else "") + PairText(ctx, e)
    decreases e, 1
  {
    var lead := (if first then "" else ",") + (if ctx.prettyPrint then "\n" + Tabs(ctx.level + 1) else "");
    var key := Serialize(ctx.mode, e.key.value);
    var colon := if ctx.prettyPrint then ": " else ":";
    assert e.val < e;
    var text, nested := FormatValue(Enter(ctx), e.val);
    PairStep(ctx, e, key, colon, text);
    piece := lead + (key + colon + text);
  }

  /** The closing line and brace complete the map's text. */
  lemma MapEnd(ctx: Context, es: seq<Entry>, out: string, i: nat)
    requires i == |PairTexts(ctx, es[..|es|])|
    requires out == "{" + Pieces(ctx, PairTexts(ctx, es[..|es|]))
    ensures out + Closing(ctx, i) + "}" == MapText(ctx, es)
  {
    assert es[..|es|] == es;
  }

  lemma MapKeep(ctx: Context, es: seq<Entry>, k: nat, ts: seq<string>, out: string, piece: string) returns (ts': seq<string>)
    requires k < |es| && Kept(ctx, es[k]) && ts == PairTexts(ctx, es[..k]) && out == "{" + Pieces(ctx, ts)
    requires piece == (if |ts| == 0 then "" else ",") + (if ctx.prettyPrint then "\n" + Tabs(ctx.level + 1) else "") + PairText(ctx, es[k])
    ensures ts' == PairTexts(ctx, es[..k + 1]) && |ts'| == |ts| + 1
    ensures out + piece == "{" + Pieces(ctx, ts')
  {
    var t := PairText(ctx, es[k]);
    MapStep(ctx, es, k, t);
    PiecesStep(ctx, "{", ts, (if |ts| == 0 then "" else ",") + (if ctx.prettyPrint then "\n" + Tabs(ctx.level + 1) else ""), t);
    ts' := ts + [t];
  }

  /** An entry written: its text joins the pieces. */
  lemma MapStep(ctx: Context, es: seq<Entry>, k: nat, pair: string)
    requires k < |es| && Kept(ctx, es[k]) && pair == PairText(ctx, es[k])
    ensures PairTexts(ctx, es[..k + 1]) == PairTexts(ctx, es[..k]) + [pair]
  {
    assert es[..k + 1][..k] == es[..k] && es[..k + 1][k] == es[k];
  }

  /** An entry skipped: nothing is written. */
  lemma MapSkip(ctx: Context, es: seq<Entry>, k: nat)
    requires k < |es| && !Kept(ctx, es[k])
    ensures PairTexts(ctx, es[..k + 1]) == PairTexts(ctx, es[..k])
  {
    assert es[..k + 1][..k] == es[..k] && es[..k + 1][k] == es[k];
    assert PairTexts(ctx, es[..k + 1]) == PairTexts(ctx, es[..k]) + [];
  }

  lemma PairStep(ctx: Context, e: Entry, key: string, colon: string, text: string)
    requires Kept(ctx, e)
    requires key == Quoted(ctx.mode, e.key.value)
    requires colon == (if ctx.prettyPrint then ": " else ":")
    requires text == Text(Enter(ctx), e.val)
    ensures key + colon + text == PairText(ctx, e)
  {
  }

  /** One more element: the comma unless it is the first, the lead, the text. */
  lemma PiecesStep(ctx: Context, open: string, done: seq<string>, lead: string, t: string)
    requires lead == (if |done| > 0 then "," else "") + (if ctx.prettyPrint then "\n" + Tabs(ctx.level + 1) else "")
    ensures open + Pieces(ctx, done) + (lead + t) == open + Pieces(ctx, done + [t])
  {
    PiecesSnoc(ctx, done, t);
    var p, sep, l := Pieces(ctx, done), if |done| > 0 then "," else "", Lead(ctx);
    AppendAssoc(p + sep, l, t);
    AppendAssoc(p, sep, l + t);
    AppendAssoc(sep, l, t);
    AppendAssoc(open, p, lead + t);
  }
}
