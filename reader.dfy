/**
 * JSONReader: builds one value from a stream of parser events without
 * recursion, on two growable stacks. istack holds, for every container
 * still open, the height of ostack when it was opened; ostack holds the
 * finished values.
 *
 * The specification is a fold over the events (Step, Run, Build); module
 * ReaderStacks keeps the two arrays and is proved to follow that fold
 * event by event; Reader.GetValue is the do-while loop over the stream.
 */
module JsonReader {
  import opened Base
  import opened JavaText
  import opened Values

  /** A parser event together with the value parser.getValue() returns for it. */
  datatype Event =
    | StartObject
    | EndObject
    | StartArray
    | EndArray
    | Name(name: string)
    | StringValue(s: string)
    | NumberValue(d: Decimal)
    | BooleanValue(b: bool)
    | NullValue
    | Comment(comment: string)
    | Whitespace(space: string)

  // ---------------------------------------------------------------------
  // The abstract state of getValue and one step of its loop.

  /**
   * istack[0..ilen), ostack[0..olen), whether the previous event was a NAME,
   * and ostack[0], which getValue returns even when olen is 0.
   */
  datatype Frame = Frame(starts: seq<int>, values: seq<Value>, afterName: bool, slot0: Value)

  const Init := Frame([], [], false, Null)

  /**
   * The starts are non-decreasing and within the value stack; right after a
   * NAME its string sits above the innermost open container; slot0 is the
   * bottom of the value stack whenever that is not empty.
   */
  predicate Inv(f: Frame)
  {
    (forall i, j :: 0 <= i <= j < |f.starts| ==> 0 <= f.starts[i] <= f.starts[j] <= |f.values|)
    && (f.afterName ==> |f.values| > 0 && (|f.starts| > 0 ==> f.starts[|f.starts| - 1] < |f.values|))
    && (|f.values| > 0 ==> f.slot0 == f.values[0])
  }

  /** START_OBJECT, START_ARRAY: push the current height of the value stack. */
  function Open(f: Frame): (g: Frame)
    requires Inv(f)
    ensures Inv(g) && g.starts == f.starts + [|f.values|] && g.values == f.values
  {
    Frame(f.starts + [|f.values|], f.values, false, f.slot0)
  }

  /** NAME and the scalar events: push the event's value. */
  function Push(f: Frame, v: Value, isName: bool): (g: Frame)
    requires Inv(f)
    ensures Inv(g) && g.starts == f.starts && g.values == f.values + [v] && g.afterName == isName
  {
    Frame(f.starts, f.values + [v], isName, if |f.values| == 0 then v else f.slot0)
  }

  /** A null right after a NAME, with suppressNull on: drop the name (olen--). */
  function DropName(f: Frame): (g: Frame)
    requires Inv(f) && f.afterName
    ensures Inv(g) && g.starts == f.starts && g.values + [f.values[|f.values| - 1]] == f.values
  {
    Frame(f.starts, f.values[..|f.values| - 1], false, f.slot0)
  }

  /** The start of the innermost open container. */
  function Top(f: Frame): (s: nat)
    requires Inv(f) && |f.starts| > 0
    ensures s <= |f.values|
  {
    f.starts[|f.starts| - 1]
  }

  /** END_ARRAY, END_OBJECT: replace ostack[start..olen) by one container. */
  function Close(f: Frame, v: Value): (g: Frame)
    requires Inv(f) && |f.starts| > 0
    ensures Inv(g)
    ensures g.starts + [Top(f)] == f.starts
    ensures g.values == f.values[..Top(f)] + [v] && |g.values| == Top(f) + 1
  {
    var start := Top(f);
    Frame(f.starts[..|f.starts| - 1], f.values[..start] + [v], false, if start == 0 then v else f.slot0)
  }

  /** The key a value on the stack stands for in a map: a string, or null. */
  function KeyOf(v: Value): Option<Option<string>>
  {
    match v
    case Str(s) => Some(Some(s))
    case Null => Some(None)
    case _ => None
  }

  /**
   * The END_OBJECT loop: put(ostack[i], ostack[i + 1]) for i = start,
   * start + 2, ...; None when a slot is missing or holds no key.
   */
  function PairUp(acc: seq<Entry>, vals: seq<Value>): (r: Option<seq<Entry>>)
    decreases |vals|
  {
    if |vals| == 0 then Some(acc)
    else if |vals| == 1 || KeyOf(vals[0]).None? then None
    else PairUp(Put(acc, KeyOf(vals[0]).value, vals[1]), vals[2..])
  }

  lemma PairUpStep(acc: seq<Entry>, vals: seq<Value>, k: Option<string>, v: Value, tail: seq<Value>)
    requires |vals| >= 2 && KeyOf(vals[0]) == Some(k) && vals[1] == v && vals[2..] == tail
    ensures PairUp(acc, vals) == PairUp(Put(acc, k, v), tail)
  {
  }

  lemma PairUpStuck(acc: seq<Entry>, vals: seq<Value>)
    requires |vals| == 1 || (|vals| > 0 && KeyOf(vals[0]).None?)
    ensures PairUp(acc, vals) == None
  {
  }

  /** One turn of the do-while loop of getValue. */
  function Step(f: Frame, e: Event, suppressNull: bool): (r: Result<Frame>)
    requires Inv(f)
    ensures r.Ok? ==> Inv(r.value)
  {
    match e
    case StartObject => Ok(Open(f))
    case StartArray => Ok(Open(f))
    case Name(s) => Ok(Push(f, Str(s), true))
    case StringValue(s) => Ok(Push(f, Str(s), false))
    case NumberValue(d) => Ok(Push(f, Dec(d), false))
    case BooleanValue(b) => Ok(Push(f, Bool(b), false))
    case NullValue => Ok(if suppressNull && f.afterName then DropName(f) else Push(f, Null, false))
    case EndArray =>
      if |f.starts| == 0 then Err(IndexOutOfBounds)
      else Ok(Close(f, List(f.values[Top(f)..])))
    case EndObject =>
      if |f.starts| == 0 then Err(IndexOutOfBounds)
      else (match PairUp([], f.values[Top(f)..])
        case None => Err(Malformed)
        case Some(es) => Ok(Close(f, Map(es))))
    case Comment(_) => Ok(f.(afterName := false))
    case Whitespace(_) => Ok(f.(afterName := false))
  }

  function Run(f: Frame, events: seq<Event>, suppressNull: bool): (r: Result<Frame>)
    requires Inv(f)
    ensures r.Ok? ==> Inv(r.value)
    decreases |events|
  {
    if |events| == 0 then Ok(f)
    else match Step(f, events[0], suppressNull)
      case Err(e) => Err(e)
      case Ok(g) => Run(g, events[1..], suppressNull)
  }

  /**
   * getValue on the stream whose first event is the current one: it runs to
   * the end of the stream and returns ostack[0].
   */
  function Build(events: seq<Event>, suppressNull: bool): Result<Value>
  {
    if |events| == 0 then Err(IllegalState)
    else match Run(Init, events, suppressNull)
      case Err(e) => Err(e)
      case Ok(g) => Ok(g.slot0)
  }

  lemma {:induction false} RunAppend(f: Frame, a: seq<Event>, b: seq<Event>, suppressNull: bool)
    requires Inv(f)
    ensures Run(f, a + b, suppressNull) ==
      match Run(f, a, suppressNull)
      case Err(e) => Err(e)
      case Ok(g) => Run(g, b, suppressNull)
    decreases |a|
  {
    if |a| > 0 {
      assert (a + b)[0] == a[0] && (a + b)[1..] == a[1..] + b;
      match Step(f, a[0], suppressNull)
      case Err(e) =>
      case Ok(g) => RunAppend(g, a[1..], b, suppressNull);
    } else {
      assert a + b == b;
    }
  }

  /**
   * Two runs one after the other, each pushing values above the same open
   * containers, are one run pushing both.
   */
  lemma {:induction false} RunThen(f: Frame, a: seq<Event>, b: seq<Event>, g: Frame, h: Frame, xs: seq<Value>, ys: seq<Value>,
                suppressNull: bool)
    requires Inv(f) && Run(f, a, suppressNull) == Ok(g) && Run(g, b, suppressNull) == Ok(h)
    requires g.starts == f.starts && g.values == f.values + xs
    requires h.starts == g.starts && h.values == g.values + ys
    ensures Run(f, a + b, suppressNull) == Ok(h)
    ensures h.starts == f.starts && h.values == f.values + (xs + ys)
  {
    RunAppend(f, a, b, suppressNull);
    AppendAssoc(f.values, xs, ys);
  }

  // ---------------------------------------------------------------------
  // The events a parser emits for a JSON value, and what getValue rebuilds.

  /** Values a JSON text can denote: the parser's own output kinds, string keys. */
  predicate IsJson(v: Value)
  {
    match v
    case Null => true
    case Bool(_) => true
    case Dec(_) => true
    case Str(_) => true
    case List(items) => forall i :: 0 <= i < |items| ==> IsJson(items[i])
    case Map(entries) => forall i :: 0 <= i < |entries| ==> entries[i].key.Some? && IsJson(entries[i].val)
    case _ => false
  }

  function Events(v: Value): (r: seq<Event>)
    requires IsJson(v)
    ensures |r| > 0
  {
    match v
    case Null => [NullValue]
    case Bool(b) => [BooleanValue(b)]
    case Dec(d) => [NumberValue(d)]
    case Str(s) => [StringValue(s)]
    case List(items) => [StartArray] + ItemEvents(items) + [EndArray]
    case Map(entries) => [StartObject] + EntryEvents(entries) + [EndObject]
  }

  function ItemEvents(items: seq<Value>): seq<Event>
    requires forall i :: 0 <= i < |items| ==> IsJson(items[i])
  {
    if |items| == 0 then [] else Events(items[0]) + ItemEvents(items[1..])
  }

  function EntryEvents(entries: seq<Entry>): seq<Event>
    requires forall i :: 0 <= i < |entries| ==> entries[i].key.Some? && IsJson(entries[i].val)
  {
    if |entries| == 0 then []
    else
      var e := entries[0];
      assert e in entries && e.val < e;
      [Name(e.key.value)] + Events(e.val) + EntryEvents(entries[1..])
  }

  /**
   * The value getValue rebuilds: every map is rebuilt by put in entry order
   * (a repeated key keeps its first position and its last value), and with
   * suppressNull an entry whose value is null is dropped.
   */
  function Canon(v: Value, suppressNull: bool): Value
  {
    match v
    case List(items) => List(CanonItems(items, suppressNull))
    case Map(entries) => Map(PutAll([], CanonEntries(entries, suppressNull)))
    case _ => v
  }

  function CanonItems(items: seq<Value>, suppressNull: bool): (r: seq<Value>)
    ensures |r| == |items|
  {
    if |items| == 0 then [] else [Canon(items[0], suppressNull)] + CanonItems(items[1..], suppressNull)
  }

  function CanonEntries(entries: seq<Entry>, suppressNull: bool): seq<Entry>
  {
    if |entries| == 0 then []
    else
      var e := entries[0];
      assert e in entries && e.val < e;
      (if suppressNull && e.val.Null? then [] else [Entry(e.key, Canon(e.val, suppressNull))])
      + CanonEntries(entries[1..], suppressNull)
  }

  /** The stack contents a run of map entries leaves: key, value, key, value, ... */
  function Flatten(entries: seq<Entry>): seq<Value>
  {
    if |entries| == 0 then []
    else [if entries[0].key.Some? then Str(entries[0].key.value) else Null, entries[0].val] + Flatten(entries[1..])
  }

  lemma {:induction false} PairUpFlatten(acc: seq<Entry>, entries: seq<Entry>)
    ensures PairUp(acc, Flatten(entries)) == Some(PutAll(acc, entries))
    decreases |entries|
  {
    if |entries| > 0 {
      var e := entries[0];
      var fl := Flatten(entries);
      var k := if e.key.Some? then Str(e.key.value) else Null;
      assert fl == [k, e.val] + Flatten(entries[1..]);
      assert fl[0] == k && fl[1] == e.val && fl[2..] == Flatten(entries[1..]);
      assert KeyOf(k) == Some(e.key);
      var acc' := Put(acc, e.key, e.val);
      assert PairUp(acc, fl) == PairUp(acc', fl[2..]);
      assert PutAll(acc, entries) == PutAll(acc', entries[1..]);
      PairUpFlatten(acc', entries[1..]);
    }
  }

  /** The events of one value push exactly its rebuilt form. */
  lemma {:induction false} RunValue(f: Frame, v: Value, suppressNull: bool)
    requires Inv(f) && IsJson(v)
    requires !(suppressNull && f.afterName && v.Null?)
    ensures Run(f, Events(v), suppressNull).Ok?
    ensures var g := Run(f, Events(v), suppressNull).value;
      g.starts == f.starts && g.values == f.values + [Canon(v, suppressNull)] && !g.afterName
    decreases v, 2
  {
    match v
    case List(items) => RunList(f, items, suppressNull);
    case Map(entries) => RunMap(f, entries, suppressNull);
    case Null =>
    case Bool(_) =>
    case Dec(_) =>
    case Str(_) =>
  }

  lemma {:induction false} RunList(f: Frame, items: seq<Value>, suppressNull: bool)
    requires Inv(f) && IsJson(List(items))
    ensures Run(f, Events(List(items)), suppressNull).Ok?
    ensures var g := Run(f, Events(List(items)), suppressNull).value;
      g.starts == f.starts && g.values == f.values + [List(CanonItems(items, suppressNull))] && !g.afterName
    decreases items, 1
  {
    var f1 := Open(f);
    var evs := ItemEvents(items);
    assert Events(List(items)) == [StartArray] + (evs + [EndArray]);
    RunItems(f1, items, suppressNull);
    var g1 := Run(f1, evs, suppressNull).value;
    var body := CanonItems(items, suppressNull);
    assert g1.values[Top(g1)..] == body;
    RunEnclosed(f, StartArray, evs, EndArray, g1, List(body), suppressNull);
  }

  lemma {:induction false} RunMap(f: Frame, entries: seq<Entry>, suppressNull: bool)
    requires Inv(f) && IsJson(Map(entries))
    ensures Run(f, Events(Map(entries)), suppressNull).Ok?
    ensures var g := Run(f, Events(Map(entries)), suppressNull).value;
      g.starts == f.starts && g.values == f.values + [Map(PutAll([], CanonEntries(entries, suppressNull)))]
      && !g.afterName
    decreases entries, 1
  {
    var f1 := Open(f);
    var evs := EntryEvents(entries);
    assert Events(Map(entries)) == [StartObject] + (evs + [EndObject]);
    RunEntries(f1, entries, suppressNull);
    var g1 := Run(f1, evs, suppressNull).value;
    var canon := CanonEntries(entries, suppressNull);
    assert g1.values[Top(g1)..] == Flatten(canon);
    PairUpFlatten([], canon);
    RunEnclosed(f, StartObject, evs, EndObject, g1, Map(PutAll([], canon)), suppressNull);
  }

  /** A start event, a run that keeps the open containers, and the end event that closes into v. */
  lemma RunEnclosed(f: Frame, open: Event, evs: seq<Event>, close: Event, g1: Frame, v: Value, suppressNull: bool)
    requires Inv(f) && (open == StartArray || open == StartObject)
    requires Run(Open(f), evs, suppressNull) == Ok(g1)
    requires g1.starts == f.starts + [|f.values|] && |g1.values| >= |f.values| && g1.values[..|f.values|] == f.values
    requires Inv(g1) && Step(g1, close, suppressNull) == Ok(Close(g1, v))
    ensures var c := Close(g1, v);
      Run(f, [open] + (evs + [close]), suppressNull) == Ok(c)
      && c.starts == f.starts && c.values == f.values + [v] && !c.afterName
  {
    var c := Close(g1, v);
    RunOne(g1, close, suppressNull);
    RunAppend(Open(f), evs, [close], suppressNull);
    assert Run(Open(f), evs + [close], suppressNull) == Ok(c);
    RunOne(f, open, suppressNull);
    assert Step(f, open, suppressNull) == Ok(Open(f));
    RunAppend(f, [open], evs + [close], suppressNull);
    CloseOpened(f, g1, v);
  }

  lemma CloseOpened(f: Frame, g1: Frame, v: Value)
    requires Inv(f) && Inv(g1) && g1.starts == f.starts + [|f.values|]
    requires |g1.values| >= |f.values| && g1.values[..|f.values|] == f.values
    ensures var c := Close(g1, v);
      c.starts == f.starts && c.values == f.values + [v] && !c.afterName
  {
    assert Top(g1) == |f.values|;
    assert (f.starts + [|f.values|])[..|f.starts|] == f.starts;
  }

  /** A single event is one step. */
  lemma RunOne(f: Frame, e: Event, suppressNull: bool)
    requires Inv(f)
    ensures Run(f, [e], suppressNull) == Step(f, e, suppressNull)
  {
    assert [e][1..] == [];
  }

  lemma {:induction false} RunItems(f: Frame, items: seq<Value>, suppressNull: bool)
    requires Inv(f) && !f.afterName
    requires forall i :: 0 <= i < |items| ==> IsJson(items[i])
    ensures Run(f, ItemEvents(items), suppressNull).Ok?
    ensures var g := Run(f, ItemEvents(items), suppressNull).value;
      g.starts == f.starts && g.values == f.values + CanonItems(items, suppressNull) && !g.afterName
    decreases items, 0
  {
    if |items| == 0 {
      assert f.values + [] == f.values;
    } else {
      var v, rest := items[0], items[1..];
      assert v in items;
      RunValue(f, v, suppressNull);
      var g := Run(f, Events(v), suppressNull).value;
      RunItems(g, rest, suppressNull);
      var h := Run(g, ItemEvents(rest), suppressNull).value;
      RunThen(f, Events(v), ItemEvents(rest), g, h, [Canon(v, suppressNull)], CanonItems(rest, suppressNull), suppressNull);
      assert ItemEvents(items) == Events(v) + ItemEvents(rest);
      assert CanonItems(items, suppressNull) == [Canon(v, suppressNull)] + CanonItems(rest, suppressNull);
    }
  }

  /** The events of one map entry push its key and value, or nothing when the null is suppressed. */
  lemma {:induction false} RunEntry(f: Frame, e: Entry, suppressNull: bool)
    requires Inv(f) && !f.afterName && e.key.Some? && IsJson(e.val)
    ensures Run(f, [Name(e.key.value)] + Events(e.val), suppressNull).Ok?
    ensures var g := Run(f, [Name(e.key.value)] + Events(e.val), suppressNull).value;
      g.starts == f.starts && g.values == f.values + Flatten(CanonEntries([e], suppressNull)) && !g.afterName
    decreases e, 0
  {
    var k := e.key.value;
    var f1 := Push(f, Str(k), true);
    assert Run(f, [Name(k)], suppressNull) == Ok(f1);
    RunAppend(f, [Name(k)], Events(e.val), suppressNull);
    assert CanonEntries([e], suppressNull)
      == (if suppressNull && e.val.Null? then [] else [Entry(e.key, Canon(e.val, suppressNull))]);
    if suppressNull && e.val.Null? {
      assert Run(f1, Events(e.val), suppressNull) == Ok(DropName(f1));
      assert f.values + [] == f.values;
    } else {
      assert e.val < e;
      RunValue(f1, e.val, suppressNull);
      assert Flatten([Entry(e.key, Canon(e.val, suppressNull))]) == [Str(k), Canon(e.val, suppressNull)];
      assert f.values + [Str(k)] + [Canon(e.val, suppressNull)] == f.values + [Str(k), Canon(e.val, suppressNull)];
    }
  }

  lemma {:induction false} RunEntries(f: Frame, entries: seq<Entry>, suppressNull: bool)
    requires Inv(f) && !f.afterName
    requires forall i :: 0 <= i < |entries| ==> entries[i].key.Some? && IsJson(entries[i].val)
    ensures Run(f, EntryEvents(entries), suppressNull).Ok?
    ensures var g := Run(f, EntryEvents(entries), suppressNull).value;
      g.starts == f.starts && g.values == f.values + Flatten(CanonEntries(entries, suppressNull)) && !g.afterName
    decreases entries, 0
  {
    if |entries| == 0 {
      assert f.values + [] == f.values;
    } else {
      var e, rest := entries[0], entries[1..];
      assert e in entries && e.val < e;
      var evs := [Name(e.key.value)] + Events(e.val);
      RunEntry(f, e, suppressNull);
      var g := Run(f, evs, suppressNull).value;
      RunEntries(g, rest, suppressNull);
      var h := Run(g, EntryEvents(rest), suppressNull).value;
      var xs, ys := Flatten(CanonEntries([e], suppressNull)), Flatten(CanonEntries(rest, suppressNull));
      RunThen(f, evs, EntryEvents(rest), g, h, xs, ys, suppressNull);
      assert EntryEvents(entries) == evs + EntryEvents(rest);
      FlattenCanonCons(e, rest, suppressNull);
    }
  }

  lemma FlattenCanonCons(e: Entry, rest: seq<Entry>, suppressNull: bool)
    ensures Flatten(CanonEntries([e] + rest, suppressNull))
      == Flatten(CanonEntries([e], suppressNull)) + Flatten(CanonEntries(rest, suppressNull))
  {
    var es := [e] + rest;
    assert es[0] == e && es[1..] == rest;
    assert CanonEntries([e], suppressNull) == CanonEntries([e], suppressNull) + CanonEntries([], suppressNull);
    var kept := CanonEntries([e], suppressNull);
    assert CanonEntries(es, suppressNull) == kept + CanonEntries(rest, suppressNull);
    if |kept| == 1 {
      assert (kept + CanonEntries(rest, suppressNull))[1..] == CanonEntries(rest, suppressNull);
    } else {
      assert kept + CanonEntries(rest, suppressNull) == CanonEntries(rest, suppressNull);
    }
  }

  /**
   * For the event stream of any JSON value, getValue returns that value,
   * rebuilt with LinkedHashMap.put and, with suppressNull, without the
   * entries whose value is null.
   */
  lemma BuildEvents(v: Value, suppressNull: bool)
    requires IsJson(v)
    ensures Build(Events(v), suppressNull) == Ok(Canon(v, suppressNull))
  {
    RunValue(Init, v, suppressNull);
  }

  /** Maps with distinct keys throughout, and, with suppressNull, no null member values. */
  predicate Plain(v: Value, suppressNull: bool)
  {
    match v
    case List(items) => forall i :: 0 <= i < |items| ==> Plain(items[i], suppressNull)
    case Map(entries) =>
      DistinctKeys(entries)
      && forall i :: 0 <= i < |entries| ==> !(suppressNull && entries[i].val.Null?) && Plain(entries[i].val, suppressNull)
    case _ => true
  }

  lemma {:induction false} CanonPlain(v: Value, suppressNull: bool)
    requires Plain(v, suppressNull)
    ensures Canon(v, suppressNull) == v
    decreases v, 1
  {
    match v
    case List(items) => CanonItemsPlain(items, suppressNull);
    case Map(entries) =>
      CanonEntriesPlain(entries, suppressNull);
      PutAllFresh([], entries);
      assert [] + entries == entries;
    case _ =>
  }

  lemma {:induction false} CanonItemsPlain(items: seq<Value>, suppressNull: bool)
    requires forall i :: 0 <= i < |items| ==> Plain(items[i], suppressNull)
    ensures CanonItems(items, suppressNull) == items
    decreases items, 0
  {
    if |items| > 0 {
      assert items[0] in items;
      CanonPlain(items[0], suppressNull);
      CanonItemsPlain(items[1..], suppressNull);
      assert [items[0]] + items[1..] == items;
    }
  }

  lemma {:induction false} CanonEntriesPlain(entries: seq<Entry>, suppressNull: bool)
    requires forall i :: 0 <= i < |entries| ==> !(suppressNull && entries[i].val.Null?) && Plain(entries[i].val, suppressNull)
    ensures CanonEntries(entries, suppressNull) == entries
    decreases entries, 0
  {
    if |entries| > 0 {
      var e := entries[0];
      assert e in entries && e.val < e;
      CanonPlain(e.val, suppressNull);
      CanonEntriesPlain(entries[1..], suppressNull);
      assert [e] + entries[1..] == entries;
    }
  }

  /** A JSON value whose maps have distinct keys comes back unchanged. */
  lemma BuildEventsExact(v: Value, suppressNull: bool)
    requires IsJson(v) && Plain(v, suppressNull)
    ensures Build(Events(v), suppressNull) == Ok(v)
  {
    BuildEvents(v, suppressNull);
    CanonPlain(v, suppressNull);
  }
}
