/**
 * The arrays and counters of JSONReader.getValue, proved to follow the
 * event fold of module JsonReader one event at a time, and the reader
 * object around them.
 */
module ReaderStacks {
  import opened Base
  import opened JavaText
  import opened Values
  import opened JsonReader

  /**
   * iexpand / oexpand: when min exceeds the length, a copy of length
   * length * 3 / 2 + 1 (Arrays.copyOf pads with 0 or null, here fill).
   */
  method Expand<T>(a: array<T>, min: int, fill: T) returns (b: array<T>)
    ensures min <= a.Length ==> b == a
    ensures min > a.Length ==> fresh(b) && b.Length == a.Length * 3 / 2 + 1
    ensures min <= a.Length + 1 ==> b.Length >= min
    ensures b.Length >= a.Length && b[..a.Length] == a[..]
    ensures forall i :: a.Length <= i < b.Length ==> b[i] == fill
  {
    if min <= a.Length {
      return a;
    }
    b := new T[a.Length * 3 / 2 + 1](_ => fill);
    var i := 0;
    while i < a.Length
      invariant 0 <= i <= a.Length
      invariant b[..i] == a[..i]
      invariant forall j :: a.Length <= j < b.Length ==> b[j] == fill
    {
      b[i] := a[i];
      i := i + 1;
    }
  }

  /**
   * The loop of END_OBJECT: put(a[i], a[i + 1]) for i = start, start + 2, ...
   * below end; None when a key slot holds neither a string nor null, or
   * when the last key has no value slot below end.
   */
  method PairSlice(a: array<Value>, start: nat, end: nat) returns (r: Option<seq<Entry>>)
    requires start <= end <= a.Length
    ensures r == PairUp([], a[start..end])
  {
    var vals := a[start..end];
    ghost var target := PairUp([], vals);
    var entries: seq<Entry> := [];
    var j := 0;
    while j < |vals|
      invariant 0 <= j <= |vals|
      invariant PairUp(entries, vals[j..]) == target
    {
      var k := KeyOf(vals[j]);
      if j + 1 >= |vals| || k.None? {
        SliceStuck(entries, vals, j, k, target);
        return None;
      }
      SliceStep(entries, vals, j, k.value, vals[j + 1], target);
      entries := Put(entries, k.value, vals[j + 1]);
      j := j + 2;
    }
    SliceEnd(entries, vals, j, target);
    return Some(entries);
  }

  lemma SliceEnd(acc: seq<Entry>, vals: seq<Value>, j: nat, target: Option<seq<Entry>>)
    requires j == |vals| && PairUp(acc, vals[j..]) == target
    ensures target == Some(acc)
  {
    assert vals[j..] == [];
  }

  lemma SliceStep(acc: seq<Entry>, vals: seq<Value>, j: nat, key: Option<string>, val: Value, target: Option<seq<Entry>>)
    requires j + 2 <= |vals| && KeyOf(vals[j]) == Some(key) && vals[j + 1] == val
    requires PairUp(acc, vals[j..]) == target
    ensures PairUp(Put(acc, key, val), vals[j + 2..]) == target
  {
    PairUpStep(acc, vals[j..], key, val, vals[j + 2..]);
  }

  lemma SliceStuck(acc: seq<Entry>, vals: seq<Value>, j: nat, k: Option<Option<string>>, target: Option<seq<Entry>>)
    requires j < |vals| && k == KeyOf(vals[j]) && (j + 1 >= |vals| || k.None?)
    requires PairUp(acc, vals[j..]) == target
    ensures target == None
  {
    PairUpStuck(acc, vals[j..]);
  }

  lemma ConsTail<T>(s: seq<T>)
    requires |s| > 0
    ensures [s[0]] + s[1..] == s
  {
  }

  /** The first event's step, then the rest. */
  lemma RunCons(f: Frame, t: Event, rest: seq<Event>, suppressNull: bool)
    requires Inv(f)
    ensures var r := Step(f, t, suppressNull);
      Run(f, [t] + rest, suppressNull) == if r.Err? then Err(r.error) else Run(r.value, rest, suppressNull)
  {
    assert ([t] + rest)[0] == t && ([t] + rest)[1..] == rest;
  }

  /** istack, ilen, ostack, olen and btype == NAME: the locals of getValue. */
  class Stacks {
    var istack: array<int>
    var ilen: nat
    var ostack: array<Value>
    var olen: nat
    var afterName: bool

    ghost predicate Valid()
      reads this, istack, ostack
    {
      ilen <= istack.Length && olen <= ostack.Length && ostack.Length > 0 && Inv(Abstract())
    }

    ghost function Abstract(): Frame
      reads this, istack, ostack
      requires ilen <= istack.Length && olen <= ostack.Length && ostack.Length > 0
    {
      Frame(istack[..ilen], ostack[..olen], afterName, ostack[0])
    }

    /** new int[16], new Object[32], both counters 0. */
    constructor()
      ensures Valid() && Abstract() == Init && fresh(istack) && fresh(ostack)
    {
      istack := new int[16](_ => 0);
      ostack := new Value[32](_ => Null);
      ilen, olen, afterName := 0, 0, false;
    }

    /** START_OBJECT, START_ARRAY. */
    method Start()
      requires Valid()
      modifies this, istack
      ensures Valid() && Abstract() == Open(old(Abstract()))
      ensures ostack == old(ostack) && (istack == old(istack) || fresh(istack))
    {
      ghost var f := Abstract();
      istack := Expand(istack, ilen + 1, 0);
      assert istack[..ilen] == f.starts;
      istack[ilen] := olen;
      assert istack[..ilen + 1] == f.starts + [olen];
      ilen := ilen + 1;
      afterName := false;
      assert Abstract() == Open(f);
    }

    /** NAME, STRING, NUMBER, BOOLEAN and a kept NULL. */
    method PushValue(v: Value, isName: bool)
      requires Valid()
      modifies this, ostack
      ensures Valid() && Abstract() == Push(old(Abstract()), v, isName)
      ensures istack == old(istack) && (ostack == old(ostack) || fresh(ostack))
    {
      ghost var f := Abstract();
      ostack := Expand(ostack, olen + 1, Null);
      assert ostack[..olen] == f.values;
      ostack[olen] := v;
      assert ostack[..olen + 1] == f.values + [v];
      assert ostack[0] == if olen == 0 then v else f.slot0;
      olen := olen + 1;
      afterName := isName;
      assert Abstract() == Push(f, v, isName);
    }

    /** The tail shared by END_ARRAY and END_OBJECT: pop the start, put v there. */
    method CloseWith(v: Value)
      requires Valid() && ilen > 0
      modifies this, ostack
      ensures Valid() && Abstract() == Close(old(Abstract()), v)
      ensures istack == old(istack) && (ostack == old(ostack) || fresh(ostack))
    {
      ghost var f := Abstract();
      assert Inv(f) && |f.starts| > 0;
      ghost var g := Close(f, v);
      var start := istack[ilen - 1];
      assert start == Top(f);
      ilen := ilen - 1;
      assert istack[..ilen] == g.starts;
      olen := start;
      ghost var keep := ostack[..start];
      assert keep == f.values[..start];
      var old0 := ostack[0];
      ostack := Expand(ostack, start + 1, Null);
      assert ostack[..start] == keep;
      ostack[start] := v;
      assert ostack[..start + 1] == keep + [v];
      olen := start + 1;
      afterName := false;
      assert ostack[0] == g.slot0;
      assert Abstract() == g;
    }

    /** END_ARRAY: the values above the innermost start become one list. */
    method CloseArray() returns (err: Option<Error>)
      requires Valid()
      modifies this, ostack
      ensures Valid()
      ensures var r := Step(old(Abstract()), EndArray, false);
        (r.Err? ==> err == Some(r.error)) && (r.Ok? ==> err.None? && Abstract() == r.value)
      ensures istack == old(istack) && (ostack == old(ostack) || fresh(ostack))
    {
      if ilen == 0 {
        return Some(IndexOutOfBounds);
      }
      ghost var f := Abstract();
      var start := istack[ilen - 1];
      assert start == Top(f);
      var items: seq<Value> := [];
      var i := start;
      while i < olen
        invariant start <= i <= olen
        invariant items == ostack[start..i]
      {
        items := items + [ostack[i]];
        i := i + 1;
      }
      assert items == f.values[start..];
      CloseWith(List(items));
      err := None;
    }

    /** END_OBJECT: the values above the innermost start, paired up into an ordered map. */
    method CloseObject() returns (err: Option<Error>)
      requires Valid()
      modifies this, ostack
      ensures Valid()
      ensures var r := Step(old(Abstract()), EndObject, false);
        (r.Err? ==> err == Some(r.error)) && (r.Ok? ==> err.None? && Abstract() == r.value)
      ensures istack == old(istack) && (ostack == old(ostack) || fresh(ostack))
    {
      if ilen == 0 {
        return Some(IndexOutOfBounds);
      }
      ghost var f := Abstract();
      var start := istack[ilen - 1];
      assert start == Top(f);
      var entries := PairSlice(ostack, start, olen);
      if entries.None? {
        return Some(Malformed);
      }
      CloseWith(Map(entries.value));
      err := None;
    }

    /** One turn of the switch in getValue. */
    method Apply(e: Event, suppressNull: bool) returns (err: Option<Error>)
      requires Valid()
      modifies this, istack, ostack
      ensures Valid()
      ensures var r := Step(old(Abstract()), e, suppressNull);
        (r.Err? ==> err == Some(r.error)) && (r.Ok? ==> err.None? && Abstract() == r.value)
      ensures (istack == old(istack) || fresh(istack)) && (ostack == old(ostack) || fresh(ostack))
    {
      err := None;
      match e
      case StartObject => Start();
      case StartArray => Start();
      case Name(s) => PushValue(Str(s), true);
      case StringValue(s) => PushValue(Str(s), false);
      case NumberValue(d) => PushValue(Dec(d), false);
      case BooleanValue(b) => PushValue(Bool(b), false);
      case NullValue =>
        if suppressNull && afterName {
          DropName();
        } else {
          PushValue(Null, false);
        }
      case EndArray => err := CloseArray();
      case EndObject => err := CloseObject();
      case Comment(_) => ClearName();
      case Whitespace(_) => ClearName();
    }

    /** A suppressed NULL after a NAME: pop the name back off. */
    method DropName()
      requires Valid() && afterName
      modifies this
      ensures Valid() && Abstract() == JsonReader.DropName(old(Abstract()))
      ensures istack == old(istack) && ostack == old(ostack)
    {
      ghost var f := Abstract();
      olen := olen - 1;
      afterName := false;
      assert ostack[..olen] == f.values[..|f.values| - 1];
    }

    /** COMMENT and WHITESPACE only clear the after-name flag. */
    method ClearName()
      requires Valid()
      modifies this
      ensures Valid() && Abstract() == old(Abstract()).(afterName := false)
      ensures istack == old(istack) && ostack == old(ostack)
    {
      afterName := false;
    }
  }

  /** getObject: getValue's result must be a Map (a null passes the cast). */
  function AsObject(r: Result<Value>): (o: Result<Value>)
    ensures o.Ok? ==> r == o && (o.value.Map? || o.value.Null?)
    ensures r.Ok? && (r.value.Map? || r.value.Null?) ==> o == r
  {
    match r
    case Err(e) => Err(e)
    case Ok(v) => if v.Map? || v.Null? then Ok(v) else Err(ClassCast)
  }

  /** getArray: getValue's result must be a List (a null passes the cast). */
  function AsArray(r: Result<Value>): (o: Result<Value>)
    ensures o.Ok? ==> r == o && (o.value.List? || o.value.Null?)
    ensures r.Ok? && (r.value.List? || r.value.Null?) ==> o == r
  {
    match r
    case Err(e) => Err(e)
    case Ok(v) => if v.List? || v.Null? then Ok(v) else Err(ClassCast)
  }

  /**
   * A JSONReader over a fixed event stream: current is the type field (the
   * event next() returned last), pending what parser.next() still delivers.
   */
  class Reader {
    const suppressNull: bool
    var current: Option<Event>
    var pending: seq<Event>

    constructor(stream: seq<Event>, suppressNull: bool)
      ensures this.suppressNull == suppressNull && current == None && pending == stream
    {
      this.suppressNull := suppressNull;
      current := None;
      pending := stream;
    }

    /** next(): the parser's next event, or None at the end of the stream. */
    method Next() returns (t: Option<Event>)
      modifies this
      ensures old(pending) == [] ==> t == None && pending == []
      ensures old(pending) != [] ==> t == Some(old(pending)[0]) && pending == old(pending)[1..]
      ensures current == t
    {
      if pending == [] {
        t := None;
      } else {
        t := Some(pending[0]);
        pending := pending[1..];
      }
      current := t;
    }

    /** getString: the current event must be a STRING. */
    method GetString() returns (r: Result<string>)
      ensures current.Some? && current.value.StringValue? ==> r == Ok(current.value.s)
      ensures !(current.Some? && current.value.StringValue?) ==> r == Err(IllegalState)
    {
      if current.Some? && current.value.StringValue? {
        r := Ok(current.value.s);
      } else {
        r := Err(IllegalState);
      }
    }

    /** getNumber: the current event must be a NUMBER. */
    method GetNumber() returns (r: Result<Decimal>)
      ensures current.Some? && current.value.NumberValue? ==> r == Ok(current.value.d)
      ensures !(current.Some? && current.value.NumberValue?) ==> r == Err(IllegalState)
    {
      if current.Some? && current.value.NumberValue? {
        r := Ok(current.value.d);
      } else {
        r := Err(IllegalState);
      }
    }

    /** getBoolean: the current event must be a BOOLEAN. */
    method GetBoolean() returns (r: Result<bool>)
      ensures current.Some? && current.value.BooleanValue? ==> r == Ok(current.value.b)
      ensures !(current.Some? && current.value.BooleanValue?) ==> r == Err(IllegalState)
    {
      if current.Some? && current.value.BooleanValue? {
        r := Ok(current.value.b);
      } else {
        r := Err(IllegalState);
      }
    }

    /** getComment: the current event must be a COMMENT. */
    method GetComment() returns (r: Result<string>)
      ensures current.Some? && current.value.Comment? ==> r == Ok(current.value.comment)
      ensures !(current.Some? && current.value.Comment?) ==> r == Err(IllegalState)
    {
      if current.Some? && current.value.Comment? {
        r := Ok(current.value.comment);
      } else {
        r := Err(IllegalState);
      }
    }

    /** getWhitespace: the current event must be a WHITESPACE. */
    method GetWhitespace() returns (r: Result<string>)
      ensures current.Some? && current.value.Whitespace? ==> r == Ok(current.value.space)
      ensures !(current.Some? && current.value.Whitespace?) ==> r == Err(IllegalState)
    {
      if current.Some? && current.value.Whitespace? {
        r := Ok(current.value.space);
      } else {
        r := Err(IllegalState);
      }
    }

    /**
     * getValue(): fails when next() was never called; otherwise folds the
     * current event and every later one into the stacks and returns ostack[0].
     */
    method GetValue() returns (r: Result<Value>)
      modifies this
      ensures old(current).None? ==> r == Err(IllegalState)
      ensures old(current).Some? ==> r == Build([old(current).value] + old(pending), suppressNull)
      ensures r.Ok? ==> current == None && pending == []
    {
      if current.None? {
        return Err(IllegalState);
      }
      ghost var stream := [current.value] + pending;
      var s := new Stacks();
      var t := current.value;
      while true
        invariant s.Valid() && fresh(s) && fresh(s.istack) && fresh(s.ostack)
        invariant Run(Init, stream, suppressNull) == Run(s.Abstract(), [t] + pending, suppressNull)
        decreases |pending|
      {
        RunCons(s.Abstract(), t, pending, suppressNull);
        var err := s.Apply(t, suppressNull);
        if err.Some? {
          return Err(err.value);
        }
        ghost var rest := pending;
        var n := Next();
        if n.None? {
          assert rest == [];
          break;
        }
        t := n.value;
        ConsTail(rest);
      }
      return Ok(s.ostack[0]);
    }

    /** getObject: the current event must be START_OBJECT. */
    method GetObject() returns (r: Result<Value>)
      modifies this
      ensures old(current) != Some(StartObject) ==> r == Err(IllegalState)
      ensures old(current) == Some(StartObject) ==> r == AsObject(Build([StartObject] + old(pending), suppressNull))
    {
      if current != Some(StartObject) {
        return Err(IllegalState);
      }
      var v := GetValue();
      r := AsObject(v);
    }

    /** getArray: the current event must be START_ARRAY. */
    method GetArray() returns (r: Result<Value>)
      modifies this
      ensures old(current) != Some(StartArray) ==> r == Err(IllegalState)
      ensures old(current) == Some(StartArray) ==> r == AsArray(Build([StartArray] + old(pending), suppressNull))
    {
      if current != Some(StartArray) {
        return Err(IllegalState);
      }
      var v := GetValue();
      r := AsArray(v);
    }
  }

  /** Reading the events of a JSON object with getObject gives back the rebuilt map. */
  lemma GetObjectOfMap(entries: seq<Entry>, suppressNull: bool)
    requires IsJson(Map(entries))
    ensures AsObject(Build(Events(Map(entries)), suppressNull)) == Ok(Canon(Map(entries), suppressNull))
    ensures Events(Map(entries))[0] == StartObject
  {
    BuildEvents(Map(entries), suppressNull);
  }

  /** Reading the events of a JSON array with getArray gives back the rebuilt list. */
  lemma GetArrayOfList(items: seq<Value>, suppressNull: bool)
    requires IsJson(List(items))
    ensures AsArray(Build(Events(List(items)), suppressNull)) == Ok(Canon(List(items), suppressNull))
    ensures Events(List(items))[0] == StartArray
  {
    BuildEvents(List(items), suppressNull);
  }
}
