/**
 * The request-parameter tree of the REST servlet: RouteMapping.parseParameter
 * turns names such as "a.b[c][]" into nested ordered maps, Route.getParameter
 * reads one parameter back as a string, and Route.mergeParameterMap adds
 * further parameters to a route.
 *
 * A parameter map is a Values map (a sequence of entries in insertion
 * order); a nested map is a Map value, a list of values a List value and a
 * request value a Str value. The null key is the key None.
 */
module RestParams {
  import opened Base
  import opened JavaText
  import opened Values

  // ---------------------------------------------------------------------
  // Splitting a parameter name at '.' and '['.

  predicate IsSep(c: char) { c == '.' || c == '[' }

  /** The pieces of s between separators, in order (one more piece than separators). */
  function Pieces(s: string): (r: seq<string>)
    ensures |r| >= 1
  {
    if |s| == 0 then [[]]
    else
      var ps := Pieces(s[..|s| - 1]);
      var c := s[|s| - 1];
      if IsSep(c) then ps + [[]] else ps[..|ps| - 1] + [ps[|ps| - 1] + [c]]
  }

  /** The separators of s, in order. */
  function Seps(s: string): (r: seq<char>)
  {
    if |s| == 0 then []
    else if IsSep(s[|s| - 1]) then Seps(s[..|s| - 1]) + [s[|s| - 1]]
    else Seps(s[..|s| - 1])
  }

  /** The pieces put back together with the separators between them. */
  function Rejoin(ps: seq<string>, cs: seq<char>): string
    requires |ps| == |cs| + 1
    decreases |cs|
  {
    if |cs| == 0 then ps[0]
    else Rejoin(ps[..|ps| - 1], cs[..|cs| - 1]) + [cs[|cs| - 1]] + ps[|ps| - 1]
  }

  /** Pieces and separators of s followed by one more character. */
  lemma PiecesSnoc(s: string, c: char)
    ensures Pieces(s + [c]) == (var ps := Pieces(s); if IsSep(c) then ps + [[]] else ps[..|ps| - 1] + [ps[|ps| - 1] + [c]])
    ensures Seps(s + [c]) == if IsSep(c) then Seps(s) + [c] else Seps(s)
  {
    assert (s + [c])[..|s|] == s;
  }

  /** There is one more piece than separators. */
  lemma {:induction false} PiecesCount(s: string)
    ensures |Pieces(s)| == |Seps(s)| + 1
    decreases |s|
  {
    if |s| > 0 {
      var t := s[..|s| - 1];
      assert t + [s[|s| - 1]] == s;
      PiecesCount(t);
      PiecesSnoc(t, s[|s| - 1]);
    }
  }

  predicate SepFree(p: string)
  {
    forall j :: 0 <= j < |p| ==> !IsSep(p[j])
  }

  /** No piece holds a separator. */
  lemma {:induction false} PiecesSepFree(s: string)
    ensures forall p :: p in Pieces(s) ==> SepFree(p)
    decreases |s|
  {
    if |s| > 0 {
      var t, c := s[..|s| - 1], s[|s| - 1];
      assert t + [c] == s;
      PiecesSepFree(t);
      PiecesSnoc(t, c);
      var ps := Pieces(t);
      if !IsSep(c) {
        var last := ps[|ps| - 1] + [c];
        assert ps[|ps| - 1] in ps;
        assert SepFree(last);
        forall p | p in ps[..|ps| - 1] + [last]
          ensures SepFree(p)
        {
          if p != last {
            assert p in ps;
          }
        }
      }
    }
  }

  /** Rejoining the pieces with the separators between them rebuilds s. */
  lemma {:induction false} PiecesRoundTrip(s: string)
    ensures |Pieces(s)| == |Seps(s)| + 1
    ensures Rejoin(Pieces(s), Seps(s)) == s
    decreases |s|
  {
    PiecesCount(s);
    if |s| > 0 {
      var t, c := s[..|s| - 1], s[|s| - 1];
      assert t + [c] == s;
      PiecesRoundTrip(t);
      PiecesSnoc(t, c);
      var ps, cs := Pieces(t), Seps(t);
      if IsSep(c) {
        assert (ps + [[]])[..|ps|] == ps;
      } else if |cs| > 0 {
        var qs := ps[..|ps| - 1] + [ps[|ps| - 1] + [c]];
        assert qs[..|qs| - 1] == ps[..|ps| - 1];
        assert Rejoin(qs, cs) == Rejoin(ps, cs) + [c];
      }
    }
  }

  /** A piece loses one trailing ']' (the name "a[b]" names key "b" inside "a"). */
  function StripClose(p: string): (r: string)
    ensures |p| > 0 && p[|p| - 1] == ']' ==> r == p[..|p| - 1]
    ensures !(|p| > 0 && p[|p| - 1] == ']') ==> r == p
  {
    if |p| > 0 && p[|p| - 1] == ']' then p[..|p| - 1] else p
  }

  function Closed(ps: seq<string>): (r: seq<string>)
    ensures |r| == |ps| && forall j :: 0 <= j < |ps| ==> r[j] == StripClose(ps[j])
  {
    if |ps| == 0 then [] else Closed(ps[..|ps| - 1]) + [StripClose(ps[|ps| - 1])]
  }

  /** The map keys to descend through and the last key: every piece with its ']' stripped. */
  function Split(name: string): (r: (seq<string>, string))
  {
    var ps := Pieces(name);
    (Closed(ps[..|ps| - 1]), StripClose(ps[|ps| - 1]))
  }

  /**
   * The character loop of parseParameter: at each '.' or '[' the text since
   * the last separator becomes a key, one character shorter when the
   * character before the separator was ']'; what follows the last separator
   * is the final key.
   */
  method SplitName(name: string) returns (segs: seq<string>, last: string)
    ensures (segs, last) == Split(name)
  {
    var start := 0;
    var prev := '\0';
    segs := [];
    assert name[..0] == [];
    for i := 0 to |name|
      invariant Scanned(name, i, start, prev, segs)
    {
      var c := name[i];
      if c == '.' || c == '[' {
        ScanSep(name, i, start, prev, segs);
        segs := segs + [name[start..if prev == ']' then i - 1 else i]];
        start := i + 1;
      } else {
        ScanChar(name, i, start, prev, segs);
      }
      prev := c;
    }
    ScanEnd(name, start, prev, segs);
    last := name[start..if prev == ']' then |name| - 1 else |name|];
  }

  /**
   * The loop's state after i characters: segs are the closed pieces so
   * far, the open piece starts at start, and prev is the last character read.
   */
  predicate Scanned(name: string, i: nat, start: nat, prev: char, segs: seq<string>)
  {
    start <= i <= |name| && (start > 0 ==> IsSep(name[start - 1]))
    && prev == (if i == 0 then '\0' else name[i - 1])
    && var ps := Pieces(name[..i]);
    |ps| == |segs| + 1 && segs == Closed(ps[..|segs|]) && ps[|segs|] == name[start..i]
  }

  /** At a separator the open piece, less a closing ']', becomes a key, and an empty piece opens. */
  lemma ScanSep(name: string, i: nat, start: nat, prev: char, segs: seq<string>)
    requires Scanned(name, i, start, prev, segs) && i < |name| && IsSep(name[i])
    ensures prev == ']' ==> start < i
    ensures Scanned(name, i + 1, i + 1, name[i], segs + [name[start..if prev == ']' then i - 1 else i]])
  {
    var ps := Pieces(name[..i]);
    StripAt(name, start, i, prev);
    SepPieces(name, i);
    ClosedSnoc(ps, segs);
    assert (ps + [[]])[..|segs| + 1] == ps;
  }

  lemma SepPieces(name: string, i: nat)
    requires i < |name| && IsSep(name[i])
    ensures Pieces(name[..i + 1]) == Pieces(name[..i]) + [[]]
  {
    assert name[..i + 1] == name[..i] + [name[i]];
    PiecesSnoc(name[..i], name[i]);
  }

  lemma ClosedSnoc(ps: seq<string>, segs: seq<string>)
    requires |ps| == |segs| + 1 && segs == Closed(ps[..|segs|])
    ensures Closed(ps) == segs + [StripClose(ps[|segs|])]
  {
    assert ps[..|ps| - 1] == ps[..|segs|];
  }

  /** Any other character extends the open piece. */
  lemma ScanChar(name: string, i: nat, start: nat, prev: char, segs: seq<string>)
    requires Scanned(name, i, start, prev, segs) && i < |name| && !IsSep(name[i])
    ensures Scanned(name, i + 1, start, name[i], segs)
  {
    var ps := Pieces(name[..i]);
    assert name[..i + 1] == name[..i] + [name[i]];
    PiecesSnoc(name[..i], name[i]);
    assert name[start..i + 1] == name[start..i] + [name[i]];
    assert (ps[..|ps| - 1] + [ps[|ps| - 1] + [name[i]]])[..|segs|] == ps[..|segs|];
  }

  /** After the last character the open piece, less a closing ']', is the final key. */
  lemma ScanEnd(name: string, start: nat, prev: char, segs: seq<string>)
    requires Scanned(name, |name|, start, prev, segs)
    ensures prev == ']' ==> start < |name|
    ensures (segs, name[start..if prev == ']' then |name| - 1 else |name|]) == Split(name)
  {
    StripAt(name, start, |name|, prev);
    assert name[..|name|] == name;
  }

  /** The character before position i is ']' exactly when the piece from start to i ends in ']'. */
  lemma StripAt(name: string, start: nat, i: nat, prev: char)
    requires start <= i <= |name| && (start > 0 ==> IsSep(name[start - 1]))
    requires prev == (if i == 0 then '\0' else name[i - 1])
    ensures prev == ']' ==> start < i
    ensures name[start..if prev == ']' then i - 1 else i] == StripClose(name[start..i])
  {
  }

  // ---------------------------------------------------------------------
  // Storing the values of one parameter.

  function Strs(values: seq<string>): (r: seq<Value>)
    ensures |r| == |values| && forall j :: 0 <= j < |values| ==> r[j] == Str(values[j])
  {
    if |values| == 0 then [] else Strs(values[..|values| - 1]) + [Str(values[|values| - 1])]
  }

  /** The value for a key seen for the first time: a list for a "[]" name or several values, else the one value. */
  function Fresh(values: seq<string>, multi: bool): (r: Result<Value>)
    ensures r.Ok? <==> multi || |values| > 0
    ensures r.Ok? && (multi || |values| > 1) ==> r.value == List(Strs(values))
    ensures r.Ok? && !multi && |values| == 1 ==> r.value == Str(values[0])
    ensures r.Err? ==> r.error == IndexOutOfBounds
  {
    if multi || |values| > 1 then Ok(List(Strs(values)))
    else if |values| == 1 then Ok(Str(values[0]))
    else Err(IndexOutOfBounds)
  }

  /** More values for a key already holding t: a list grows, anything else becomes the first item of a new list. */
  function Add(t: Value, extra: seq<Value>): (r: Value)
    ensures r.List?
    ensures t.List? ==> r.items == t.items + extra
    ensures !t.List? ==> r.items == [t] + extra
  {
    if t.List? then List(t.items + extra) else List([t] + extra)
  }

  /**
   * The final step of parseParameter on the map reached: a new key gets
   * Fresh; a key holding a map passes the values to that map's null key
   * (Add when it has one, Fresh when not); any other key gets Add.
   */
  function Assign(es: seq<Entry>, key: string, values: seq<string>, multi: bool): (r: Result<seq<Entry>>)
    ensures r.Err? ==> r.error == IndexOutOfBounds
  {
    var k := Some(key);
    match Get(es, k)
    case None =>
      (match Fresh(values, multi)
       case Err(e) => Err(e)
       case Ok(v) => Ok(Put(es, k, v)))
    case Some(t) =>
      if t.Map? then
        match Get(t.entries, None)
        case Some(u) => Ok(Put(es, k, Map(Put(t.entries, None, Add(u, Strs(values))))))
        case None =>
          (match Fresh(values, multi)
           case Err(e) => Err(e)
           case Ok(v) => Ok(Put(es, k, Map(Put(t.entries, None, v)))))
      else Ok(Put(es, k, Add(t, Strs(values))))
  }

  /**
   * Descending along segs: a key holding a map is entered; a key holding
   * another non-null value is replaced by a new map that keeps the old value
   * under null; a missing key or a key holding null gets a new empty map.
   */
  function Insert(es: seq<Entry>, segs: seq<string>, key: string, values: seq<string>, multi: bool): (r: Result<seq<Entry>>)
    ensures r.Err? ==> r.error == IndexOutOfBounds
    decreases |segs|
  {
    if |segs| == 0 then Assign(es, key, values, multi)
    else
      var k := Some(segs[0]);
      var inner := Inner(Get(es, k));
      match Insert(inner, segs[1..], key, values, multi)
      case Err(e) => Err(e)
      case Ok(m) => Ok(Put(es, k, Map(m)))
  }

  /** The map that descending into a key finds or creates. */
  function Inner(t: Option<Value>): (r: seq<Entry>)
    ensures t.None? ==> r == []
    ensures t.Some? && t.value.Map? ==> r == t.value.entries
    ensures t.Some? && t.value.Null? ==> r == []
    ensures t.Some? && !t.value.Map? && !t.value.Null? ==> r == [Entry(None, t.value)]
  {
    match t
    case None => []
    case Some(v) => if v.Map? then v.entries else if v.Null? then [] else [Entry(None, v)]
  }

  /** One request parameter: its name and its values, as the servlet API gives them. */
  datatype Param = Param(name: string, values: seq<string>)

  /** A name ending in "[]" loses the suffix and is multi-valued. */
  function Suffix(name: string): (r: (string, bool))
    ensures r.1 <==> |name| >= 2 && name[|name| - 2..] == "[]"
    ensures r.1 ==> r.0 == name[..|name| - 2]
    ensures !r.1 ==> r.0 == name
  {
    if |name| >= 2 && name[|name| - 2..] == "[]" then (name[..|name| - 2], true) else (name, false)
  }

  /** One parameter stored into the tree. */
  function ParseOne(es: seq<Entry>, p: Param): (r: Result<seq<Entry>>)
  {
    var (name, multi) := Suffix(p.name);
    var (segs, last) := Split(name);
    Insert(es, segs, last, p.values, multi)
  }

  /** The parameters stored one after another; the first failure ends the parse. */
  function ParseAll(es: seq<Entry>, pairs: seq<Param>): (r: Result<seq<Entry>>)
    decreases |pairs|
  {
    if |pairs| == 0 then Ok(es)
    else match ParseOne(es, pairs[0])
      case Err(e) => Err(e)
      case Ok(es') => ParseAll(es', pairs[1..])
  }

  /** RouteMapping.parseParameter: every request parameter stored into params, in order. */
  method ParseParameter(pairs: seq<Param>, params: seq<Entry>) returns (r: Result<seq<Entry>>)
    ensures r == ParseAll(params, pairs)
  {
    var current := params;
    var i := 0;
    while i < |pairs|
      invariant 0 <= i <= |pairs|
      invariant ParseAll(params, pairs) == ParseAll(current, pairs[i..])
    {
      var (name, multi) := Suffix(pairs[i].name);
      var segs, last := SplitName(name);
      var step := Insert(current, segs, last, pairs[i].values, multi);
      assert pairs[i..][1..] == pairs[i + 1..];
      if step.Err? {
        return Err(step.error);
      }
      current := step.value;
      i := i + 1;
    }
    return Ok(current);
  }

  /** A new key receives the one value, or the list of all values for a "[]" name or several values. */
  lemma AssignNew(es: seq<Entry>, key: string, values: seq<string>, multi: bool)
    requires Get(es, Some(key)).None? && (multi || |values| > 0)
    ensures Assign(es, key, values, multi).Ok?
    ensures Get(Assign(es, key, values, multi).value, Some(key))
      == Some(if multi || |values| > 1 then List(Strs(values)) else Str(values[0]))
  {
    PutSpec(es, Some(key), Fresh(values, multi).value);
  }

  /** A key holding a list gets the values appended; a key holding a string becomes the list of it and the values. */
  lemma AssignGrows(es: seq<Entry>, key: string, values: seq<string>, multi: bool)
    requires Get(es, Some(key)).Some? && !Get(es, Some(key)).value.Map?
    ensures Assign(es, key, values, multi).Ok?
    ensures var t := Get(es, Some(key)).value;
      Get(Assign(es, key, values, multi).value, Some(key))
        == Some(List((if t.List? then t.items else [t]) + Strs(values)))
  {
    PutSpec(es, Some(key), Add(Get(es, Some(key)).value, Strs(values)));
  }

  /** A key holding a map passes the values to that map's null key, which grows or is created by the same rules. */
  lemma AssignUnderNull(es: seq<Entry>, key: string, values: seq<string>, multi: bool)
    requires Get(es, Some(key)).Some? && Get(es, Some(key)).value.Map?
    requires Get(Get(es, Some(key)).value.entries, None).Some? || multi || |values| > 0
    ensures Assign(es, key, values, multi).Ok?
    ensures var m := Get(es, Some(key)).value.entries;
      var u := Get(m, None);
      Get(Assign(es, key, values, multi).value, Some(key))
        == Some(Map(Put(m, None, if u.Some? then Add(u.value, Strs(values)) else Fresh(values, multi).value)))
  {
    var m := Get(es, Some(key)).value.entries;
    var u := Get(m, None);
    PutSpec(es, Some(key), Map(Put(m, None, if u.Some? then Add(u.value, Strs(values)) else Fresh(values, multi).value)));
  }

  /** Storing under one key leaves every other key of the map as it was. */
  lemma AssignOthers(es: seq<Entry>, key: string, values: seq<string>, multi: bool, k: Option<string>)
    requires Assign(es, key, values, multi).Ok? && k != Some(key)
    ensures Get(Assign(es, key, values, multi).value, k) == Get(es, k)
  {
    var r := Assign(es, key, values, multi).value;
    assert exists v :: r == Put(es, Some(key), v);
    var v :| r == Put(es, Some(key), v);
    PutSpec(es, Some(key), v);
  }

  /** The map reached by following the segments through maps only. */
  function Lookup(es: seq<Entry>, segs: seq<string>): (r: Option<seq<Entry>>)
    decreases |segs|
  {
    if |segs| == 0 then Some(es)
    else match Get(es, Some(segs[0]))
      case Some(v) => if v.Map? then Lookup(v.entries, segs[1..]) else None
      case None => None
  }

  /** The map the descent arrives at: existing maps as found, a new empty map for a missing key, the old value under null otherwise. */
  function Inside(es: seq<Entry>, segs: seq<string>): seq<Entry>
    decreases |segs|
  {
    if |segs| == 0 then es else Inside(Inner(Get(es, Some(segs[0]))), segs[1..])
  }

  /** Storing a parameter is assigning its last key in the map the descent arrives at, and that map is then found along the segments. */
  lemma {:induction false} InsertReaches(es: seq<Entry>, segs: seq<string>, key: string, values: seq<string>, multi: bool)
    ensures Insert(es, segs, key, values, multi).Ok? <==> Assign(Inside(es, segs), key, values, multi).Ok?
    ensures Insert(es, segs, key, values, multi).Ok? ==>
      Lookup(Insert(es, segs, key, values, multi).value, segs) == Some(Assign(Inside(es, segs), key, values, multi).value)
    decreases |segs|
  {
    if |segs| > 0 {
      var k := Some(segs[0]);
      var inner := Inner(Get(es, k));
      InsertReaches(inner, segs[1..], key, values, multi);
      match Insert(inner, segs[1..], key, values, multi)
      case Err(e) =>
      case Ok(m) =>
        PutSpec(es, k, Map(m));
    }
  }

  /** Storing a parameter touches only the first key of its path. */
  lemma InsertOthers(es: seq<Entry>, segs: seq<string>, key: string, values: seq<string>, multi: bool, k: Option<string>)
    requires Insert(es, segs, key, values, multi).Ok?
    requires k != Some(if |segs| == 0 then key else segs[0])
    ensures Get(Insert(es, segs, key, values, multi).value, k) == Get(es, k)
  {
    if |segs| == 0 {
      AssignOthers(es, key, values, multi, k);
    } else {
      var m := Insert(Inner(Get(es, Some(segs[0]))), segs[1..], key, values, multi).value;
      PutSpec(es, Some(segs[0]), Map(m));
    }
  }

  /**
   * A path segment whose key holds null is replaced by a new map that holds
   * only what the rest of the name stores: no null entry is kept for it.
   */
  lemma InsertUnderNull(es: seq<Entry>, seg: string, key: string, values: seq<string>, multi: bool)
    requires Get(es, Some(seg)) == Some(Null) && (multi || |values| > 0)
    ensures Insert(es, [seg], key, values, multi).Ok?
    ensures Get(Insert(es, [seg], key, values, multi).value, Some(seg))
      == Some(Map([Entry(Some(key), Fresh(values, multi).value)]))
  {
    assert Inner(Get(es, Some(seg))) == [];
    assert [seg][1..] == [];
    var m := Put([], Some(key), Fresh(values, multi).value);
    PutSpec([], Some(key), Fresh(values, multi).value);
    assert m == [Entry(Some(key), Fresh(values, multi).value)];
    PutSpec(es, Some(seg), Map(m));
  }

  // ---------------------------------------------------------------------
  // Route.getParameter.

  /** The value under name, with a map's null entry and then a list's first item taken, if it is a string. */
  function GetParameter(params: seq<Entry>, name: string): (r: Option<string>)
    ensures Get(params, Some(name)).None? ==> r.None?
    ensures var o := Get(params, Some(name)); o.Some? && o.value.Str? ==> r == Some(o.value.s)
  {
    var o := Get(params, Some(name));
    var o1 := if o.Some? && o.value.Map? && Get(o.value.entries, None).Some? then Get(o.value.entries, None) else o;
    var o2 := if o1.Some? && o1.value.List? && |o1.value.items| > 0 then Some(o1.value.items[0]) else o1;
    if o2.Some? && o2.value.Str? then Some(o2.value.s) else None
  }

  /** A key stored for the first time reads as its first value, whether one value or a list was stored. */
  lemma AssignReads(es: seq<Entry>, key: string, values: seq<string>, multi: bool)
    requires Get(es, Some(key)).None? && |values| > 0
    ensures Assign(es, key, values, multi).Ok?
    ensures GetParameter(Assign(es, key, values, multi).value, key) == Some(values[0])
  {
    AssignNew(es, key, values, multi);
  }

  /** More values never change what a key reads as: the first string stays first. */
  lemma AssignKeepsReading(es: seq<Entry>, key: string, values: seq<string>, multi: bool, s: string)
    requires GetParameter(es, key) == Some(s)
    ensures Assign(es, key, values, multi).Ok?
    ensures GetParameter(Assign(es, key, values, multi).value, key) == Some(s)
  {
    var t := Get(es, Some(key)).value;
    if t.Map? {
      AssignUnderNull(es, key, values, multi);
      PutSpec(t.entries, None, Add(Get(t.entries, None).value, Strs(values)));
    } else {
      AssignGrows(es, key, values, multi);
    }
  }

  /** A name without separators is one piece. */
  lemma {:induction false} SepFreePieces(s: string)
    requires SepFree(s)
    ensures Pieces(s) == [s]
    decreases |s|
  {
    if |s| > 0 {
      var t := s[..|s| - 1];
      assert t + [s[|s| - 1]] == s;
      assert SepFree(t);
      SepFreePieces(t);
      PiecesSnoc(t, s[|s| - 1]);
    }
  }

  /** A plain name (no '.', '[' or closing ']', no "[]" suffix) seen for the first time reads back as its first value. */
  lemma ParsePlainName(es: seq<Entry>, name: string, values: seq<string>)
    requires SepFree(name) && |name| > 0 && name[|name| - 1] != ']'
    requires Get(es, Some(name)).None? && |values| > 0
    ensures ParseOne(es, Param(name, values)).Ok?
    ensures GetParameter(ParseOne(es, Param(name, values)).value, name) == Some(values[0])
  {
    SepFreePieces(name);
    assert Split(name) == ([], name);
    AssignReads(es, name, values, false);
  }

  // ---------------------------------------------------------------------
  // Route.mergeParameterMap.

  /** One new parameter merged: a new key is put as is; an existing one grows by the value as in parseParameter. */
  function MergeOne(es: seq<Entry>, k: Option<string>, v: Value): (r: seq<Entry>)
  {
    match Get(es, k)
    case None => Put(es, k, v)
    case Some(t) =>
      if t.Map? then
        match Get(t.entries, None)
        case Some(u) => Put(es, k, Map(Put(t.entries, None, Add(u, [v]))))
        case None => Put(es, k, Map(Put(t.entries, None, v)))
      else Put(es, k, Add(t, [v]))
  }

  function MergeAll(es: seq<Entry>, news: seq<Entry>): (r: seq<Entry>)
    decreases |news|
  {
    if |news| == 0 then es else MergeAll(MergeOne(es, news[0].key, news[0].val), news[1..])
  }

  /** A new key takes the value as it is; an existing key grows exactly as in parseParameter, by one value. */
  lemma MergeGet(es: seq<Entry>, k: Option<string>, v: Value)
    ensures var t := Get(es, k);
      Get(MergeOne(es, k, v), k) == Some(
        if t.None? then v
        else if !t.value.Map? then Add(t.value, [v])
        else
          var u := Get(t.value.entries, None);
          Map(Put(t.value.entries, None, if u.Some? then Add(u.value, [v]) else v)))
    ensures forall k' :: k' != k ==> Get(MergeOne(es, k, v), k') == Get(es, k')
  {
    var t := Get(es, k);
    if t.None? {
      PutSpec(es, k, v);
    } else if !t.value.Map? {
      PutSpec(es, k, Add(t.value, [v]));
    } else {
      var u := Get(t.value.entries, None);
      PutSpec(es, k, Map(Put(t.value.entries, None, if u.Some? then Add(u.value, [v]) else v)));
    }
  }

  /** Keys the new map does not hold are left as they were by the whole merge. */
  lemma {:induction false} MergeAllOthers(es: seq<Entry>, news: seq<Entry>, k: Option<string>)
    requires k !in Keys(news)
    ensures Get(MergeAll(es, news), k) == Get(es, k)
    decreases |news|
  {
    if |news| > 0 {
      assert news[0].key == Keys(news)[0];
      assert Keys(news[1..]) == Keys(news)[1..];
      MergeGet(es, news[0].key, news[0].val);
      MergeAllOthers(MergeOne(es, news[0].key, news[0].val), news[1..], k);
    }
  }

  /** Merging never changes what an existing parameter reads as. */
  lemma MergeKeepsReading(es: seq<Entry>, k: string, v: Value, s: string)
    requires GetParameter(es, k) == Some(s)
    ensures GetParameter(MergeOne(es, Some(k), v), k) == Some(s)
  {
    MergeGet(es, Some(k), v);
    var t := Get(es, Some(k)).value;
    if t.Map? {
      PutSpec(t.entries, None, Add(Get(t.entries, None).value, [v]));
    }
  }

  /** A route with its parameters, which later merges may extend in place. */
  class Route {
    var params: seq<Entry>

    constructor (params0: seq<Entry>)
      ensures params == params0
    {
      params := params0;
    }

    /** Route.mergeParameterMap: each new entry merged in the new map's order; returns the params map itself. */
    method MergeParameterMap(newParams: seq<Entry>) returns (r: seq<Entry>)
      modifies this
      ensures params == MergeAll(old(params), newParams) && r == params
    {
      var i := 0;
      while i < |newParams|
        invariant 0 <= i <= |newParams|
        invariant MergeAll(old(params), newParams) == MergeAll(params, newParams[i..])
      {
        assert newParams[i..][1..] == newParams[i + 1..];
        params := MergeOne(params, newParams[i].key, newParams[i].val);
        i := i + 1;
      }
      assert newParams[i..] == [];
      return params;
    }
  }
}
