/**
 * MapConverter.flattenProperties: a tree of maps and lists becomes a
 * java.util.Properties whose keys are the dot-joined paths of map keys and
 * list indices and whose values are the leaves' toString().
 *
 * The walk is specified by Leaves (the leaves in visiting order, each with
 * the key segments that lead to it) and Store (the setProperty calls made
 * one after another, stopping at the first leaf that throws).
 */
module Flatten {
  import opened Base
  import opened JavaText
  import opened Values

  /** A leaf of the tree with the key segments on the way to it. */
  datatype Leaf = Leaf(segs: seq<string>, val: Value)

  /** The key buffer's content after the segments: a '.' comes before a segment only when the buffer is not empty. */
  function Dotted(segs: seq<string>): (r: string)
    ensures |segs| == 0 ==> r == []
  {
    if |segs| == 0 then [] else Join(Dotted(segs[..|segs| - 1]), segs[|segs| - 1])
  }

  function Join(prefix: string, seg: string): (r: string)
    ensures |prefix| > 0 ==> |r| == |prefix| + 1 + |seg| && r[..|prefix|] == prefix && r[|prefix|] == '.'
    ensures |prefix| == 0 ==> r == seg
  {
    if |prefix| > 0 then prefix + "." + seg else seg
  }

  /** StringBuilder.append(Object): the null key appends "null". */
  function KeyText(k: Option<string>): (r: string)
    ensures k.Some? ==> r == k.value
  {
    match k
    case None => "null"
    case Some(s) => s
  }

  /** The leaves under v, in the order the walk visits them, below the segments segs. */
  function Leaves(segs: seq<string>, v: Value): (r: seq<Leaf>)
    decreases v, 1
  {
    if v.Map? then EntryLeaves(segs, v, 0)
    else if v.List? then ItemLeaves(segs, v, 0)
    else [Leaf(segs, v)]
  }

  /** The leaves under the entries of the map v from position i on, each under its key. */
  function EntryLeaves(segs: seq<string>, v: Value, i: nat): (r: seq<Leaf>)
    requires v.Map? && i <= |v.entries|
    decreases v, 0, |v.entries| - i
  {
    if i == |v.entries| then []
    else
      assert v.entries[i] in v.entries;
      Leaves(segs + [KeyText(v.entries[i].key)], v.entries[i].val) + EntryLeaves(segs, v, i + 1)
  }

  /** The leaves under the items of the list v from position i on, each under its index. */
  function ItemLeaves(segs: seq<string>, v: Value, i: nat): (r: seq<Leaf>)
    requires v.List? && i <= |v.items|
    decreases v, 0, |v.items| - i
  {
    if i == |v.items| then []
    else
      assert v.items[i] in v.items;
      Leaves(segs + [IntText(i)], v.items[i]) + ItemLeaves(segs, v, i + 1)
  }

  /** The properties so far and, when the walk stopped, the exception that stopped it. */
  datatype Stored = Stored(props: map<string, string>, err: Option<Error>)

  /** props.setProperty(key.toString(), value.toString()): a null leaf throws, as does one whose text is not modelled. */
  function Write(props: map<string, string>, l: Leaf): (r: Result<map<string, string>>)
  {
    if l.val.Null? then Err(NullPointer)
    else match TextOf(l.val)
      case None => Err(NotModelled)
      case Some(t) => Ok(props[Dotted(l.segs) := t])
  }

  /** The writes for the leaves in order; the first one that throws ends the walk. */
  function Store(props: map<string, string>, ls: seq<Leaf>): (r: Stored)
    decreases |ls|
  {
    if |ls| == 0 then Stored(props, None)
    else match Write(props, ls[0])
      case Err(e) => Stored(props, Some(e))
      case Ok(p) => Store(p, ls[1..])
  }

  /** What is left to do after s: nothing when s stopped, the writes for b otherwise. */
  function Then(s: Stored, b: seq<Leaf>): Stored
  {
    if s.err.Some? then s else Store(s.props, b)
  }

  lemma {:induction false} StoreAppend(props: map<string, string>, a: seq<Leaf>, b: seq<Leaf>)
    ensures Store(props, a + b) == Then(Store(props, a), b)
    decreases |a|
  {
    if |a| == 0 {
      assert a + b == b;
    } else {
      assert (a + b)[0] == a[0] && (a + b)[1..] == a[1..] + b;
      match Write(props, a[0])
      case Err(e) =>
      case Ok(p) => StoreAppend(p, a[1..], b);
    }
  }

  /** The keys the leaves are written under. */
  function Paths(ls: seq<Leaf>): (r: set<string>)
    ensures forall i :: 0 <= i < |ls| ==> Dotted(ls[i].segs) in r
  {
    set i | 0 <= i < |ls| :: Dotted(ls[i].segs)
  }

  /** The walk completes exactly when every leaf has a text: no null and no value without a modelled toString(). */
  lemma {:induction false} StoreSucceeds(props: map<string, string>, ls: seq<Leaf>)
    ensures Store(props, ls).err.None? <==> forall i :: 0 <= i < |ls| ==> TextOf(ls[i].val).Some?
    decreases |ls|
  {
    if |ls| > 0 {
      match Write(props, ls[0])
      case Err(e) =>
      case Ok(q) =>
        StoreSucceeds(q, ls[1..]);
        assert forall i :: 1 <= i < |ls| ==> ls[i] == ls[1..][i - 1];
    }
  }

  /** A completed walk adds exactly the leaves' keys to the properties it started from. */
  lemma {:induction false} StoreKeys(props: map<string, string>, ls: seq<Leaf>)
    ensures Store(props, ls).err.None? ==> Store(props, ls).props.Keys == props.Keys + Paths(ls)
    decreases |ls|
  {
    if |ls| > 0 {
      match Write(props, ls[0])
      case Err(e) =>
      case Ok(q) =>
        StoreKeys(q, ls[1..]);
        PathsCons(ls);
    }
  }

  lemma PathsCons(ls: seq<Leaf>)
    requires |ls| > 0
    ensures Paths(ls) == {Dotted(ls[0].segs)} + Paths(ls[1..])
  {
    forall k | k in Paths(ls)
      ensures k in {Dotted(ls[0].segs)} + Paths(ls[1..])
    {
      var i :| 0 <= i < |ls| && Dotted(ls[i].segs) == k;
      if i > 0 {
        assert ls[1..][i - 1] == ls[i];
      }
    }
  }

  /** A completed walk leaves every key that no leaf is written under as it was. */
  lemma {:induction false} StoreOthers(props: map<string, string>, ls: seq<Leaf>, k: string)
    requires Store(props, ls).err.None? && k !in Paths(ls)
    ensures k in Store(props, ls).props <==> k in props
    ensures k in props ==> Store(props, ls).props[k] == props[k]
    decreases |ls|
  {
    if |ls| > 0 {
      var q := Write(props, ls[0]).value;
      assert k != Dotted(ls[0].segs);
      PathsCons(ls);
      StoreOthers(q, ls[1..], k);
    }
  }

  /** Under a key written more than once the last leaf wins: a completed walk holds the text of the last leaf with that key. */
  lemma {:induction false} StoreLastWins(props: map<string, string>, ls: seq<Leaf>, i: nat)
    requires Store(props, ls).err.None? && i < |ls|
    requires forall j :: i < j < |ls| ==> Dotted(ls[j].segs) != Dotted(ls[i].segs)
    ensures TextOf(ls[i].val).Some?
    ensures Dotted(ls[i].segs) in Store(props, ls).props
    ensures Store(props, ls).props[Dotted(ls[i].segs)] == TextOf(ls[i].val).value
    decreases |ls|
  {
    StoreSucceeds(props, ls);
    var q := Write(props, ls[0]).value;
    if i == 0 {
      var k := Dotted(ls[0].segs);
      assert forall j :: 0 <= j < |ls[1..]| ==> ls[1..][j] == ls[j + 1];
      StoreOthers(q, ls[1..], k);
    } else {
      forall j | i - 1 < j < |ls[1..]|
        ensures Dotted(ls[1..][j].segs) != Dotted(ls[1..][i - 1].segs)
      {
        assert ls[1..][j] == ls[j + 1];
      }
      StoreLastWins(q, ls[1..], i - 1);
      assert ls[1..][i - 1] == ls[i];
    }
  }

  /** Every leaf is a scalar (no map, no list) whose key segments extend the segments it was collected under. */
  lemma {:induction false} LeavesShape(segs: seq<string>, v: Value)
    ensures forall l :: l in Leaves(segs, v) ==> IsLeafUnder(l, segs)
    decreases v, 1
  {
    if v.Map? {
      EntryLeavesShape(segs, v, 0);
    } else if v.List? {
      ItemLeavesShape(segs, v, 0);
    }
  }

  predicate IsLeafUnder(l: Leaf, segs: seq<string>)
  {
    !l.val.Map? && !l.val.List? && |segs| <= |l.segs| && l.segs[..|segs|] == segs
  }

  lemma ChildUnder(l: Leaf, segs: seq<string>, seg: string)
    requires IsLeafUnder(l, segs + [seg])
    ensures IsLeafUnder(l, segs)
  {
    assert l.segs[..|segs|] == (segs + [seg])[..|segs|];
  }

  lemma {:induction false} EntryLeavesShape(segs: seq<string>, v: Value, i: nat)
    requires v.Map? && i <= |v.entries|
    ensures forall l :: l in EntryLeaves(segs, v, i) ==> IsLeafUnder(l, segs)
    decreases v, 0, |v.entries| - i
  {
    if i < |v.entries| {
      var seg := KeyText(v.entries[i].key);
      assert v.entries[i] in v.entries;
      LeavesShape(segs + [seg], v.entries[i].val);
      EntryLeavesShape(segs, v, i + 1);
      forall l | l in Leaves(segs + [seg], v.entries[i].val)
        ensures IsLeafUnder(l, segs)
      {
        ChildUnder(l, segs, seg);
      }
    }
  }

  lemma {:induction false} ItemLeavesShape(segs: seq<string>, v: Value, i: nat)
    requires v.List? && i <= |v.items|
    ensures forall l :: l in ItemLeaves(segs, v, i) ==> IsLeafUnder(l, segs)
    decreases v, 0, |v.items| - i
  {
    if i < |v.items| {
      var seg := IntText(i);
      assert v.items[i] in v.items;
      LeavesShape(segs + [seg], v.items[i]);
      ItemLeavesShape(segs, v, i + 1);
      forall l | l in Leaves(segs + [seg], v.items[i])
        ensures IsLeafUnder(l, segs)
      {
        ChildUnder(l, segs, seg);
      }
    }
  }

  /**
   * An independent reading of the tree: following child positions ps from v
   * gives the key segments passed (map keys, list indices) and the node
   * reached, or None when a position does not exist.
   */
  function Descend(v: Value, ps: seq<nat>): (r: Option<(seq<string>, Value)>)
    ensures r.Some? ==> |r.value.0| == |ps|
    decreases |ps|
  {
    if |ps| == 0 then Some(([], v))
    else if v.Map? && ps[0] < |v.entries| then
      match Descend(v.entries[ps[0]].val, ps[1..])
      case None => None
      case Some(t) => Some(([KeyText(v.entries[ps[0]].key)] + t.0, t.1))
    else if v.List? && ps[0] < |v.items| then
      match Descend(v.items[ps[0]], ps[1..])
      case None => None
      case Some(t) => Some(([IntText(ps[0])] + t.0, t.1))
    else None
  }

  predicate IsScalar(v: Value) { !v.Map? && !v.List? }

  /** Every scalar reached along some path is a leaf, under the segments of that path. */
  lemma {:induction false} DescendIsLeaf(segs: seq<string>, v: Value, ps: seq<nat>)
    requires Descend(v, ps).Some? && IsScalar(Descend(v, ps).value.1)
    ensures Leaf(segs + Descend(v, ps).value.0, Descend(v, ps).value.1) in Leaves(segs, v)
    decreases |ps|
  {
    var t := Descend(v, ps).value;
    if |ps| == 0 {
      assert segs + t.0 == segs;
    } else if v.Map? {
      var i := ps[0];
      var seg := KeyText(v.entries[i].key);
      var u := Descend(v.entries[i].val, ps[1..]).value;
      DescendIsLeaf(segs + [seg], v.entries[i].val, ps[1..]);
      assert segs + t.0 == (segs + [seg]) + u.0;
      EntryLeavesHold(segs, v, 0, i);
    } else {
      var i := ps[0];
      var seg := IntText(i);
      var u := Descend(v.items[i], ps[1..]).value;
      DescendIsLeaf(segs + [seg], v.items[i], ps[1..]);
      assert segs + t.0 == (segs + [seg]) + u.0;
      ItemLeavesHold(segs, v, 0, i);
    }
  }

  lemma {:induction false} EntryLeavesHold(segs: seq<string>, v: Value, j: nat, i: nat)
    requires v.Map? && j <= i < |v.entries|
    ensures forall l :: l in Leaves(segs + [KeyText(v.entries[i].key)], v.entries[i].val) ==> l in EntryLeaves(segs, v, j)
    decreases i - j
  {
    if j < i {
      EntryLeavesHold(segs, v, j + 1, i);
    }
  }

  lemma {:induction false} ItemLeavesHold(segs: seq<string>, v: Value, j: nat, i: nat)
    requires v.List? && j <= i < |v.items|
    ensures forall l :: l in Leaves(segs + [IntText(i)], v.items[i]) ==> l in ItemLeaves(segs, v, j)
    decreases i - j
  {
    if j < i {
      ItemLeavesHold(segs, v, j + 1, i);
    }
  }

  /** Every leaf is a scalar reached along some path, under that path's segments. */
  lemma {:induction false} LeafDescends(segs: seq<string>, v: Value, l: Leaf)
    requires l in Leaves(segs, v)
    ensures IsLeafUnder(l, segs)
    ensures exists ps :: Descend(v, ps) == Some((l.segs[|segs|..], l.val))
    decreases v, 1
  {
    LeavesShape(segs, v);
    if v.Map? {
      EntryLeafDescends(segs, v, 0, l);
    } else if v.List? {
      ItemLeafDescends(segs, v, 0, l);
    } else {
      assert l == Leaf(segs, v);
      assert l.segs[|segs|..] == [];
      assert Descend(v, []) == Some((l.segs[|segs|..], l.val));
    }
  }

  lemma {:induction false} EntryLeafDescends(segs: seq<string>, v: Value, i: nat, l: Leaf)
    requires v.Map? && i <= |v.entries| && l in EntryLeaves(segs, v, i)
    ensures IsLeafUnder(l, segs)
    ensures exists ps :: Descend(v, ps) == Some((l.segs[|segs|..], l.val))
    decreases v, 0, |v.entries| - i
  {
    var seg := KeyText(v.entries[i].key);
    assert v.entries[i] in v.entries;
    EntryLeavesShape(segs, v, i);
    if l in Leaves(segs + [seg], v.entries[i].val) {
      LeafDescends(segs + [seg], v.entries[i].val, l);
      LeavesShape(segs + [seg], v.entries[i].val);
      var qs :| Descend(v.entries[i].val, qs) == Some((l.segs[|segs| + 1..], l.val));
      assert l.segs[|segs|..] == [seg] + l.segs[|segs| + 1..] by {
        assert l.segs[..|segs| + 1] == segs + [seg];
      }
      assert ([i] + qs)[1..] == qs;
      assert Descend(v, [i] + qs) == Some((l.segs[|segs|..], l.val));
    } else {
      EntryLeafDescends(segs, v, i + 1, l);
    }
  }

  lemma {:induction false} ItemLeafDescends(segs: seq<string>, v: Value, i: nat, l: Leaf)
    requires v.List? && i <= |v.items| && l in ItemLeaves(segs, v, i)
    ensures IsLeafUnder(l, segs)
    ensures exists ps :: Descend(v, ps) == Some((l.segs[|segs|..], l.val))
    decreases v, 0, |v.items| - i
  {
    var seg := IntText(i);
    assert v.items[i] in v.items;
    ItemLeavesShape(segs, v, i);
    if l in Leaves(segs + [seg], v.items[i]) {
      LeafDescends(segs + [seg], v.items[i], l);
      LeavesShape(segs + [seg], v.items[i]);
      var qs :| Descend(v.items[i], qs) == Some((l.segs[|segs| + 1..], l.val));
      assert l.segs[|segs|..] == [seg] + l.segs[|segs| + 1..] by {
        assert l.segs[..|segs| + 1] == segs + [seg];
      }
      assert ([i] + qs)[1..] == qs;
      assert Descend(v, [i] + qs) == Some((l.segs[|segs|..], l.val));
    } else {
      ItemLeafDescends(segs, v, i + 1, l);
    }
  }

  /** The object that carries the shared key buffer and the Properties the walk fills. */
  class Flattener {
    var key: string
    var props: map<string, string>

    constructor ()
      ensures key == [] && props == map[]
    {
      key := [];
      props := map[];
    }

    /**
     * flattenProperties(key, value, props): a map or list recurses into each
     * child with ".name" (or "name" when the buffer is empty) appended, then
     * cuts the buffer back; anything else is written under the buffer's text.
     */
    method Flatten(value: Value, ghost segs: seq<string>) returns (err: Option<Error>)
      requires key == Dotted(segs)
      modifies this
      ensures key == old(key)
      ensures Stored(props, err) == Store(old(props), Leaves(segs, value))
      decreases value, 1
    {
      if value.Map? {
        err := FlattenEntries(value, segs);
      } else if value.List? {
        err := FlattenItems(value, segs);
      } else if value.Null? {
        return Some(NullPointer);
      } else {
        var text := TextOf(value);
        if text.None? {
          return Some(NotModelled);
        }
        props := props[key := text.value];
        return None;
      }
    }

    /** The map branch: each entry under its key, in the map's order; an exception ends the loop. */
    method FlattenEntries(value: Value, ghost segs: seq<string>) returns (err: Option<Error>)
      requires value.Map? && key == Dotted(segs)
      modifies this
      ensures key == old(key)
      ensures Stored(props, err) == Store(old(props), EntryLeaves(segs, value, 0))
      decreases value, 0
    {
      var i := 0;
      while i < |value.entries|
        invariant 0 <= i <= |value.entries| && key == Dotted(segs)
        invariant Store(props, EntryLeaves(segs, value, i)) == Store(old(props), EntryLeaves(segs, value, 0))
      {
        ghost var seg := KeyText(value.entries[i].key);
        assert value.entries[i] in value.entries;
        var pos := |key|;
        if pos > 0 {
          key := key + ".";
        }
        key := key + KeyText(value.entries[i].key);
        ChildKey(segs, seg, key);
        StoreAppend(props, Leaves(segs + [seg], value.entries[i].val), EntryLeaves(segs, value, i + 1));
        err := Flatten(value.entries[i].val, segs + [seg]);
        key := key[..pos];
        if err.Some? {
          return;
        }
        i := i + 1;
      }
      return None;
    }

    /** The list branch: each item under its index, in order; an exception ends the loop. */
    method FlattenItems(value: Value, ghost segs: seq<string>) returns (err: Option<Error>)
      requires value.List? && key == Dotted(segs)
      modifies this
      ensures key == old(key)
      ensures Stored(props, err) == Store(old(props), ItemLeaves(segs, value, 0))
      decreases value, 0
    {
      var i := 0;
      while i < |value.items|
        invariant 0 <= i <= |value.items| && key == Dotted(segs)
        invariant Store(props, ItemLeaves(segs, value, i)) == Store(old(props), ItemLeaves(segs, value, 0))
      {
        ghost var seg := IntText(i);
        assert value.items[i] in value.items;
        var pos := |key|;
        if pos > 0 {
          key := key + ".";
        }
        key := key + IntText(i);
        ChildKey(segs, seg, key);
        StoreAppend(props, Leaves(segs + [seg], value.items[i]), ItemLeaves(segs, value, i + 1));
        err := Flatten(value.items[i], segs + [seg]);
        key := key[..pos];
        if err.Some? {
          return;
        }
        i := i + 1;
      }
      return None;
    }
  }

  /** The buffer after appending one segment holds that segment's path, and cutting it back restores the parent's. */
  lemma ChildKey(segs: seq<string>, seg: string, key: string)
    requires key == (if |Dotted(segs)| > 0 then Dotted(segs) + "." else Dotted(segs)) + seg
    ensures key == Dotted(segs + [seg]) && key[..|Dotted(segs)|] == Dotted(segs)
  {
    assert (segs + [seg])[..|segs|] == segs;
  }

  /** MapConverter with a Properties target: a fresh Properties filled from a map or list. */
  method ToProperties(value: Value) returns (props: map<string, string>, err: Option<Error>)
    requires value.Map? || value.List?
    ensures Stored(props, err) == Store(map[], Leaves([], value))
  {
    var f := new Flattener();
    err := f.Flatten(value, []);
    props := f.props;
  }
}
