/**
 * The Java objects the core reads, builds and writes, as one value type.
 * Maps are insertion-ordered entry sequences with the put semantics of
 * java.util.LinkedHashMap; a key of None is Java's null key.
 */
module Values {
  import opened Base
  import opened JavaText

  /** The boxed integral types: Byte, Short, Integer, Long, BigInteger. */
  datatype NumberKind = ByteNum | ShortNum | IntNum | LongNum | BigIntNum

  /** The integral primitive arrays the formatter prints inline. */
  datatype ArrayKind = ShortArray | IntArray | LongArray

  datatype Value =
    | Null                                   // Java null
    | Bool(b: bool)                          // Boolean
    | Char(c: char)                          // Character
    | Num(kind: NumberKind, n: int)          // Byte, Short, Integer, Long, BigInteger
    | Dec(d: Decimal)                        // BigDecimal
    | Str(s: string)                         // String
    | Chars(cs: string)                      // char[]
    | Date(millis: int)                      // java.util.Date, by getTime()
    | Locale(tag: string)                    // java.util.Locale, by its toString() ("ja_JP")
    | Bools(bs: seq<bool>)                   // boolean[]
    | Ints(akind: ArrayKind, xs: seq<int>)   // short[], int[], long[]
    | List(items: seq<Value>)                // java.util.List (ArrayList)
    | Objects(elems: seq<Value>)             // Object[]
    | Map(entries: seq<Entry>)               // java.util.Map (LinkedHashMap)
    | SrcRef                                 // a reference back to the root being formatted

  datatype Entry = Entry(key: Option<string>, val: Value)

  // ---------------------------------------------------------------------
  // Insertion-ordered maps.

  function Keys(es: seq<Entry>): (r: seq<Option<string>>)
    ensures |r| == |es| && forall i :: 0 <= i < |es| ==> r[i] == es[i].key
  {
    if |es| == 0 then [] else [es[0].key] + Keys(es[1..])
  }

  predicate DistinctKeys(es: seq<Entry>)
  {
    forall i, j :: 0 <= i < j < |es| ==> es[i].key != es[j].key
  }

  /** The position of key k, or |es| when k is absent. */
  function Find(es: seq<Entry>, k: Option<string>): (r: nat)
    ensures r <= |es|
    ensures r < |es| ==> es[r].key == k
    ensures forall i :: 0 <= i < r ==> es[i].key != k
  {
    if |es| == 0 then 0 else if es[0].key == k then 0 else 1 + Find(es[1..], k)
  }

  /** Find is the first position holding k. */
  lemma {:induction false} FindIs(es: seq<Entry>, k: Option<string>, i: nat)
    requires i <= |es| && (i < |es| ==> es[i].key == k)
    requires forall j :: 0 <= j < i ==> es[j].key != k
    ensures Find(es, k) == i
  {
    if |es| > 0 && i > 0 {
      FindIs(es[1..], k, i - 1);
    }
  }

  predicate HasKey(es: seq<Entry>, k: Option<string>)
  {
    Find(es, k) < |es|
  }

  /** Map.get; None when the key is absent. */
  function Get(es: seq<Entry>, k: Option<string>): (r: Option<Value>)
    ensures r.Some? <==> exists i :: 0 <= i < |es| && es[i].key == k
    ensures r.Some? ==> exists i :: 0 <= i < |es| && es[i] == Entry(k, r.value)
  {
    var i := Find(es, k);
    if i < |es| then Some(es[i].val) else None
  }

  /**
   * Map.put on a LinkedHashMap: an existing key keeps its position and takes
   * the new value; a new key is appended. PutSpec states what it promises.
   */
  function Put(es: seq<Entry>, k: Option<string>, v: Value): seq<Entry>
  {
    var i := Find(es, k);
    if i < |es| then es[i := Entry(k, v)] else es + [Entry(k, v)]
  }

  /**
   * After put(k, v), get(k) is v and every other key maps as before; the key
   * order is unchanged, or k is added at the end.
   */
  lemma PutSpec(es: seq<Entry>, k: Option<string>, v: Value)
    ensures Get(Put(es, k, v), k) == Some(v)
    ensures forall k' :: k' != k ==> Get(Put(es, k, v), k') == Get(es, k')
    ensures HasKey(es, k) ==> Keys(Put(es, k, v)) == Keys(es)
    ensures !HasKey(es, k) ==> Keys(Put(es, k, v)) == Keys(es) + [k]
    ensures DistinctKeys(es) ==> DistinctKeys(Put(es, k, v))
    ensures |Put(es, k, v)| >= |es| && forall i :: 0 <= i < |es| ==> Put(es, k, v)[i].key == es[i].key
  {
    PutGet(es, k, v);
    PutKeys(es, k, v);
  }

  lemma PutGet(es: seq<Entry>, k: Option<string>, v: Value)
    ensures Get(Put(es, k, v), k) == Some(v)
    ensures forall k' :: k' != k ==> Get(Put(es, k, v), k') == Get(es, k')
  {
    var i := Find(es, k);
    var r := Put(es, k, v);
    FindIs(r, k, i);
    forall k' | k' != k
      ensures Get(r, k') == Get(es, k')
    {
      var j := Find(es, k');
      if j < |es| {
        FindIs(r, k', j);
      } else {
        FindIs(r, k', if i < |es| then |es| else |es| + 1);
      }
    }
  }

  lemma PutKeys(es: seq<Entry>, k: Option<string>, v: Value)
    ensures HasKey(es, k) ==> Keys(Put(es, k, v)) == Keys(es)
    ensures !HasKey(es, k) ==> Keys(Put(es, k, v)) == Keys(es) + [k]
    ensures DistinctKeys(es) ==> DistinctKeys(Put(es, k, v))
    ensures |Put(es, k, v)| >= |es| && forall i :: 0 <= i < |es| ==> Put(es, k, v)[i].key == es[i].key
  {
    var r := Put(es, k, v);
    if HasKey(es, k) {
      assert Keys(r) == Keys(es);
    } else {
      assert Keys(r) == Keys(es) + [k];
    }
  }

  /** Repeated put, in order: the map built from a list of entries. */
  function PutAll(acc: seq<Entry>, es: seq<Entry>): seq<Entry>
    decreases |es|
  {
    if |es| == 0 then acc else PutAll(Put(acc, es[0].key, es[0].val), es[1..])
  }

  /** A map built by put has each key once. */
  lemma {:induction false} PutAllDistinct(acc: seq<Entry>, es: seq<Entry>)
    requires DistinctKeys(acc)
    ensures DistinctKeys(PutAll(acc, es))
    decreases |es|
  {
    if |es| > 0 {
      PutSpec(acc, es[0].key, es[0].val);
      PutAllDistinct(Put(acc, es[0].key, es[0].val), es[1..]);
    }
  }

  /** Putting entries whose keys are new and distinct appends them unchanged. */
  lemma {:induction false} PutAllFresh(acc: seq<Entry>, es: seq<Entry>)
    requires DistinctKeys(acc + es)
    ensures PutAll(acc, es) == acc + es
    decreases |es|
  {
    if |es| > 0 {
      assert es[0] == (acc + es)[|acc|];
      assert !HasKey(acc, es[0].key) by {
        forall i | 0 <= i < |acc|
          ensures acc[i].key != es[0].key
        {
          assert acc[i] == (acc + es)[i];
        }
      }
      var acc' := Put(acc, es[0].key, es[0].val);
      assert Find(acc, es[0].key) == |acc|;
      assert acc' == acc + [es[0]];
      assert acc' + es[1..] == acc + es;
      PutAllFresh(acc', es[1..]);
    }
  }

  /** The last value put under a key is the one the map holds. */
  lemma {:induction false} PutAllLastWins(acc: seq<Entry>, es: seq<Entry>, k: Option<string>, v: Value)
    requires |es| > 0 && es[|es| - 1] == Entry(k, v)
    ensures Get(PutAll(acc, es), k) == Some(v)
    decreases |es|
  {
    if |es| > 1 {
      PutAllLastWins(Put(acc, es[0].key, es[0].val), es[1..], k, v);
    } else {
      PutSpec(acc, k, v);
    }
  }

  /** A key that is put keeps the position of its first put. */
  lemma {:induction false} PutAllKeepsKeys(acc: seq<Entry>, es: seq<Entry>)
    ensures forall i :: 0 <= i < |acc| ==> i < |PutAll(acc, es)| && PutAll(acc, es)[i].key == acc[i].key
    decreases |es|
  {
    if |es| > 0 {
      var acc' := Put(acc, es[0].key, es[0].val);
      PutSpec(acc, es[0].key, es[0].val);
      var r := PutAll(acc', es[1..]);
      assert PutAll(acc, es) == r;
      PutAllKeepsKeys(acc', es[1..]);
      forall i | 0 <= i < |acc|
        ensures i < |r| && r[i].key == acc[i].key
      {
        assert i < |acc'| && acc'[i].key == acc[i].key;
      }
    } else {
      assert PutAll(acc, es) == acc;
    }
  }

  // ---------------------------------------------------------------------
  // Object.toString for the scalar values the core turns into text.

  /** toString(); None for the kinds whose text this model does not define. */
  function TextOf(v: Value): (r: Option<string>)
    ensures v.Str? ==> r == Some(v.s)
    ensures v.Num? ==> r == Some(IntText(v.n))
    ensures v.Null? || v.List? || v.Map? || v.SrcRef? ==> r.None?
  {
    match v
    case Bool(b) => Some(if b then "true" else "false")
    case Char(c) => Some([c])
    case Num(_, n) => Some(IntText(n))
    case Dec(d) => Some(DecimalText(d))
    case Str(s) => Some(s)
    case Locale(tag) => Some(tag)
    case _ => None
  }
}
