/**
 * Naming-style conversion (toUpperCamel / toLowerCamel) in the two copies of
 * ClassUtil: src/net/arnx/jsonic/util/ClassUtil.java (module ClassUtil) and
 * jsonic-1.2/src/net/arnx/jsonic/ClassUtil.java (module ClassUtil12).
 *
 * Both copies run the same loop: ' ', '_' and '-' are dropped and raise a
 * flag, and the next kept character is upper-cased. They differ in the
 * flag's start and in the fix-up of the first character afterwards.
 * CamelCase holds the loop's specification and what is proved about it.
 */
module CamelCase {
  import opened JavaText

  predicate IsSeparator(c: char) { c == ' ' || c == '_' || c == '-' }

  /** The flag when character i is read: its start value at 0, afterwards whether character i - 1 was a separator. */
  predicate UpFlag(s: string, i: nat, init: bool)
    requires i <= |s|
  {
    if i == 0 then init else IsSeparator(s[i - 1])
  }

  /** The loop's output: separators dropped, a kept character upper-cased when the flag is up. */
  function Camel(s: string, init: bool): (r: string)
    ensures |r| <= |s|
  {
    if |s| == 0 then []
    else
      var c := s[|s| - 1];
      if IsSeparator(c) then Camel(s[..|s| - 1], init)
      else Camel(s[..|s| - 1], init) + [if UpFlag(s, |s| - 1, init) then ToUpper(c) else c]
  }

  /** The input with its separators removed. */
  function Strip(s: string): (r: string)
  {
    if |s| == 0 then []
    else if IsSeparator(s[|s| - 1]) then Strip(s[..|s| - 1])
    else Strip(s[..|s| - 1]) + [s[|s| - 1]]
  }

  predicate SepFree(s: string)
  {
    forall j :: 0 <= j < |s| ==> !IsSeparator(s[j])
  }

  /** The fix-up of util/ClassUtil.toLowerCamel: an upper-case first character followed by one that is not upper case is lowered. */
  function FixFirst(r: string): (f: string)
    ensures |f| == |r|
  {
    if |r| > 1 && IsUpper(r[0]) && !IsUpper(r[1]) then r[0 := ToLower(r[0])] else r
  }

  /** The fix-up of both 1.2 functions: an upper-case first character followed by a lower-case one is lowered. */
  function FixFirstLower(r: string): (f: string)
    ensures |f| == |r|
  {
    if |r| > 1 && IsUpper(r[0]) && IsLower(r[1]) then r[0 := ToLower(r[0])] else r
  }

  /** One more character read: the loop's step. */
  lemma CamelSnoc(s: string, i: nat, init: bool)
    requires i < |s|
    ensures Camel(s[..i + 1], init)
      == if IsSeparator(s[i]) then Camel(s[..i], init)
         else Camel(s[..i], init) + [if UpFlag(s, i, init) then ToUpper(s[i]) else s[i]]
  {
    assert s[..i + 1][..i] == s[..i];
  }

  /** Ignoring case, the output is the input without its separators. */
  lemma {:induction false} CamelIsStrip(s: string, init: bool)
    ensures |Camel(s, init)| == |Strip(s)|
    ensures LowerString(Camel(s, init)) == LowerString(Strip(s))
    decreases |s|
  {
    if |s| > 0 {
      var t := s[..|s| - 1];
      var c := s[|s| - 1];
      CamelIsStrip(t, init);
      if !IsSeparator(c) {
        var u := if UpFlag(s, |s| - 1, init) then ToUpper(c) else c;
        assert ToLower(u) == ToLower(c);
        LowerAppend(Camel(t, init), u);
        LowerAppend(Strip(t), c);
      }
    }
  }

  lemma LowerAppend(s: string, c: char)
    ensures LowerString(s + [c]) == LowerString(s) + [ToLower(c)]
  {
  }

  /** How many separators the text holds. */
  function SepCount(s: string): (n: nat)
    ensures n <= |s|
  {
    if |s| == 0 then 0
    else SepCount(s[..|s| - 1]) + if IsSeparator(s[|s| - 1]) then 1 else 0
  }

  /** The output is as long as the input less its separators, and each character is the kept one, possibly upper-cased. */
  lemma {:induction false} CamelLength(s: string, init: bool)
    ensures |Camel(s, init)| + SepCount(s) == |s|
    ensures |Camel(s, init)| == |Strip(s)|
    ensures forall j :: 0 <= j < |Camel(s, init)| ==>
      Camel(s, init)[j] == Strip(s)[j] || Camel(s, init)[j] == ToUpper(Strip(s)[j])
    decreases |s|
  {
    if |s| > 0 {
      var t := s[..|s| - 1];
      CamelLength(t, init);
    }
  }

  /** The output holds no separator, and a separator-free text keeps its length. */
  lemma {:induction false} CamelSepFree(s: string, init: bool)
    ensures SepFree(Camel(s, init))
    ensures SepFree(s) ==> |Camel(s, init)| == |s|
    decreases |s|
  {
    if |s| > 0 {
      var t := s[..|s| - 1];
      CamelSepFree(t, init);
      assert SepFree(s) ==> SepFree(t);
    }
  }

  /** On a separator-free text only the first character can change: it is upper-cased when the flag starts up. */
  lemma {:induction false} CamelOfSepFree(s: string, init: bool)
    requires SepFree(s)
    ensures Camel(s, init) == if |s| == 0 then [] else [if init then ToUpper(s[0]) else s[0]] + s[1..]
    decreases |s|
  {
    if |s| > 1 {
      var t := s[..|s| - 1];
      assert SepFree(t);
      CamelOfSepFree(t, init);
      assert t[1..] + [s[|s| - 1]] == s[1..];
    } else if |s| == 1 {
      assert s[..0] == [];
      assert [s[0]] + s[1..] == s;
    }
  }

  /** With the flag up at the start, the first kept character is upper-cased. */
  lemma {:induction false} CamelFirst(s: string)
    requires |Strip(s)| > 0
    ensures |Camel(s, true)| > 0 && Camel(s, true)[0] == ToUpper(Strip(s)[0])
    decreases |s|
  {
    var t := s[..|s| - 1];
    var c := s[|s| - 1];
    CamelIsStrip(t, true);
    if |Strip(t)| > 0 {
      CamelFirst(t);
    } else if !IsSeparator(c) {
      assert UpFlag(s, |s| - 1, true) by {
        if |s| > 1 {
          AllSeparators(t);
        }
      }
    }
  }

  /** A text with nothing left after stripping is all separators. */
  lemma {:induction false} AllSeparators(s: string)
    requires |Strip(s)| == 0
    ensures forall j :: 0 <= j < |s| ==> IsSeparator(s[j])
    decreases |s|
  {
    if |s| > 0 {
      var t := s[..|s| - 1];
      AllSeparators(t);
      assert forall j :: 0 <= j < |t| ==> s[j] == t[j];
    }
  }
}

/** src/net/arnx/jsonic/util/ClassUtil.java: toUpperCamel has no fix-up; toLowerCamel lowers an upper first character unless the second is upper too. */
module ClassUtil {
  import opened JavaText
  import opened CamelCase

  method ToUpperCamel(name: string) returns (r: string)
    ensures r == Camel(name, true)
  {
    var sb: string := [];
    var toUpperCase := true;
    for i := 0 to |name|
      invariant sb == Camel(name[..i], true)
      invariant toUpperCase == UpFlag(name, i, true)
    {
      var c := name[i];
      CamelSnoc(name, i, true);
      if c == ' ' || c == '_' || c == '-' {
        toUpperCase := true;
      } else if toUpperCase {
        sb := sb + [ToUpper(c)];
        toUpperCase := false;
      } else {
        sb := sb + [c];
      }
    }
    assert name[..|name|] == name;
    r := sb;
  }

  method ToLowerCamel(name: string) returns (r: string)
    ensures r == FixFirst(Camel(name, false))
  {
    var sb: string := [];
    var toUpperCase := false;
    for i := 0 to |name|
      invariant sb == Camel(name[..i], false)
      invariant toUpperCase == UpFlag(name, i, false)
    {
      var c := name[i];
      CamelSnoc(name, i, false);
      if c == ' ' || c == '_' || c == '-' {
        toUpperCase := true;
      } else if toUpperCase {
        sb := sb + [ToUpper(c)];
        toUpperCase := false;
      } else {
        sb := sb + [c];
      }
    }
    assert name[..|name|] == name;
    if |sb| > 1 && IsUpper(sb[0]) && !IsUpper(sb[1]) {
      sb := sb[0 := ToLower(sb[0])];
    }
    r := sb;
  }

  /** toUpperCamel starts with the first kept character upper-cased. */
  lemma UpperCamelFirst(name: string)
    requires |Strip(name)| > 0
    ensures |Camel(name, true)| > 0 && Camel(name, true)[0] == ToUpper(Strip(name)[0])
    ensures IsLower(Strip(name)[0]) ==> IsUpper(Camel(name, true)[0])
  {
    CamelFirst(name);
  }

  /** toUpperCamel is idempotent. */
  lemma UpperCamelIdempotent(name: string)
    ensures Camel(Camel(name, true), true) == Camel(name, true)
  {
    var r := Camel(name, true);
    CamelSepFree(name, true);
    CamelIsStrip(name, true);
    if |r| > 0 {
      CamelFirst(name);
    }
    UpperFixed(r);
  }

  /** A separator-free text with an upper-case (or caseless) first character is its own toUpperCamel. */
  lemma UpperFixed(r: string)
    requires SepFree(r) && (|r| > 0 ==> ToUpper(r[0]) == r[0])
    ensures Camel(r, true) == r
  {
    CamelOfSepFree(r, true);
    if |r| > 0 {
      assert [r[0]] + r[1..] == r;
    }
  }

  /** A separator-free name whose first character is not upper case is returned unchanged by toLowerCamel. */
  lemma LowerCamelKeeps(name: string)
    requires SepFree(name) && (|name| == 0 || !IsUpper(name[0]))
    ensures FixFirst(Camel(name, false)) == name
  {
    CamelOfSepFree(name, false);
    if |name| > 0 {
      assert [name[0]] + name[1..] == name;
    }
  }

  /** toLowerCamel is idempotent. */
  lemma LowerCamelIdempotent(name: string)
    ensures FixFirst(Camel(FixFirst(Camel(name, false)), false)) == FixFirst(Camel(name, false))
  {
    var c := Camel(name, false);
    var f := FixFirst(c);
    CamelSepFree(name, false);
    assert SepFree(f) by {
      if |c| > 1 && IsUpper(c[0]) && !IsUpper(c[1]) {
        assert !IsSeparator(ToLower(c[0]));
      }
    }
    CamelOfSepFree(f, false);
    if |f| > 0 {
      assert [f[0]] + f[1..] == f;
    }
  }
}

/**
 * jsonic-1.2/src/net/arnx/jsonic/ClassUtil.java: both functions end with the
 * same fix-up, which lowers an upper first character followed by a lower
 * one. In toUpperCamel it undoes the loop's first upper-casing.
 */
module ClassUtil12 {
  import opened JavaText
  import opened CamelCase

  method ToUpperCamel(name: string) returns (r: string)
    ensures r == FixFirstLower(Camel(name, true))
  {
    var sb: string := [];
    var toUpperCase := true;
    for i := 0 to |name|
      invariant sb == Camel(name[..i], true)
      invariant toUpperCase == UpFlag(name, i, true)
    {
      var c := name[i];
      CamelSnoc(name, i, true);
      if c == ' ' || c == '_' || c == '-' {
        toUpperCase := true;
      } else if toUpperCase {
        sb := sb + [ToUpper(c)];
        toUpperCase := false;
      } else {
        sb := sb + [c];
      }
    }
    assert name[..|name|] == name;
    if |sb| > 1 && IsUpper(sb[0]) && IsLower(sb[1]) {
      sb := sb[0 := ToLower(sb[0])];
    }
    r := sb;
  }

  method ToLowerCamel(name: string) returns (r: string)
    ensures r == FixFirstLower(Camel(name, false))
  {
    var sb: string := [];
    var toUpperCase := false;
    for i := 0 to |name|
      invariant sb == Camel(name[..i], false)
      invariant toUpperCase == UpFlag(name, i, false)
    {
      var c := name[i];
      CamelSnoc(name, i, false);
      if c == ' ' || c == '_' || c == '-' {
        toUpperCase := true;
      } else if toUpperCase {
        sb := sb + [ToUpper(c)];
        toUpperCase := false;
      } else {
        sb := sb + [c];
      }
    }
    assert name[..|name|] == name;
    if |sb| > 1 && IsUpper(sb[0]) && IsLower(sb[1]) {
      sb := sb[0 := ToLower(sb[0])];
    }
    r := sb;
  }

  /** As written, toUpperCamel leaves a lower-case word such as "abc" lower-case: the fix-up undoes the upper-casing. */
  lemma UpperCamelKeepsLowercase(name: string)
    requires SepFree(name) && |name| > 1 && IsLower(name[0]) && IsLower(name[1])
    ensures FixFirstLower(Camel(name, true)) == name
  {
    CamelOfSepFree(name, true);
    var c := Camel(name, true);
    assert c[0] == ToUpper(name[0]) && c[1] == name[1];
    assert ToLower(ToUpper(name[0])) == name[0];
    assert c[0 := name[0]] == name;
  }

  /** The two 1.2 functions differ only in the first character. */
  lemma UpperLowerAgree(name: string)
    ensures |FixFirstLower(Camel(name, true))| == |FixFirstLower(Camel(name, false))|
    ensures forall j :: 1 <= j < |FixFirstLower(Camel(name, true))| ==>
      FixFirstLower(Camel(name, true))[j] == FixFirstLower(Camel(name, false))[j]
  {
    FlagOnlyFirst(name);
  }

  /** The start value of the flag only reaches the first kept character. */
  lemma {:induction false} FlagOnlyFirst(s: string)
    ensures |Camel(s, true)| == |Camel(s, false)|
    ensures forall j :: 1 <= j < |Camel(s, true)| ==> Camel(s, true)[j] == Camel(s, false)[j]
    decreases |s|
  {
    if |s| > 0 {
      var t := s[..|s| - 1];
      FlagOnlyFirst(t);
      CamelIsStrip(t, true);
      CamelIsStrip(t, false);
      if |s| > 1 && !IsSeparator(s[|s| - 1]) && |Camel(t, true)| == 0 {
        AllSeparators(t);
      }
    }
  }
}
