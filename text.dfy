/**
 * Character and string helpers shared by the hash rendering and the configuration code:
 * ordinal case folding, `StringComparison.OrdinalIgnoreCase` equality and prefix tests,
 * and the whitespace that .NET's parsers trim.
 *
 * Case folding covers the ASCII letters only; .NET's ordinal folding of other letters is
 * not part of this model.
 */
module Text {

  function UpperChar(c: char): char {
    if 'a' <= c <= 'z' then (c as int - 32) as char else c
  }

  function LowerChar(c: char): char {
    if 'A' <= c <= 'Z' then (c as int + 32) as char else c
  }

  /** `String.ToLower` (culture casing of non-ASCII letters left out). */
  function ToLower(s: string): (r: string)
    ensures |r| == |s|
    ensures forall i :: 0 <= i < |s| ==> r[i] == LowerChar(s[i])
    ensures NoUpperCase(r)
  {
    if s == [] then [] else [LowerChar(s[0])] + ToLower(s[1..])
  }

  /** No ASCII upper-case letter occurs in `s`: lower-casing leaves it as it is. */
  predicate NoUpperCase(s: string) {
    forall i :: 0 <= i < |s| ==> !('A' <= s[i] <= 'Z')
  }

  lemma {:induction false} ToLowerAppend(a: string, b: string)
    ensures ToLower(a + b) == ToLower(a) + ToLower(b)
  {
    var l, r := ToLower(a + b), ToLower(a) + ToLower(b);
    forall i | 0 <= i < |a + b| ensures l[i] == r[i] {
      if i < |a| {
        assert (a + b)[i] == a[i] && r[i] == ToLower(a)[i];
      } else {
        assert (a + b)[i] == b[i - |a|] && r[i] == ToLower(b)[i - |a|];
      }
    }
  }

  /**
   * `string.Equals(a, b, StringComparison.OrdinalIgnoreCase)`, which folds to upper case; it
   * agrees with comparing the lower-cased strings.
   */
  predicate EqualsIgnoreCase(a: string, b: string): (r: bool)
  {
    |a| == |b| && forall i :: 0 <= i < |a| ==> UpperChar(a[i]) == UpperChar(b[i])
  }

  /** Ordinal case-insensitive equality is equality of the lower-cased strings. */
  lemma EqualsIgnoreCaseLowered(a: string, b: string)
    ensures EqualsIgnoreCase(a, b) <==> ToLower(a) == ToLower(b)
  {
    FoldsAgree(a, b);
  }

  /** An ordinal case-insensitive prefix is a prefix of the lower-cased strings. */
  lemma StartsWithIgnoreCaseLowered(s: string, prefix: string)
    ensures StartsWithIgnoreCase(s, prefix) <==> |prefix| <= |s| && ToLower(prefix) <= ToLower(s)
  {
    if |prefix| <= |s| {
      FoldsAgree(s[..|prefix|], prefix);
      assert ToLower(s[..|prefix|]) == ToLower(s)[..|prefix|];
    }
  }

  /** Folding two characters to upper case makes them equal exactly when folding them to lower case does. */
  lemma FoldAgree(x: char, y: char)
    ensures UpperChar(x) == UpperChar(y) <==> LowerChar(x) == LowerChar(y)
  {
  }

  lemma FoldsAgree(a: string, b: string)
    ensures (|a| == |b| && forall i :: 0 <= i < |a| ==> UpperChar(a[i]) == UpperChar(b[i])) <==> ToLower(a) == ToLower(b)
  {
    if |a| == |b| {
      forall i | 0 <= i < |a| ensures UpperChar(a[i]) == UpperChar(b[i]) <==> ToLower(a)[i] == ToLower(b)[i] {
        FoldAgree(a[i], b[i]);
      }
    }
  }

  /**
   * `s.StartsWith(prefix, StringComparison.OrdinalIgnoreCase)`; true for the empty prefix. It
   * agrees with a prefix test on the lower-cased strings.
   */
  predicate StartsWithIgnoreCase(s: string, prefix: string): (r: bool)
  {
    |prefix| <= |s| && EqualsIgnoreCase(s[..|prefix|], prefix)
  }

  lemma EqualsIgnoreCaseIsEquivalence(a: string, b: string, c: string)
    ensures EqualsIgnoreCase(a, a)
    ensures EqualsIgnoreCase(a, b) ==> EqualsIgnoreCase(b, a)
    ensures EqualsIgnoreCase(a, b) && EqualsIgnoreCase(b, c) ==> EqualsIgnoreCase(a, c)
  {
  }

  /** Two strings that are each a case-insensitive prefix of the other are equal ignoring case. */
  lemma MutualPrefixes(a: string, b: string)
    ensures StartsWithIgnoreCase(a, b) && StartsWithIgnoreCase(b, a) <==> EqualsIgnoreCase(a, b)
  {
    assert a[..|a|] == a;
    assert b[..|b|] == b;
  }

  lemma StartsWithIgnoreCaseTransitive(a: string, b: string, c: string)
    requires StartsWithIgnoreCase(a, b) && StartsWithIgnoreCase(b, c)
    ensures StartsWithIgnoreCase(a, c)
  {
    forall i | 0 <= i < |c| ensures UpperChar(a[..|c|][i]) == UpperChar(c[i]) {
      assert a[..|c|][i] == a[..|b|][i];
      assert b[..|c|][i] == b[i];
    }
  }

  /** The characters `Char.IsWhiteSpace` accepts in the ASCII range (U+0009 to U+000D, U+0020). */
  predicate IsWhite(c: char) {
    c == ' ' || '\t' <= c <= '\r'
  }

  /** `String.TrimStart()` restricted to ASCII whitespace. */
  function TrimStart(s: string): (r: string)
    ensures r == [] || !IsWhite(r[0])
    ensures |r| <= |s| && r == s[|s| - |r|..]
  {
    if s != [] && IsWhite(s[0]) then TrimStart(s[1..]) else s
  }

  /** `String.TrimEnd()` restricted to ASCII whitespace. */
  function TrimEnd(s: string): (r: string)
    ensures r == [] || !IsWhite(r[|r| - 1])
    ensures |r| <= |s| && r == s[..|r|]
  {
    if s != [] && IsWhite(s[|s| - 1]) then TrimEnd(s[..|s| - 1]) else s
  }

  /** `String.Trim()` restricted to ASCII whitespace; a string without surrounding whitespace is kept. */
  function Trim(s: string): (r: string)
    ensures r == [] || (!IsWhite(r[0]) && !IsWhite(r[|r| - 1]))
    ensures (s == [] || (!IsWhite(s[0]) && !IsWhite(s[|s| - 1]))) ==> r == s
  {
    TrimEnd(TrimStart(s))
  }

  /** A character that is not white space survives TrimStart. */
  lemma {:induction false} TrimStartKeeps(s: string, i: int)
    requires 0 <= i < |s| && !IsWhite(s[i])
    ensures |s| - |TrimStart(s)| <= i
    decreases |s|
  {
    if s != [] && IsWhite(s[0]) {
      TrimStartKeeps(s[1..], i - 1);
    }
  }

  /** A character that is not white space survives TrimEnd. */
  lemma {:induction false} TrimEndKeeps(s: string, i: int)
    requires 0 <= i < |s| && !IsWhite(s[i])
    ensures i < |TrimEnd(s)|
    decreases |s|
  {
    if s != [] && IsWhite(s[|s| - 1]) {
      TrimEndKeeps(s[..|s| - 1], i);
    }
  }

  /** Trim removes white space only: every other character of `s` is still there. */
  lemma TrimKeepsNonWhite(s: string, i: int)
    requires 0 <= i < |s| && !IsWhite(s[i])
    ensures s[i] in Trim(s)
  {
    var t := TrimStart(s);
    var k := |s| - |t|;
    TrimStartKeeps(s, i);
    assert t == s[k..];
    assert t[i - k] == s[i];
    TrimEndKeeps(t, i - k);
    var u := TrimEnd(t);
    assert u == t[..|u|] && i - k < |u|;
    assert u[i - k] == s[i];
    assert Trim(s) == u;
  }

  predicate AllWhite(s: string) {
    forall i :: 0 <= i < |s| ==> IsWhite(s[i])
  }

  /** What TrimStart drops is white space. */
  lemma {:induction false} TrimStartDropsWhite(s: string)
    ensures forall i :: 0 <= i < |s| - |TrimStart(s)| ==> IsWhite(s[i])
    decreases |s|
  {
    if s != [] && IsWhite(s[0]) {
      TrimStartDropsWhite(s[1..]);
      forall i | 1 <= i < |s| - |TrimStart(s)| ensures IsWhite(s[i]) {
        assert s[i] == s[1..][i - 1];
      }
    }
  }

  /** What TrimEnd drops is white space. */
  lemma {:induction false} TrimEndDropsWhite(s: string)
    ensures forall i :: |TrimEnd(s)| <= i < |s| ==> IsWhite(s[i])
    decreases |s|
  {
    if s != [] && IsWhite(s[|s| - 1]) {
      TrimEndDropsWhite(s[..|s| - 1]);
      forall i | |TrimEnd(s)| <= i < |s| - 1 ensures IsWhite(s[i]) {
        assert s[i] == s[..|s| - 1][i];
      }
    }
  }

  /** Leading white space before text that starts with a non-white character is all TrimStart drops. */
  lemma {:induction false} TrimStartPast(w: string, x: string)
    requires AllWhite(w) && (x == [] || !IsWhite(x[0]))
    ensures TrimStart(w + x) == x
    decreases |w|
  {
    if w == [] {
      assert w + x == x;
    } else {
      assert (w + x)[0] == w[0] && (w + x)[1..] == w[1..] + x;
      assert AllWhite(w[1..]) by {
        forall i | 0 <= i < |w[1..]| ensures IsWhite(w[1..][i]) {
          assert w[1..][i] == w[i + 1];
        }
      }
      TrimStartPast(w[1..], x);
    }
  }

  /** Trailing white space after text that ends with a non-white character is all TrimEnd drops. */
  lemma {:induction false} TrimEndPast(x: string, w: string)
    requires AllWhite(w) && (x == [] || !IsWhite(x[|x| - 1]))
    ensures TrimEnd(x + w) == x
    decreases |w|
  {
    if w == [] {
      assert x + w == x;
    } else {
      var s := x + w;
      assert s[|s| - 1] == w[|w| - 1] && s[..|s| - 1] == x + w[..|w| - 1];
      var init := w[..|w| - 1];
      assert AllWhite(init) by {
        forall i | 0 <= i < |init| ensures IsWhite(init[i]) {
          assert init[i] == w[i];
        }
      }
      TrimEndPast(x, init);
    }
  }

  /** Trim gives back text with non-white ends from between white space. */
  lemma TrimSurrounded(w1: string, x: string, w2: string)
    requires AllWhite(w1) && AllWhite(w2) && x != [] && !IsWhite(x[0]) && !IsWhite(x[|x| - 1])
    ensures Trim(w1 + x + w2) == x
  {
    assert w1 + x + w2 == w1 + (x + w2);
    assert (x + w2)[0] == x[0];
    TrimStartPast(w1, x + w2);
    TrimEndPast(x, w2);
  }

  /** A string is its prefix followed by the rest. */
  lemma SliceJoin(s: string, k: int)
    requires 0 <= k <= |s|
    ensures s[..k] + s[k..] == s
  {
  }

  /** Text is the white space Trim drops, around what Trim keeps. */
  lemma TrimSplit(s: string) returns (w1: string, t: string, w2: string)
    ensures s == w1 + t + w2 && AllWhite(w1) && AllWhite(w2) && t == Trim(s)
  {
    var u := TrimStart(s);
    var k := |s| - |u|;
    t := TrimEnd(u);
    TrimStartDropsWhite(s);
    TrimEndDropsWhite(u);
    w1, w2 := s[..k], u[|t|..];
    SliceJoin(s, k);
    SliceJoin(u, |t|);
    assert AllWhite(w1) by {
      forall i | 0 <= i < |w1| ensures IsWhite(w1[i]) {
        assert w1[i] == s[i];
      }
    }
    assert AllWhite(w2) by {
      forall i | 0 <= i < |w2| ensures IsWhite(w2[i]) {
        assert w2[i] == u[|t| + i];
      }
    }
  }

  predicate IsDigit(c: char) {
    '0' <= c <= '9'
  }

  /** The number a string of decimal digits denotes. */
  function DigitsValue(s: string): nat
    requires forall i :: 0 <= i < |s| ==> IsDigit(s[i])
  {
    if s == [] then 0
    else
      assert IsDigit(s[|s| - 1]);
      10 * DigitsValue(s[..|s| - 1]) + (s[|s| - 1] as int - '0' as int)
  }
}
