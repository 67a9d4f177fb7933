/**
 * The case-insensitive string operations of java.lang.String that the tree
 * record and the tree list rely on: compareToIgnoreCase, toUpperCase and
 * contains. Case folding is restricted to ASCII letters.
 */
module IgnoreCase {

  /** Character.toUpperCase on ASCII letters; every other character is unchanged. */
  function UpperChar(c: char): char {
    if 'a' <= c <= 'z' then (c as int - 32) as char else c
  }

  /** Character.toLowerCase on ASCII letters; every other character is unchanged. */
  function LowerChar(c: char): char {
    if 'A' <= c <= 'Z' then (c as int + 32) as char else c
  }

  /** String.toUpperCase. */
  function Upper(s: string): string {
    seq(|s|, i requires 0 <= i < |s| => UpperChar(s[i]))
  }

  /** The lower-case fold; two strings are equal ignoring case when their folds agree. */
  function Lower(s: string): string {
    seq(|s|, i requires 0 <= i < |s| => LowerChar(s[i]))
  }

  predicate EqualsIgnoreCase(a: string, b: string) {
    Lower(a) == Lower(b)
  }

  /**
   * One step of String.compareToIgnoreCase: equal characters give 0; otherwise
   * both are upper-cased, and if they still differ the difference of their
   * lower-cased forms is returned.
   */
  function CharCompareIgnoreCase(c1: char, c2: char): int {
    if c1 == c2 then 0
    else
      var u1, u2 := UpperChar(c1), UpperChar(c2);
      if u1 == u2 then 0 else LowerChar(u1) as int - LowerChar(u2) as int
  }

  /**
   * String.compareToIgnoreCase: the first non-zero character comparison, or
   * else the difference of the lengths.
   */
  function CompareIgnoreCase(a: string, b: string): int
    decreases |a|
  {
    if a == [] || b == [] then |a| - |b|
    else if CharCompareIgnoreCase(a[0], b[0]) != 0 then CharCompareIgnoreCase(a[0], b[0])
    else CompareIgnoreCase(a[1..], b[1..])
  }

  /** Strict lexicographic order on character codes. */
  predicate LexLess(x: string, y: string)
    decreases |x|
  {
    y != [] && (x == [] || x[0] < y[0] || (x[0] == y[0] && LexLess(x[1..], y[1..])))
  }

  /** String.contains. */
  predicate Contains(s: string, sub: string)
    decreases |s|
  {
    sub <= s || (s != [] && Contains(s[1..], sub))
  }

  /** An occurrence of sub at position i makes s contain it. */
  lemma {:induction false} ContainsAt(s: string, sub: string, i: nat)
    requires i <= |s| && sub <= s[i..]
    ensures Contains(s, sub)
    decreases i
  {
    if i > 0 {
      assert s[1..][i - 1..] == s[i..];
      ContainsAt(s[1..], sub, i - 1);
    }
  }

  /** When s contains sub, sub occurs in s at some position. */
  lemma {:induction false} ContainsPosition(s: string, sub: string) returns (i: nat)
    requires Contains(s, sub)
    ensures i <= |s| && sub <= s[i..]
    decreases |s|
  {
    if sub <= s {
      i := 0;
    } else {
      var j := ContainsPosition(s[1..], sub);
      assert s[1..][j..] == s[j + 1..];
      i := j + 1;
    }
  }

  /** contains holds exactly when sub occurs in s at some position. */
  lemma ContainsIff(s: string, sub: string)
    ensures Contains(s, sub) <==> exists i :: 0 <= i <= |s| && sub <= s[i..]
  {
    if Contains(s, sub) {
      var i := ContainsPosition(s, sub);
    }
    if exists i :: 0 <= i <= |s| && sub <= s[i..] {
      var i :| 0 <= i <= |s| && sub <= s[i..];
      ContainsAt(s, sub, i);
    }
  }

  lemma LowerCons(s: string)
    requires s != []
    ensures Lower(s) == [LowerChar(s[0])] + Lower(s[1..])
  {
    assert Lower(s) == [LowerChar(s[0])] + Lower(s[1..]);
  }

  /** The character step compares the lower-case folds of the two characters. */
  lemma CharCompareIsLowerDifference(c1: char, c2: char)
    ensures CharCompareIgnoreCase(c1, c2) == LowerChar(c1) as int - LowerChar(c2) as int
  {
  }

  /** compareToIgnoreCase returns 0 exactly when the strings are equal ignoring case. */
  lemma {:induction false} CompareIgnoreCaseZero(a: string, b: string)
    ensures CompareIgnoreCase(a, b) == 0 <==> EqualsIgnoreCase(a, b)
    decreases |a|
  {
    if a == [] || b == [] {
      assert |Lower(a)| == |a| && |Lower(b)| == |b|;
    } else {
      CharCompareIsLowerDifference(a[0], b[0]);
      CompareIgnoreCaseZero(a[1..], b[1..]);
      LowerCons(a);
      LowerCons(b);
      if EqualsIgnoreCase(a, b) {
        assert Lower(a)[0] == Lower(b)[0];
        assert Lower(a)[1..] == Lower(b)[1..];
      }
    }
  }

  /** compareToIgnoreCase is antisymmetric: swapping the arguments negates the result. */
  lemma {:induction false} CompareIgnoreCaseAntisymmetric(a: string, b: string)
    ensures CompareIgnoreCase(a, b) == -CompareIgnoreCase(b, a)
    decreases |a|
  {
    if a != [] && b != [] {
      CharCompareIsLowerDifference(a[0], b[0]);
      CharCompareIsLowerDifference(b[0], a[0]);
      CompareIgnoreCaseAntisymmetric(a[1..], b[1..]);
    }
  }

  /** compareToIgnoreCase is negative exactly when the lower-case folds are in lexicographic order. */
  lemma {:induction false} CompareIgnoreCaseNegative(a: string, b: string)
    ensures CompareIgnoreCase(a, b) < 0 <==> LexLess(Lower(a), Lower(b))
    decreases |a|
  {
    if a != [] && b != [] {
      CharCompareIsLowerDifference(a[0], b[0]);
      CompareIgnoreCaseNegative(a[1..], b[1..]);
      LowerCons(a);
      LowerCons(b);
      assert Lower(a)[1..] == Lower(a[1..]);
      assert Lower(b)[1..] == Lower(b[1..]);
    }
  }

  lemma {:induction false} LexLessIrreflexive(x: string)
    ensures !LexLess(x, x)
    decreases |x|
  {
    if x != [] {
      LexLessIrreflexive(x[1..]);
    }
  }

  /** Of x < y, x == y and y < x exactly one holds. */
  lemma {:induction false} LexLessTrichotomy(x: string, y: string)
    ensures LexLess(x, y) || x == y || LexLess(y, x)
    ensures !(LexLess(x, y) && LexLess(y, x))
    ensures !(LexLess(x, y) && x == y)
    decreases |x|
  {
    LexLessIrreflexive(x);
    if x != [] && y != [] {
      LexLessTrichotomy(x[1..], y[1..]);
      if x[0] == y[0] && x[1..] == y[1..] {
        assert x == [x[0]] + x[1..] && y == [y[0]] + y[1..];
      }
    }
  }

  lemma {:induction false} LexLessTransitive(x: string, y: string, z: string)
    requires LexLess(x, y) && LexLess(y, z)
    ensures LexLess(x, z)
    decreases |x|
  {
    if x != [] && x[0] == y[0] && y[0] == z[0] {
      LexLessTransitive(x[1..], y[1..], z[1..]);
    }
  }

  /** Strings equal ignoring case have the same upper-case form, so they match the same queries. */
  lemma EqualsIgnoreCaseSameUpper(a: string, b: string)
    requires EqualsIgnoreCase(a, b)
    ensures Upper(a) == Upper(b)
  {
    assert |a| == |Lower(a)| == |Lower(b)| == |b|;
    forall i | 0 <= i < |a|
      ensures Upper(a)[i] == Upper(b)[i]
    {
      assert Lower(a)[i] == Lower(b)[i];
    }
  }
}
