/** Models of the Go `strings` primitives that the slug parser calls.
    A Go string is modelled as the sequence of its Unicode code points. */
module GoStrings {

  // ---------------------------------------------------------------------
  // Character classes
  // ---------------------------------------------------------------------

  predicate IsAscii(c: char) { c as int < 128 }

  predicate AllAscii(s: string) { forall i :: 0 <= i < |s| ==> IsAscii(s[i]) }

  predicate IsAsciiUpper(c: char) { 'A' <= c <= 'Z' }

  predicate IsAsciiLower(c: char) { 'a' <= c <= 'z' }

  predicate IsDigit(c: char) { '0' <= c <= '9' }

  /** The code points Go's `unicode.IsSpace` accepts, which `strings.TrimSpace` trims. */
  function Spaces(): set<char> {
    {
      '\t', '\n', '\U{000B}', '\U{000C}', '\r', ' ', '\U{0085}', '\U{00A0}', '\U{1680}',
      '\U{2000}', '\U{2001}', '\U{2002}', '\U{2003}', '\U{2004}', '\U{2005}', '\U{2006}',
      '\U{2007}', '\U{2008}', '\U{2009}', '\U{200A}', '\U{2028}', '\U{2029}', '\U{202F}',
      '\U{205F}', '\U{3000}'
    }
  }

  // ---------------------------------------------------------------------
  // strings.Replace(s, from, to, -1)
  // ---------------------------------------------------------------------

  /** `from` occurs in `s` at position `i`. */
  predicate IsAt(s: string, from: string, i: int) {
    0 <= i && i + |from| <= |s| && s[i..i + |from|] == from
  }

  predicate Occurs(s: string, from: string) {
    exists i :: 0 <= i <= |s| && IsAt(s, from, i)
  }

  /** `strings.Replace(s, from, to, -1)` for a non-empty `from`: the occurrences of
      `from` are found left to right, each search resuming after the previous match,
      and every one of them is replaced by `to`. */
  function ReplaceAll(s: string, from: string, to: string): string
    requires |from| > 0
    decreases |s|
  {
    if |s| < |from| then s
    else if s[..|from|] == from then to + ReplaceAll(s[|from|..], from, to)
    else [s[0]] + ReplaceAll(s[1..], from, to)
  }

  /** `ReplaceAll` only copies characters of `s` and of `to`, and with a
      replacement no longer than the pattern it never lengthens the string. */
  lemma {:induction false} ReplaceAllBounds(s: string, from: string, to: string)
    requires |from| > 0
    ensures forall c :: c in ReplaceAll(s, from, to) ==> c in s || c in to
    ensures |to| <= |from| ==> |ReplaceAll(s, from, to)| <= |s|
    decreases |s|
  {
    if |s| < |from| {
    } else if s[..|from|] == from {
      ReplaceAllBounds(s[|from|..], from, to);
      SliceChars(s, |from|, |s|);
    } else {
      ReplaceAllBounds(s[1..], from, to);
      SliceChars(s, 1, |s|);
    }
  }

  /** An occurrence in `s` is either at its head or an occurrence in its tail. */
  lemma OccursSplit(s: string, from: string)
    requires |from| > 0 && |s| > 0
    ensures Occurs(s, from) <==> IsAt(s, from, 0) || Occurs(s[1..], from)
  {
    if Occurs(s, from) && !IsAt(s, from, 0) {
      var i :| 0 <= i <= |s| && IsAt(s, from, i);
      assert s[1..][i - 1..i - 1 + |from|] == s[i..i + |from|];
      assert IsAt(s[1..], from, i - 1);
    }
    if Occurs(s[1..], from) {
      var i :| 0 <= i <= |s[1..]| && IsAt(s[1..], from, i);
      assert i + 1 + |from| <= |s|;
      assert s[i + 1..i + 1 + |from|] == s[1..][i..i + |from|];
      assert IsAt(s, from, i + 1);
    }
  }

  /** When the replacement is shorter than the pattern, `ReplaceAll` changes the
      string exactly when the pattern occurs in it: every occurrence is deleted
      or shortened, and nothing else is touched. */
  lemma {:induction false} ReplaceChangesIffOccurs(s: string, from: string, to: string)
    requires |to| < |from|
    ensures ReplaceAll(s, from, to) == s <==> !Occurs(s, from)
    ensures Occurs(s, from) ==> |ReplaceAll(s, from, to)| < |s|
    decreases |s|
  {
    if |s| < |from| {
      assert !Occurs(s, from);
    } else {
      OccursSplit(s, from);
      if s[..|from|] == from {
        assert IsAt(s, from, 0);
        ReplaceAllBounds(s[|from|..], from, to);
      } else {
        ReplaceChangesIffOccurs(s[1..], from, to);
        assert !IsAt(s, from, 0);
        var r := ReplaceAll(s, from, to);
        assert r == [s[0]] + ReplaceAll(s[1..], from, to);
        if r == s {
          assert r[1..] == s[1..];
        }
      }
    }
  }

  /** Replacing one character by a string, as a per-character rewrite. */
  function Subst(s: string, x: char, v: string): (r: string)
    ensures forall c :: c in r ==> c in v || (c in s && c != x)
    ensures x !in s ==> r == s
  {
    if s == [] then []
    else (if s[0] == x then v else [s[0]]) + Subst(s[1..], x, v)
  }

  lemma {:induction false} SubstAppend(a: string, b: string, x: char, v: string)
    ensures Subst(a + b, x, v) == Subst(a, x, v) + Subst(b, x, v)
  {
    if a != [] {
      assert (a + b)[0] == a[0] && (a + b)[1..] == a[1..] + b;
      SubstAppend(a[1..], b, x, v);
      assert Subst(a + b, x, v) == (if a[0] == x then v else [a[0]]) + Subst(a[1..] + b, x, v);
    } else {
      assert a + b == b;
    }
  }

  /** `strings.Replace` with a one-character pattern is the per-character rewrite:
      the replacement text is never searched again. */
  lemma {:induction false} ReplaceCharIsSubst(s: string, x: char, v: string)
    ensures ReplaceAll(s, [x], v) == Subst(s, x, v)
  {
    if s != [] {
      ReplaceCharIsSubst(s[1..], x, v);
      assert s[..1] == [s[0]];
    }
  }

  /** A pattern holding a character that `s` lacks is never replaced. */
  lemma {:induction false} ReplaceMissingChar(s: string, from: string, to: string, c: char)
    requires |from| > 0 && c in from && c !in s
    ensures ReplaceAll(s, from, to) == s
    decreases |s|
  {
    if |s| >= |from| {
      assert s[..|from|] != from by { assert c !in s[..|from|]; }
      ReplaceMissingChar(s[1..], from, to, c);
      assert [s[0]] + s[1..] == s;
    }
  }

  /** Text before the first possible start of a match is copied unchanged. */
  lemma {:induction false} ReplaceAllAppend(x: string, y: string, from: string, to: string)
    requires |from| > 0 && from[0] !in x
    ensures ReplaceAll(x + y, from, to) == x + ReplaceAll(y, from, to)
    decreases |x|
  {
    if x == [] {
      assert x + y == y;
    } else {
      var s := x + y;
      assert s[0] == x[0] && s[1..] == x[1..] + y;
      ReplaceAllAppend(x[1..], y, from, to);
      if |s| < |from| {
        assert |y| < |from|;
      } else {
        assert s[..|from|][0] != from[0];
      }
    }
  }

  /** `a` is immediately followed by `b` somewhere in `s`. */
  predicate Adjacent(s: string, a: char, b: char)
    decreases |s|
  {
    |s| >= 2 && ((s[0] == a && s[1] == b) || Adjacent(s[1..], a, b))
  }

  /** Two neighbouring characters of `p` are never neighbours in `s`. */
  predicate Excluded(p: string, s: string)
    decreases |p|
  {
    |p| >= 2 && (!Adjacent(s, p[0], p[1]) || Excluded(p[1..], s))
  }

  lemma {:induction false} AdjacentAt(s: string, i: int)
    requires 0 <= i < |s| - 1
    ensures Adjacent(s, s[i], s[i + 1])
    decreases i
  {
    if i > 0 {
      AdjacentAt(s[1..], i - 1);
      assert s[1..][i - 1] == s[i] && s[1..][i] == s[i + 1];
    }
  }

  /** An excluded pattern occurs nowhere in `s`. */
  lemma {:induction false} ExcludedNowhere(p: string, s: string, i: int)
    requires Excluded(p, s) && IsAt(s, p, i)
    ensures false
    decreases |p|
  {
    assert s[i] == p[0] && s[i + 1] == p[1] by {
      assert s[i..i + |p|][0] == p[0] && s[i..i + |p|][1] == p[1];
    }
    AdjacentAt(s, i);
    assert IsAt(s, p[1..], i + 1) by {
      assert s[i + 1..i + 1 + |p[1..]|] == s[i..i + |p|][1..];
    }
    ExcludedNowhere(p[1..], s, i + 1);
  }

  lemma {:induction false} ExcludedInTail(p: string, s: string)
    requires Excluded(p, s) && |s| > 0
    ensures Excluded(p, s[1..])
    decreases |p|
  {
    if Adjacent(s, p[0], p[1]) {
      ExcludedInTail(p[1..], s);
    }
  }

  /** A pattern with a pair of neighbours that are never neighbours in `s` is not replaced. */
  lemma {:induction false} ReplaceExcluded(s: string, from: string, to: string)
    requires Excluded(from, s)
    ensures ReplaceAll(s, from, to) == s
    decreases |s|
  {
    if |s| >= |from| {
      if s[..|from|] == from {
        ExcludedNowhere(from, s, 0);
      }
      ExcludedInTail(from, s);
      ReplaceExcluded(s[1..], from, to);
      assert [s[0]] + s[1..] == s;
    }
  }

  /** Exclusion survives appending to the pattern. */
  lemma {:induction false} ExcludedExtend(p: string, q: string, s: string)
    requires Excluded(p, s)
    ensures Excluded(p + q, s)
    decreases |p|
  {
    assert (p + q)[0] == p[0] && (p + q)[1] == p[1] && (p + q)[1..] == p[1..] + q;
    if Adjacent(s, p[0], p[1]) {
      ExcludedExtend(p[1..], q, s);
    }
  }

  /** A pattern whose last two characters are never neighbours in `s` is excluded. */
  lemma {:induction false} ExcludedByLastPair(p: string, s: string)
    requires |p| >= 2 && !Adjacent(s, p[|p| - 2], p[|p| - 1])
    ensures Excluded(p, s)
    decreases |p|
  {
    if |p| > 2 && Adjacent(s, p[0], p[1]) {
      ExcludedByLastPair(p[1..], s);
    }
  }

  // ---------------------------------------------------------------------
  // strings.TrimSpace, strings.Trim
  // ---------------------------------------------------------------------

  /** `strings.TrimLeft`: drops the leading characters that are in `cut`. */
  function TrimLeft(s: string, cut: set<char>): (r: string)
    ensures |r| <= |s|
    ensures r == [] || r[0] !in cut
    ensures forall i :: 0 <= i < |s| - |r| ==> s[i] in cut
  {
    if s != [] && s[0] in cut then TrimLeft(s[1..], cut) else s
  }

  /** `strings.TrimRight`: drops the trailing characters that are in `cut`. */
  function TrimRight(s: string, cut: set<char>): (r: string)
    ensures |r| <= |s|
    ensures r == [] || r[|r| - 1] !in cut
    ensures forall i :: |r| <= i < |s| ==> s[i] in cut
  {
    if s != [] && s[|s| - 1] in cut then TrimRight(s[..|s| - 1], cut) else s
  }

  /** What `TrimLeft` keeps is a suffix of its input. */
  lemma {:induction false} TrimLeftSuffix(s: string, cut: set<char>)
    ensures TrimLeft(s, cut) == s[|s| - |TrimLeft(s, cut)|..]
  {
    if s != [] && s[0] in cut {
      TrimLeftSuffix(s[1..], cut);
    }
  }

  /** What `TrimRight` keeps is a prefix of its input. */
  lemma {:induction false} TrimRightPrefix(s: string, cut: set<char>)
    ensures TrimRight(s, cut) == s[..|TrimRight(s, cut)|]
  {
    if s != [] && s[|s| - 1] in cut {
      TrimRightPrefix(s[..|s| - 1], cut);
    }
  }

  /** Every character `x[..]` holds, when `x` is a contiguous part of `s`, is in `s`. */
  lemma SliceChars(s: string, i: int, j: int)
    requires 0 <= i <= j <= |s|
    ensures forall c :: c in s[i..j] ==> c in s
  {
    forall c | c in s[i..j] ensures c in s {
      var k :| 0 <= k < j - i && s[i..j][k] == c;
      assert s[i + k] == c;
    }
  }

  /** `strings.Trim(s, cutset)`: drops the leading and the trailing characters
      that are in `cut`. */
  function Trim(s: string, cut: set<char>): string {
    TrimRight(TrimLeft(s, cut), cut)
  }

  /** `Trim` keeps a contiguous part of `s` that neither starts nor ends with a
      character of `cut`; it is empty only when all of `s` is in `cut`. */
  lemma TrimShape(s: string, cut: set<char>)
    ensures var r := Trim(s, cut);
      (forall c :: c in r ==> c in s) &&
      (r == [] || (r[0] !in cut && r[|r| - 1] !in cut)) &&
      (r == [] <==> forall i :: 0 <= i < |s| ==> s[i] in cut)
  {
    var l := TrimLeft(s, cut);
    var r := TrimRight(l, cut);
    TrimLeftSuffix(s, cut);
    SliceChars(s, |s| - |l|, |s|);
    TrimRightPrefix(l, cut);
    SliceChars(l, 0, |r|);
    if r != [] {
      assert r[0] == l[0];
    }
    if l != [] {
      assert l[0] !in cut;
    }
  }

  /** `strings.TrimSpace`. */
  function TrimSpace(s: string): string {
    Trim(s, Spaces())
  }

  /** No ASCII letter is a space. */
  lemma LetterNotSpace(c: char)
    requires IsAsciiLower(c) || IsAsciiUpper(c)
    ensures c !in Spaces()
  {
  }

  /** A string that neither starts nor ends with a character of `cut` is not trimmed. */
  lemma TrimUnchanged(s: string, cut: set<char>)
    requires s == [] || (s[0] !in cut && s[|s| - 1] !in cut)
    ensures Trim(s, cut) == s
  {
  }

  /** A trailing character of `cut` is trimmed away. */
  lemma TrimDropsLast(s: string, c: char, cut: set<char>)
    requires s != [] && s[0] !in cut && s[|s| - 1] !in cut && c in cut
    ensures Trim(s + [c], cut) == s
  {
    var t := s + [c];
    assert t[0] == s[0] && t[|t| - 1] == c && t[..|t| - 1] == s;
    assert TrimLeft(t, cut) == t;
    assert TrimRight(t, cut) == TrimRight(s, cut) == s;
  }

  /** Trimming the left end of a prefix of `s` gives a prefix of the trimmed `s`. */
  lemma TrimLeftOfPrefix(x: string, s: string, cut: set<char>)
    requires x <= s
    ensures TrimLeft(x, cut) <= TrimLeft(s, cut)
  {
    var lx, ls := TrimLeft(x, cut), TrimLeft(s, cut);
    TrimLeftSuffix(x, cut);
    TrimLeftSuffix(s, cut);
    if lx != [] {
      var i := |x| - |lx|;
      // the first character of x outside `cut` is also the first one of s
      assert x[i] == s[i] && s[i] !in cut;
      assert forall k :: 0 <= k < i ==> s[k] in cut;
      assert |s| - |ls| == i;
      assert lx == s[i..|x|];
    }
  }

  /** Trimming the right end of a prefix of `s` gives a prefix of the trimmed `s`. */
  lemma TrimRightOfPrefix(x: string, s: string, cut: set<char>)
    requires x <= s
    ensures TrimRight(x, cut) <= TrimRight(s, cut)
  {
    var rx, rs := TrimRight(x, cut), TrimRight(s, cut);
    TrimRightPrefix(x, cut);
    TrimRightPrefix(s, cut);
    if rx != [] {
      assert x[|rx| - 1] == s[|rx| - 1] && s[|rx| - 1] !in cut;
      assert |rx| <= |rs|;
    }
  }

  /** Truncating and then trimming keeps a prefix of the trimmed whole. */
  lemma {:induction false} TrimOfPrefix(x: string, s: string, cut: set<char>)
    requires x <= s
    ensures Trim(x, cut) <= Trim(s, cut)
  {
    TrimLeftOfPrefix(x, s, cut);
    TrimRightOfPrefix(TrimLeft(x, cut), TrimLeft(s, cut), cut);
  }

  // ---------------------------------------------------------------------
  // strings.ToLower (on ASCII text)
  // ---------------------------------------------------------------------

  function LowerChar(c: char): char {
    if IsAsciiUpper(c) then (c as int + 32) as char else c
  }

  /** `strings.ToLower`, for the ASCII letters: every upper-case letter becomes its
      lower-case partner and every other character is kept. */
  function ToLower(s: string): (r: string)
    ensures |r| == |s|
    ensures forall i :: 0 <= i < |r| ==> !IsAsciiUpper(r[i])
    ensures forall i :: 0 <= i < |r| ==> r[i] == s[i] || (IsAsciiUpper(s[i]) && r[i] as int == s[i] as int + 32)
  {
    if s == [] then [] else [LowerChar(s[0])] + ToLower(s[1..])
  }

  /** Text without upper-case ASCII letters is already lower case. */
  lemma ToLowerNoUpper(s: string)
    requires forall c :: c in s ==> !IsAsciiUpper(c)
    ensures ToLower(s) == s
  {
    var r := ToLower(s);
    forall i | 0 <= i < |s| ensures r[i] == s[i] {
      assert s[i] in s;
    }
  }

  /** `ToLower` works character by character. */
  lemma {:induction false} ToLowerAppend(a: string, b: string)
    ensures ToLower(a + b) == ToLower(a) + ToLower(b)
  {
    if a == [] {
      assert a + b == b;
    } else {
      assert (a + b)[0] == a[0] && (a + b)[1..] == a[1..] + b;
      ToLowerAppend(a[1..], b);
    }
  }
}
