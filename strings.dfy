/**
 * String primitives the scripts rely on: prefix tests, code-point order
 * (Python's `str` comparison; Dafny's `<=` on sequences is the prefix
 * order, not this one), ASCII case folding (Ruby's `casecmp`), whitespace
 * stripping and the split-at-first-separator of Ruby's `split(sep, 2)`.
 */
module Strings {
  import opened Wrappers

  predicate StartsWith(s: string, prefix: string) {
    |prefix| <= |s| && s[..|prefix|] == prefix
  }

  // ---------------------------------------------------------------------
  // Code-point lexicographic order
  // ---------------------------------------------------------------------

  /** `a <= b` for Python strings: compare code points left to right; a
      proper prefix is smaller. */
  predicate LexLe(a: string, b: string) {
    if a == [] then true
    else if b == [] then false
    else a[0] < b[0] || (a[0] == b[0] && LexLe(a[1..], b[1..]))
  }

  /** `a < b` for Python strings. */
  predicate LexLt(a: string, b: string) {
    LexLe(a, b) && a != b
  }

  lemma {:induction false} LexLeReflexive(a: string)
    ensures LexLe(a, a)
  {
    if a != [] {
      LexLeReflexive(a[1..]);
    }
  }

  lemma {:induction false} LexLeTotal(a: string, b: string)
    ensures LexLe(a, b) || LexLe(b, a)
  {
    if a != [] && b != [] && a[0] == b[0] {
      LexLeTotal(a[1..], b[1..]);
    }
  }

  lemma {:induction false} LexLeAntisymmetric(a: string, b: string)
    requires LexLe(a, b) && LexLe(b, a)
    ensures a == b
  {
    if a != [] {
      assert b != [] && a[0] == b[0];
      LexLeAntisymmetric(a[1..], b[1..]);
      assert a == [a[0]] + a[1..] && b == [b[0]] + b[1..];
    }
  }

  lemma {:induction false} LexLeTransitive(a: string, b: string, c: string)
    requires LexLe(a, b) && LexLe(b, c)
    ensures LexLe(a, c)
  {
    if a != [] && b != [] && c != [] && a[0] == b[0] && b[0] == c[0] {
      LexLeTransitive(a[1..], b[1..], c[1..]);
    }
  }

  /** Not `a <= b` means `b < a`: the order is total. */
  lemma LexNotLe(a: string, b: string)
    requires !LexLe(a, b)
    ensures LexLt(b, a)
  {
    LexLeTotal(a, b);
    if b == a {
      LexLeReflexive(a);
    }
  }

  // ---------------------------------------------------------------------
  // ASCII case folding
  // ---------------------------------------------------------------------

  function AsciiLowerChar(c: char): char {
    if 'A' <= c <= 'Z' then (c as int + 32) as char else c
  }

  /** Folds `A`..`Z` to `a`..`z` and leaves every other character alone. */
  function AsciiLower(s: string): (r: string)
    ensures |r| == |s|
    ensures forall i :: 0 <= i < |s| ==> r[i] == AsciiLowerChar(s[i])
  {
    seq(|s|, i requires 0 <= i < |s| => AsciiLowerChar(s[i]))
  }

  // ---------------------------------------------------------------------
  // Whitespace
  // ---------------------------------------------------------------------

  /** The whitespace that Python's `bytes.strip()` and `bytes.split()` remove. */
  predicate IsPySpace(c: char) {
    c == ' ' || c == '\t' || c == '\n' || c == '\r' || c == '\U{000B}' || c == '\U{000C}'
  }

  /** The whitespace that Ruby's `String#strip` removes. */
  predicate IsRubySpace(c: char) {
    c == '\0' || IsPySpace(c)
  }

  /** Drops the leading characters that satisfy `space`. */
  function TrimStart(s: string, space: char -> bool): (r: string)
    ensures |r| <= |s| && r == s[|s| - |r|..]
    ensures r == [] || !space(r[0])
    ensures forall k :: 0 <= k < |s| - |r| ==> space(s[k])
  {
    if s != [] && space(s[0]) then TrimStart(s[1..], space) else s
  }

  /** Drops the trailing characters that satisfy `space`. */
  function TrimEnd(s: string, space: char -> bool): (r: string)
    ensures |r| <= |s| && r == s[..|r|]
    ensures r == [] || !space(r[|r| - 1])
    ensures forall k :: |r| <= k < |s| ==> space(s[k])
  {
    if s != [] && space(s[|s| - 1]) then TrimEnd(s[..|s| - 1], space) else s
  }

  function Strip(s: string, space: char -> bool): string {
    TrimEnd(TrimStart(s, space), space)
  }

  /** A stripped string does not start with a space. */
  lemma StripStartsSolid(s: string, space: char -> bool)
    ensures Strip(s, space) == [] || !space(Strip(s, space)[0])
  {
    var u := TrimStart(s, space);
    var t := TrimEnd(u, space);
    if t != [] {
      assert t[0] == u[0];
    }
  }

  // ---------------------------------------------------------------------
  // Searching and splitting
  // ---------------------------------------------------------------------

  /** The first position at or after `from` where `sep` occurs in `s`. */
  function FindFrom(s: string, sep: string, from: nat): (r: Option<nat>)
    requires from <= |s|
    ensures r.Some? ==> from <= r.value <= |s| && StartsWith(s[r.value..], sep)
    ensures r.Some? ==> forall j :: from <= j < r.value ==> !StartsWith(s[j..], sep)
    ensures r.None? ==> forall j :: from <= j <= |s| ==> !StartsWith(s[j..], sep)
    decreases |s| - from
  {
    if StartsWith(s[from..], sep) then Some(from)
    else if from == |s| then None
    else FindFrom(s, sep, from + 1)
  }

  /** Ruby's `s.split(sep, 2)` for a non-empty literal separator: the empty
      string splits into no fields; otherwise the text before the first
      `sep` and everything after it, or `s` alone when `sep` does not occur. */
  function RubySplit2(s: string, sep: string): (r: seq<string>)
    requires sep != []
    ensures r == [] <==> s == []
    ensures |r| <= 2
    ensures |r| == 1 ==> r[0] == s && forall j :: 0 <= j <= |s| ==> !StartsWith(s[j..], sep)
    ensures |r| == 2 ==> s == r[0] + sep + r[1]
    ensures |r| == 2 ==> forall j :: 0 <= j < |r[0]| ==> !StartsWith(s[j..], sep)
  {
    if s == [] then []
    else
      match FindFrom(s, sep, 0)
      case None => [s]
      case Some(i) =>
        assert s[i..][..|sep|] == sep;
        assert s == s[..i] + sep + s[i + |sep|..];
        [s[..i], s[i + |sep|..]]
  }

  /** Ruby's multiple assignment `a, b = fields`: a missing field is `nil`. */
  function Field(fields: seq<string>, k: nat): (r: Option<string>)
    ensures r.Some? <==> k < |fields|
    ensures r.Some? ==> r.value == fields[k]
  {
    if k < |fields| then Some(fields[k]) else None
  }

  /** `a` followed by `sep` and `b`, or `a` alone when there is no `b`. */
  function Joined(a: string, sep: string, b: Option<string>): string {
    if b.Some? then a + sep + b.value else a
  }

  /** A string that does not start like `sep` has a non-empty first field. */
  lemma SplitFirstNonEmpty(s: string, sep: string)
    requires sep != [] && s != [] && s[0] != sep[0]
    ensures RubySplit2(s, sep)[0] != []
  {
  }

  /** `a, b = s.split(sep, 2)` is undone by joining the two fields again. */
  lemma SplitJoined(s: string, sep: string)
    requires sep != []
    ensures var r := RubySplit2(s, sep);
      Joined(Field(r, 0).GetOr(""), sep, Field(r, 1)) == s
  {
  }

  /** The first piece of a split holds no separator; a string that is not
      split holds none at all. */
  lemma SplitPrefixFree(s: string, c: char, r: seq<string>)
    requires r == RubySplit2(s, [c])
    ensures |r| >= 1 ==> c !in r[0]
    ensures |r| == 1 ==> c !in s
  {
    if |r| >= 1 {
      forall j | 0 <= j < |r[0]| ensures r[0][j] != c {
        assert !StartsWith(s[j..], [c]);
        if |r| == 2 {
          assert s[j] == r[0][j];
        }
      }
    }
  }
}
