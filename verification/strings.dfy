/** Kotlin's string helpers the model needs, on `seq<char>`:
    `joinToString(sep)`, `split(sep)`, `contains`, `replace` and
    `startsWith`. Only the separators and patterns the library passes are
    used, so no case folding or regular expressions are involved. */
module Strings {

  /** `sub` occurs in `s` at position `i`. */
  predicate At(s: string, i: nat, sub: string) {
    i + |sub| <= |s| && s[i..i + |sub|] == sub
  }

  /** `s.contains(sub)`. */
  predicate Contains(s: string, sub: string) {
    exists i: nat :: i <= |s| && At(s, i, sub)
  }

  /** `s.startsWith(prefix)`. */
  predicate StartsWith(s: string, prefix: string) {
    |prefix| <= |s| && s[..|prefix|] == prefix
  }

  /** `joinToString(sep)` with a one-character separator. */
  function Join(vs: seq<string>, sep: char): string {
    if vs == [] then ""
    else if |vs| == 1 then vs[0]
    else vs[0] + [sep] + Join(vs[1..], sep)
  }

  /** `joinToString("")`. */
  function Concat(vs: seq<string>): (s: string)
    ensures vs == [] ==> s == ""
  {
    if vs == [] then "" else vs[0] + Concat(vs[1..])
  }

  /** `split(sep)` with a one-character separator: the pieces between
      separators, empty ones included, so there is always one more piece
      than separators. */
  function SplitOn(s: string, sep: char): (r: seq<string>)
    ensures |r| > 0
  {
    if s == [] then [""]
    else
      var rest := SplitOn(s[1..], sep);
      if s[0] == sep then [""] + rest else [[s[0]] + rest[0]] + rest[1..]
  }

  predicate Free(v: string, sep: char) {
    forall i :: 0 <= i < |v| ==> v[i] != sep
  }

  /** A separator-free string is one piece, and a separator after it
      starts the next. */
  lemma {:induction false} SplitPiece(a: string, sep: char, rest: string)
    requires Free(a, sep)
    ensures SplitOn(a, sep) == [a]
    ensures SplitOn(a + [sep] + rest, sep) == [a] + SplitOn(rest, sep)
    decreases |a|
  {
    if a == [] {
      assert a + [sep] + rest == [sep] + rest;
      assert ([sep] + rest)[1..] == rest;
    } else {
      SplitPiece(a[1..], sep, rest);
      assert (a + [sep] + rest)[1..] == a[1..] + [sep] + rest;
      assert [a[0]] + a[1..] == a;
    }
  }

  /** `split` inverts `joinToString` on non-empty lists of values free of
      the separator. */
  lemma {:induction false} JoinSplit(vs: seq<string>, sep: char)
    requires |vs| > 0
    requires forall i :: 0 <= i < |vs| ==> Free(vs[i], sep)
    ensures SplitOn(Join(vs, sep), sep) == vs
    decreases |vs|
  {
    if |vs| == 1 {
      SplitPiece(vs[0], sep, "");
    } else {
      SplitPiece(vs[0], sep, Join(vs[1..], sep));
      JoinSplit(vs[1..], sep);
    }
  }

  /** `s.replace(pattern, replacement)`: every occurrence of `pattern`, left to right and
      not overlapping, replaced. */
  function ReplaceAll(s: string, pattern: string, replacement: string): string
    requires |pattern| > 0
    decreases |s|
  {
    if |s| < |pattern| then s
    else if s[..|pattern|] == pattern then replacement + ReplaceAll(s[|pattern|..], pattern, replacement)
    else [s[0]] + ReplaceAll(s[1..], pattern, replacement)
  }

  /** Without an occurrence there is nothing to replace. */
  lemma {:induction false} ReplaceAbsent(s: string, pattern: string, replacement: string)
    requires |pattern| > 0 && !Contains(s, pattern)
    ensures ReplaceAll(s, pattern, replacement) == s
    decreases |s|
  {
    if |s| >= |pattern| {
      assert !At(s, 0, pattern);
      assert [s[0]] + s[1..] == s;
      if Contains(s[1..], pattern) {
        var i: nat :| i <= |s[1..]| && At(s[1..], i, pattern);
        assert s[1..][i..i + |pattern|] == s[i + 1..i + 1 + |pattern|];
        assert At(s, i + 1, pattern);
      }
      ReplaceAbsent(s[1..], pattern, replacement);
    }
  }

  /** An occurrence at the very end, with none before it, is the one
      replaced: `replace` maps `a + pattern` to `a + replacement`. */
  lemma {:induction false} ReplaceAtEnd(a: string, pattern: string, replacement: string)
    requires |pattern| > 0
    requires forall i: nat :: i < |a| ==> !At(a + pattern, i, pattern)
    ensures ReplaceAll(a + pattern, pattern, replacement) == a + replacement
    decreases |a|
  {
    var s := a + pattern;
    if a == [] {
      assert s[..|pattern|] == pattern && s[|pattern|..] == [];
    } else {
      assert !At(s, 0, pattern);
      assert s[1..] == a[1..] + pattern;
      forall i: nat | i < |a[1..]|
        ensures !At(a[1..] + pattern, i, pattern)
      {
        assert !At(s, i + 1, pattern);
        assert (a[1..] + pattern)[i..] == s[i + 1..];
      }
      ReplaceAtEnd(a[1..], pattern, replacement);
      assert [a[0]] + (a[1..] + replacement) == a + replacement;
    }
  }
}
