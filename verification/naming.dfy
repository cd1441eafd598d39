/** The identifier spellings the generators derive from schema names:
    `lowercaseFirst` (and its twin `replaceFirstChar { it.lowercase() }`)
    for stub names, and `toPascalCase` for the classes of oneofs and their
    cases. Letters are ASCII here: Kotlin's Unicode case mappings of
    other letters are not modelled. */
module Naming {
  import opened Strings

  predicate IsLower(c: char) {
    'a' <= c <= 'z'
  }

  predicate IsUpper(c: char) {
    'A' <= c <= 'Z'
  }

  /** `Char.lowercase()` on ASCII. */
  function LowerChar(c: char): (d: char)
    ensures !IsUpper(d)
    ensures !IsUpper(c) ==> d == c
    ensures IsUpper(c) ==> IsLower(d) && d as int == c as int + 32
  {
    if IsUpper(c) then (c as int + 32) as char else c
  }

  /** `Char.titlecase(Locale.ROOT)` on ASCII. */
  function TitleChar(c: char): (d: char)
    ensures !IsLower(d)
    ensures !IsLower(c) ==> d == c
    ensures IsLower(c) ==> IsUpper(d) && d as int == c as int - 32
  {
    if IsLower(c) then (c as int - 32) as char else c
  }

  /** `lowercaseFirst()`: the first character lower-cased, the rest
      kept. */
  function LowercaseFirst(s: string): (r: string)
    ensures |r| == |s|
    ensures |s| > 0 ==> !IsUpper(r[0]) && r[1..] == s[1..]
  {
    if |s| > 0 then [LowerChar(s[0])] + s[1..] else s
  }

  /** Lower-casing the first character twice is doing it once, and a name
      that already starts in lower case is left alone. */
  lemma LowercaseFirstIdempotent(s: string)
    ensures LowercaseFirst(LowercaseFirst(s)) == LowercaseFirst(s)
    ensures (|s| == 0 || !IsUpper(s[0])) ==> LowercaseFirst(s) == s
  {
    if |s| > 0 {
      assert [s[0]] + s[1..] == s;
    }
  }

  /** `replaceFirstChar { if (it.isLowerCase()) it.titlecase() else it.toString() }`. */
  function CapitalizeFirst(s: string): (r: string)
    ensures |r| == |s|
    ensures |s| > 0 ==> !IsLower(r[0]) && r[1..] == s[1..]
  {
    if |s| > 0 then [TitleChar(s[0])] + s[1..] else s
  }

  /** `toPascalCase()`: `split("_")`, each piece capitalised, joined
      with nothing in between. */
  function ToPascalCase(s: string): (r: string)
    ensures Free(r, '_')
  {
    var pieces := SplitOn(s, '_');
    SplitFree(s, '_');
    CapitalizedFree(pieces);
    Concat(Capitalized(pieces))
  }

  function Capitalized(pieces: seq<string>): (r: seq<string>)
    ensures |r| == |pieces|
    ensures forall i :: 0 <= i < |r| ==> r[i] == CapitalizeFirst(pieces[i])
  {
    seq(|pieces|, i requires 0 <= i < |pieces| => CapitalizeFirst(pieces[i]))
  }

  /** The pieces of `split` hold no separator. */
  lemma {:induction false} SplitFree(s: string, sep: char)
    ensures forall i :: 0 <= i < |SplitOn(s, sep)| ==> Free(SplitOn(s, sep)[i], sep)
    decreases |s|
  {
    if s != [] {
      SplitFree(s[1..], sep);
    }
  }

  /** Capitalised separator-free pieces concatenate to a separator-free
      string. */
  lemma {:induction false} CapitalizedFree(pieces: seq<string>)
    requires forall i :: 0 <= i < |pieces| ==> Free(pieces[i], '_')
    ensures Free(Concat(Capitalized(pieces)), '_')
    decreases |pieces|
  {
    if pieces != [] {
      CapitalizedFree(pieces[1..]);
      assert Capitalized(pieces)[1..] == Capitalized(pieces[1..]);
      var c := CapitalizeFirst(pieces[0]);
      assert forall k :: 0 <= k < |c| ==> c[k] != '_' by {
        forall k | 0 <= k < |c| ensures c[k] != '_' {
          if k > 0 {
            assert c[k] == pieces[0][1..][k - 1];
          }
        }
      }
    }
  }

  /** A concatenation of pieces that each start with a character that is
      not lower case starts with such a character too. */
  lemma {:induction false} ConcatStart(pieces: seq<string>)
    requires forall i :: 0 <= i < |pieces| ==> |pieces[i]| == 0 || !IsLower(pieces[i][0])
    ensures |Concat(pieces)| == 0 || !IsLower(Concat(pieces)[0])
    decreases |pieces|
  {
    if pieces != [] && |pieces[0]| == 0 {
      ConcatStart(pieces[1..]);
      assert Concat(pieces) == Concat(pieces[1..]);
    }
  }

  /** A Pascal-case name has no underscore left and starts with a
      character that is not lower case, so converting it again changes
      nothing. */
  lemma PascalIdempotent(s: string)
    ensures ToPascalCase(ToPascalCase(s)) == ToPascalCase(s)
  {
    var r := ToPascalCase(s);
    var caps := Capitalized(SplitOn(s, '_'));
    ConcatStart(caps);
    SplitPiece(r, '_', "");
    assert Capitalized([r]) == [CapitalizeFirst(r)];
    assert Concat([CapitalizeFirst(r)]) == CapitalizeFirst(r);
    if |r| > 0 {
      assert [r[0]] + r[1..] == r;
    }
  }

  /** `snake_case` words come back capitalised and run together:
      `toPascalCase` of words joined by `_` is the concatenation of the
      capitalised words. */
  lemma PascalOfWords(words: seq<string>)
    requires |words| > 0
    requires forall i :: 0 <= i < |words| ==> Free(words[i], '_')
    ensures ToPascalCase(Join(words, '_')) == Concat(Capitalized(words))
  {
    JoinSplit(words, '_');
  }
}
