/** String primitives with the JavaScript semantics the services rely on:
    `toLowerCase` (restricted to ASCII), `indexOf`/`includes`, `substring`
    with its clamping, `split` on a run-of-separators regular expression,
    `join`, and the ECMAScript white-space set used by `\s` and `trim`. */
module Text {

  /** True iff `c` lies in one of the inclusive ranges. */
  function InRanges(rs: seq<(char, char)>, c: char): bool
  {
    if rs == [] then false
    else (rs[0].0 <= c <= rs[0].1) || InRanges(rs[1..], c)
  }

  /** ECMAScript WhiteSpace and LineTerminator code points: the class `\s`
      and what `String.prototype.trim` removes. */
  const WhitespaceRanges: seq<(char, char)> :=
    [('\t', '\r'), (' ', ' '), ('\U{00A0}', '\U{00A0}'), ('\U{1680}', '\U{1680}'),
     ('\U{2000}', '\U{200A}'), ('\U{2028}', '\U{2029}'), ('\U{202F}', '\U{202F}'),
     ('\U{205F}', '\U{205F}'), ('\U{3000}', '\U{3000}'), ('\U{FEFF}', '\U{FEFF}')]

  predicate IsSpace(c: char) { InRanges(WhitespaceRanges, c) }

  predicate IsDigit(c: char) { '0' <= c <= '9' }
  predicate IsUpper(c: char) { 'A' <= c <= 'Z' }
  predicate IsLower(c: char) { 'a' <= c <= 'z' }

  /** The regular-expression word characters `[A-Za-z0-9_]` (`\w`, `\b`). */
  predicate IsWordChar(c: char) { IsUpper(c) || IsLower(c) || IsDigit(c) || c == '_' }

  /** `toLowerCase` on one character, ASCII letters only. */
  function LowerChar(c: char): (d: char)
    ensures IsUpper(c) ==> IsLower(d)
    ensures !IsUpper(c) ==> d == c
    ensures !IsUpper(d)
  {
    if IsUpper(c) then (c as int + 32) as char else c
  }

  function Lower(s: string): (r: string)
    ensures |r| == |s|
  {
    seq(|s|, i requires 0 <= i < |s| => LowerChar(s[i]))
  }

  /** Lowering twice is lowering once. */
  lemma LowerIdempotent(s: string)
    ensures Lower(Lower(s)) == Lower(s)
  {
  }

  /** `k` occurs in `s` starting at index `p`. */
  predicate OccursAt(s: string, k: string, p: int)
  {
    0 <= p && p + |k| <= |s| && s[p..p + |k|] == k
  }

  /** `s.indexOf(k, p)` for `p <= |s|`: the first occurrence at or after `p`,
      or -1. */
  function IndexFrom(s: string, k: string, p: nat): (r: int)
    requires p <= |s|
    ensures r == -1 || (p <= r && OccursAt(s, k, r))
    ensures r == -1 ==> forall j :: p <= j ==> !OccursAt(s, k, j)
    ensures r != -1 ==> forall j :: p <= j < r ==> !OccursAt(s, k, j)
    decreases |s| - p
  {
    if p + |k| > |s| then -1
    else if s[p..p + |k|] == k then p
    else IndexFrom(s, k, p + 1)
  }

  /** `s.indexOf(k)`. */
  function IndexOf(s: string, k: string): int
  {
    IndexFrom(s, k, 0)
  }

  /** `s.includes(k)`. */
  predicate Includes(s: string, k: string)
  {
    IndexOf(s, k) >= 0
  }

  /** `includes` agrees with the declarative notion of a substring. */
  lemma IncludesIff(s: string, k: string)
    ensures Includes(s, k) <==> exists p :: OccursAt(s, k, p)
  {
  }

  /** The empty string is included in every string, at index 0. */
  lemma EmptyIncluded(s: string)
    ensures IndexOf(s, "") == 0
  {
  }

  function Clamp(x: int, n: nat): (r: nat)
    ensures r <= n
    ensures 0 <= x <= n ==> r == x
  {
    if x < 0 then 0 else if x > n then n else x
  }

  /** `s.substring(a, b)`: both bounds clamped to `[0, |s|]`, swapped when
      the first exceeds the second. */
  function Substring(s: string, a: int, b: int): (r: string)
    ensures 0 <= a <= b <= |s| ==> r == s[a..b]
    ensures |r| <= |s|
  {
    var i := Clamp(a, |s|);
    var j := Clamp(b, |s|);
    if i <= j then s[i..j] else s[j..i]
  }

  /** `s.substring(0, n)` for `n >= 0`: the first `min(n, |s|)` characters. */
  lemma PrefixSubstring(s: string, n: nat)
    ensures Substring(s, 0, n) == s[..if n <= |s| then n else |s|]
  {
  }

  /** Index of the first character of `s` at or after `i` satisfying `sep`,
      or `|s|`. */
  function FirstWhere(s: string, i: nat, sep: char -> bool): (j: nat)
    requires i <= |s|
    ensures i <= j <= |s|
    ensures forall k :: i <= k < j ==> !sep(s[k])
    ensures j < |s| ==> sep(s[j])
    decreases |s| - i
  {
    if i == |s| || sep(s[i]) then i else FirstWhere(s, i + 1, sep)
  }

  /** End of the maximal run of `sep` characters starting at `i`. */
  function RunEnd(s: string, i: nat, sep: char -> bool): (j: nat)
    requires i <= |s|
    ensures i <= j <= |s|
    ensures forall k :: i <= k < j ==> sep(s[k])
    ensures j < |s| ==> !sep(s[j])
    decreases |s| - i
  {
    if i == |s| || !sep(s[i]) then i else RunEnd(s, i + 1, sep)
  }

  /** All characters of `w` avoid `sep`. */
  predicate Avoids(w: string, sep: char -> bool)
  {
    forall k :: 0 <= k < |w| ==> !sep(w[k])
  }

  /** `s.split(/X+/)` where `X` is the character class `sep`: the pieces
      between maximal runs of separators, including an empty leading or
      trailing piece when `s` starts or ends with a separator. */
  function Split(s: string, sep: char -> bool): (r: seq<string>)
    ensures |r| >= 1
    ensures forall i :: 0 <= i < |r| ==> Avoids(r[i], sep)
    decreases |s|
  {
    var i := FirstWhere(s, 0, sep);
    if i == |s| then [s]
    else
      var j := RunEnd(s, i, sep);
      [s[..i]] + Split(s[j..], sep)
  }

  /** The first separator at or after `i` is the one the caller exhibits. */
  lemma FirstWhereIs(s: string, i: nat, j: nat, sep: char -> bool)
    requires i <= j <= |s|
    requires forall k :: i <= k < j ==> !sep(s[k])
    requires j < |s| ==> sep(s[j])
    ensures FirstWhere(s, i, sep) == j
  {
  }

  /** The end of the separator run at `i` is the one the caller exhibits. */
  lemma RunEndIs(s: string, i: nat, j: nat, sep: char -> bool)
    requires i <= j <= |s|
    requires forall k :: i <= k < j ==> sep(s[k])
    requires j < |s| ==> !sep(s[j])
    ensures RunEnd(s, i, sep) == j
  {
  }

  /** A string without separators is one piece. */
  lemma SplitWhole(s: string, sep: char -> bool)
    requires Avoids(s, sep)
    ensures Split(s, sep) == [s]
  {
    FirstWhereIs(s, 0, |s|, sep);
  }

  /** A string whose first separator run spans `i` to `j` splits into the
      piece before it and the pieces after it. */
  lemma SplitAt(s: string, i: nat, j: nat, sep: char -> bool)
    requires i < |s| && FirstWhere(s, 0, sep) == i && RunEnd(s, i, sep) == j
    ensures Split(s, sep) == [s[..i]] + Split(s[j..], sep)
  {
  }

  /** A string that starts with a separator run splits into an empty piece
      and the pieces after the run. */
  lemma SplitLeadingRun(s: string, sep: char -> bool)
    requires 0 < |s| && sep(s[0])
    ensures Split(s, sep) == [""] + Split(s[RunEnd(s, 0, sep)..], sep)
  {
    FirstWhereIs(s, 0, 0, sep);
  }

  /** `pieces.join(glue)`. */
  function Join(pieces: seq<string>, glue: string): string
  {
    if pieces == [] then ""
    else if |pieces| == 1 then pieces[0]
    else pieces[0] + glue + Join(pieces[1..], glue)
  }

  /** A character of `c` that occurs in `Join(pieces, glue)` occurs in one of
      the pieces or in the glue. */
  lemma JoinChars(pieces: seq<string>, glue: string, c: char)
    requires c !in glue
    requires forall i :: 0 <= i < |pieces| ==> c !in pieces[i]
    ensures c !in Join(pieces, glue)
  {
    if |pieces| > 1 {
      JoinChars(pieces[1..], glue, c);
    }
  }

  /** `s.trim().length > 0`: some character is not white space. */
  predicate HasNonSpace(s: string)
  {
    exists k :: 0 <= k < |s| && !IsSpace(s[k])
  }

  /** `toLowerCase` works character by character. */
  lemma LowerConcat(s: string, u: string)
    ensures Lower(s + u) == Lower(s) + Lower(u)
  {
  }

  /** What a string includes, every extension of it includes. */
  lemma IncludesExtend(s: string, u: string, k: string)
    requires Includes(s, k)
    ensures Includes(s + u, k)
  {
    var p := IndexOf(s, k);
    assert (s + u)[p..p + |k|] == s[p..p + |k|];
    assert OccursAt(s + u, k, p);
    IncludesIff(s + u, k);
  }

  /** A string lacking one of the characters of `k` does not include `k`. */
  lemma LacksChar(s: string, k: string, c: char)
    requires c in k && c !in s
    ensures !Includes(s, k)
  {
    forall p
      ensures !OccursAt(s, k, p)
    {
      if 0 <= p && p + |k| <= |s| {
        assert c !in s[p..p + |k|];
      }
    }
    IncludesIff(s, k);
  }

  /** Every piece of a split occurs in the split string. */
  lemma {:induction false} SplitPiecesOccur(s: string, sep: char -> bool, w: string)
    requires w in Split(s, sep)
    ensures exists p :: OccursAt(s, w, p)
    decreases |s|
  {
    var i := FirstWhere(s, 0, sep);
    if i == |s| {
      assert OccursAt(s, w, 0);
    } else {
      var j := RunEnd(s, i, sep);
      SplitAt(s, i, j, sep);
      if w == s[..i] {
        assert OccursAt(s, w, 0);
      } else {
        SplitPiecesOccur(s[j..], sep, w);
        var p :| OccursAt(s[j..], w, p);
        OccursInSuffix(s, j, w, p);
      }
    }
  }

  /** An occurrence in a suffix is an occurrence in the whole string. */
  lemma OccursInSuffix(s: string, j: nat, w: string, p: nat)
    requires j <= |s| && OccursAt(s[j..], w, p)
    ensures OccursAt(s, w, j + p)
  {
    assert s[j + p..j + p + |w|] == s[j..][p..p + |w|];
  }

  /** A character absent from `s` is absent from each of its substrings. */
  lemma SubstringChars(s: string, a: int, b: int, c: char)
    requires c !in s
    ensures c !in Substring(s, a, b)
  {
    var r := Substring(s, a, b);
    forall k | 0 <= k < |r|
      ensures r[k] != c
    {
      var i := Clamp(a, |s|);
      var j := Clamp(b, |s|);
      if i <= j {
        assert r[k] == s[i + k];
      } else {
        assert r[k] == s[j + k];
      }
    }
  }
}
