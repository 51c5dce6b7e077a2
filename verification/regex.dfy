/** A small backtracking regular-expression matcher with the JavaScript
    semantics the entity extractor depends on: greedy quantifiers,
    left-to-right alternation, the `\b` assertion, and the scan performed by
    `String.prototype.match` with the global flag.

    `Ends(r, t, p)` lists the positions at which a match of `r` starting at
    `p` can end, in the order a backtracking engine tries them; the first one
    is the match the engine reports. `Matches` is the declarative meaning of
    a pattern, and `EndsSound`/`EndsComplete` show the two agree. */
module Regex {
  import opened Text

  /** A character class given as inclusive ranges. */
  datatype CharClass = Ranges(ranges: seq<(char, char)>)

  datatype Regex =
    | Empty
    | Class(cc: CharClass)
    | WordBoundary
    | Cat(a: Regex, b: Regex)
    | Alt(a: Regex, b: Regex)
    | Star(r: Regex)

  predicate InClass(cc: CharClass, c: char) { InRanges(cc.ranges, c) }

  /** `\b` at position `p` of `t`. */
  predicate AtBoundary(t: string, p: nat)
    requires p <= |t|
  {
    (p > 0 && IsWordChar(t[p - 1])) != (p < |t| && IsWordChar(t[p]))
  }

  predicate Bounded(es: seq<nat>, lo: nat, hi: nat)
  {
    forall i :: 0 <= i < |es| ==> lo <= es[i] <= hi
  }

  /** End positions of the matches of `r` at `p`, in backtracking order. */
  function Ends(r: Regex, t: string, p: nat): (es: seq<nat>)
    requires p <= |t|
    ensures Bounded(es, p, |t|)
    decreases r, |t| - p, 1, 0
  {
    match r
    case Empty => [p]
    case Class(cc) => if p < |t| && InClass(cc, t[p]) then [p + 1] else []
    case WordBoundary => if AtBoundary(t, p) then [p] else []
    case Cat(a, b) => CatEnds(b, t, p, Ends(a, t, p))
    case Alt(a, b) => Ends(a, t, p) + Ends(b, t, p)
    case Star(x) => StarEnds(x, t, p, Ends(x, t, p)) + [p]
  }

  /** Continue with `b` from each end in `es`, in order. */
  function CatEnds(b: Regex, t: string, p: nat, es: seq<nat>): (rs: seq<nat>)
    requires p <= |t| && Bounded(es, p, |t|)
    ensures Bounded(rs, p, |t|)
    decreases b, |t| - p, 2, |es|
  {
    if es == [] then []
    else Ends(b, t, es[0]) + CatEnds(b, t, p, es[1..])
  }

  /** One more iteration of `x*` from each non-empty end in `es`; an
      iteration that consumed nothing ends the loop, as in JavaScript. */
  function StarEnds(x: Regex, t: string, p: nat, es: seq<nat>): (rs: seq<nat>)
    requires p <= |t| && Bounded(es, p, |t|)
    ensures Bounded(rs, p, |t|)
    decreases Star(x), |t| - p, 0, |es|
  {
    if es == [] then []
    else (if es[0] > p then Ends(Star(x), t, es[0]) else []) + StarEnds(x, t, p, es[1..])
  }

  /** `t[p..e]` is a match of `r` (declaratively). */
  ghost predicate Matches(r: Regex, t: string, p: nat, e: nat)
    decreases r, |t| - p
  {
    p <= e <= |t| &&
    match r
    case Empty => e == p
    case Class(cc) => e == p + 1 && InClass(cc, t[p])
    case WordBoundary => e == p && AtBoundary(t, p)
    case Cat(a, b) => exists m :: p <= m <= e && Matches(a, t, p, m) && Matches(b, t, m, e)
    case Alt(a, b) => Matches(a, t, p, e) || Matches(b, t, p, e)
    case Star(x) => e == p || exists m :: p < m <= e && Matches(x, t, p, m) && Matches(Star(x), t, m, e)
  }

  /** Every end the engine tries is a real match. */
  lemma {:induction false} EndsSound(r: Regex, t: string, p: nat)
    requires p <= |t|
    ensures forall e :: e in Ends(r, t, p) ==> Matches(r, t, p, e)
    decreases r, |t| - p, 1, 0
  {
    match r
    case Empty =>
    case Class(cc) =>
    case WordBoundary =>
    case Cat(a, b) =>
      EndsSound(a, t, p);
      CatSound(a, b, t, p, Ends(a, t, p));
    case Alt(a, b) =>
      EndsSound(a, t, p);
      EndsSound(b, t, p);
    case Star(x) =>
      EndsSound(x, t, p);
      StarSound(x, t, p, Ends(x, t, p));
  }

  lemma {:induction false} CatSound(a: Regex, b: Regex, t: string, p: nat, es: seq<nat>)
    requires p <= |t| && Bounded(es, p, |t|)
    requires forall m :: m in es ==> Matches(a, t, p, m)
    ensures forall e :: e in CatEnds(b, t, p, es) ==> Matches(Cat(a, b), t, p, e)
    decreases b, |t| - p, 2, |es|
  {
    if es != [] {
      var m := es[0];
      EndsSound(b, t, m);
      forall e | e in Ends(b, t, m)
        ensures Matches(Cat(a, b), t, p, e)
      {
        assert p <= m <= e && Matches(a, t, p, m) && Matches(b, t, m, e);
      }
      CatSound(a, b, t, p, es[1..]);
    }
  }

  lemma {:induction false} StarSound(x: Regex, t: string, p: nat, es: seq<nat>)
    requires p <= |t| && Bounded(es, p, |t|)
    requires forall m :: m in es ==> Matches(x, t, p, m)
    ensures forall e :: e in StarEnds(x, t, p, es) ==> Matches(Star(x), t, p, e)
    decreases Star(x), |t| - p, 0, |es|
  {
    if es != [] {
      var m := es[0];
      if m > p {
        EndsSound(Star(x), t, m);
        forall e | e in Ends(Star(x), t, m)
          ensures Matches(Star(x), t, p, e)
        {
          assert p < m <= e && Matches(x, t, p, m) && Matches(Star(x), t, m, e);
        }
      }
      StarSound(x, t, p, es[1..]);
    }
  }

  lemma {:induction false} CatMember(b: Regex, t: string, p: nat, es: seq<nat>, m: nat, e: nat)
    requires p <= |t| && Bounded(es, p, |t|)
    requires m in es && e in Ends(b, t, m)
    ensures e in CatEnds(b, t, p, es)
    decreases |es|
  {
    if es[0] != m {
      CatMember(b, t, p, es[1..], m, e);
    }
  }

  lemma {:induction false} StarMember(x: Regex, t: string, p: nat, es: seq<nat>, m: nat, e: nat)
    requires p <= |t| && Bounded(es, p, |t|)
    requires m in es && p < m && e in Ends(Star(x), t, m)
    ensures e in StarEnds(x, t, p, es)
    decreases |es|
  {
    if es[0] != m {
      StarMember(x, t, p, es[1..], m, e);
    }
  }

  /** Every match is among the ends the engine tries. */
  lemma {:induction false} EndsComplete(r: Regex, t: string, p: nat, e: nat)
    requires Matches(r, t, p, e)
    ensures e in Ends(r, t, p)
    decreases r, |t| - p
  {
    match r
    case Empty =>
    case Class(cc) =>
    case WordBoundary =>
    case Cat(a, b) =>
      var m :| p <= m <= e && Matches(a, t, p, m) && Matches(b, t, m, e);
      EndsComplete(a, t, p, m);
      EndsComplete(b, t, m, e);
      CatMember(b, t, p, Ends(a, t, p), m, e);
    case Alt(a, b) =>
      if Matches(a, t, p, e) {
        EndsComplete(a, t, p, e);
      } else {
        EndsComplete(b, t, p, e);
      }
    case Star(x) =>
      if e != p {
        var m :| p < m <= e && Matches(x, t, p, m) && Matches(Star(x), t, m, e);
        EndsComplete(x, t, p, m);
        EndsComplete(Star(x), t, m, e);
        StarMember(x, t, p, Ends(x, t, p), m, e);
      }
  }

  /** The engine finds a match at `p` exactly when one exists. */
  lemma MatchesAtIff(r: Regex, t: string, p: nat)
    requires p <= |t|
    ensures Ends(r, t, p) != [] <==> exists e :: Matches(r, t, p, e)
  {
    EndsSound(r, t, p);
    if Ends(r, t, p) != [] {
      assert Matches(r, t, p, Ends(r, t, p)[0]);
    }
    if e :| Matches(r, t, p, e) {
      EndsComplete(r, t, p, e);
    }
  }

  datatype Span = Span(start: nat, end: nat)

  /** Spans strictly left of each other, inside `[lo, hi]`. */
  predicate Ordered(ms: seq<Span>, lo: nat, hi: nat)
  {
    && (forall i :: 0 <= i < |ms| ==> lo <= ms[i].start <= ms[i].end <= hi)
    && (forall i :: 0 <= i < |ms| - 1 ==> ms[i].end <= ms[i + 1].start && ms[i].start < ms[i + 1].start)
  }

  /** The global match scan from position `p`: try every start position in
      turn; after a match resume at its end, or one further when it was
      empty. */
  function Scan(r: Regex, t: string, p: nat): (ms: seq<Span>)
    requires p <= |t| + 1
    ensures Ordered(ms, p, |t|)
    decreases |t| + 1 - p
  {
    if p > |t| then []
    else
      var es := Ends(r, t, p);
      if es == [] then
        var rest := Scan(r, t, p + 1);
        OrderedWiden(rest, p, p + 1, |t|);
        rest
      else
        var e := es[0];
        var rest := Scan(r, t, if e == p then p + 1 else e);
        OrderedCons(Span(p, e), rest, p, if e == p then p + 1 else e, |t|);
        [Span(p, e)] + rest
  }

  lemma OrderedWiden(ms: seq<Span>, lo: nat, mid: nat, hi: nat)
    requires lo <= mid && Ordered(ms, mid, hi)
    ensures Ordered(ms, lo, hi)
  {
  }

  lemma OrderedCons(s: Span, ms: seq<Span>, lo: nat, mid: nat, hi: nat)
    requires lo <= s.start <= s.end <= hi && s.end <= mid && s.start < mid
    requires Ordered(ms, mid, hi)
    ensures Ordered([s] + ms, lo, hi)
  {
    var r := [s] + ms;
    forall i | 0 <= i < |r| - 1
      ensures r[i].end <= r[i + 1].start && r[i].start < r[i + 1].start
    {
      assert r[i + 1] == ms[i];
      if i > 0 {
        assert r[i] == ms[i - 1];
      }
    }
  }

  /** Every span in `ms` is a match of `r`. */
  ghost predicate AllMatch(r: Regex, t: string, ms: seq<Span>)
  {
    forall i :: 0 <= i < |ms| ==> Matches(r, t, ms[i].start, ms[i].end)
  }

  lemma AllMatchCons(r: Regex, t: string, s: Span, ms: seq<Span>)
    requires Matches(r, t, s.start, s.end) && AllMatch(r, t, ms)
    ensures AllMatch(r, t, [s] + ms)
  {
    var l := [s] + ms;
    forall i | 0 <= i < |l|
      ensures Matches(r, t, l[i].start, l[i].end)
    {
      if i > 0 {
        assert l[i] == ms[i - 1];
      }
    }
  }

  /** Every span the scan reports is a match. */
  lemma {:induction false} ScanSound(r: Regex, t: string, p: nat)
    requires p <= |t| + 1
    ensures AllMatch(r, t, Scan(r, t, p))
    decreases |t| + 1 - p
  {
    if p <= |t| {
      var es := Ends(r, t, p);
      if es == [] {
        ScanSound(r, t, p + 1);
      } else {
        EndsSound(r, t, p);
        var e := es[0];
        var next := if e == p then p + 1 else e;
        ScanSound(r, t, next);
        assert Matches(r, t, p, e);
        AllMatchCons(r, t, Span(p, e), Scan(r, t, next));
      }
    }
  }

  /** The scan is leftmost: the engine finds no match at any position between
      the scan start and the first reported span. */
  lemma {:induction false} ScanLeftmost(r: Regex, t: string, p: nat)
    requires p <= |t| + 1
    ensures forall q :: p <= q <= |t| && (Scan(r, t, p) == [] || q < Scan(r, t, p)[0].start) ==>
              Ends(r, t, q) == []
    decreases |t| + 1 - p
  {
    if p <= |t| && Ends(r, t, p) == [] {
      ScanLeftmost(r, t, p + 1);
    }
  }

  /** The matched substrings, as `t.match(r)` with the global flag returns
      them (the empty list standing for `null`). */
  function MatchAll(r: Regex, t: string): (ws: seq<string>)
    ensures |ws| == |Scan(r, t, 0)|
    ensures forall i :: 0 <= i < |ws| ==> OccursAt(t, ws[i], Scan(r, t, 0)[i].start)
  {
    var ms := Scan(r, t, 0);
    seq(|ms|, i requires 0 <= i < |ms| => t[ms[i].start..ms[i].end])
  }

  /** A scan over positions where the engine finds nothing reports nothing. */
  lemma {:induction false} ScanNone(r: Regex, t: string, p: nat)
    requires p <= |t| + 1
    requires forall q :: p <= q <= |t| ==> Ends(r, t, q) == []
    ensures Scan(r, t, p) == []
    decreases |t| + 1 - p
  {
    if p <= |t| {
      ScanNone(r, t, p + 1);
    }
  }

  /** A pattern with no match anywhere in `t` yields no strings. */
  lemma NoMatchNoStrings(r: Regex, t: string)
    requires forall q, e :: !Matches(r, t, q, e)
    ensures MatchAll(r, t) == []
  {
    forall q | 0 <= q <= |t|
      ensures Ends(r, t, q) == []
    {
      MatchesAtIff(r, t, q);
    }
    ScanNone(r, t, 0);
  }

  // Pattern building blocks.

  function Lit(c: char): Regex { Class(Ranges([(c, c)])) }

  /** Concatenation of a list of patterns. */
  function Seqs(rs: seq<Regex>): Regex
  {
    if rs == [] then Empty else Cat(rs[0], Seqs(rs[1..]))
  }

  /** Alternation of a non-empty list of patterns, left to right. */
  function Alts(rs: seq<Regex>): Regex
    requires rs != []
  {
    if |rs| == 1 then rs[0] else Alt(rs[0], Alts(rs[1..]))
  }

  /** `r?` (greedy). */
  function Opt(r: Regex): Regex { Alt(r, Empty) }

  /** `r{n}`. */
  function Rep(r: Regex, n: nat): Regex
  {
    if n == 0 then Empty else Cat(r, Rep(r, n - 1))
  }

  /** `r{0,n}` (greedy): `(?:r(?:r…)?)?`. */
  function UpTo(r: Regex, n: nat): Regex
  {
    if n == 0 then Empty else Opt(Cat(r, UpTo(r, n - 1)))
  }

  /** `r{m,n}` (greedy). */
  function Between(r: Regex, m: nat, n: nat): Regex
    requires m <= n
  {
    Cat(Rep(r, m), UpTo(r, n - m))
  }

  /** `r{n,}` (greedy). */
  function AtLeast(r: Regex, n: nat): Regex { Cat(Rep(r, n), Star(r)) }

  /** A literal word; when `ci` (the `i` flag), each ASCII letter matches in
      either case. */
  function Word(s: string, ci: bool): Regex
  {
    if s == [] then Empty
    else
      var c := s[0];
      var head := if ci && (IsUpper(c) || IsLower(c))
        then Class(Ranges([(UpperOf(c), UpperOf(c)), (LowerChar(c), LowerChar(c))]))
        else Lit(c);
      Cat(head, Word(s[1..], ci))
  }

  function UpperOf(c: char): char
  {
    if IsLower(c) then (c as int - 32) as char else c
  }

  // Runs of one character class.

  lemma CatSplit(a: Regex, b: Regex, t: string, p: nat, e: nat)
    requires Matches(Cat(a, b), t, p, e)
    ensures exists m :: p <= m <= e && Matches(a, t, p, m) && Matches(b, t, m, e)
  {
  }

  lemma StarSplit(x: Regex, t: string, p: nat, e: nat)
    requires Matches(Star(x), t, p, e) && e != p
    ensures exists m :: p < m <= e && Matches(x, t, p, m) && Matches(Star(x), t, m, e)
  {
  }

  /** Every character of `t[p..e]` is in the class. */
  predicate AllIn(cc: CharClass, t: string, p: nat, e: nat)
    requires p <= e <= |t|
  {
    forall i :: p <= i < e ==> InClass(cc, t[i])
  }

  /** `[c]{n}` matches exactly `n` characters of the class. */
  lemma {:induction false} RepClass(cc: CharClass, n: nat, t: string, p: nat, e: nat)
    ensures Matches(Rep(Class(cc), n), t, p, e) <==> p + n == e <= |t| && AllIn(cc, t, p, e)
    decreases n
  {
    if n > 0 {
      var rest := Rep(Class(cc), n - 1);
      assert Rep(Class(cc), n) == Cat(Class(cc), rest);
      if Matches(Rep(Class(cc), n), t, p, e) {
        CatSplit(Class(cc), rest, t, p, e);
        var m :| p <= m <= e && Matches(Class(cc), t, p, m) && Matches(rest, t, m, e);
        RepClass(cc, n - 1, t, m, e);
      }
      if p + n == e <= |t| && AllIn(cc, t, p, e) {
        RepClass(cc, n - 1, t, p + 1, e);
        assert Matches(Class(cc), t, p, p + 1);
      }
    }
  }

  /** `[c]*` matches any run of characters of the class. */
  lemma {:induction false} StarClass(cc: CharClass, t: string, p: nat, e: nat)
    ensures Matches(Star(Class(cc)), t, p, e) <==> p <= e <= |t| && AllIn(cc, t, p, e)
    decreases e - p
  {
    if Matches(Star(Class(cc)), t, p, e) && e != p {
      StarSplit(Class(cc), t, p, e);
      var m :| p < m <= e && Matches(Class(cc), t, p, m) && Matches(Star(Class(cc)), t, m, e);
      StarClass(cc, t, m, e);
    }
    if p < e <= |t| && AllIn(cc, t, p, e) {
      StarClass(cc, t, p + 1, e);
      assert Matches(Class(cc), t, p, p + 1);
    }
  }

  /** `[c]{n,}` matches any run of at least `n` characters of the class. */
  lemma AtLeastClass(cc: CharClass, n: nat, t: string, p: nat, e: nat)
    ensures Matches(AtLeast(Class(cc), n), t, p, e) <==> p + n <= e <= |t| && AllIn(cc, t, p, e)
  {
    assert AtLeast(Class(cc), n) == Cat(Rep(Class(cc), n), Star(Class(cc)));
    if Matches(AtLeast(Class(cc), n), t, p, e) {
      CatSplit(Rep(Class(cc), n), Star(Class(cc)), t, p, e);
      var m :| p <= m <= e && Matches(Rep(Class(cc), n), t, p, m) && Matches(Star(Class(cc)), t, m, e);
      RepClass(cc, n, t, p, m);
      StarClass(cc, t, m, e);
    }
    if p + n <= e <= |t| && AllIn(cc, t, p, e) {
      RepClass(cc, n, t, p, p + n);
      StarClass(cc, t, p + n, e);
    }
  }

  /** `[c]{0,n}` matches any run of at most `n` characters of the class. */
  lemma {:induction false} UpToClass(cc: CharClass, n: nat, t: string, p: nat, e: nat)
    ensures Matches(UpTo(Class(cc), n), t, p, e) <==> p <= e <= p + n && e <= |t| && AllIn(cc, t, p, e)
    decreases n
  {
    if n > 0 {
      var inner := Cat(Class(cc), UpTo(Class(cc), n - 1));
      assert UpTo(Class(cc), n) == Alt(inner, Empty);
      if Matches(inner, t, p, e) {
        CatSplit(Class(cc), UpTo(Class(cc), n - 1), t, p, e);
        var m :| p <= m <= e && Matches(Class(cc), t, p, m) && Matches(UpTo(Class(cc), n - 1), t, m, e);
        UpToClass(cc, n - 1, t, m, e);
      }
      if p < e <= p + n && e <= |t| && AllIn(cc, t, p, e) {
        UpToClass(cc, n - 1, t, p + 1, e);
        assert Matches(Class(cc), t, p, p + 1);
        assert Matches(inner, t, p, e);
      }
    }
  }

  /** `[c]{lo,hi}` matches any run of `lo` to `hi` characters of the class. */
  lemma BetweenClass(cc: CharClass, lo: nat, hi: nat, t: string, p: nat, e: nat)
    requires lo <= hi
    ensures Matches(Between(Class(cc), lo, hi), t, p, e) <==> p + lo <= e <= p + hi && e <= |t| && AllIn(cc, t, p, e)
  {
    var r, u := Rep(Class(cc), lo), UpTo(Class(cc), hi - lo);
    if Matches(Between(Class(cc), lo, hi), t, p, e) {
      CatSplit(r, u, t, p, e);
      var m :| p <= m <= e && Matches(r, t, p, m) && Matches(u, t, m, e);
      RepClass(cc, lo, t, p, m);
      UpToClass(cc, hi - lo, t, m, e);
    }
    if p + lo <= e <= p + hi && e <= |t| && AllIn(cc, t, p, e) {
      RepClass(cc, lo, t, p, p + lo);
      UpToClass(cc, hi - lo, t, p + lo, e);
    }
  }

  /** Positions `ms[0] <= … <= ms[|rs|]` through which each piece of `rs`
      matches in turn. */
  ghost predicate Chain(rs: seq<Regex>, t: string, ms: seq<nat>)
  {
    && |ms| == |rs| + 1 && ms[|rs|] <= |t|
    && forall i :: 0 <= i < |rs| ==> Matches(rs[i], t, ms[i], ms[i + 1])
  }

  /** A match of a concatenation passes through one position per piece. */
  lemma {:induction false} SeqsSplit(rs: seq<Regex>, t: string, p: nat, e: nat)
    ensures Matches(Seqs(rs), t, p, e) ==> exists ms :: Chain(rs, t, ms) && ms[0] == p && ms[|rs|] == e
    decreases |rs|
  {
    if Matches(Seqs(rs), t, p, e) {
      if rs == [] {
        assert Chain(rs, t, [p]);
      } else {
        CatSplit(rs[0], Seqs(rs[1..]), t, p, e);
        var m :| p <= m <= e && Matches(rs[0], t, p, m) && Matches(Seqs(rs[1..]), t, m, e);
        SeqsSplit(rs[1..], t, m, e);
        var ms :| Chain(rs[1..], t, ms) && ms[0] == m && ms[|rs| - 1] == e;
        var full := [p] + ms;
        forall i | 0 <= i < |rs|
          ensures Matches(rs[i], t, full[i], full[i + 1])
        {
          if i > 0 {
            assert rs[i] == rs[1..][i - 1];
          }
        }
        assert Chain(rs, t, full);
      }
    }
  }

  /** Conversely, a chain of piece matches is a match of the concatenation. */
  lemma {:induction false} SeqsBuild(rs: seq<Regex>, t: string, ms: seq<nat>)
    requires Chain(rs, t, ms)
    ensures Matches(Seqs(rs), t, ms[0], ms[|rs|])
    decreases |rs|
  {
    if rs != [] {
      var rest := ms[1..];
      forall i | 0 <= i < |rs| - 1
        ensures Matches(rs[1..][i], t, rest[i], rest[i + 1])
      {
        assert Matches(rs[i + 1], t, ms[i + 1], ms[i + 2]);
      }
      assert Chain(rs[1..], t, rest);
      SeqsBuild(rs[1..], t, rest);
      assert Matches(rs[0], t, ms[0], ms[1]);
    }
  }

  /** A match of an alternation list is a match of one of its members. */
  lemma {:induction false} AltsSplit(rs: seq<Regex>, t: string, p: nat, e: nat)
    requires rs != []
    ensures Matches(Alts(rs), t, p, e) ==> exists i :: 0 <= i < |rs| && Matches(rs[i], t, p, e)
    decreases |rs|
  {
    if |rs| > 1 && Matches(Alts(rs), t, p, e) && !Matches(rs[0], t, p, e) {
      AltsSplit(rs[1..], t, p, e);
      var i :| 0 <= i < |rs| - 1 && Matches(rs[1..][i], t, p, e);
      assert rs[i + 1] == rs[1..][i];
    }
  }

  /** A case-insensitive word matches exactly its own length, and each
      character agrees with the word's after lower-casing. */
  lemma {:induction false} WordCaseless(s: string, t: string, p: nat, e: nat)
    ensures Matches(Word(s, true), t, p, e) ==>
              p + |s| == e && forall i :: 0 <= i < |s| ==> LowerChar(t[p + i]) == LowerChar(s[i])
    decreases |s|
  {
    if s != [] && Matches(Word(s, true), t, p, e) {
      var c := s[0];
      var head := if IsUpper(c) || IsLower(c)
        then Class(Ranges([(UpperOf(c), UpperOf(c)), (LowerChar(c), LowerChar(c))]))
        else Lit(c);
      assert Word(s, true) == Cat(head, Word(s[1..], true));
      CatSplit(head, Word(s[1..], true), t, p, e);
      var m :| p <= m <= e && Matches(head, t, p, m) && Matches(Word(s[1..], true), t, m, e);
      WordCaseless(s[1..], t, m, e);
      assert m == p + 1;
      if IsUpper(c) || IsLower(c) {
        CaselessChar(c, t[p]);
      } else {
        LitChar(c, t[p]);
      }
      forall i | 0 <= i < |s|
        ensures LowerChar(t[p + i]) == LowerChar(s[i])
      {
        if i > 0 {
          assert t[p + i] == t[m + (i - 1)] && s[i] == s[1..][i - 1];
        }
      }
    }
  }

  lemma CaselessChar(c: char, d: char)
    requires IsUpper(c) || IsLower(c)
    requires InClass(Ranges([(UpperOf(c), UpperOf(c)), (LowerChar(c), LowerChar(c))]), d)
    ensures LowerChar(d) == LowerChar(c)
  {
    var rs := [(UpperOf(c), UpperOf(c)), (LowerChar(c), LowerChar(c))];
    assert InRanges(rs, d) == ((UpperOf(c) <= d <= UpperOf(c)) || InRanges(rs[1..], d));
    assert InRanges(rs[1..], d) == ((LowerChar(c) <= d <= LowerChar(c)) || InRanges(rs[1..][1..], d));
    assert rs[1..][1..] == [];
  }

  lemma LitChar(c: char, d: char)
    requires InClass(Ranges([(c, c)]), d)
    ensures d == c
  {
    assert InRanges([(c, c)], d) == ((c <= d <= c) || InRanges([(c, c)][1..], d));
    assert [(c, c)][1..] == [];
  }

  // The match the engine reports, computed piece by piece.

  /** The first end the engine tries for `r` at `p`, the one a scan
      reports, is `e`. */
  ghost predicate FirstEnd(r: Regex, t: string, p: nat, e: nat)
  {
    p <= |t| && Ends(r, t, p) != [] && Ends(r, t, p)[0] == e
  }

  /** Greedy concatenation: when the first end of `a` lets `b` match, the
      first end of `a` then `b` is the first end of `b` from there. */
  lemma FirstCat(a: Regex, b: Regex, t: string, p: nat, m: nat, e: nat)
    requires FirstEnd(a, t, p, m) && FirstEnd(b, t, m, e)
    ensures FirstEnd(Cat(a, b), t, p, e)
  {
    var es := Ends(a, t, p);
    assert CatEnds(b, t, p, es) == Ends(b, t, m) + CatEnds(b, t, p, es[1..]);
  }

  lemma FirstAlt(a: Regex, b: Regex, t: string, p: nat, e: nat)
    requires FirstEnd(a, t, p, e)
    ensures FirstEnd(Alt(a, b), t, p, e)
  {
  }

  /** An optional part that cannot match is skipped. */
  lemma FirstOptSkipped(x: Regex, t: string, p: nat)
    requires p <= |t| && Ends(x, t, p) == []
    ensures FirstEnd(Opt(x), t, p, p)
  {
  }

  /** A repetition whose body cannot match ends where it starts. */
  lemma FirstStarNone(x: Regex, t: string, p: nat)
    requires p <= |t| && Ends(x, t, p) == []
    ensures FirstEnd(Star(x), t, p, p)
  {
    assert StarEnds(x, t, p, []) == [];
  }

  lemma CatNone(a: Regex, b: Regex, t: string, p: nat)
    requires p <= |t| && Ends(a, t, p) == []
    ensures Ends(Cat(a, b), t, p) == []
  {
  }

  lemma {:induction false} FirstRepClass(cc: CharClass, n: nat, t: string, p: nat)
    requires p + n <= |t| && AllIn(cc, t, p, p + n)
    ensures FirstEnd(Rep(Class(cc), n), t, p, p + n)
    decreases n
  {
    if n > 0 {
      FirstRepClass(cc, n - 1, t, p + 1);
      assert FirstEnd(Class(cc), t, p, p + 1);
      FirstCat(Class(cc), Rep(Class(cc), n - 1), t, p, p + 1, p + n);
    }
  }

  /** `[c]*` first takes the whole run of the class. */
  lemma {:induction false} FirstStarClass(cc: CharClass, t: string, p: nat, e: nat)
    requires p <= e <= |t| && AllIn(cc, t, p, e) && (e == |t| || !InClass(cc, t[e]))
    ensures FirstEnd(Star(Class(cc)), t, p, e)
    decreases e - p
  {
    if p < e {
      FirstStarClass(cc, t, p + 1, e);
      var rest := Ends(Star(Class(cc)), t, p + 1);
      assert StarEnds(Class(cc), t, p, []) == [];
      assert StarEnds(Class(cc), t, p, [p + 1]) == rest;
      assert Ends(Class(cc), t, p) == [p + 1];
    } else {
      assert Ends(Class(cc), t, p) == [];
      assert StarEnds(Class(cc), t, p, []) == [];
    }
  }

  /** When every match at `p` ends at `e`, the engine reports that one. */
  lemma FirstOfOnly(r: Regex, t: string, p: nat, e: nat)
    requires Matches(r, t, p, e)
    requires forall f :: Matches(r, t, p, f) ==> f == e
    ensures FirstEnd(r, t, p, e)
  {
    EndsComplete(r, t, p, e);
    EndsSound(r, t, p);
    assert Ends(r, t, p)[0] in Ends(r, t, p);
  }

  /** Positions where the engine finds nothing are skipped by the scan. */
  lemma {:induction false} ScanSkip(r: Regex, t: string, p: nat, k: nat)
    requires p <= k <= |t| + 1
    requires forall q :: p <= q < k ==> Ends(r, t, q) == []
    ensures Scan(r, t, p) == Scan(r, t, k)
    decreases k - p
  {
    if p < k {
      ScanSkip(r, t, p + 1, k);
    }
  }

  /** A pattern that matches only at `s`, where the engine reports the
      span up to `e`, yields exactly that one string. */
  lemma SingleMatch(r: Regex, t: string, s: nat, e: nat)
    requires s < e && FirstEnd(r, t, s, e)
    requires forall q, f :: Matches(r, t, q, f) ==> q == s
    ensures MatchAll(r, t) == [t[s..e]]
  {
    forall q | 0 <= q <= |t| && q != s
      ensures Ends(r, t, q) == []
    {
      MatchesAtIff(r, t, q);
    }
    ScanSkip(r, t, 0, s);
    ScanNone(r, t, e);
    assert Scan(r, t, s) == [Span(s, e)] + Scan(r, t, e);
    assert Scan(r, t, 0) == [Span(s, e)];
  }
}
