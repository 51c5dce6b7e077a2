/** Entity extraction from recognised text (`OCRService.extractEntities`):
    seven global regular expressions run in a fixed order, each match
    becoming an entity with a fixed confidence. The patterns are written
    out in the `Regex` engine; confidences are hundredths. */
module Ocr {
  import opened Text
  import opened Regex
  import opened Types
  import opened Sorting

  // Character classes.

  const Digits := Ranges([('0', '9')])
  const Digit := Class(Digits)
  const Uppers := Ranges([('A', 'Z')])
  const UpperLetter := Class(Uppers)
  /** `[a-z]` under the `i` flag. */
  const AnyCaseLetter := Class(Ranges([('A', 'Z'), ('a', 'z')]))
  /** `\s`. */
  const Space := Class(Ranges(WhitespaceRanges))
  /** `[/-]`. */
  const DateSeparator := Class(Ranges([('/', '/'), ('-', '-')]))
  /** `[\s-]`. */
  const PhoneSeparator := Class(Ranges(WhitespaceRanges + [('-', '-')]))
  /** `[A-Za-z0-9._%+-]`. */
  const EmailLocalChar := Class(Ranges([('A', 'Z'), ('a', 'z'), ('0', '9'), ('.', '.'), ('_', '_'), ('%', '%'), ('+', '+'), ('-', '-')]))
  /** `[A-Za-z0-9.-]`. */
  const EmailDomainChar := Class(Ranges([('A', 'Z'), ('a', 'z'), ('0', '9'), ('.', '.'), ('-', '-')]))
  /** `[A-Z|a-z]`: the bar is a literal member of the class. */
  const EmailTopChar := Class(Ranges([('A', 'Z'), ('|', '|'), ('a', 'z')]))

  // The patterns, in the order the extractor runs them.

  /** `\b\d{1,2}[/-]\d{1,2}[/-]\d{2,4}\b` */
  const DayMonthYear := Seqs([WordBoundary, Between(Digit, 1, 2), DateSeparator, Between(Digit, 1, 2),
                              DateSeparator, Between(Digit, 2, 4), WordBoundary])

  /** `\b\d{4}[/-]\d{1,2}[/-]\d{1,2}\b` */
  const YearMonthDay := Seqs([WordBoundary, Rep(Digit, 4), DateSeparator, Between(Digit, 1, 2),
                              DateSeparator, Between(Digit, 1, 2), WordBoundary])

  /** `\b(?:Jan|…|Dec)[a-z]* \d{1,2},? \d{4}\b` with the `i` flag. */
  const MonthNameDate := Seqs([WordBoundary, Alts([Word("Jan", true), Word("Feb", true), Word("Mar", true), Word("Apr", true),
                                     Word("May", true), Word("Jun", true), Word("Jul", true), Word("Aug", true),
                                     Word("Sep", true), Word("Oct", true), Word("Nov", true), Word("Dec", true)]),
                               Star(AnyCaseLetter), Lit(' '), Between(Digit, 1, 2), Opt(Lit(',')), Lit(' '),
                               Rep(Digit, 4), WordBoundary])

  /** `\d+(?:,\d{3})*(?:\.\d{2})?` */
  const Figure := Seqs([AtLeast(Digit, 1), Star(Cat(Lit(','), Rep(Digit, 3))), Opt(Cat(Lit('.'), Rep(Digit, 2)))])

  /** `\$\s?<figure>|<figure>\s?(?:USD|EUR|GBP|INR)` with the `i` flag. */
  const Amount := Alt(Seqs([Lit('$'), Opt(Space), Figure]),
                      Seqs([Figure, Opt(Space), Alts([Word("USD", true), Word("EUR", true), Word("GBP", true), Word("INR", true)])]))

  /** `\b[A-Z]{2,}[0-9]{6,}\b|\b[0-9]{8,}\b` */
  const PrefixedNumber := Seqs([WordBoundary, AtLeast(UpperLetter, 2), AtLeast(Digit, 6), WordBoundary])
  const LongNumber := Seqs([WordBoundary, AtLeast(Digit, 8), WordBoundary])
  const DocumentNumber := Alt(PrefixedNumber, LongNumber)

  /** `\b[A-Za-z0-9._%+-]+@[A-Za-z0-9.-]+\.[A-Z|a-z]{2,}\b` */
  const Email := Seqs([WordBoundary, AtLeast(EmailLocalChar, 1), Lit('@'), AtLeast(EmailDomainChar, 1), Lit('.'),
                       AtLeast(EmailTopChar, 2), WordBoundary])

  /** `\b\+?\d{1,3}[\s-]?\(?\d{3}\)?[\s-]?\d{3}[\s-]?\d{4}\b` */
  const Phone := Seqs([WordBoundary, Opt(Lit('+')), Between(Digit, 1, 3), Opt(PhoneSeparator), Opt(Lit('(')),
                       Rep(Digit, 3), Opt(Lit(')')), Opt(PhoneSeparator), Rep(Digit, 3), Opt(PhoneSeparator),
                       Rep(Digit, 4), WordBoundary])

  const DateConfidence := 80
  const AmountConfidence := 85
  const NumberConfidence := 70
  const EmailConfidence := 90
  const PhoneConfidence := 85

  /** At most this many document numbers are reported. */
  const MaxNumbers := 5

  function ConfidenceOf(k: EntityKind): nat
  {
    match k
    case DateEntity => DateConfidence
    case AmountEntity => AmountConfidence
    case NumberEntity => NumberConfidence
    case EmailEntity => EmailConfidence
    case PhoneEntity => PhoneConfidence
    case NameEntity => 0
  }

  /** Position of a kind in the output. */
  function Rank(k: EntityKind): nat
  {
    match k
    case DateEntity => 0
    case AmountEntity => 1
    case NumberEntity => 2
    case EmailEntity => 3
    case PhoneEntity => 4
    case NameEntity => 5
  }

  /** One entity per matched string, in match order. */
  function Label(k: EntityKind, ws: seq<string>): (es: seq<Entity>)
    ensures |es| == |ws|
    ensures forall i :: 0 <= i < |es| ==> es[i] == Entity(k, ws[i], ConfidenceOf(k))
  {
    seq(|ws|, i requires 0 <= i < |ws| => Entity(k, ws[i], ConfidenceOf(k)))
  }

  /** The matches of the three date patterns, pattern by pattern. */
  function DateMatches(t: string): seq<string>
  {
    MatchAll(DayMonthYear, t) + MatchAll(YearMonthDay, t) + MatchAll(MonthNameDate, t)
  }

  /** The entity list built from the matched strings of each family, in
      the order the extractor appends them. */
  function Assemble(dates: seq<string>, amounts: seq<string>, numbers: seq<string>,
                    emails: seq<string>, phones: seq<string>): (es: seq<Entity>)
    ensures forall i :: 0 <= i < |es| ==> es[i].kind != NameEntity
    ensures forall i :: 0 <= i < |es| ==> es[i].confidence == ConfidenceOf(es[i].kind)
    ensures forall i, j :: 0 <= i < j < |es| ==> Rank(es[i].kind) <= Rank(es[j].kind)
  {
    Label(DateEntity, dates) + Label(AmountEntity, amounts) + Label(NumberEntity, numbers)
    + Label(EmailEntity, emails) + Label(PhoneEntity, phones)
  }

  /** `extractEntities`. */
  function ExtractEntities(t: string): (es: seq<Entity>)
    ensures forall i :: 0 <= i < |es| ==> es[i].kind != NameEntity
    ensures forall i :: 0 <= i < |es| ==> es[i].confidence == ConfidenceOf(es[i].kind)
    ensures forall i, j :: 0 <= i < j < |es| ==> Rank(es[i].kind) <= Rank(es[j].kind)
  {
    Assemble(DateMatches(t), MatchAll(Amount, t), Take(MatchAll(DocumentNumber, t), MaxNumbers),
             MatchAll(Email, t), MatchAll(Phone, t))
  }

  /** The values of the entities of one kind, in order. */
  function ValuesOf(es: seq<Entity>, k: EntityKind): seq<string>
  {
    if es == [] then [] else (if es[0].kind == k then [es[0].value] else []) + ValuesOf(es[1..], k)
  }

  lemma {:induction false} ValuesOfConcat(a: seq<Entity>, b: seq<Entity>, k: EntityKind)
    ensures ValuesOf(a + b, k) == ValuesOf(a, k) + ValuesOf(b, k)
  {
    if a == [] {
      assert a + b == b;
    } else {
      assert (a + b)[0] == a[0];
      assert (a + b)[1..] == a[1..] + b;
      ValuesOfConcat(a[1..], b, k);
    }
  }

  lemma {:induction false} ValuesOfLabel(k: EntityKind, ws: seq<string>, k2: EntityKind)
    ensures ValuesOf(Label(k, ws), k2) == if k == k2 then ws else []
  {
    if ws != [] {
      assert Label(k, ws)[1..] == Label(k, ws[1..]);
      ValuesOfLabel(k, ws[1..], k2);
      assert ws == [ws[0]] + ws[1..];
    }
  }

  /** Each kind's values in an assembled list are exactly that family's
      strings. */
  lemma AssembleByKind(d: seq<string>, a: seq<string>, n: seq<string>, e: seq<string>, p: seq<string>, k: EntityKind)
    ensures ValuesOf(Assemble(d, a, n, e, p), k)
         == match k
            case DateEntity => d
            case AmountEntity => a
            case NumberEntity => n
            case EmailEntity => e
            case PhoneEntity => p
            case NameEntity => []
  {
    var ld, la, ln, le, lp := Label(DateEntity, d), Label(AmountEntity, a), Label(NumberEntity, n),
                             Label(EmailEntity, e), Label(PhoneEntity, p);
    assert Assemble(d, a, n, e, p) == ld + la + ln + le + lp;
    ValuesOfConcat5(ld, la, ln, le, lp, k);
    ValuesOfLabel(DateEntity, d, k);
    ValuesOfLabel(AmountEntity, a, k);
    ValuesOfLabel(NumberEntity, n, k);
    ValuesOfLabel(EmailEntity, e, k);
    ValuesOfLabel(PhoneEntity, p, k);
  }

  lemma ValuesOfConcat5(l1: seq<Entity>, l2: seq<Entity>, l3: seq<Entity>, l4: seq<Entity>, l5: seq<Entity>, k: EntityKind)
    ensures ValuesOf(l1 + l2 + l3 + l4 + l5, k)
         == ValuesOf(l1, k) + ValuesOf(l2, k) + ValuesOf(l3, k) + ValuesOf(l4, k) + ValuesOf(l5, k)
  {
    ValuesOfConcat(l1 + l2 + l3 + l4, l5, k);
    ValuesOfConcat(l1 + l2 + l3, l4, k);
    ValuesOfConcat(l1 + l2, l3, k);
    ValuesOfConcat(l1, l2, k);
  }

  /** The output grouped by kind: the dates are the matches of the three date
      patterns, pattern by pattern and each in text order; the amounts,
      emails and phones are all their matches in text order; the numbers are
      the first five number matches; no name is ever produced. */
  lemma ExtractByKind(t: string)
    ensures ValuesOf(ExtractEntities(t), DateEntity)
         == MatchAll(DayMonthYear, t) + MatchAll(YearMonthDay, t) + MatchAll(MonthNameDate, t)
    ensures ValuesOf(ExtractEntities(t), AmountEntity) == MatchAll(Amount, t)
    ensures ValuesOf(ExtractEntities(t), NumberEntity) == Take(MatchAll(DocumentNumber, t), MaxNumbers)
    ensures ValuesOf(ExtractEntities(t), EmailEntity) == MatchAll(Email, t)
    ensures ValuesOf(ExtractEntities(t), PhoneEntity) == MatchAll(Phone, t)
    ensures ValuesOf(ExtractEntities(t), NameEntity) == []
  {
    var d, a, n, e, p := DateMatches(t), MatchAll(Amount, t), Take(MatchAll(DocumentNumber, t), MaxNumbers),
                         MatchAll(Email, t), MatchAll(Phone, t);
    AssembleByKind(d, a, n, e, p, DateEntity);
    AssembleByKind(d, a, n, e, p, AmountEntity);
    AssembleByKind(d, a, n, e, p, NumberEntity);
    AssembleByKind(d, a, n, e, p, EmailEntity);
    AssembleByKind(d, a, n, e, p, PhoneEntity);
    AssembleByKind(d, a, n, e, p, NameEntity);
  }

  /** At most five numbers are reported, and they are the first matches. */
  lemma NumbersCapped(t: string)
    ensures |ValuesOf(ExtractEntities(t), NumberEntity)| <= MaxNumbers
    ensures ValuesOf(ExtractEntities(t), NumberEntity) <= MatchAll(DocumentNumber, t)
    ensures |MatchAll(DocumentNumber, t)| >= MaxNumbers ==> |ValuesOf(ExtractEntities(t), NumberEntity)| == MaxNumbers
  {
    var ns := MatchAll(DocumentNumber, t);
    var vs := ValuesOf(ExtractEntities(t), NumberEntity);
    assert vs == Take(ns, MaxNumbers) by { ExtractByKind(t); }
    assert vs == ns[..|vs|];
  }

  predicate AllIncluded(t: string, ws: seq<string>)
  {
    forall i :: 0 <= i < |ws| ==> Includes(t, ws[i])
  }

  lemma MatchAllIncluded(r: Regex, t: string)
    ensures AllIncluded(t, MatchAll(r, t))
  {
    var ws := MatchAll(r, t);
    forall i | 0 <= i < |ws|
      ensures Includes(t, ws[i])
    {
      IncludesIff(t, ws[i]);
    }
  }

  lemma AllIncludedConcat(t: string, a: seq<string>, b: seq<string>)
    requires AllIncluded(t, a) && AllIncluded(t, b)
    ensures AllIncluded(t, a + b)
  {
  }

  lemma AllIncludedPrefix(t: string, a: seq<string>, b: seq<string>)
    requires AllIncluded(t, a) && b <= a
    ensures AllIncluded(t, b)
  {
  }

  lemma AssembleIncluded(t: string, d: seq<string>, a: seq<string>, n: seq<string>, e: seq<string>, p: seq<string>)
    requires AllIncluded(t, d) && AllIncluded(t, a) && AllIncluded(t, n) && AllIncluded(t, e) && AllIncluded(t, p)
    ensures forall i :: 0 <= i < |Assemble(d, a, n, e, p)| ==> Includes(t, Assemble(d, a, n, e, p)[i].value)
  {
    var ws := d + a + n + e + p;
    assert AllIncluded(t, ws);
    var es := Assemble(d, a, n, e, p);
    assert |es| == |ws|;
    forall i | 0 <= i < |es|
      ensures es[i].value == ws[i]
    {
    }
  }

  /** Every entity value is a substring of the text. */
  lemma ValuesOccurInText(t: string)
    ensures forall i :: 0 <= i < |ExtractEntities(t)| ==> Includes(t, ExtractEntities(t)[i].value)
  {
    var d, a, n, e, p := DateMatches(t), MatchAll(Amount, t), Take(MatchAll(DocumentNumber, t), MaxNumbers),
                         MatchAll(Email, t), MatchAll(Phone, t);
    MatchAllIncluded(DayMonthYear, t);
    MatchAllIncluded(YearMonthDay, t);
    MatchAllIncluded(MonthNameDate, t);
    MatchAllIncluded(Amount, t);
    MatchAllIncluded(DocumentNumber, t);
    MatchAllIncluded(Email, t);
    MatchAllIncluded(Phone, t);
    AllIncludedConcat(t, MatchAll(DayMonthYear, t), MatchAll(YearMonthDay, t));
    AllIncludedConcat(t, MatchAll(DayMonthYear, t) + MatchAll(YearMonthDay, t), MatchAll(MonthNameDate, t));
    AllIncludedPrefix(t, MatchAll(DocumentNumber, t), n);
    AssembleIncluded(t, d, a, n, e, p);
  }

  // What the document-number pattern accepts.

  ghost predicate UpperRun(t: string, p: nat, m: nat)
  {
    p <= m <= |t| && forall i :: p <= i < m ==> IsUpper(t[i])
  }

  ghost predicate DigitRun(t: string, p: nat, m: nat)
  {
    p <= m <= |t| && forall i :: p <= i < m ==> IsDigit(t[i])
  }

  /** `t[p..e]` is two or more capital letters followed by six or more
      digits, or eight or more digits, and starts and ends at word
      boundaries. */
  ghost predicate NumberToken(t: string, p: nat, e: nat)
  {
    && p <= e <= |t| && AtBoundary(t, p) && AtBoundary(t, e)
    && ((exists m :: p + 2 <= m && m + 6 <= e && UpperRun(t, p, m) && DigitRun(t, m, e))
        || (p + 8 <= e && DigitRun(t, p, e)))
  }

  lemma SeqsOf3(a: Regex, b: Regex, c: Regex)
    ensures Seqs([a, b, c]) == Cat(a, Cat(b, Cat(c, Empty)))
  {
    assert [a, b, c][0] == a && [a, b, c][1..] == [b, c];
    assert [b, c][0] == b && [b, c][1..] == [c];
    assert [c][0] == c && [c][1..] == [];
    assert Seqs([c]) == Cat(c, Empty);
    assert Seqs([b, c]) == Cat(b, Seqs([c]));
  }

  lemma SeqsOf4(a: Regex, b: Regex, c: Regex, d: Regex)
    ensures Seqs([a, b, c, d]) == Cat(a, Seqs([b, c, d]))
  {
    assert [a, b, c, d][0] == a && [a, b, c, d][1..] == [b, c, d];
  }

  lemma ClassFacts(c: char)
    ensures InClass(Digits, c) <==> IsDigit(c)
    ensures InClass(Uppers, c) <==> IsUpper(c)
  {
    assert Digits.ranges == [('0', '9')] && [('0', '9')][1..] == [];
    assert InRanges([('0', '9')], c) == (('0' <= c <= '9') || InRanges([], c));
    assert Uppers.ranges == [('A', 'Z')] && [('A', 'Z')][1..] == [];
    assert InRanges([('A', 'Z')], c) == (('A' <= c <= 'Z') || InRanges([], c));
  }

  lemma DigitsRun(t: string, p: nat, e: nat, n: nat)
    requires p <= e <= |t|
    ensures Matches(AtLeast(Digit, n), t, p, e) <==> p + n <= e && DigitRun(t, p, e)
  {
    AtLeastClass(Digits, n, t, p, e);
    forall i | p <= i < e { ClassFacts(t[i]); }
  }

  lemma UppersRun(t: string, p: nat, e: nat, n: nat)
    requires p <= e <= |t|
    ensures Matches(AtLeast(UpperLetter, n), t, p, e) <==> p + n <= e && UpperRun(t, p, e)
  {
    AtLeastClass(Uppers, n, t, p, e);
    forall i | p <= i < e { ClassFacts(t[i]); }
  }

  /** `\b X Y \b`, for patterns `X` and `Y`. */
  lemma BoundedPair(x: Regex, y: Regex, t: string, p: nat, e: nat)
    ensures Matches(Cat(WordBoundary, Cat(x, Cat(y, Cat(WordBoundary, Empty)))), t, p, e)
        <==> p <= e <= |t| && AtBoundary(t, p) && AtBoundary(t, e)
             && exists m :: p <= m <= e && Matches(x, t, p, m) && Matches(y, t, m, e)
  {
    if Matches(Cat(WordBoundary, Cat(x, Cat(y, Cat(WordBoundary, Empty)))), t, p, e) {
      BoundedPairSplit(x, y, t, p, e);
    }
    if p <= e <= |t| && AtBoundary(t, p) && AtBoundary(t, e)
       && exists m :: p <= m <= e && Matches(x, t, p, m) && Matches(y, t, m, e) {
      var m :| p <= m <= e && Matches(x, t, p, m) && Matches(y, t, m, e);
      BoundedPairBuild(x, y, t, p, m, e);
    }
  }

  lemma BoundedPairSplit(x: Regex, y: Regex, t: string, p: nat, e: nat)
    requires Matches(Cat(WordBoundary, Cat(x, Cat(y, Cat(WordBoundary, Empty)))), t, p, e)
    ensures p <= e <= |t| && AtBoundary(t, p) && AtBoundary(t, e)
    ensures exists m :: p <= m <= e && Matches(x, t, p, m) && Matches(y, t, m, e)
  {
    var tail := Cat(WordBoundary, Empty);
    CatSplit(WordBoundary, Cat(x, Cat(y, tail)), t, p, e);
    CatSplit(x, Cat(y, tail), t, p, e);
    var m :| p <= m <= e && Matches(x, t, p, m) && Matches(Cat(y, tail), t, m, e);
    CatSplit(y, tail, t, m, e);
    var n :| m <= n <= e && Matches(y, t, m, n) && Matches(tail, t, n, e);
    CatSplit(WordBoundary, Empty, t, n, e);
    assert n == e;
  }

  lemma BoundedPairBuild(x: Regex, y: Regex, t: string, p: nat, m: nat, e: nat)
    requires p <= m <= e <= |t| && AtBoundary(t, p) && AtBoundary(t, e)
    requires Matches(x, t, p, m) && Matches(y, t, m, e)
    ensures Matches(Cat(WordBoundary, Cat(x, Cat(y, Cat(WordBoundary, Empty)))), t, p, e)
  {
    var tail := Cat(WordBoundary, Empty);
    assert Matches(WordBoundary, t, e, e) && Matches(Empty, t, e, e);
    assert Matches(tail, t, e, e);
    assert Matches(Cat(y, tail), t, m, e);
    assert Matches(Cat(x, Cat(y, tail)), t, p, e);
    assert Matches(WordBoundary, t, p, p);
  }

  /** `\b X \b`. */
  lemma BoundedOne(x: Regex, t: string, p: nat, e: nat)
    ensures Matches(Cat(WordBoundary, Cat(x, Cat(WordBoundary, Empty))), t, p, e)
        <==> p <= e <= |t| && AtBoundary(t, p) && AtBoundary(t, e) && Matches(x, t, p, e)
  {
    var tail := Cat(WordBoundary, Empty);
    if Matches(Cat(WordBoundary, Cat(x, tail)), t, p, e) {
      CatSplit(WordBoundary, Cat(x, tail), t, p, e);
      CatSplit(x, tail, t, p, e);
      var m :| p <= m <= e && Matches(x, t, p, m) && Matches(tail, t, m, e);
      CatSplit(WordBoundary, Empty, t, m, e);
      assert m == e;
    }
    if p <= e <= |t| && AtBoundary(t, p) && AtBoundary(t, e) && Matches(x, t, p, e) {
      assert Matches(WordBoundary, t, e, e) && Matches(Empty, t, e, e);
      assert Matches(tail, t, e, e);
      assert Matches(Cat(x, tail), t, p, e);
      assert Matches(WordBoundary, t, p, p);
    }
  }

  lemma PrefixedNumberIff(t: string, p: nat, e: nat)
    ensures Matches(PrefixedNumber, t, p, e)
        <==> p <= e <= |t| && AtBoundary(t, p) && AtBoundary(t, e)
             && exists m :: p + 2 <= m && m + 6 <= e && UpperRun(t, p, m) && DigitRun(t, m, e)
  {
    SeqsOf4(WordBoundary, AtLeast(UpperLetter, 2), AtLeast(Digit, 6), WordBoundary);
    SeqsOf3(AtLeast(UpperLetter, 2), AtLeast(Digit, 6), WordBoundary);
    BoundedPair(AtLeast(UpperLetter, 2), AtLeast(Digit, 6), t, p, e);
    if Matches(PrefixedNumber, t, p, e) {
      var m :| p <= m <= e && Matches(AtLeast(UpperLetter, 2), t, p, m) && Matches(AtLeast(Digit, 6), t, m, e);
      UppersRun(t, p, m, 2);
      DigitsRun(t, m, e, 6);
    }
    if p <= e <= |t| && AtBoundary(t, p) && AtBoundary(t, e)
       && exists m :: p + 2 <= m && m + 6 <= e && UpperRun(t, p, m) && DigitRun(t, m, e) {
      var m :| p + 2 <= m && m + 6 <= e && UpperRun(t, p, m) && DigitRun(t, m, e);
      UppersRun(t, p, m, 2);
      DigitsRun(t, m, e, 6);
    }
  }

  lemma LongNumberIff(t: string, p: nat, e: nat)
    ensures Matches(LongNumber, t, p, e)
        <==> p <= e <= |t| && AtBoundary(t, p) && AtBoundary(t, e) && p + 8 <= e && DigitRun(t, p, e)
  {
    SeqsOf3(WordBoundary, AtLeast(Digit, 8), WordBoundary);
    BoundedOne(AtLeast(Digit, 8), t, p, e);
    if p <= e <= |t| {
      DigitsRun(t, p, e, 8);
    }
  }

  /** The document-number pattern matches exactly the number tokens. */
  lemma DocumentNumberIff(t: string, p: nat, e: nat)
    ensures Matches(DocumentNumber, t, p, e) <==> NumberToken(t, p, e)
  {
    PrefixedNumberIff(t, p, e);
    LongNumberIff(t, p, e);
  }

  /** A single capital letter followed by seven digits is not a document
      number: "A1234567" yields no number at all. */
  lemma OneLetterSevenDigits()
    ensures MatchAll(DocumentNumber, "A1234567") == []
  {
    var t := "A1234567";
    forall p: nat, m: nat | p + 2 <= m
      ensures !UpperRun(t, p, m)
    {
      if p + 1 < |t| {
        assert !IsUpper(t[p + 1]);
      }
    }
    forall p: nat, e: nat | p + 8 <= e
      ensures !DigitRun(t, p, e)
    {
      if e <= |t| {
        assert !IsDigit(t[0]);
      }
    }
    forall p: nat, e: nat
      ensures !Matches(DocumentNumber, t, p, e)
    {
      DocumentNumberIff(t, p, e);
    }
    NoMatchNoStrings(DocumentNumber, t);
  }
}
