/** A worked example of entity extraction: the receipt line
    "Amount $250.00 Due 12/31/2025" yields exactly one date and one amount,
    the date first, each with its kind's confidence. The proof walks each
    of the seven patterns over the line: where a pattern cannot match, a
    character it needs is missing; where it can, the engine's greedy
    choice is computed piece by piece. */
module OcrReceipt {
  import opened Text
  import opened Regex
  import opened Types
  import opened Ocr
  import opened Sorting

  const Receipt := "Amount $250.00 Due 12/31/2025"

  // Where the digits, separators and capitals of the line are.

  predicate DigitPosition(i: nat)
  {
    8 <= i <= 10 || 12 <= i <= 13 || 19 <= i <= 20 || 22 <= i <= 23 || 25 <= i <= 28
  }

  lemma DigitsAt(i: nat)
    requires i < |Receipt|
    ensures InClass(Digits, Receipt[i]) <==> DigitPosition(i)
    ensures IsDigit(Receipt[i]) <==> DigitPosition(i)
  {
    ClassFacts(Receipt[i]);
  }

  /** Every run of four digits in the line is the year. */
  lemma FourDigitsOnlyYear(b: nat)
    requires b + 4 <= |Receipt| && AllIn(Digits, Receipt, b, b + 4)
    ensures b == 25
  {
    var w := if b <= 7 then b else if b <= 11 then 11 else if b <= 14 then 14
             else if b <= 18 then b else if b <= 21 then 21 else 24;
    if b != 25 {
      DigitsAt(w);
      assert false;
    }
  }

  lemma DateSeparatorsAt(i: nat)
    requires i < |Receipt| && InClass(DateSeparator.cc, Receipt[i])
    ensures i == 21 || i == 24
  {
    var rs := [('/', '/'), ('-', '-')];
    var c := Receipt[i];
    assert InRanges(rs, c) == (('/' <= c <= '/') || InRanges(rs[1..], c));
    assert InRanges(rs[1..], c) == (('-' <= c <= '-') || InRanges(rs[1..][1..], c));
    assert rs[1..][1..] == [];
  }

  lemma InRangesIff(rs: seq<(char, char)>, c: char)
    ensures InRanges(rs, c) <==> exists i :: 0 <= i < |rs| && rs[i].0 <= c <= rs[i].1
  {
    if rs != [] {
      InRangesIff(rs[1..], c);
      if InRanges(rs[1..], c) {
        var i :| 0 <= i < |rs| - 1 && rs[1..][i].0 <= c <= rs[1..][i].1;
        assert rs[i + 1] == rs[1..][i];
      }
      if i :| 0 < i < |rs| && rs[i].0 <= c <= rs[i].1 {
        assert rs[1..][i - 1] == rs[i];
      }
    }
  }

  /** `[\s-]` at `i`: the line's separators of that kind are its spaces. */
  lemma PhoneSeparatorsAt(i: nat)
    requires i < |Receipt| && InClass(PhoneSeparator.cc, Receipt[i])
    ensures i == 6 || i == 14 || i == 18
  {
    InRangesIff(WhitespaceRanges + [('-', '-')], Receipt[i]);
  }

  lemma SpacesAt(i: nat)
    requires i < |Receipt| && InClass(Space.cc, Receipt[i])
    ensures i == 6 || i == 14 || i == 18
  {
    InRangesIff(WhitespaceRanges, Receipt[i]);
  }

  lemma LitAt(c: char, i: nat, e: nat)
    requires Matches(Lit(c), Receipt, i, e)
    ensures i < |Receipt| && e == i + 1 && Receipt[i] == c
  {
    LitChar(c, Receipt[i]);
  }

  lemma BoundaryPiece(t: string, p: nat, e: nat)
    ensures Matches(WordBoundary, t, p, e) <==> p == e <= |t| && AtBoundary(t, p)
  {
  }

  lemma ClassPiece(cc: CharClass, t: string, p: nat, e: nat)
    ensures Matches(Class(cc), t, p, e) <==> p < |t| && e == p + 1 && InClass(cc, t[p])
  {
  }

  lemma OptPiece(x: Regex, t: string, p: nat, e: nat)
    ensures Matches(Opt(x), t, p, e) <==> Matches(x, t, p, e) || p == e <= |t|
  {
  }

  // The day-month-year pattern matches once, over the date.

  const DayMonthYearParts := [WordBoundary, Between(Digit, 1, 2), DateSeparator, Between(Digit, 1, 2),
                              DateSeparator, Between(Digit, 2, 4), WordBoundary]

  /** The positions a day-month-year match passes through. */
  lemma DayMonthYearSplit(q: nat, e: nat) returns (ms: seq<nat>)
    requires Matches(DayMonthYear, Receipt, q, e)
    ensures |ms| == 8 && ms[0] == q && ms[7] == e
    ensures Matches(WordBoundary, Receipt, ms[0], ms[1]) && Matches(WordBoundary, Receipt, ms[6], ms[7])
    ensures Matches(Between(Digit, 1, 2), Receipt, ms[1], ms[2]) && Matches(Between(Digit, 1, 2), Receipt, ms[3], ms[4])
    ensures Matches(Between(Digit, 2, 4), Receipt, ms[5], ms[6])
    ensures Matches(DateSeparator, Receipt, ms[2], ms[3]) && Matches(DateSeparator, Receipt, ms[4], ms[5])
  {
    var rs := DayMonthYearParts;
    SeqsSplit(rs, Receipt, q, e);
    ms :| Chain(rs, Receipt, ms) && ms[0] == q && ms[7] == e;
    assert Matches(rs[0], Receipt, ms[0], ms[1]) && Matches(rs[1], Receipt, ms[1], ms[2]);
    assert Matches(rs[2], Receipt, ms[2], ms[3]) && Matches(rs[3], Receipt, ms[3], ms[4]);
    assert Matches(rs[4], Receipt, ms[4], ms[5]) && Matches(rs[5], Receipt, ms[5], ms[6]);
    assert Matches(rs[6], Receipt, ms[6], ms[7]);
  }

  /** Only the date starts at a boundary two characters before a slash,
      and only the end of the line is a boundary two to four characters
      after the last slash. */
  lemma DayMonthYearEnds(q: nat, m: nat, e: nat)
    requires q + 1 <= 21 <= q + 2 && q <= |Receipt| && AtBoundary(Receipt, q)
    requires 27 <= e <= 29 && AtBoundary(Receipt, e)
    ensures q == 19 && e == 29
  {
    DigitsAt(19);
    DigitsAt(20);
    DigitsAt(26);
    DigitsAt(27);
    DigitsAt(28);
  }

  lemma DayMonthYearOnlyDate(q: nat, e: nat)
    ensures Matches(DayMonthYear, Receipt, q, e) ==> q == 19 && e == 29
  {
    if Matches(DayMonthYear, Receipt, q, e) {
      var ms := DayMonthYearSplit(q, e);
      BoundaryPiece(Receipt, ms[0], ms[1]);
      BoundaryPiece(Receipt, ms[6], ms[7]);
      BetweenClass(Digits, 1, 2, Receipt, ms[1], ms[2]);
      BetweenClass(Digits, 1, 2, Receipt, ms[3], ms[4]);
      BetweenClass(Digits, 2, 4, Receipt, ms[5], ms[6]);
      ClassPiece(DateSeparator.cc, Receipt, ms[2], ms[3]);
      ClassPiece(DateSeparator.cc, Receipt, ms[4], ms[5]);
      DateSeparatorsAt(ms[2]);
      DateSeparatorsAt(ms[4]);
      DayMonthYearEnds(q, ms[2], ms[6]);
    }
  }

  lemma Build7(r0: Regex, r1: Regex, r2: Regex, r3: Regex, r4: Regex, r5: Regex, r6: Regex, t: string,
               m0: nat, m1: nat, m2: nat, m3: nat, m4: nat, m5: nat, m6: nat, m7: nat)
    requires Matches(r0, t, m0, m1) && Matches(r1, t, m1, m2) && Matches(r2, t, m2, m3)
    requires Matches(r3, t, m3, m4) && Matches(r4, t, m4, m5) && Matches(r5, t, m5, m6)
    requires Matches(r6, t, m6, m7)
    ensures Matches(Seqs([r0, r1, r2, r3, r4, r5, r6]), t, m0, m7)
  {
    var rs, ms := [r0, r1, r2, r3, r4, r5, r6], [m0, m1, m2, m3, m4, m5, m6, m7];
    assert Chain(rs, t, ms);
    SeqsBuild(rs, t, ms);
  }

  lemma SlashIsDateSeparator(i: nat)
    requires i < |Receipt| && Receipt[i] == '/'
    ensures Matches(DateSeparator, Receipt, i, i + 1)
  {
    var sep := [('/', '/'), ('-', '-')];
    assert InRanges(sep, '/');
  }

  lemma DigitsPiece(lo: nat, hi: nat, p: nat, e: nat)
    requires lo <= hi && p + lo <= e <= p + hi && e <= |Receipt|
    requires forall i :: p <= i < e ==> DigitPosition(i)
    ensures Matches(Between(Digit, lo, hi), Receipt, p, e)
  {
    forall i | p <= i < e
      ensures InClass(Digits, Receipt[i])
    {
      DigitsAt(i);
    }
    BetweenClass(Digits, lo, hi, Receipt, p, e);
  }

  lemma DateBoundaries()
    ensures Matches(WordBoundary, Receipt, 19, 19) && Matches(WordBoundary, Receipt, 29, 29)
  {
    BoundaryPiece(Receipt, 19, 19);
    BoundaryPiece(Receipt, 29, 29);
  }

  lemma DateSlashes()
    ensures Matches(DateSeparator, Receipt, 21, 22) && Matches(DateSeparator, Receipt, 24, 25)
  {
    SlashIsDateSeparator(21);
    SlashIsDateSeparator(24);
  }

  lemma DayMonthYearAtDate()
    ensures Matches(DayMonthYear, Receipt, 19, 29)
  {
    DateBoundaries();
    DateSlashes();
    DigitsPiece(1, 2, 19, 21);
    DigitsPiece(1, 2, 22, 24);
    DigitsPiece(2, 4, 25, 29);
    Build7(WordBoundary, Between(Digit, 1, 2), DateSeparator, Between(Digit, 1, 2), DateSeparator,
           Between(Digit, 2, 4), WordBoundary, Receipt, 19, 19, 21, 22, 24, 25, 29, 29);
  }

  lemma DayMonthYearOnReceipt()
    ensures MatchAll(DayMonthYear, Receipt) == ["12/31/2025"]
  {
    DayMonthYearAtDate();
    forall q, f | Matches(DayMonthYear, Receipt, q, f)
      ensures q == 19 && f == 29
    {
      DayMonthYearOnlyDate(q, f);
    }
    FirstOfOnly(DayMonthYear, Receipt, 19, 29);
    SingleMatch(DayMonthYear, Receipt, 19, 29);
    DateText();
  }

  lemma DateText()
    ensures Receipt[19..29] == "12/31/2025"
  {
  }

  // The other two date patterns find nothing.

  const YearMonthDayParts := [WordBoundary, Rep(Digit, 4), DateSeparator, Between(Digit, 1, 2),
                              DateSeparator, Between(Digit, 1, 2), WordBoundary]

  /** The year-first pattern starts with four digits and a separator; the
      only four digits of the line end it. */
  lemma YearMonthDaySplit(rs: seq<Regex>, q: nat, e: nat) returns (m: nat)
    requires |rs| == 7 && rs[1] == Rep(Digit, 4) && rs[2] == DateSeparator
    requires Matches(Seqs(rs), Receipt, q, e)
    ensures Matches(Rep(Digit, 4), Receipt, m, m + 4) && Matches(DateSeparator, Receipt, m + 4, m + 5)
  {
    SeqsSplit(rs, Receipt, q, e);
    var ms :| Chain(rs, Receipt, ms) && ms[0] == q && ms[7] == e;
    assert Matches(rs[1], Receipt, ms[1], ms[2]) && Matches(rs[2], Receipt, ms[2], ms[3]);
    RepClass(Digits, 4, Receipt, ms[1], ms[2]);
    m := ms[1];
  }

  lemma NoYearMonthDay(q: nat, e: nat)
    ensures !Matches(YearMonthDay, Receipt, q, e)
  {
    if Matches(YearMonthDay, Receipt, q, e) {
      var m := YearMonthDaySplit(YearMonthDayParts, q, e);
      RepClass(Digits, 4, Receipt, m, m + 4);
      ClassPiece(DateSeparator.cc, Receipt, m + 4, m + 5);
      FourDigitsOnlyYear(m);
      assert false;
    }
  }

  /** The month-name pattern ends with a space and four digits. */
  lemma MonthNameDateSplit(rs: seq<Regex>, q: nat, e: nat) returns (m: nat)
    requires |rs| == 9 && rs[6] == Lit(' ') && rs[7] == Rep(Digit, 4)
    requires Matches(Seqs(rs), Receipt, q, e)
    ensures m + 5 <= |Receipt| && Receipt[m] == ' ' && AllIn(Digits, Receipt, m + 1, m + 5)
  {
    SeqsSplit(rs, Receipt, q, e);
    var ms :| Chain(rs, Receipt, ms) && ms[0] == q && ms[9] == e;
    assert Matches(rs[6], Receipt, ms[6], ms[7]) && Matches(rs[7], Receipt, ms[7], ms[8]);
    LitAt(' ', ms[6], ms[7]);
    RepClass(Digits, 4, Receipt, ms[7], ms[8]);
    m := ms[6];
  }

  const MonthNameDateParts := [WordBoundary, Alts([Word("Jan", true), Word("Feb", true), Word("Mar", true), Word("Apr", true),
                                     Word("May", true), Word("Jun", true), Word("Jul", true), Word("Aug", true),
                                     Word("Sep", true), Word("Oct", true), Word("Nov", true), Word("Dec", true)]),
                               Star(AnyCaseLetter), Lit(' '), Between(Digit, 1, 2), Opt(Lit(',')), Lit(' '),
                               Rep(Digit, 4), WordBoundary]

  /** The four digits of a month-name date follow a space; the year
      follows a slash. */
  lemma NoMonthNameDateOf(rs: seq<Regex>, q: nat, e: nat)
    requires |rs| == 9 && rs[6] == Lit(' ') && rs[7] == Rep(Digit, 4)
    ensures !Matches(Seqs(rs), Receipt, q, e)
  {
    if Matches(Seqs(rs), Receipt, q, e) {
      var m := MonthNameDateSplit(rs, q, e);
      FourDigitsOnlyYear(m + 1);
      assert false;
    }
  }

  lemma MonthNameDateShape()
    ensures MonthNameDate == Seqs(MonthNameDateParts)
    ensures |MonthNameDateParts| == 9 && MonthNameDateParts[6] == Lit(' ') && MonthNameDateParts[7] == Rep(Digit, 4)
  {
  }

  lemma NoMonthNameDate(q: nat, e: nat)
    ensures !Matches(MonthNameDate, Receipt, q, e)
  {
    MonthNameDateShape();
    NoMonthNameDateOf(MonthNameDateParts, q, e);
  }

  lemma YearMonthDayOnReceipt()
    ensures MatchAll(YearMonthDay, Receipt) == []
  {
    forall q, e
      ensures !Matches(YearMonthDay, Receipt, q, e)
    {
      NoYearMonthDay(q, e);
    }
    NoMatchNoStrings(YearMonthDay, Receipt);
  }

  lemma MonthNameDateOnReceipt()
    ensures MatchAll(MonthNameDate, Receipt) == []
  {
    forall q, e
      ensures !Matches(MonthNameDate, Receipt, q, e)
    {
      NoMonthNameDate(q, e);
    }
    NoMatchNoStrings(MonthNameDate, Receipt);
  }

  lemma DateMatchesOnReceipt()
    ensures DateMatches(Receipt) == ["12/31/2025"]
  {
    DayMonthYearOnReceipt();
    YearMonthDayOnReceipt();
    MonthNameDateOnReceipt();
  }

  // The amount pattern matches once, greedily over "$250.00".

  const Currencies := [Word("USD", true), Word("EUR", true), Word("GBP", true), Word("INR", true)]

  /** No two adjacent characters of the line begin a currency code, in
      either case. */
  lemma NoCodeStart(w: nat)
    requires w + 1 < |Receipt|
    ensures var pair := (LowerChar(Receipt[w]), LowerChar(Receipt[w + 1]));
            pair != ('u', 's') && pair != ('e', 'u') && pair != ('g', 'b') && pair != ('i', 'n')
  {
  }

  lemma NoCode(code: string, w: nat, e: nat)
    requires code == "USD" || code == "EUR" || code == "GBP" || code == "INR"
    ensures !Matches(Word(code, true), Receipt, w, e)
  {
    WordCaseless(code, Receipt, w, e);
    if Matches(Word(code, true), Receipt, w, e) {
      assert LowerChar(Receipt[w]) == LowerChar(code[0]) && LowerChar(Receipt[w + 1]) == LowerChar(code[1]);
      NoCodeStart(w);
      assert false;
    }
  }

  /** No currency code occurs in the line, in either case. */
  lemma NoCurrency(w: nat, e: nat)
    ensures !Matches(Alts(Currencies), Receipt, w, e)
  {
    AltsSplit(Currencies, Receipt, w, e);
    NoCode("USD", w, e);
    NoCode("EUR", w, e);
    NoCode("GBP", w, e);
    NoCode("INR", w, e);
  }

  /** The currency-code alternative ends with a currency code. */
  lemma CodedAmountSplit(q: nat, e: nat) returns (w: nat)
    requires Matches(Seqs([Figure, Opt(Space), Alts(Currencies)]), Receipt, q, e)
    ensures Matches(Alts(Currencies), Receipt, w, e)
  {
    var coded := [Figure, Opt(Space), Alts(Currencies)];
    SeqsSplit(coded, Receipt, q, e);
    var ms :| Chain(coded, Receipt, ms) && ms[0] == q && ms[3] == e;
    assert Matches(coded[2], Receipt, ms[2], ms[3]);
    w := ms[2];
  }

  lemma DollarAmountSplit(q: nat, e: nat)
    requires Matches(Seqs([Lit('$'), Opt(Space), Figure]), Receipt, q, e)
    ensures q == 7
  {
    var dollar := [Lit('$'), Opt(Space), Figure];
    SeqsSplit(dollar, Receipt, q, e);
    var ms :| Chain(dollar, Receipt, ms) && ms[0] == q && ms[3] == e;
    assert Matches(dollar[0], Receipt, ms[0], ms[1]);
    LitAt('$', q, ms[1]);
  }

  /** Every match of the amount pattern starts at the dollar sign. */
  lemma AmountOnlyAtDollar(q: nat, e: nat)
    ensures Matches(Amount, Receipt, q, e) ==> q == 7
  {
    if Matches(Seqs([Figure, Opt(Space), Alts(Currencies)]), Receipt, q, e) {
      var w := CodedAmountSplit(q, e);
      NoCurrency(w, e);
      assert false;
    }
    if Matches(Seqs([Lit('$'), Opt(Space), Figure]), Receipt, q, e) {
      DollarAmountSplit(q, e);
    }
  }

  lemma LitFirst(c: char, i: nat)
    requires i < |Receipt| && Receipt[i] == c
    ensures FirstEnd(Lit(c), Receipt, i, i + 1)
  {
    assert InRanges([(c, c)], c);
  }

  lemma LitNone(c: char, i: nat)
    requires i < |Receipt| && Receipt[i] != c
    ensures Ends(Lit(c), Receipt, i) == []
  {
    assert InRanges([(c, c)], Receipt[i]) == ((c <= Receipt[i] <= c) || InRanges([(c, c)][1..], Receipt[i]));
    assert [(c, c)][1..] == [];
  }

  /** `\d+` at position 8 first takes "250". */
  lemma WholeFirst()
    ensures FirstEnd(AtLeast(Digit, 1), Receipt, 8, 11)
  {
    DigitsAt(8);
    DigitsAt(9);
    DigitsAt(10);
    DigitsAt(11);
    FirstRepClass(Digits, 1, Receipt, 8);
    FirstStarClass(Digits, Receipt, 9, 11);
    FirstCat(Rep(Digit, 1), Star(Digit), Receipt, 8, 9, 11);
  }

  /** `(?:,\d{3})*` at position 11 takes nothing. */
  lemma GroupsFirst()
    ensures FirstEnd(Star(Cat(Lit(','), Rep(Digit, 3))), Receipt, 11, 11)
  {
    LitNone(',', 11);
    CatNone(Lit(','), Rep(Digit, 3), Receipt, 11);
    FirstStarNone(Cat(Lit(','), Rep(Digit, 3)), Receipt, 11);
  }

  /** `(?:\.\d{2})?` at position 11 first takes ".00". */
  lemma CentsFirst()
    ensures FirstEnd(Opt(Cat(Lit('.'), Rep(Digit, 2))), Receipt, 11, 14)
  {
    DigitsAt(12);
    DigitsAt(13);
    LitFirst('.', 11);
    FirstRepClass(Digits, 2, Receipt, 12);
    FirstCat(Lit('.'), Rep(Digit, 2), Receipt, 11, 12, 14);
    FirstAlt(Cat(Lit('.'), Rep(Digit, 2)), Empty, Receipt, 11, 14);
  }

  /** The figure at position 8 first takes "250.00": all the digits, no
      thousands group, and the two decimals. */
  lemma FigureFirst()
    ensures FirstEnd(Figure, Receipt, 8, 14)
  {
    var whole := AtLeast(Digit, 1);
    var groups := Star(Cat(Lit(','), Rep(Digit, 3)));
    var cents := Opt(Cat(Lit('.'), Rep(Digit, 2)));
    SeqsOf3(whole, groups, cents);
    WholeFirst();
    GroupsFirst();
    CentsFirst();
    assert FirstEnd(Empty, Receipt, 14, 14);
    FirstCat(cents, Empty, Receipt, 11, 14, 14);
    FirstCat(groups, Cat(cents, Empty), Receipt, 11, 11, 14);
    FirstCat(whole, Cat(groups, Cat(cents, Empty)), Receipt, 8, 11, 14);
  }

  lemma AmountFirst()
    ensures FirstEnd(Amount, Receipt, 7, 14)
  {
    var t := Receipt;
    var dollar := [Lit('$'), Opt(Space), Figure];
    SeqsOf3(Lit('$'), Opt(Space), Figure);
    FigureFirst();
    assert FirstEnd(Empty, t, 14, 14);
    FirstCat(Figure, Empty, t, 8, 14, 14);
    assert Ends(Space, t, 8) == [] by {
      if InClass(Space.cc, t[8]) {
        SpacesAt(8);
        assert false;
      }
    }
    FirstOptSkipped(Space, t, 8);
    FirstCat(Opt(Space), Cat(Figure, Empty), t, 8, 8, 14);
    LitFirst('$', 7);
    FirstCat(Lit('$'), Cat(Opt(Space), Cat(Figure, Empty)), t, 7, 8, 14);
    FirstAlt(Seqs(dollar), Seqs([Figure, Opt(Space), Alts(Currencies)]), t, 7, 14);
  }

  lemma AmountOnReceipt()
    ensures MatchAll(Amount, Receipt) == ["$250.00"]
  {
    AmountFirst();
    forall q, f | Matches(Amount, Receipt, q, f)
      ensures q == 7
    {
      AmountOnlyAtDollar(q, f);
    }
    SingleMatch(Amount, Receipt, 7, 14);
    AmountText();
  }

  lemma AmountText()
    ensures Receipt[7..14] == "$250.00"
  {
    assert Receipt == "Amount " + "$250.00" + " Due 12/31/2025";
  }

  // Numbers, e-mail addresses and phone numbers: none.

  lemma CapitalsAt(i: nat)
    requires i < |Receipt|
    ensures IsUpper(Receipt[i]) <==> i == 0 || i == 15
  {
  }

  /** No two capitals are adjacent, and no eight digits are. */
  lemma NoNumberToken(q: nat, e: nat)
    ensures !NumberToken(Receipt, q, e)
  {
    forall p: nat, m: nat | p + 2 <= m
      ensures !UpperRun(Receipt, p, m)
    {
      if m <= |Receipt| {
        CapitalsAt(p);
        CapitalsAt(p + 1);
      }
    }
    forall p: nat, m: nat | p + 8 <= m
      ensures !DigitRun(Receipt, p, m)
    {
      if m <= |Receipt| {
        var w := if p <= 7 then p else if p <= 11 then 11 else if p <= 14 then 14
                 else if p <= 18 then p else 21;
        DigitsAt(w);
      }
    }
  }

  lemma NoEmail(q: nat, e: nat)
    ensures !Matches(Email, Receipt, q, e)
  {
    var rs := [WordBoundary, AtLeast(EmailLocalChar, 1), Lit('@'), AtLeast(EmailDomainChar, 1), Lit('.'),
               AtLeast(EmailTopChar, 2), WordBoundary];
    SeqsSplit(rs, Receipt, q, e);
    if Matches(Email, Receipt, q, e) {
      var ms :| Chain(rs, Receipt, ms) && ms[0] == q && ms[7] == e;
      assert Matches(rs[2], Receipt, ms[2], ms[3]);
      LitAt('@', ms[2], ms[3]);
      assert false;
    }
  }

  const PhoneParts := [WordBoundary, Opt(Lit('+')), Between(Digit, 1, 3), Opt(PhoneSeparator), Opt(Lit('(')),
                       Rep(Digit, 3), Opt(Lit(')')), Opt(PhoneSeparator), Rep(Digit, 3), Opt(PhoneSeparator),
                       Rep(Digit, 4), WordBoundary]

  /** A phone number ends with three digits, an optional separator and
      four digits. */
  lemma PhoneSplit(rs: seq<Regex>, q: nat, e: nat) returns (a: nat, b: nat)
    requires |rs| == 12 && rs[8] == Rep(Digit, 3) && rs[9] == Opt(PhoneSeparator) && rs[10] == Rep(Digit, 4)
    requires Matches(Seqs(rs), Receipt, q, e)
    ensures a + 3 <= b <= a + 4 && b + 4 <= |Receipt|
    ensures AllIn(Digits, Receipt, a, a + 3) && AllIn(Digits, Receipt, b, b + 4)
    ensures b == a + 4 ==> InClass(PhoneSeparator.cc, Receipt[a + 3])
  {
    SeqsSplit(rs, Receipt, q, e);
    var ms :| Chain(rs, Receipt, ms) && ms[0] == q && ms[12] == e;
    assert Matches(rs[8], Receipt, ms[8], ms[9]) && Matches(rs[9], Receipt, ms[9], ms[10]);
    assert Matches(rs[10], Receipt, ms[10], ms[11]);
    RepClass(Digits, 3, Receipt, ms[8], ms[9]);
    RepClass(Digits, 4, Receipt, ms[10], ms[11]);
    OptPiece(PhoneSeparator, Receipt, ms[9], ms[10]);
    ClassPiece(PhoneSeparator.cc, Receipt, ms[9], ms[10]);
    a, b := ms[8], ms[10];
  }

  /** The last four digits of a phone number would be the year, which
      follows a slash, and a slash is not a phone separator. */
  lemma NoPhone(q: nat, e: nat)
    ensures !Matches(Phone, Receipt, q, e)
  {
    if Matches(Phone, Receipt, q, e) {
      var a, b := PhoneSplit(PhoneParts, q, e);
      FourDigitsOnlyYear(b);
      if b == a + 4 {
        PhoneSeparatorsAt(a + 3);
      } else {
        DigitsAt(24);
      }
      assert false;
    }
  }

  lemma NoOtherEntities()
    ensures MatchAll(DocumentNumber, Receipt) == []
    ensures MatchAll(Email, Receipt) == []
    ensures MatchAll(Phone, Receipt) == []
  {
    forall q, e
      ensures !Matches(DocumentNumber, Receipt, q, e)
      ensures !Matches(Email, Receipt, q, e) && !Matches(Phone, Receipt, q, e)
    {
      DocumentNumberIff(Receipt, q, e);
      NoNumberToken(q, e);
      NoEmail(q, e);
      NoPhone(q, e);
    }
    NoMatchNoStrings(DocumentNumber, Receipt);
    NoMatchNoStrings(Email, Receipt);
    NoMatchNoStrings(Phone, Receipt);
  }

  lemma AssembleTwo(d: string, a: string)
    ensures Assemble([d], [a], [], [], []) == [Entity(DateEntity, d, 80), Entity(AmountEntity, a, 85)]
  {
    assert Label(DateEntity, [d]) == [Entity(DateEntity, d, 80)];
    assert Label(AmountEntity, [a]) == [Entity(AmountEntity, a, 85)];
    assert Label(NumberEntity, []) == [] && Label(EmailEntity, []) == [] && Label(PhoneEntity, []) == [];
  }

  /** The receipt line yields the due date with confidence 80, then the
      amount with confidence 85, and nothing else. */
  lemma ReceiptEntities()
    ensures ExtractEntities(Receipt)
         == [Entity(DateEntity, "12/31/2025", 80), Entity(AmountEntity, "$250.00", 85)]
  {
    DateMatchesOnReceipt();
    AmountOnReceipt();
    NoOtherEntities();
    var none: seq<string> := [];
    assert Take(none, MaxNumbers) == none;
    AssembleTwo("12/31/2025", "$250.00");
  }
}
