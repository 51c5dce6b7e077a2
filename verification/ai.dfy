/** The rule-based assistant (`AIService`): document-type and tag
    suggestions from keywords in the lower-cased OCR text, the latest date
    as an expiry suggestion, a three-sentence summary, keyword extraction
    and the Jaccard similarity that ranks related documents, and the fixed
    query expansion. Confidences of type and expiry suggestions are
    hundredths; a similarity is an exact ratio. */
module Ai {
  import opened Wrappers
  import opened Text
  import opened Types
  import opened Sorting

  /** The text contains `word` once lower-cased (`textLower.includes`). */
  predicate Mentions(text: string, word: string)
  {
    Includes(Lower(text), word)
  }

  /** The five rules of `suggestDocumentType`, each on the raw text. */
  predicate PassportRule(text: string) { Mentions(text, "passport") || Mentions(text, "travel document") }
  predicate LicenceRule(text: string) { Mentions(text, "driver") && Mentions(text, "license") }
  predicate BillRule(text: string) { Mentions(text, "invoice") || Mentions(text, "bill") }
  predicate CertificateRule(text: string) { Mentions(text, "certificate") }
  predicate InsuranceRule(text: string) { Mentions(text, "insurance") || Mentions(text, "policy") }

  datatype TypeSuggestion = TypeSuggestion(docType: DocumentType, confidence: nat)

  /** The confidence attached to each suggested type. */
  function TypeConfidence(t: DocumentType): nat
  {
    match t
    case PASSPORT => 90
    case ID => 85
    case BILL => 80
    case CERTIFICATE => 85
    case INSURANCE => 80
    case _ => 0
  }

  /** `suggestDocumentType`: the first rule that fires, in the order
      passport, driver's licence, bill, certificate, insurance; no rule
      firing is no suggestion. The entities are not consulted. */
  function SuggestDocumentType(text: string, entities: seq<Entity>): (r: Option<TypeSuggestion>)
    ensures r.Some? ==> r.value.confidence == TypeConfidence(r.value.docType) > 0
    ensures r.Some? && r.value.docType == PASSPORT <==> PassportRule(text)
    ensures r.Some? && r.value.docType == ID <==> !PassportRule(text) && LicenceRule(text)
    ensures r.Some? && r.value.docType == BILL <==>
      !PassportRule(text) && !LicenceRule(text) && BillRule(text)
    ensures r.Some? && r.value.docType == CERTIFICATE <==>
      !PassportRule(text) && !LicenceRule(text) && !BillRule(text) && CertificateRule(text)
    ensures r.Some? && r.value.docType == INSURANCE <==>
      !PassportRule(text) && !LicenceRule(text) && !BillRule(text) && !CertificateRule(text)
      && InsuranceRule(text)
    ensures r == None <==>
      !PassportRule(text) && !LicenceRule(text) && !BillRule(text) && !CertificateRule(text)
      && !InsuranceRule(text)
  {
    if PassportRule(text) then Some(TypeSuggestion(PASSPORT, 90))
    else if LicenceRule(text) then Some(TypeSuggestion(ID, 85))
    else if BillRule(text) then Some(TypeSuggestion(BILL, 80))
    else if CertificateRule(text) then Some(TypeSuggestion(CERTIFICATE, 85))
    else if InsuranceRule(text) then Some(TypeSuggestion(INSURANCE, 80))
    else None
  }

  /** The suggestion depends on the text alone, and not on its letter case. */
  lemma TypeIgnoresEntitiesAndCase(text: string, a: seq<Entity>, b: seq<Entity>)
    ensures SuggestDocumentType(text, a) == SuggestDocumentType(Lower(text), b)
  {
    LowerIdempotent(text);
  }

  /** Once the text mentions a passport, nothing appended to it changes the
      suggestion: the passport rule is checked first. */
  lemma {:induction false} PassportWins(text: string, more: string, entities: seq<Entity>)
    requires PassportRule(text)
    ensures SuggestDocumentType(text + more, entities) == Some(TypeSuggestion(PASSPORT, 90))
  {
    LowerConcat(text, more);
    if Mentions(text, "passport") {
      IncludesExtend(Lower(text), Lower(more), "passport");
    } else {
      IncludesExtend(Lower(text), Lower(more), "travel document");
    }
  }

  /** A driver's licence is recognised whatever its capitalisation. */
  lemma DriversLicence()
    ensures SuggestDocumentType("Driver's License", []) == Some(TypeSuggestion(ID, 85))
  {
    LowerDriversLicence();
    LicenceText("Driver's License");
  }

  lemma LowerDriversLicence()
    ensures Lower("Driver's License") == LicenceLiteral
  {
    var s, t := "Driver's License", LicenceLiteral;
    forall i | 0 <= i < |s|
      ensures Lower(s)[i] == t[i]
    {
      if s[i] != t[i] {
        assert i == 0 || i == 9;
      }
    }
  }

  lemma LicenceText(text: string)
    requires Lower(text) == LicenceLiteral
    ensures SuggestDocumentType(text, []) == Some(TypeSuggestion(ID, 85))
  {
    LicenceWords();
    NoPassportWords();
  }

  const LicenceLiteral := "driver's license"

  lemma LicenceWords()
    ensures Includes(LicenceLiteral, "driver") && Includes(LicenceLiteral, "license")
  {
    assert OccursAt(LicenceLiteral, "driver", 0);
    assert OccursAt(LicenceLiteral, "license", 9);
    IncludesIff(LicenceLiteral, "driver");
    IncludesIff(LicenceLiteral, "license");
  }

  lemma NoPassportWords()
    ensures !Includes(LicenceLiteral, "passport") && !Includes(LicenceLiteral, "travel document")
  {
    assert 'p' !in LicenceLiteral && 't' !in LicenceLiteral by {
      forall i | 0 <= i < |LicenceLiteral|
        ensures LicenceLiteral[i] != 'p' && LicenceLiteral[i] != 't'
      {
      }
    }
    assert 'p' in "passport" && 't' in "travel document";
    LacksChar(LicenceLiteral, "passport", 'p');
    LacksChar(LicenceLiteral, "travel document", 't');
  }

  /** The tag categories of `suggestTags`. */
  datatype Category = Medical | Financial | Legal | Personal | Work | Education

  /** The categories in declaration order. */
  const CategoryOrder := [Medical, Financial, Legal, Personal, Work, Education]

  function Name(c: Category): string
  {
    match c
    case Medical => "medical"
    case Financial => "financial"
    case Legal => "legal"
    case Personal => "personal"
    case Work => "work"
    case Education => "education"
  }

  function Keywords(c: Category): seq<string>
  {
    match c
    case Medical => ["health", "medical", "doctor", "hospital", "prescription"]
    case Financial => ["bank", "payment", "invoice", "tax", "receipt"]
    case Legal => ["contract", "agreement", "legal", "court", "attorney"]
    case Personal => ["id", "passport", "license", "birth", "marriage"]
    case Work => ["employment", "salary", "company", "job", "work"]
    case Education => ["certificate", "degree", "school", "university", "course"]
  }

  /** Some keyword occurs in `low` (`keywords.some(k => low.includes(k))`). */
  predicate AnyIncluded(low: string, keywords: seq<string>)
  {
    exists k :: 0 <= k < |keywords| && Includes(low, keywords[k])
  }

  predicate Fires(low: string, c: Category)
  {
    AnyIncluded(low, Keywords(c))
  }

  predicate NoDuplicates<T(==)>(xs: seq<T>)
  {
    forall i, j :: 0 <= i < j < |xs| ==> xs[i] != xs[j]
  }

  /** Walks the categories in order, adding the name of each firing one to
      the insertion-ordered set `acc`. */
  function TagsFrom(low: string, cats: seq<Category>, acc: seq<string>): (r: seq<string>)
    requires NoDuplicates(acc)
    ensures NoDuplicates(r)
    ensures acc <= r
    ensures |r| <= |acc| + |cats|
    ensures forall x :: x in r <==> x in acc || exists c :: c in cats && Name(c) == x && Fires(low, c)
    decreases |cats|
  {
    if cats == [] then acc
    else
      var acc' := if Fires(low, cats[0]) && Name(cats[0]) !in acc then acc + [Name(cats[0])] else acc;
      AddDistinct(acc, Name(cats[0]));
      var r := TagsFrom(low, cats[1..], acc');
      assert forall c :: c in cats <==> c == cats[0] || c in cats[1..];
      r
  }

  /** Appending a name not yet present keeps the list free of duplicates
      and extends it. */
  lemma AddDistinct(acc: seq<string>, x: string)
    requires NoDuplicates(acc)
    ensures x !in acc ==> NoDuplicates(acc + [x]) && acc <= acc + [x]
    ensures forall y :: y in acc + [x] <==> y in acc || y == x
  {
  }

  /** The tag one category contributes to the lower-cased text `low`: its
      name when it fires. */
  function TagRule(low: string): Category -> Option<string>
  {
    c => if Fires(low, c) then Some(Name(c)) else None
  }

  /** `suggestTags`: the names of the categories one of whose keywords
      occurs in the lower-cased text, each once, in category order. The
      insertion-ordered set adds nothing twice because no two categories
      share a name, so the result is the plain in-order list of the firing
      categories' names (`TagsInOrder`). */
  function SuggestTags(text: string, entities: seq<Entity>): (r: seq<string>)
    ensures NoDuplicates(r) && |r| <= |CategoryOrder|
    ensures forall x :: x in r <==> exists c :: Name(c) == x && Fires(Lower(text), c)
  {
    AllListed();
    TagsFrom(Lower(text), CategoryOrder, [])
  }

  /** The suggested tags are the firing categories' names in category
      order, each once. */
  lemma TagsInOrder(text: string, entities: seq<Entity>)
    ensures SuggestTags(text, entities) == Collect(CategoryOrder, TagRule(Lower(text)))
  {
    CategoriesDistinct();
    TagsFromIsCollect(Lower(text), CategoryOrder, []);
    assert [] + Collect(CategoryOrder, TagRule(Lower(text))) == Collect(CategoryOrder, TagRule(Lower(text)));
  }

  lemma CategoriesDistinct()
    ensures NoDuplicates(CategoryOrder)
  {
  }

  /** Walking distinct categories whose names are not yet present appends
      the firing names in walk order. */
  lemma {:induction false} TagsFromIsCollect(low: string, cats: seq<Category>, acc: seq<string>)
    requires NoDuplicates(acc) && NoDuplicates(cats)
    requires forall c :: c in cats ==> Name(c) !in acc
    ensures TagsFrom(low, cats, acc) == acc + Collect(cats, TagRule(low))
    decreases |cats|
  {
    if cats != [] {
      var head := if Fires(low, cats[0]) then [Name(cats[0])] else [];
      AddDistinct(acc, Name(cats[0]));
      TailNamesFresh(cats, acc, head);
      TagsFromIsCollect(low, cats[1..], acc + head);
      TagsFromStep(low, cats, acc);
      CollectStep(low, cats);
      Associate(acc, head, Collect(cats[1..], TagRule(low)));
    } else {
      assert acc + [] == acc;
    }
  }

  /** One step of the set walk: a fresh name of a firing head is added. */
  lemma TagsFromStep(low: string, cats: seq<Category>, acc: seq<string>)
    requires cats != [] && NoDuplicates(acc) && Name(cats[0]) !in acc
    ensures TagsFrom(low, cats, acc) ==
      TagsFrom(low, cats[1..], acc + (if Fires(low, cats[0]) then [Name(cats[0])] else []))
  {
    if !Fires(low, cats[0]) {
      assert acc + [] == acc;
    }
  }

  /** One step of the in-order walk: the head's tag, then the tail's. */
  lemma CollectStep(low: string, cats: seq<Category>)
    requires cats != []
    ensures Collect(cats, TagRule(low)) ==
      (if Fires(low, cats[0]) then [Name(cats[0])] else []) + Collect(cats[1..], TagRule(low))
  {
  }

  lemma Associate(a: seq<string>, b: seq<string>, c: seq<string>)
    ensures (a + b) + c == a + (b + c)
  {
  }

  /** The names of the remaining distinct categories are fresh after the
      head's name is added. */
  lemma TailNamesFresh(cats: seq<Category>, acc: seq<string>, head: seq<string>)
    requires cats != [] && NoDuplicates(cats)
    requires forall c :: c in cats ==> Name(c) !in acc
    requires forall x :: x in head ==> x == Name(cats[0])
    ensures forall c :: c in cats[1..] ==> Name(c) !in acc + head
  {
    forall c | c in cats[1..]
      ensures Name(c) !in acc + head
    {
      var k :| 0 <= k < |cats[1..]| && cats[1..][k] == c;
      assert cats[k + 1] == c;
      assert cats[0] != cats[k + 1];
      NameInjective(c, cats[0]);
    }
  }

  /** Different categories have different names. */
  lemma NameInjective(c: Category, d: Category)
    ensures c != d ==> Name(c) != Name(d)
  {
    if Name(c) == Name(d) {
      NamesDistinct(c, d);
    }
  }

  lemma AllListed()
    ensures forall c :: c in CategoryOrder
  {
    forall c
      ensures c in CategoryOrder
    {
      Listed(c);
    }
  }

  /** Every category is in the walk order. */
  lemma Listed(c: Category)
    ensures c in CategoryOrder
  {
    var i := match c
      case Medical => 0
      case Financial => 1
      case Legal => 2
      case Personal => 3
      case Work => 4
      case Education => 5;
    assert CategoryOrder[i] == c;
  }

  /** No two categories share a name. */
  lemma NamesDistinct(c: Category, d: Category)
    requires Name(c) == Name(d)
    ensures c == d
  {
    assert Name(c)[0] == Name(d)[0] && |Name(c)| == |Name(d)|;
  }

  /** Each tag is present exactly when one of its own keywords occurs. */
  lemma TagIff(text: string, entities: seq<Entity>, c: Category)
    ensures Name(c) in SuggestTags(text, entities) <==> Fires(Lower(text), c)
  {
    if Name(c) in SuggestTags(text, entities) {
      var d :| Name(d) == Name(c) && Fires(Lower(text), d);
      NamesDistinct(c, d);
    }
  }

  /** The keyword `id` matches inside ordinary words ("valid", "paid",
      "provide"), so any text containing those letters is tagged personal. */
  lemma IdMakesPersonal(text: string, entities: seq<Entity>)
    requires Mentions(text, "id")
    ensures "personal" in SuggestTags(text, entities)
  {
    assert Keywords(Personal)[0] == "id";
    TagIff(text, entities, Personal);
  }

  datatype ExpirySuggestion = ExpirySuggestion(date: int, confidence: nat)

  const ExpiryConfidence := 70

  /** A date entity whose value the date parser accepts, as `d`. */
  predicate ParsesTo(e: Entity, parse: string -> Option<int>, d: int)
  {
    e.kind == DateEntity && parse(e.value) == Some(d)
  }

  /** The instants of the date entities that parse, in entity order (the
      `filter`/`map`/`isNaN` chain); `parse` stands for `new Date(value)`,
      `None` being an invalid date. */
  function ParsedDates(es: seq<Entity>, parse: string -> Option<int>): (r: seq<int>)
    ensures forall d :: d in r <==> exists i :: 0 <= i < |es| && ParsesTo(es[i], parse, d)
  {
    if es == [] then []
    else
      var head := if es[0].kind == DateEntity && parse(es[0].value).Some? then [parse(es[0].value).value] else [];
      var rest := ParsedDates(es[1..], parse);
      assert forall d :: (exists i :: 0 <= i < |es| && ParsesTo(es[i], parse, d)) <==>
        ParsesTo(es[0], parse, d) || exists i :: 0 <= i < |es[1..]| && ParsesTo(es[1..][i], parse, d) by {
        forall d, i | 0 <= i < |es| && ParsesTo(es[i], parse, d) && i > 0
          ensures ParsesTo(es[1..][i - 1], parse, d)
        {
        }
      }
      head + rest
  }

  lemma {:induction false} NothingParsed(es: seq<Entity>, parse: string -> Option<int>)
    requires ParsedDates(es, parse) == []
    ensures forall i :: 0 <= i < |es| ==> !(es[i].kind == DateEntity && parse(es[i].value).Some?)
  {
    if es != [] {
      NothingParsed(es[1..], parse);
      assert forall i :: 1 <= i < |es| ==> es[i] == es[1..][i - 1];
    }
  }

  function AsReal(d: int): real { d as real }

  /** The first element after sorting latest first: the maximum. */
  function Latest(ps: seq<int>): (r: Option<int>)
    ensures r.None? <==> ps == []
    ensures r.Some? ==> r.value in ps && forall d :: d in ps ==> d <= r.value
  {
    var sorted := SortDesc(ps, AsReal);
    if |sorted| > 0 then
      assert sorted[0] in multiset(ps);
      assert forall d :: d in ps ==> d <= sorted[0] by {
        forall d | d in ps
          ensures d <= sorted[0]
        {
          assert d in multiset(sorted);
          var j :| 0 <= j < |sorted| && sorted[j] == d;
          if j > 0 {
            assert AsReal(sorted[0]) >= AsReal(sorted[j]);
          }
        }
      }
      Some(sorted[0])
    else
      assert |multiset(ps)| == |multiset(sorted)|;
      None
  }

  /** `suggestExpiryDate`: the latest instant among the date entities that
      parse, with confidence 0.7; nothing when no date entity parses. */
  function SuggestExpiryDate(entities: seq<Entity>, parse: string -> Option<int>): (r: Option<ExpirySuggestion>)
    ensures r.None? <==> forall i :: 0 <= i < |entities| ==> !(entities[i].kind == DateEntity && parse(entities[i].value).Some?)
    ensures r.Some? ==> r.value.confidence == ExpiryConfidence
    ensures r.Some? ==> exists i :: 0 <= i < |entities| && ParsesTo(entities[i], parse, r.value.date)
    ensures r.Some? ==> forall i, d :: 0 <= i < |entities| && ParsesTo(entities[i], parse, d) ==> d <= r.value.date
  {
    if forall i :: 0 <= i < |entities| ==> entities[i].kind != DateEntity then None
    else
      var ps := ParsedDates(entities, parse);
      var latest := Latest(ps);
      if latest.Some? then
        var d := latest.value;
        assert exists i :: 0 <= i < |entities| && ParsesTo(entities[i], parse, d);
        assert forall i, e :: 0 <= i < |entities| && ParsesTo(entities[i], parse, e) ==> e <= d by {
          forall i, e | 0 <= i < |entities| && ParsesTo(entities[i], parse, e)
            ensures e <= d
          {
            assert e in ps;
          }
        }
        Some(ExpirySuggestion(d, ExpiryConfidence))
      else
        NothingParsed(entities, parse);
        None
  }

  /** The sentence terminators of the summary split, `[.!?]`. */
  predicate IsSentenceEnd(c: char) { c == '.' || c == '!' || c == '?' }

  /** The pieces that are not blank once trimmed, in order. */
  function NonBlank(ss: seq<string>): (r: seq<string>)
    ensures |r| <= |ss|
    ensures forall x :: x in r <==> x in ss && HasNonSpace(x)
    ensures IsSubsequence(r, ss)
  {
    if ss == [] then []
    else
      assert forall x :: x in ss <==> x == ss[0] || x in ss[1..];
      var rest := NonBlank(ss[1..]);
      if HasNonSpace(ss[0]) then
        assert ([ss[0]] + rest)[1..] == rest;
        [ss[0]] + rest
      else rest
  }

  /** Filtering is done piece by piece: the filter of a concatenation is
      the concatenation of the filters, and one piece is kept or dropped. */
  lemma {:induction false} NonBlankAppend(a: seq<string>, b: seq<string>)
    ensures NonBlank(a + b) == NonBlank(a) + NonBlank(b)
    ensures |a| == 1 ==> NonBlank(a) == if HasNonSpace(a[0]) then a else []
    decreases |a|
  {
    if a != [] {
      assert (a + b)[0] == a[0];
      assert (a + b)[1..] == a[1..] + b;
      NonBlankAppend(a[1..], b);
      if |a| == 1 {
        assert a[1..] == [];
        assert NonBlank(a[1..]) == [];
      }
    } else {
      assert a + b == b;
    }
  }

  /** The sentences of a text: the non-blank pieces between runs of
      terminators, in order (`SentencesAtTerminator`, `SentencesOfOne`). */
  function Sentences(text: string): (r: seq<string>)
    ensures forall x :: x in r ==> HasNonSpace(x) && Avoids(x, IsSentenceEnd)
    ensures forall x :: x in r ==> exists p :: OccursAt(text, x, p)
  {
    var pieces := Split(text, IsSentenceEnd);
    var r := NonBlank(pieces);
    assert forall x :: x in r ==> exists p :: OccursAt(text, x, p) by {
      forall x | x in r
        ensures exists p :: OccursAt(text, x, p)
      {
        SplitPiecesOccur(text, IsSentenceEnd, x);
      }
    }
    r
  }

  /** A text without terminators is one sentence, or none when blank. */
  lemma SentencesOfOne(s: string)
    requires Avoids(s, IsSentenceEnd)
    ensures Sentences(s) == if HasNonSpace(s) then [s] else []
  {
    SplitWhole(s, IsSentenceEnd);
    NonBlankAppend([s], []);
    assert [s] + [] == [s];
  }

  /** Cutting a text at a terminator: its sentences are those before the
      terminator followed by those after it. With `SentencesOfOne` this
      fixes every text's sentences, content and order. */
  lemma SentencesAtTerminator(a: string, c: char, b: string)
    requires IsSentenceEnd(c)
    ensures Sentences(a + [c] + b) == Sentences(a) + Sentences(b)
  {
    SplitAtSeparator(a, c, b, IsSentenceEnd);
  }

  /** Dropping a leading separator run only drops blank pieces. */
  lemma SkipLeadingRun(b: string, sep: char -> bool)
    ensures NonBlank(Split(b[RunEnd(b, 0, sep)..], sep)) == NonBlank(Split(b, sep))
  {
    var k := RunEnd(b, 0, sep);
    if k > 0 {
      SplitLeadingRun(b, sep);
      NonBlankAppend([""], Split(b[k..], sep));
      assert !HasNonSpace("");
    } else {
      assert b[k..] == b;
    }
  }

  /** The run starting at a separator `c` placed after `a` reaches into
      `b` as far as `b`'s own leading run. */
  lemma RunThrough(a: string, c: char, b: string, i: nat, sep: char -> bool)
    requires sep(c) && i <= |a|
    requires forall m :: i <= m < |a| ==> sep(a[m])
    ensures RunEnd(a + [c] + b, i, sep) == |a| + 1 + RunEnd(b, 0, sep)
    ensures (a + [c] + b)[|a| + 1 + RunEnd(b, 0, sep)..] == b[RunEnd(b, 0, sep)..]
  {
    var s := a + [c] + b;
    var k := RunEnd(b, 0, sep);
    assert forall m :: 0 <= m < |a| ==> s[m] == a[m];
    assert s[|a|] == c;
    assert forall m :: |a| < m < |s| ==> s[m] == b[m - |a| - 1];
    RunEndIs(s, i, |a| + 1 + k, sep);
    assert s[|a| + 1 + k..] == b[k..];
  }

  lemma Associate4(w: seq<string>, x: seq<string>, y: seq<string>)
    ensures w + (x + y) == (w + x) + y
  {
  }

  /** Splitting at a separator, blank pieces aside, splits the two sides
      separately. */
  lemma {:induction false} SplitAtSeparator(a: string, c: char, b: string, sep: char -> bool)
    requires sep(c)
    ensures NonBlank(Split(a + [c] + b, sep)) == NonBlank(Split(a, sep)) + NonBlank(Split(b, sep))
    decreases |a|
  {
    var i := FirstWhere(a, 0, sep);
    if i == |a| {
      SplitFirstPiece(a, c, b, sep);
    } else {
      var j := RunEnd(a, i, sep);
      if j < |a| {
        SplitAtSeparator(a[j..], c, b, sep);
        SplitInnerRun(a, c, b, sep);
      } else {
        SplitTrailingRun(a, c, b, sep);
      }
    }
  }

  /** The case of `SplitAtSeparator` where `a` has no separator. */
  lemma SplitFirstPiece(a: string, c: char, b: string, sep: char -> bool)
    requires sep(c) && FirstWhere(a, 0, sep) == |a|
    ensures NonBlank(Split(a + [c] + b, sep)) == NonBlank(Split(a, sep)) + NonBlank(Split(b, sep))
  {
    var s := a + [c] + b;
    var k := RunEnd(b, 0, sep);
    assert forall m :: 0 <= m < |a| ==> s[m] == a[m];
    FirstWhereIs(s, 0, |a|, sep);
    assert s[..|a|] == a;
    SplitWhole(a, sep);
    RunThrough(a, c, b, |a|, sep);
    assert Split(s, sep) == [a] + Split(b[k..], sep);
    NonBlankAppend([a], Split(b[k..], sep));
    SkipLeadingRun(b, sep);
  }

  /** The case of `SplitAtSeparator` where the first separator run of `a`
      ends inside `a`: the first piece, then the rest of `a` split with
      `b`. */
  lemma SplitInnerRun(a: string, c: char, b: string, sep: char -> bool)
    requires sep(c)
    requires FirstWhere(a, 0, sep) < |a| && RunEnd(a, FirstWhere(a, 0, sep), sep) < |a|
    requires var j := RunEnd(a, FirstWhere(a, 0, sep), sep);
      NonBlank(Split(a[j..] + [c] + b, sep)) == NonBlank(Split(a[j..], sep)) + NonBlank(Split(b, sep))
    ensures NonBlank(Split(a + [c] + b, sep)) == NonBlank(Split(a, sep)) + NonBlank(Split(b, sep))
  {
    var i := FirstWhere(a, 0, sep);
    var j := RunEnd(a, i, sep);
    InnerRunPieces(a, c, b, sep);
    SplitAt(a, i, j, sep);
    NonBlankAppend([a[..i]], Split(a[j..] + [c] + b, sep));
    NonBlankAppend([a[..i]], Split(a[j..], sep));
    Associate4(NonBlank([a[..i]]), NonBlank(Split(a[j..], sep)), NonBlank(Split(b, sep)));
  }

  /** The pieces of `a + [c] + b` when the first separator run of `a` ends
      inside `a`. */
  lemma InnerRunPieces(a: string, c: char, b: string, sep: char -> bool)
    requires sep(c)
    requires FirstWhere(a, 0, sep) < |a| && RunEnd(a, FirstWhere(a, 0, sep), sep) < |a|
    ensures var i := FirstWhere(a, 0, sep);
      Split(a + [c] + b, sep) == [a[..i]] + Split(a[RunEnd(a, i, sep)..] + [c] + b, sep)
  {
    var s := a + [c] + b;
    var i := FirstWhere(a, 0, sep);
    var j := RunEnd(a, i, sep);
    FirstRunKept(a, c, b, sep);
    DropConcat(a, c, b, j);
    assert s[..i] == a[..i] && s[j..] == a[j..] + [c] + b;
    SplitAt(s, i, j, sep);
    assert Split(s, sep) == [s[..i]] + Split(s[j..], sep);
  }

  /** Appending after `a` keeps where its first separator run starts, and
      where that run ends when it ends inside `a`. */
  lemma FirstRunKept(a: string, c: char, b: string, sep: char -> bool)
    requires FirstWhere(a, 0, sep) < |a|
    ensures var i := FirstWhere(a, 0, sep);
      FirstWhere(a + [c] + b, 0, sep) == i && (a + [c] + b)[..i] == a[..i]
    ensures var i := FirstWhere(a, 0, sep);
      RunEnd(a, i, sep) < |a| ==> RunEnd(a + [c] + b, i, sep) == RunEnd(a, i, sep)
  {
    var s := a + [c] + b;
    var i := FirstWhere(a, 0, sep);
    var j := RunEnd(a, i, sep);
    assert forall m :: 0 <= m < |a| ==> s[m] == a[m];
    FirstWhereIs(s, 0, i, sep);
    if j < |a| {
      RunEndIs(s, i, j, sep);
    }
    assert s[..i] == a[..i];
  }

  /** The case of `SplitAtSeparator` where `a` ends in its first separator
      run: that run and `c` and the leading run of `b` are one run. */
  lemma SplitTrailingRun(a: string, c: char, b: string, sep: char -> bool)
    requires sep(c)
    requires FirstWhere(a, 0, sep) < |a| && RunEnd(a, FirstWhere(a, 0, sep), sep) == |a|
    ensures NonBlank(Split(a + [c] + b, sep)) == NonBlank(Split(a, sep)) + NonBlank(Split(b, sep))
  {
    var i := FirstWhere(a, 0, sep);
    var k := RunEnd(b, 0, sep);
    TrailingRunPieces(a, c, b, sep);
    TrailingRunAlone(a, sep);
    NonBlankAppend([a[..i]], Split(b[k..], sep));
    SkipLeadingRun(b, sep);
  }

  /** The pieces of `a + [c] + b` when `a` ends in its first separator run. */
  lemma TrailingRunPieces(a: string, c: char, b: string, sep: char -> bool)
    requires sep(c)
    requires FirstWhere(a, 0, sep) < |a| && RunEnd(a, FirstWhere(a, 0, sep), sep) == |a|
    ensures Split(a + [c] + b, sep) == [a[..FirstWhere(a, 0, sep)]] + Split(b[RunEnd(b, 0, sep)..], sep)
  {
    var s := a + [c] + b;
    var i := FirstWhere(a, 0, sep);
    var k := RunEnd(b, 0, sep);
    var j := |a| + 1 + k;
    FirstRunKept(a, c, b, sep);
    RunThrough(a, c, b, i, sep);
    assert s[..i] == a[..i] && s[j..] == b[k..];
    SplitAt(s, i, j, sep);
    assert Split(s, sep) == [s[..i]] + Split(s[j..], sep);
  }

  /** A string that ends in its first separator run keeps only its first
      piece, blank pieces aside. */
  lemma TrailingRunAlone(a: string, sep: char -> bool)
    requires FirstWhere(a, 0, sep) < |a| && RunEnd(a, FirstWhere(a, 0, sep), sep) == |a|
    ensures NonBlank(Split(a, sep)) == NonBlank([a[..FirstWhere(a, 0, sep)]])
  {
    var i := FirstWhere(a, 0, sep);
    SplitAt(a, i, |a|, sep);
    assert a[|a|..] == "";
    assert Split("", sep) == [""];
    NonBlankAppend([a[..i]], [""]);
    NonBlankAppend([""], []);
    assert NonBlank([a[..i]] + [""]) == NonBlank([a[..i]]) + [];
  }

  lemma DropConcat(a: string, c: char, b: string, j: nat)
    requires j <= |a|
    ensures (a + [c] + b)[j..] == a[j..] + [c] + b
  {
    var s := a + [c] + b;
    var t := a[j..] + [c] + b;
    assert |s[j..]| == |t|;
    forall m | 0 <= m < |t|
      ensures s[j..][m] == t[m]
    {
      if m < |a| - j {
        assert t[m] == a[j + m];
      } else if m == |a| - j {
        assert t[m] == c;
      } else {
        assert t[m] == b[m - (|a| - j) - 1];
      }
    }
  }

  const SummaryLength := 200
  const SummarySentences := 3

  /** `summarizeDocument`: the first three sentences joined by ". " with a
      final ".", cut to 200 characters. */
  function SummarizeDocument(text: string): (r: string)
    ensures |r| <= SummaryLength
    ensures r <= Join(Take(Sentences(text), SummarySentences), ". ") + "."
    ensures var whole := Join(Take(Sentences(text), SummarySentences), ". ") + ".";
      |r| == if |whole| <= SummaryLength then |whole| else SummaryLength
    ensures '!' !in r && '?' !in r
  {
    var chosen := Take(Sentences(text), SummarySentences);
    var whole := Join(chosen, ". ") + ".";
    assert forall i :: 0 <= i < |chosen| ==> chosen[i] in Sentences(text);
    JoinChars(chosen, ". ", '!');
    JoinChars(chosen, ". ", '?');
    SubstringChars(whole, 0, SummaryLength, '!');
    SubstringChars(whole, 0, SummaryLength, '?');
    PrefixSubstring(whole, SummaryLength);
    Substring(whole, 0, SummaryLength)
  }

  /** A text with no sentence in it summarises to a lone ".". */
  lemma BlankSummary(text: string)
    requires Sentences(text) == []
    ensures SummarizeDocument(text) == "."
  {
    PrefixSubstring(".", SummaryLength);
  }

  /** A short unterminated sentence is kept whole, with a full stop added. */
  lemma {:induction false} OneSentenceSummary(text: string)
    requires |text| < SummaryLength && HasNonSpace(text) && Avoids(text, IsSentenceEnd)
    ensures SummarizeDocument(text) == text + "."
  {
    assert FirstWhere(text, 0, IsSentenceEnd) == |text|;
    assert Split(text, IsSentenceEnd) == [text];
    assert NonBlank([text]) == [text] by {
      assert [text][1..] == [];
    }
    PrefixSubstring(text + ".", SummaryLength);
  }

  /** The characters `replace(/[^a-z0-9\s]/g, '')` keeps. */
  predicate KeptChar(c: char) { IsLower(c) || IsDigit(c) || IsSpace(c) }

  /** Removes every other character, keeping the order of the rest
      (`CleanAppend`). */
  function Clean(s: string): (r: string)
    ensures |r| <= |s|
    ensures forall k :: 0 <= k < |r| ==> KeptChar(r[k])
    ensures forall c :: c in r <==> c in s && KeptChar(c)
    ensures IsSubsequence(r, s)
  {
    if s == [] then []
    else
      assert forall c :: c in s <==> c == s[0] || c in s[1..];
      var rest := Clean(s[1..]);
      if KeptChar(s[0]) then
        assert ([s[0]] + rest)[1..] == rest;
        [s[0]] + rest
      else rest
  }

  /** Cleaning works character by character: cleaning a concatenation is
      concatenating the cleaned parts, and one character is kept or
      removed. */
  lemma {:induction false} CleanAppend(a: string, b: string)
    ensures Clean(a + b) == Clean(a) + Clean(b)
    ensures |a| == 1 ==> Clean(a) == if KeptChar(a[0]) then a else ""
    decreases |a|
  {
    if a != [] {
      var t := a + b;
      assert t[0] == a[0] && t[1..] == a[1..] + b;
      CleanAppend(a[1..], b);
      var head := if KeptChar(a[0]) then [a[0]] else [];
      assert Clean(t) == head + Clean(a[1..] + b);
      assert Clean(a) == head + Clean(a[1..]);
      if |a| == 1 {
        assert a[1..] == [];
      }
    } else {
      assert a + b == b;
    }
  }

  /** The words of a text: the cleaned lower-cased text split on runs of
      white space. */
  function Words(text: string): seq<string>
  {
    Split(Clean(Lower(text)), IsSpace)
  }

  const MinKeywordLength := 4

  /** The stop list of `extractKeywords`. */
  const StopWords: set<string> := {
    "the", "and", "for", "are", "but", "not", "you", "all", "can", "her",
    "was", "one", "our", "out", "day", "get", "has", "him", "his", "how"}

  /** `extractKeywords`: the distinct words of at least four characters
      that are not stop words. Every stop word has three letters, so the stop
      list never removes anything: the keywords are exactly the long words. */
  function ExtractKeywords(text: string): (r: set<string>)
    ensures forall w :: w in r <==> w in Words(text) && |w| >= MinKeywordLength
    ensures forall w :: w in r ==> forall k :: 0 <= k < |w| ==> IsLower(w[k]) || IsDigit(w[k])
  {
    StopWordsShort();
    var r := set w | w in Words(text) && |w| > 3 && w !in StopWords;
    forall w | w in r
      ensures forall k :: 0 <= k < |w| ==> IsLower(w[k]) || IsDigit(w[k])
    {
      WordChars(text, w);
    }
    r
  }

  lemma StopWordsShort()
    ensures forall w :: w in StopWords ==> |w| == 3
  {
  }

  /** A word consists of lower-case letters and digits. */
  lemma WordChars(text: string, w: string)
    requires w in Words(text)
    ensures forall k :: 0 <= k < |w| ==> IsLower(w[k]) || IsDigit(w[k])
  {
    var cleaned := Clean(Lower(text));
    SplitPiecesOccur(cleaned, IsSpace, w);
    var p :| OccursAt(cleaned, w, p);
    forall k | 0 <= k < |w|
      ensures IsLower(w[k]) || IsDigit(w[k])
    {
      assert w[k] == cleaned[p + k];
      assert !IsSpace(w[k]);
    }
  }

  /** Keywords do not depend on letter case. */
  lemma KeywordsIgnoreCase(text: string)
    ensures ExtractKeywords(Lower(text)) == ExtractKeywords(text)
  {
    LowerIdempotent(text);
  }

  /** `calculateSimilarity`: the Jaccard index |a ∩ b| / |a ∪ b|. With both
      sets empty it is 0/0, a NaN, here `None`. */
  function Similarity(a: set<string>, b: set<string>): (r: Option<real>)
    ensures r.None? <==> a == {} && b == {}
    ensures r.Some? ==> 0.0 <= r.value <= 1.0
    ensures r.Some? ==> (r.value == 1.0 <==> a == b)
    ensures r.Some? ==> (r.value == 0.0 <==> a * b == {})
  {
    if a + b == {} then None
    else
      JaccardSets(a, b);
      Ratio(|a * b|, |a + b|);
      Some(|a * b| as real / |a + b| as real)
  }

  /** A fraction of a non-empty whole lies in [0, 1]; it is 1 exactly for
      the whole and 0 exactly for nothing. */
  lemma Ratio(i: nat, u: nat)
    requires 0 < u && i <= u
    ensures 0.0 <= i as real / u as real <= 1.0
    ensures i as real / u as real == 1.0 <==> i == u
    ensures i as real / u as real == 0.0 <==> i == 0
  {
    var q := i as real / u as real;
    assert q * u as real == i as real;
  }

  /** The intersection is within the union; they have the same size only
      for equal sets, and the intersection is empty only when it has no
      elements. */
  lemma JaccardSets(a: set<string>, b: set<string>)
    ensures |a * b| <= |a + b|
    ensures |a * b| == |a + b| <==> a == b
    ensures |a * b| == 0 <==> a * b == {}
  {
    SubsetCard(a * b, a + b);
    if |a * b| == |a + b| {
      SameSizeSubset(a * b, a + b);
      assert forall x :: x in a ==> x in b;
      assert forall x :: x in b ==> x in a;
    }
    if a == b {
      assert a * b == a + b;
    }
  }

  lemma SubsetCard(x: set<string>, y: set<string>)
    requires x <= y
    ensures |x| <= |y|
  {
    assert y == x + (y - x);
  }

  /** A subset as large as its superset is the superset. */
  lemma SameSizeSubset(x: set<string>, y: set<string>)
    requires x <= y && |x| == |y|
    ensures x == y
  {
    assert y == x + (y - x);
    assert x * (y - x) == {};
    assert |y - x| == 0;
  }

  lemma SimilaritySymmetric(a: set<string>, b: set<string>)
    ensures Similarity(a, b) == Similarity(b, a)
  {
    assert a * b == b * a && a + b == b + a;
  }

  /** A document offered to `suggestRelatedDocuments`. */
  datatype Candidate = Candidate(id: string, text: string, title: string)

  /** A `link` suggestion: the document, its title, and the similarity as
      confidence. */
  datatype Link = Link(id: string, title: string, confidence: real)

  const RelatedThreshold: real := 0.3
  const MaxRelated := 5

  /** The link for one candidate when its similarity exceeds 0.3; a NaN
      similarity fails the comparison. */
  function LinkFor(current: set<string>, d: Candidate): Option<Link>
  {
    match Similarity(current, ExtractKeywords(d.text))
    case None => None
    case Some(x) => if x > RelatedThreshold then Some(Link(d.id, d.title, x)) else None
  }

  /** The link rule for the current keywords. */
  function LinkRule(current: set<string>): Candidate -> Option<Link>
  {
    d => LinkFor(current, d)
  }

  function CandidateId(d: Candidate): string { d.id }
  function LinkId(l: Link): string { l.id }

  /** The links of all candidates, in candidate order (`LinksAppend`): at
      most one per candidate, and one per distinct candidate id. */
  function Links(current: set<string>, docs: seq<Candidate>): (r: seq<Link>)
    ensures forall l :: l in r <==> exists i :: 0 <= i < |docs| && LinkFor(current, docs[i]) == Some(l)
    ensures forall l :: l in r ==> l.confidence > RelatedThreshold
    ensures |r| <= |docs|
    ensures DistinctBy(docs, CandidateId) ==> DistinctBy(r, LinkId)
  {
    var r := Collect(docs, LinkRule(current));
    forall l | l in r
      ensures l.confidence > RelatedThreshold
    {
      var d :| d in docs && LinkFor(current, d) == Some(l);
      LinkAboveThreshold(current, d);
    }
    if DistinctBy(docs, CandidateId) then
      CollectDistinct(docs, LinkRule(current), CandidateId, LinkId);
      r
    else r
  }

  /** Links are produced candidate by candidate, in order: the links of a
      concatenation are the concatenated links, and one candidate gives its
      link or nothing. */
  lemma LinksAppend(current: set<string>, a: seq<Candidate>, b: seq<Candidate>)
    ensures Links(current, a + b) == Links(current, a) + Links(current, b)
    ensures |a| == 1 ==> Links(current, a) == (match LinkFor(current, a[0]) case Some(l) => [l] case None => [])
  {
    CollectAppend(a, b, LinkRule(current));
  }

  lemma LinkAboveThreshold(current: set<string>, d: Candidate)
    ensures LinkFor(current, d).Some? ==> LinkFor(current, d).value.confidence > RelatedThreshold
  {
  }

  function Confidence(l: Link): real { l.confidence }

  /** The five most confident links, most confident first, ties in input
      order: the first five of the stable sort, so nothing left out beats
      anything kept. */
  function Top(all: seq<Link>): (r: seq<Link>)
    ensures |r| == if |all| <= MaxRelated then |all| else MaxRelated
    ensures r <= SortDesc(all, Confidence)
    ensures NonIncreasing(r, Confidence)
    ensures forall l :: l in r ==> l in all
    ensures forall l, m :: l in all && l !in r && m in r ==> m.confidence >= l.confidence
    ensures |all| <= MaxRelated ==> multiset(r) == multiset(all)
    ensures DistinctBy(all, LinkId) ==> DistinctBy(r, LinkId)
  {
    var sorted := SortDesc(all, Confidence);
    PermutationMembers(sorted, all);
    TakeSorted(sorted, MaxRelated, Confidence);
    var r := Take(sorted, MaxRelated);
    if DistinctBy(all, LinkId) then
      PermutationDistinct(all, sorted, LinkId);
      assert forall k :: 0 <= k < |r| ==> r[k] == sorted[k];
      r
    else r
  }

  /** `suggestRelatedDocuments`: the candidates more than 30% similar to the
      current text by keywords, most similar first (ties in candidate
      order), at most five: the first five of the stably sorted links. No
      link that is left out is more similar than one that is kept. */
  function SuggestRelatedDocuments(currentText: string, docs: seq<Candidate>): (r: seq<Link>)
    ensures |r| <= MaxRelated
    ensures var all := Links(ExtractKeywords(currentText), docs);
      |r| == (if |all| <= MaxRelated then |all| else MaxRelated) && r <= SortDesc(all, Confidence)
    ensures NonIncreasing(r, Confidence)
    ensures forall l :: l in r ==> l.confidence > RelatedThreshold
    ensures forall l :: l in r ==> exists i :: 0 <= i < |docs| && LinkFor(ExtractKeywords(currentText), docs[i]) == Some(l)
    ensures forall l, m :: l in Links(ExtractKeywords(currentText), docs) && l !in r && m in r ==>
      m.confidence >= l.confidence
    ensures |Links(ExtractKeywords(currentText), docs)| <= MaxRelated ==>
      multiset(r) == multiset(Links(ExtractKeywords(currentText), docs))
    ensures DistinctBy(docs, CandidateId) ==> DistinctBy(r, LinkId)
  {
    Top(Links(ExtractKeywords(currentText), docs))
  }

  /** A candidate with the current text itself, when that text has a
      keyword, is linked with full confidence. */
  lemma SelfIsRelated(currentText: string, title: string, id: string)
    requires ExtractKeywords(currentText) != {}
    ensures LinkFor(ExtractKeywords(currentText), Candidate(id, currentText, title)) == Some(Link(id, title, 1.0))
  {
  }

  /** `suggestSearchQueries`: the query expanded with " document" and with
      " certificate". Splitting always yields at least one word, so the
      expansion is never skipped. */
  function SuggestSearchQueries(query: string): (r: seq<string>)
    ensures |r| == 2
    ensures r[0] == query + " document" && r[1] == query + " certificate"
  {
    var words := Split(Lower(query), IsSpace);
    if |words| > 0 then Take([query + " document", query + " certificate"], 5)
    else []
  }
}
