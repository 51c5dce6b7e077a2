/** Unified search (`SearchService`) over the three searchable collections.
    Each collection is scanned in its stored order (documents and notes
    newest first, chat messages by time, newest first); an entry that
    matches the already lower-cased query becomes a `SearchResult` with a
    relevance and a snippet, and the results are ordered by relevance with
    a stable sort. Relevance is counted in tenths: 0.5 is 5. */
module Search {
  import opened Wrappers
  import opened Text
  import opened Types
  import opened Sorting
  import opened Database
  import Documents

  /** Characters of context kept before a match, and from it on. */
  const ContextBefore := 50
  const ContextAfter := 100

  /** Length of the snippet used when nothing else was chosen. */
  const FallbackLength := 100

  /** Length of a chat result's title. */
  const ChatTitleLength := 50

  /** The relevance of every chat result. */
  const ChatRelevance := 3

  /** Tenths of relevance earned by a match in the title, in the body and in
      some tag. */
  datatype Weights = Weights(title: nat, body: nat, tag: nat)

  const DocumentWeights := Weights(5, 3, 2)
  const NoteWeights := Weights(5, 4, 1)

  function RelevanceKey(r: SearchResult): real { r.relevance as real }
  function ResultId(r: SearchResult): string { r.id }
  function TimeKey(r: SearchResult): real { r.timestamp as real }

  // ---------------------------------------------------------------------
  // Snippets

  /** `[a, b)` is the window of `text` shown around index `i`: 50
      characters before it and 100 from it on, cut at the ends of `text`. */
  predicate ContextWindow(text: string, i: nat, a: nat, b: nat)
  {
    && a <= i <= b <= |text|
    && (a == 0 || a == i - ContextBefore) && i - a <= ContextBefore
    && (b == |text| || b == i + ContextAfter) && b - i <= ContextAfter
  }

  /** The context of a match at index `i`, between ellipses. */
  function Around(text: string, i: nat): (r: string)
    requires i <= |text|
    ensures exists a: nat, b: nat :: ContextWindow(text, i, a, b) && r == "..." + text[a..b] + "..."
  {
    var a: nat := if i >= ContextBefore then i - ContextBefore else 0;
    var b: nat := if i + ContextAfter <= |text| then i + ContextAfter else |text|;
    assert ContextWindow(text, i, a, b);
    "..." + Substring(text, a, b) + "..."
  }

  /** A match inside a window stays a match once the window is framed. */
  lemma FramedMatch(text: string, query: string, i: nat, a: nat, b: nat, pre: string, post: string)
    requires a <= i && i + |query| <= b <= |text|
    requires OccursAt(Lower(text), query, i)
    ensures OccursAt(Lower(pre + text[a..b] + post), query, |pre| + i - a)
  {
    var r := pre + text[a..b] + post;
    var p := |pre| + i - a;
    forall m | 0 <= m < |query|
      ensures Lower(r)[p + m] == query[m]
    {
      assert r[p + m] == text[i + m];
      assert Lower(text)[i..i + |query|][m] == query[m];
    }
    assert Lower(r)[p..p + |query|] == query;
  }

  /** The window around the first match of a query of at most 100
      characters holds the whole match. */
  lemma SnippetShowsMatch(text: string, query: string)
    requires Includes(Lower(text), query) && |query| <= ContextAfter
    ensures Includes(Lower(Around(text, IndexOf(Lower(text), query))), query)
  {
    var i := IndexOf(Lower(text), query);
    var r := Around(text, i);
    var a: nat, b: nat :| ContextWindow(text, i, a, b) && r == "..." + text[a..b] + "...";
    FramedMatch(text, query, i, a, b, "...", "...");
    IncludesIff(Lower(r), query);
  }

  /** The snippet of a document or note: the context of the first match in
      the body; failing that the title, when it matched and is not empty;
      failing that the first 100 characters of the body. */
  function Snippet(title: string, body: string, query: string): (r: string)
    ensures Includes(Lower(body), query) ==> r == Around(body, IndexOf(Lower(body), query))
    ensures !Includes(Lower(body), query) && Includes(Lower(title), query) && title != "" ==> r == title
    ensures !Includes(Lower(body), query) && (!Includes(Lower(title), query) || title == "") ==>
      r == body[..if |body| <= FallbackLength then |body| else FallbackLength]
  {
    var i := IndexOf(Lower(body), query);
    var chosen := if i != -1 then Around(body, i) else if Includes(Lower(title), query) then title else "";
    PrefixSubstring(body, FallbackLength);
    if chosen != "" then chosen else Substring(body, 0, FallbackLength)
  }

  // ---------------------------------------------------------------------
  // Scoring one entry

  predicate AnyTagHit(tags: seq<string>, query: string)
  {
    exists t :: t in tags && Includes(Lower(t), query)
  }

  function Weigh(hit: bool, w: nat): nat { if hit then w else 0 }

  /** The result for a titled entry with a body and tags: present exactly
      when the title, the body or some tag includes the query, with the
      weights of the parts that match as relevance. */
  function Score(kind: ResultKind, id: string, title: string, body: string, tags: seq<string>,
                 timestamp: int, w: Weights, query: string): (r: Option<SearchResult>)
    requires w.title > 0 && w.body > 0 && w.tag > 0
    ensures r.Some? <==> Includes(Lower(title), query) || Includes(Lower(body), query) || AnyTagHit(tags, query)
    ensures r.Some? ==> 0 < r.value.relevance <= w.title + w.body + w.tag
    ensures r.Some? ==> (r.value.relevance ==
      Weigh(Includes(Lower(title), query), w.title) + Weigh(Includes(Lower(body), query), w.body)
      + Weigh(AnyTagHit(tags, query), w.tag))
    ensures r.Some? ==> (r.value.kind == kind && r.value.id == id && r.value.title == title
      && r.value.timestamp == timestamp && r.value.snippet == Snippet(title, body, query))
  {
    var relevance := Weigh(Includes(Lower(title), query), w.title)
      + Weigh(IndexOf(Lower(body), query) != -1, w.body)
      + Weigh(AnyTagHit(tags, query), w.tag);
    if relevance > 0 then Some(SearchResult(kind, id, title, Snippet(title, body, query), relevance, timestamp))
    else None
  }

  function DocumentHit(d: Document, query: string): Option<SearchResult>
  {
    Score(DocumentResult, d.id, d.title, d.ocrText, d.tags, d.createdAt, DocumentWeights, query)
  }

  function NoteHit(n: Note, query: string): Option<SearchResult>
  {
    Score(NoteResult, n.id, n.title, n.content, n.tags, n.createdAt, NoteWeights, query)
  }

  /** A chat message is a result exactly when its content includes the
      query; its title is the first 50 characters of the content. */
  function ChatHit(m: ChatMessage, query: string): (r: Option<SearchResult>)
    ensures r.Some? <==> Includes(Lower(m.content), query)
    ensures r.Some? ==> (r.value.kind == ChatResult && r.value.id == m.id
      && r.value.relevance == ChatRelevance && r.value.timestamp == m.timestamp)
    ensures r.Some? ==> r.value.title == m.content[..if |m.content| <= ChatTitleLength then |m.content| else ChatTitleLength]
    ensures r.Some? ==> r.value.snippet == Around(m.content, IndexOf(Lower(m.content), query))
  {
    PrefixSubstring(m.content, ChatTitleLength);
    if Includes(Lower(m.content), query) then
      var i := IndexOf(Lower(m.content), query);
      Some(SearchResult(ChatResult, m.id, Substring(m.content, 0, ChatTitleLength), Around(m.content, i),
                        ChatRelevance, m.timestamp))
    else None
  }

  /** Collecting results from a sequence ordered by a key keeps the order
      when each result carries its entry's key. */
  lemma {:induction false} CollectKeepsOrder<T, U(!new)>(xs: seq<T>, f: T -> Option<U>, kx: T -> real, ky: U -> real)
    requires NonIncreasing(xs, kx)
    requires forall i :: 0 <= i < |xs| && f(xs[i]).Some? ==> ky(f(xs[i]).value) == kx(xs[i])
    ensures NonIncreasing(Collect(xs, f), ky)
    decreases |xs|
  {
    if xs != [] {
      var tail := xs[1..];
      assert forall i :: 0 <= i < |tail| ==> tail[i] == xs[i + 1];
      CollectKeepsOrder(tail, f, kx, ky);
      var rest := Collect(tail, f);
      forall y | y in rest
        ensures ky(y) <= kx(xs[0])
      {
        var i :| 0 <= i < |tail| && f(tail[i]) == Some(y);
        assert f(xs[i + 1]) == Some(y);
      }
      var r := Collect(xs, f);
      if f(xs[0]).Some? {
        assert r == [f(xs[0]).value] + rest;
        forall i, j | 0 <= i < j < |r|
          ensures ky(r[i]) >= ky(r[j])
        {
          assert r[j] == rest[j - 1];
          if i > 0 {
            assert r[i] == rest[i - 1];
          }
        }
      } else {
        assert r == rest;
      }
    }
  }

  // ---------------------------------------------------------------------
  // Searching each collection

  /** Document results: one per listed (not archived) document that
      matches, by relevance and, among equal relevance, newest first. */
  function SearchDocuments(s: Store, query: string): (r: seq<SearchResult>)
    requires Valid(s)
    ensures !s.open ==> r == []
    ensures forall x :: x in r <==> exists d :: d in Documents.GetAllDocuments(s) && DocumentHit(d, query) == Some(x)
    ensures LexSorted(r, RelevanceKey, TimeKey)
    ensures |r| <= |Documents.GetAllDocuments(s)|
    ensures (forall d :: d in Documents.GetAllDocuments(s) ==> DocumentHit(d, query).Some?) ==>
      |r| == |Documents.GetAllDocuments(s)|
    ensures Documents.UniqueIds(s) ==> DistinctBy(r, ResultId)
  {
    var all := Documents.GetAllDocuments(s);
    var hit := (d: Document) => DocumentHit(d, query);
    RankHits(all, hit, Documents.CreatedKey);
    if Documents.UniqueIds(s) then
      RankedDistinct(all, hit, Documents.DocId, RelevanceKey);
      SortDesc(Collect(all, hit), RelevanceKey)
    else SortDesc(Collect(all, hit), RelevanceKey)
  }

  /** Entries with distinct ids give results with distinct ids, whatever
      order the results are then sorted into: one result per entry. */
  lemma RankedDistinct<T>(xs: seq<T>, hit: T -> Option<SearchResult>, id: T -> string, key: SearchResult -> real)
    requires DistinctBy(xs, id)
    requires forall i :: 0 <= i < |xs| && hit(xs[i]).Some? ==> hit(xs[i]).value.id == id(xs[i])
    ensures DistinctBy(SortDesc(Collect(xs, hit), key), ResultId)
  {
    CollectDistinct(xs, hit, id, ResultId);
    PermutationDistinct(Collect(xs, hit), SortDesc(Collect(xs, hit), key), ResultId);
  }

  /** Results collected from entries sorted newest first, each carrying its
      entry's time, then stably sorted by relevance: the results of exactly
      the matching entries, ordered by relevance and then time. */
  lemma RankHits<T>(xs: seq<T>, hit: T -> Option<SearchResult>, time: T -> real)
    requires NonIncreasing(xs, time)
    requires forall i :: 0 <= i < |xs| && hit(xs[i]).Some? ==> TimeKey(hit(xs[i]).value) == time(xs[i])
    ensures forall y :: y in SortDesc(Collect(xs, hit), RelevanceKey) <==> exists x :: x in xs && hit(x) == Some(y)
    ensures LexSorted(SortDesc(Collect(xs, hit), RelevanceKey), RelevanceKey, TimeKey)
    ensures |SortDesc(Collect(xs, hit), RelevanceKey)| <= |xs|
    ensures (forall x :: x in xs ==> hit(x).Some?) ==> |SortDesc(Collect(xs, hit), RelevanceKey)| == |xs|
  {
    var hits := Collect(xs, hit);
    CollectKeepsOrder(xs, hit, time, TimeKey);
    SortLex(hits, RelevanceKey, TimeKey);
    PermutationMembers(SortDesc(hits, RelevanceKey), hits);
    if forall x :: x in xs ==> hit(x).Some? {
      assert forall i :: 0 <= i < |xs| ==> hit(xs[i]).Some?;
    }
  }

  function NoteOf(rec: Record): Option<Note>
  {
    if rec.NoteRecord? then Some(rec.note) else None
  }

  /** The stored notes, in insertion order. */
  function StoredNotes(s: Store): (r: seq<Note>)
    requires Valid(s)
    ensures forall n :: n in r <==> NoteRecord(n) in s.tables[NoteKind]
  {
    var r := Collect(s.tables[NoteKind], NoteOf);
    assert forall n :: NoteOf(NoteRecord(n)) == Some(n);
    r
  }

  function NoteCreated(n: Note): real { n.createdAt as real }
  function NoteId(n: Note): string { n.id }

  /** Note results: one per stored note that matches, by relevance and,
      among equal relevance, newest first; nothing while the store is
      closed. */
  function SearchNotes(s: Store, query: string): (r: seq<SearchResult>)
    requires Valid(s)
    ensures !s.open ==> r == []
    ensures forall x :: x in r <==> s.open && exists n :: n in StoredNotes(s) && NoteHit(n, query) == Some(x)
    ensures LexSorted(r, RelevanceKey, TimeKey)
    ensures s.open ==> |r| <= |StoredNotes(s)|
    ensures s.open && (forall n :: n in StoredNotes(s) ==> NoteHit(n, query).Some?) ==> |r| == |StoredNotes(s)|
    ensures DistinctBy(StoredNotes(s), NoteId) ==> DistinctBy(r, ResultId)
  {
    if Objects(s, NoteKind).Err? then []
    else
      var notes := SortDesc(StoredNotes(s), NoteCreated);
      var hit := (n: Note) => NoteHit(n, query);
      RankHits(notes, hit, NoteCreated);
      PermutationMembers(notes, StoredNotes(s));
      if DistinctBy(StoredNotes(s), NoteId) then
        PermutationDistinct(StoredNotes(s), notes, NoteId);
        RankedDistinct(notes, hit, NoteId, RelevanceKey);
        SortDesc(Collect(notes, hit), RelevanceKey)
      else SortDesc(Collect(notes, hit), RelevanceKey)
  }

  function MessageOf(rec: Record): Option<ChatMessage>
  {
    if rec.ChatRecord? then Some(rec.msg) else None
  }

  /** The stored chat messages, in insertion order. */
  function StoredMessages(s: Store): (r: seq<ChatMessage>)
    requires Valid(s)
    ensures forall m :: m in r <==> ChatRecord(m) in s.tables[ChatKind]
  {
    var r := Collect(s.tables[ChatKind], MessageOf);
    assert forall m :: MessageOf(ChatRecord(m)) == Some(m);
    r
  }

  function MessageTime(m: ChatMessage): real { m.timestamp as real }
  function MessageId(m: ChatMessage): string { m.id }

  /** Chat results: one per stored message that matches, newest first. The
      final sort by time changes nothing: the results are already in the
      order of the messages sorted by time. */
  function SearchChat(s: Store, query: string): (r: seq<SearchResult>)
    requires Valid(s)
    ensures !s.open ==> r == []
    ensures forall x :: x in r <==> s.open && exists m :: m in StoredMessages(s) && ChatHit(m, query) == Some(x)
    ensures NonIncreasing(r, TimeKey)
    ensures s.open ==> r == Collect(SortDesc(StoredMessages(s), MessageTime), m => ChatHit(m, query))
    ensures s.open && (forall m :: m in StoredMessages(s) ==> ChatHit(m, query).Some?) ==> |r| == |StoredMessages(s)|
    ensures DistinctBy(StoredMessages(s), MessageId) ==> DistinctBy(r, ResultId)
  {
    if Objects(s, ChatKind).Err? then []
    else
      var msgs := SortDesc(StoredMessages(s), MessageTime);
      var hit := (m: ChatMessage) => ChatHit(m, query);
      var hits := Collect(msgs, hit);
      CollectKeepsOrder(msgs, hit, MessageTime, TimeKey);
      SortSortedIdentity(hits, TimeKey);
      PermutationMembers(msgs, StoredMessages(s));
      if DistinctBy(StoredMessages(s), MessageId) then
        PermutationDistinct(StoredMessages(s), msgs, MessageId);
        RankedDistinct(msgs, hit, MessageId, TimeKey);
        SortDesc(hits, TimeKey)
      else SortDesc(hits, TimeKey)
  }

  // ---------------------------------------------------------------------
  // Unified search

  datatype Results = Results(documents: seq<SearchResult>, notes: seq<SearchResult>, chat: seq<SearchResult>)

  /** `x` is the result of a listed document. */
  predicate FromDocument(s: Store, x: SearchResult)
    requires Valid(s)
  {
    x.kind == DocumentResult && exists d :: d in Documents.GetAllDocuments(s) && d.id == x.id && d.title == x.title
  }

  /** `x` is the result of a stored note. */
  predicate FromNote(s: Store, x: SearchResult)
    requires Valid(s)
  {
    x.kind == NoteResult && exists n :: n in StoredNotes(s) && n.id == x.id && n.title == x.title
  }

  /** `x` is the result of a stored message whose content includes `q`. */
  predicate FromMessage(s: Store, x: SearchResult, q: string)
    requires Valid(s)
  {
    && x.kind == ChatResult && x.relevance == ChatRelevance
    && exists m :: m in StoredMessages(s) && m.id == x.id && Includes(Lower(m.content), q)
  }

  /** `search`: the three searches with the lower-cased query. Each kind of
      result comes from its own collection, and a closed store finds
      nothing. */
  function SearchAll(s: Store, query: string): (r: Results)
    requires Valid(s)
    ensures !s.open ==> r == Results([], [], [])
    ensures forall x :: x in r.documents ==> FromDocument(s, x)
    ensures forall x :: x in r.notes ==> FromNote(s, x)
    ensures forall x :: x in r.chat ==> FromMessage(s, x, Lower(query))
    ensures LexSorted(r.documents, RelevanceKey, TimeKey) && LexSorted(r.notes, RelevanceKey, TimeKey)
    ensures NonIncreasing(r.chat, TimeKey)
    ensures forall d :: d in Documents.GetAllDocuments(s) && DocumentHit(d, Lower(query)).Some? ==>
      DocumentHit(d, Lower(query)).value in r.documents
    ensures forall n :: s.open && n in StoredNotes(s) && NoteHit(n, Lower(query)).Some? ==>
      NoteHit(n, Lower(query)).value in r.notes
    ensures forall m :: s.open && m in StoredMessages(s) && ChatHit(m, Lower(query)).Some? ==>
      ChatHit(m, Lower(query)).value in r.chat
    ensures Documents.UniqueIds(s) ==> DistinctBy(r.documents, ResultId)
    ensures DistinctBy(StoredNotes(s), NoteId) ==> DistinctBy(r.notes, ResultId)
    ensures DistinctBy(StoredMessages(s), MessageId) ==> DistinctBy(r.chat, ResultId)
  {
    var q := Lower(query);
    ResultsFromStore(s, q);
    Results(SearchDocuments(s, q), SearchNotes(s, q), SearchChat(s, q))
  }

  /** Each result the three searches give comes from an entry of its own
      collection. */
  lemma ResultsFromStore(s: Store, q: string)
    requires Valid(s)
    ensures forall x :: x in SearchDocuments(s, q) ==> FromDocument(s, x)
    ensures forall x :: x in SearchNotes(s, q) ==> FromNote(s, x)
    ensures forall x :: x in SearchChat(s, q) ==> FromMessage(s, x, q)
  {
    forall x | x in SearchDocuments(s, q)
      ensures FromDocument(s, x)
    {
      var d :| d in Documents.GetAllDocuments(s) && DocumentHit(d, q) == Some(x);
    }
    forall x | x in SearchNotes(s, q)
      ensures FromNote(s, x)
    {
      var n :| n in StoredNotes(s) && NoteHit(n, q) == Some(x);
    }
    forall x | x in SearchChat(s, q)
      ensures FromMessage(s, x, q)
    {
      var m :| m in StoredMessages(s) && ChatHit(m, q) == Some(x);
    }
  }

  /** The query's case does not matter. */
  lemma SearchIgnoresCase(s: Store, query: string)
    requires Valid(s)
    ensures SearchAll(s, Lower(query)) == SearchAll(s, query)
  {
    LowerIdempotent(query);
  }

  /** The empty query matches every listed document, every note and every
      chat message, since every string includes the empty string: each of
      them has its result, and there are no others. */
  lemma EmptyQueryFindsEverything(s: Store)
    requires Valid(s) && s.open
    ensures forall d :: d in Documents.GetAllDocuments(s) ==>
      DocumentHit(d, "").Some? && DocumentHit(d, "").value in SearchAll(s, "").documents
    ensures forall n :: n in StoredNotes(s) ==> NoteHit(n, "").Some? && NoteHit(n, "").value in SearchAll(s, "").notes
    ensures forall m :: m in StoredMessages(s) ==> ChatHit(m, "").Some? && ChatHit(m, "").value in SearchAll(s, "").chat
    ensures |SearchAll(s, "").documents| == |Documents.GetAllDocuments(s)|
    ensures |SearchAll(s, "").notes| == |StoredNotes(s)|
    ensures |SearchAll(s, "").chat| == |StoredMessages(s)|
  {
    assert Lower("") == "";
    forall t: string
      ensures Includes(Lower(t), "")
    {
      EmptyIncluded(Lower(t));
    }
  }
}
