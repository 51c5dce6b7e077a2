/** Document management (`DocumentService`): creating a document from a file
    (encrypting its bytes into a blob, extracting text, entities and
    suggestions, recording it), listing, lookup by id, partial update,
    deletion of record and blob, text search, and the path helpers.

    The device is a `World`: the object store, the file system (paths to
    contents) and the key vault. What the service asks of the platform, the
    document directory, the OCR engine, the file sizes and the date parser,
    is a `Platform`; the fresh id and the current instant are parameters. */
module Documents {
  import opened Wrappers
  import opened Text
  import opened Types
  import opened Sorting
  import opened Database
  import opened Encryption
  import opened Ocr
  import opened Ai

  datatype World = World(store: Store, files: Files, vault: Vault)

  datatype Platform = Platform(
    crypto: Crypto,
    documentDir: string,
    cachesDir: string,
    sizeOf: string -> int,
    recognize: string -> string,
    parseDate: string -> Option<int>)

  /** Why `createDocument` throws. */
  datatype DocError = FileNotFound | EncryptionFailed | StoreFailed(cause: DbError)

  // ---------------------------------------------------------------------
  // Path helpers

  /** `s.split(c)` for a one-character separator: every occurrence splits,
      so adjacent separators leave empty pieces. */
  function SplitOn(s: string, c: char): (r: seq<string>)
    ensures |r| >= 1
    ensures |r| > 1 <==> c in s
    ensures c !in s ==> r == [s]
    decreases |s|
  {
    if c !in s then [s]
    else
      var i := FirstIndex(s, c);
      [s[..i]] + SplitOn(s[i + 1..], c)
  }

  /** The position of the first `c` in `s`. */
  function FirstIndex(s: string, c: char): (i: nat)
    requires c in s
    ensures i < |s| && s[i] == c
    ensures forall k :: 0 <= k < i ==> s[k] != c
  {
    if s[0] == c then 0
    else
      assert s == [s[0]] + s[1..];
      FirstIndex(s[1..], c) + 1
  }

  /** `split(c).pop()`: the last piece. */
  function LastPiece(s: string, c: char): string
  {
    var r := SplitOn(s, c);
    r[|r| - 1]
  }

  /** The last piece holds no separator and is the suffix after the last
      separator, or the whole string when there is none. */
  lemma {:induction false} LastPieceSuffix(s: string, c: char)
    ensures c !in LastPiece(s, c)
    ensures |LastPiece(s, c)| <= |s| && LastPiece(s, c) == s[|s| - |LastPiece(s, c)|..]
    ensures c in s ==> |LastPiece(s, c)| < |s| && s[|s| - |LastPiece(s, c)| - 1] == c
    decreases |s|
  {
    if c in s {
      var i := FirstIndex(s, c);
      var rest := SplitOn(s[i + 1..], c);
      LastPieceSuffix(s[i + 1..], c);
      var last := LastPiece(s[i + 1..], c);
      assert SplitOn(s, c) == [s[..i]] + rest;
      assert LastPiece(s, c) == last;
      SplitTail(s, i, c, last, c in s[i + 1..]);
      var n := |last|;
      assert s[|s| - n - 1] == c;
    }
  }

  /** The last piece after a separator at `i` is a suffix of the whole
      string, preceded by a separator. */
  lemma SplitTail(s: string, i: nat, c: char, last: string, more: bool)
    requires i < |s| && s[i] == c
    requires |last| <= |s| - i - 1 && last == s[i + 1..][|s| - i - 1 - |last|..]
    requires more ==> |last| < |s| - i - 1 && s[i + 1..][|s| - i - 1 - |last| - 1] == c
    requires !more ==> last == s[i + 1..]
    ensures last == s[|s| - |last|..]
    ensures s[|s| - |last| - 1] == c
  {
  }

  /** `split('.').pop()`: the text after the last dot, or the whole path. */
  function LastSegment(path: string): string
  {
    LastPiece(path, '.')
  }

  /** `getExtension`: "." and the text after the last dot, or nothing when
      the path has no dot. */
  function GetExtension(path: string): (r: string)
    ensures '.' !in path ==> r == ""
    ensures '.' in path ==> |r| >= 1 && r[0] == '.' && '.' !in r[1..]
    ensures '.' in path ==> |r| <= |path| && r == path[|path| - |r|..]
  {
    var parts := SplitOn(path, '.');
    if |parts| > 1 then
      var last := parts[|parts| - 1];
      LastPieceSuffix(path, '.');
      assert "." + last == path[|path| - |last| - 1..] by {
        assert path[|path| - |last| - 1..] == [path[|path| - |last| - 1]] + path[|path| - |last|..];
      }
      assert ("." + last)[1..] == last;
      "." + last
    else ""
  }

  /** The MIME types the service knows, by lower-case extension. */
  function KnownMime(ext: string): Option<string>
  {
    if ext == "pdf" then Some("application/pdf")
    else if ext == "jpg" || ext == "jpeg" then Some("image/jpeg")
    else if ext == "png" then Some("image/png")
    else if ext == "webp" then Some("image/webp")
    else None
  }

  const OctetStream := "application/octet-stream"

  /** `getMimeType`, as intended: the type of the lower-cased last segment,
      and the generic binary type for anything else. */
  function GetMimeType(path: string): (r: string)
    ensures KnownMime(Lower(LastSegment(path))).Some? ==> r == KnownMime(Lower(LastSegment(path))).value
    ensures KnownMime(Lower(LastSegment(path))).None? ==> r == OctetStream
    ensures r in {"application/pdf", "image/jpeg", "image/png", "image/webp", OctetStream}
  {
    match KnownMime(Lower(LastSegment(path)))
    case Some(m) => m
    case None => OctetStream
  }

  /** What indexing the `mimeTypes` object literal yields: one of its own
      string properties, a member every object inherits, or `undefined`. */
  datatype Lookup = OwnString(s: string) | Inherited(name: string) | Undefined

  /** The inherited members of a plain object whose names are entirely
      lower case, the only ones a lower-cased key can reach. */
  const LowerCaseInheritedNames: set<string> := {"constructor", "__proto__"}

  /** `mimeTypes[ext]` on the object literal as written. */
  function ObjectLookup(ext: string): Lookup
  {
    match KnownMime(ext)
    case Some(m) => OwnString(m)
    case None => if ext in LowerCaseInheritedNames then Inherited(ext) else Undefined
  }

  /** `getMimeType` as written: `mimeTypes[ext] || 'application/octet-stream'`.
      A non-empty string or an inherited member is truthy and returned. */
  function GetMimeTypeAsWritten(path: string): (r: Lookup)
    ensures r.OwnString? ==> r.s == GetMimeType(path)
    ensures Lower(LastSegment(path)) in LowerCaseInheritedNames ==> r == Inherited(Lower(LastSegment(path)))
    ensures Lower(LastSegment(path)) !in LowerCaseInheritedNames ==> r == OwnString(GetMimeType(path))
  {
    match ObjectLookup(Lower(LastSegment(path)))
    case Undefined => OwnString(OctetStream)
    case other => other
  }

  /** Where the two differ: a file named `scan.constructor` gets the
      inherited `Object` constructor instead of a MIME string. */
  lemma MimeTypeOfConstructorFile()
    ensures GetMimeTypeAsWritten("scan.constructor") == Inherited("constructor")
    ensures GetMimeType("scan.constructor") == OctetStream
  {
    ScanConstructorSegment();
    ConstructorSegment("scan.constructor");
  }

  lemma ScanConstructorSegment()
    ensures LastSegment("scan.constructor") == "constructor"
  {
    NoDot("scan");
    NoDot("constructor");
    LastSegmentAfterDot("scan", "constructor");
    assert "scan" + "." + "constructor" == "scan.constructor";
  }

  lemma NoDot(s: string)
    requires forall k :: 0 <= k < |s| ==> s[k] != '.'
    ensures '.' !in s
  {
  }

  lemma ConstructorSegment(path: string)
    requires LastSegment(path) == "constructor"
    ensures GetMimeTypeAsWritten(path) == Inherited("constructor")
    ensures GetMimeType(path) == OctetStream
  {
    LowerConstructor();
    assert ObjectLookup("constructor") == Inherited("constructor");
  }

  lemma LowerConstructor()
    ensures Lower("constructor") == "constructor"
  {
  }

  /** The last segment of a path with one dot is what follows the dot. */
  lemma LastSegmentAfterDot(a: string, b: string)
    requires '.' !in a && '.' !in b
    ensures LastSegment(a + "." + b) == b
  {
    var path := a + "." + b;
    assert forall k :: 0 <= k < |a| ==> path[k] == a[k];
    assert path[|a|] == '.';
    assert FirstIndex(path, '.') == |a| by {
      FirstDot(path, |a|);
    }
    assert path[|a| + 1..] == b;
  }

  lemma FirstDot(s: string, i: nat)
    requires i < |s| && s[i] == '.' && forall k :: 0 <= k < i ==> s[k] != '.'
    ensures FirstIndex(s, '.') == i
  {
  }

  /** As intended, the two agree on every path whose last segment is not an
      inherited member name. */
  lemma MimeTypeAgrees(path: string)
    requires Lower(LastSegment(path)) !in LowerCaseInheritedNames
    ensures GetMimeTypeAsWritten(path) == OwnString(GetMimeType(path))
  {
  }

  /** The extension decides the type: a `.pdf` file is a PDF whatever its
      case. */
  lemma MimeFollowsExtension(path: string)
    requires GetExtension(path) != ""
    ensures GetMimeType(path) == GetMimeType(GetExtension(path))
  {
    var ext := GetExtension(path);
    assert LastSegment(path) == ext[1..];
    var parts := SplitOn(ext, '.');
    assert FirstIndex(ext, '.') == 0;
    assert parts == [""] + SplitOn(ext[1..], '.');
    assert SplitOn(ext[1..], '.') == [ext[1..]];
  }

  // ---------------------------------------------------------------------
  // Reading the store

  predicate IsDocWithId(rec: Record, id: string)
  {
    rec.DocRecord? && rec.doc.id == id
  }

  /** The documents of a record sequence, in order. */
  function DocsOf(recs: seq<Record>): (r: seq<Document>)
    ensures |r| <= |recs|
    ensures forall d :: d in r <==> DocRecord(d) in recs
  {
    if recs == [] then []
    else
      assert forall x :: x in recs <==> x == recs[0] || x in recs[1..];
      (if recs[0].DocRecord? then [recs[0].doc] else []) + DocsOf(recs[1..])
  }

  function DocId(d: Document): string { d.id }

  /** Records with distinct ids hold documents with distinct ids. */
  lemma {:induction false} DocsOfDistinct(recs: seq<Record>)
    requires UniqueRecordIds(recs)
    ensures DistinctBy(DocsOf(recs), DocId)
    decreases |recs|
  {
    if recs != [] {
      var tail := recs[1..];
      assert forall i :: 0 <= i < |tail| ==> tail[i] == recs[i + 1];
      DocsOfDistinct(tail);
      var rest := DocsOf(tail);
      var r := DocsOf(recs);
      if recs[0].DocRecord? {
        assert r == [recs[0].doc] + rest;
        forall j | 0 < j < |r|
          ensures DocId(r[0]) != DocId(r[j])
        {
          assert r[j] == rest[j - 1] && rest[j - 1] in rest;
          var k :| 0 <= k < |tail| && tail[k] == DocRecord(r[j]);
          assert IdOf(recs[0]) != IdOf(recs[k + 1]);
        }
        forall i, j | 0 < i < j < |r|
          ensures DocId(r[i]) != DocId(r[j])
        {
          assert r[i] == rest[i - 1] && r[j] == rest[j - 1];
        }
      } else {
        assert r == rest;
      }
    }
  }

  /** All stored documents, archived ones included. */
  function StoredDocs(s: Store): seq<Document>
    requires Valid(s)
  {
    DocsOf(s.tables[DocumentKind])
  }

  /** The documents that `keep` accepts, in their order. */
  function Filter(ds: seq<Document>, keep: Document -> bool): (r: seq<Document>)
    ensures forall d :: d in r <==> d in ds && keep(d)
    ensures IsSubsequence(r, ds)
  {
    if ds == [] then []
    else
      assert forall x :: x in ds <==> x == ds[0] || x in ds[1..];
      var rest := Filter(ds[1..], keep);
      if keep(ds[0]) then
        assert ([ds[0]] + rest)[1..] == rest;
        [ds[0]] + rest
      else rest
  }

  function CreatedKey(d: Document): real { d.createdAt as real }

  predicate NotArchived(d: Document) { !d.isArchived }

  /** `getAllDocuments`: the non-archived documents, latest created first,
      equal instants in insertion order; nothing while the store is closed. */
  function GetAllDocuments(s: Store): (r: seq<Document>)
    requires Valid(s)
    ensures !s.open ==> r == []
    ensures forall d :: d in r <==> s.open && d in StoredDocs(s) && !d.isArchived
    ensures NonIncreasing(r, CreatedKey)
    ensures s.open ==> multiset(r) == multiset(Filter(StoredDocs(s), NotArchived))
    ensures s.open ==> forall k :: WithKey(r, CreatedKey, k) == WithKey(Filter(StoredDocs(s), NotArchived), CreatedKey, k)
    ensures UniqueIds(s) ==> DistinctBy(r, DocId)
  {
    match Objects(s, DocumentKind)
    case Err(_) => []
    case Ok(recs) =>
      var active := Filter(DocsOf(recs), NotArchived);
      var r := SortDesc(active, CreatedKey);
      assert forall d :: d in r <==> d in active by {
        forall d
          ensures d in r <==> d in active
        {
          assert d in r <==> d in multiset(r);
        }
      }
      if UniqueIds(s) then
        DocsOfDistinct(recs);
        SubsequenceDistinct(active, DocsOf(recs), DocId);
        PermutationDistinct(active, r, DocId);
        r
      else r
  }

  /** Index of the first document record with this id. */
  function FirstWithId(recs: seq<Record>, id: string): (r: Option<nat>)
    ensures r.Some? ==> r.value < |recs| && IsDocWithId(recs[r.value], id)
    ensures r.Some? ==> forall j :: 0 <= j < r.value ==> !IsDocWithId(recs[j], id)
    ensures r.None? <==> forall j :: 0 <= j < |recs| ==> !IsDocWithId(recs[j], id)
  {
    if recs == [] then None
    else if IsDocWithId(recs[0], id) then Some(0)
    else
      match FirstWithId(recs[1..], id)
      case None =>
        assert forall j :: 1 <= j < |recs| ==> recs[j] == recs[1..][j - 1];
        None
      case Some(i) =>
        assert forall j :: 1 <= j <= i ==> recs[j] == recs[1..][j - 1];
        Some(i + 1)
  }

  /** `getDocumentById`: the first document with the id, archived or not;
      nothing when there is none or the store is closed. */
  function GetDocumentById(s: Store, id: string): (r: Option<Document>)
    requires Valid(s)
    ensures r.Some? <==> s.open && exists d :: d in StoredDocs(s) && d.id == id
    ensures r.Some? ==> r.value.id == id && r.value in StoredDocs(s)
    ensures r.Some? ==> r == Some(s.tables[DocumentKind][FirstWithId(s.tables[DocumentKind], id).value].doc)
  {
    match Objects(s, DocumentKind)
    case Err(_) => None
    case Ok(recs) =>
      match FirstWithId(recs, id)
      case None =>
        assert forall d :: d in StoredDocs(s) ==> d.id != id by {
          forall d | d in StoredDocs(s)
            ensures d.id != id
          {
            assert DocRecord(d) in recs;
            var j :| 0 <= j < |recs| && recs[j] == DocRecord(d);
            assert !IsDocWithId(recs[j], id);
          }
        }
        None
      case Some(i) =>
        assert recs[i] in recs;
        Some(recs[i].doc)
  }

  /** No two records share an id. */
  predicate UniqueRecordIds(recs: seq<Record>)
  {
    forall i, j :: 0 <= i < j < |recs| ==> IdOf(recs[i]) != IdOf(recs[j])
  }

  /** Every document in the store has a different id. */
  predicate UniqueIds(s: Store)
    requires Valid(s)
  {
    UniqueRecordIds(s.tables[DocumentKind])
  }

  /** A record with an id not yet present becomes the first with that id,
      and ids stay unique. */
  lemma AppendFresh(recs: seq<Record>, rec: Record, id: string)
    requires FirstWithId(recs, id).None? && IsDocWithId(rec, id)
    requires forall j :: 0 <= j < |recs| ==> IdOf(recs[j]) != id
    ensures FirstWithId(recs + [rec], id) == Some(|recs|)
    ensures UniqueRecordIds(recs) ==> UniqueRecordIds(recs + [rec])
  {
    var recs' := recs + [rec];
    assert recs'[|recs|] == rec;
    var f := FirstWithId(recs', id);
    assert f.Some?;
    assert forall j :: 0 <= j < |recs| ==> recs'[j] == recs[j];
    assert f.value == |recs|;
    if UniqueRecordIds(recs) {
      forall a, b | 0 <= a < b < |recs'|
        ensures IdOf(recs'[a]) != IdOf(recs'[b])
      {
        assert recs'[a] == recs[a];
        assert b < |recs| ==> recs'[b] == recs[b];
      }
    }
  }

  /** Replacing the first record with an id by another with the same id
      keeps it the first, and keeps ids unique. */
  lemma ReplaceSameId(recs: seq<Record>, i: nat, rec: Record, id: string)
    requires FirstWithId(recs, id) == Some(i) && IsDocWithId(rec, id)
    ensures FirstWithId(recs[i := rec], id) == Some(i)
    ensures UniqueRecordIds(recs) ==> UniqueRecordIds(recs[i := rec])
  {
    var recs' := recs[i := rec];
    forall j | 0 <= j < i
      ensures !IsDocWithId(recs'[j], id)
    {
      assert recs'[j] == recs[j];
    }
    assert IdOf(rec) == IdOf(recs[i]);
    if UniqueRecordIds(recs) {
      forall a, b | 0 <= a < b < |recs'|
        ensures IdOf(recs'[a]) != IdOf(recs'[b])
      {
        assert IdOf(recs'[a]) == IdOf(recs[a]);
        assert IdOf(recs'[b]) == IdOf(recs[b]);
      }
      assert UniqueRecordIds(recs');
    }
    assert recs'[i] == rec;
    var f := FirstWithId(recs', id);
    assert f.Some?;
    assert f.value == i;
  }

  /** Removing the only record with an id leaves none, and ids unique. */
  lemma RemoveUnique(recs: seq<Record>, i: nat, id: string)
    requires UniqueRecordIds(recs) && FirstWithId(recs, id) == Some(i)
    ensures FirstWithId(recs[..i] + recs[i + 1..], id).None?
    ensures forall d :: d in DocsOf(recs[..i] + recs[i + 1..]) ==> d.id != id
    ensures UniqueRecordIds(recs[..i] + recs[i + 1..])
  {
    var recs' := recs[..i] + recs[i + 1..];
    RemoveAt(recs, i);
    RemoveDropsId(recs, recs', i, id);
    RemoveKeepsUnique(recs, recs', i);
    NoRecordNoDoc(recs', id);
  }

  /** Removing position `i` shifts the later elements down by one. */
  lemma RemoveAt<T>(xs: seq<T>, i: nat)
    requires i < |xs|
    ensures |xs[..i] + xs[i + 1..]| == |xs| - 1
    ensures forall j :: 0 <= j < i ==> (xs[..i] + xs[i + 1..])[j] == xs[j]
    ensures forall j :: i < j < |xs| ==> (xs[..i] + xs[i + 1..])[j - 1] == xs[j]
  {
  }

  lemma RemoveDropsId(recs: seq<Record>, recs': seq<Record>, i: nat, id: string)
    requires UniqueRecordIds(recs) && i < |recs| && IsDocWithId(recs[i], id)
    requires |recs'| == |recs| - 1
    requires forall j :: 0 <= j < i ==> recs'[j] == recs[j]
    requires forall j :: i < j < |recs| ==> recs'[j - 1] == recs[j]
    requires forall j :: 0 <= j < i ==> !IsDocWithId(recs[j], id)
    ensures forall j :: 0 <= j < |recs'| ==> !IsDocWithId(recs'[j], id)
  {
    forall j | 0 <= j < |recs'|
      ensures !IsDocWithId(recs'[j], id)
    {
      if j >= i {
        assert recs'[j] == recs[j + 1];
        assert IdOf(recs[i]) != IdOf(recs[j + 1]);
      }
    }
  }

  lemma RemoveKeepsUnique(recs: seq<Record>, recs': seq<Record>, i: nat)
    requires UniqueRecordIds(recs) && i < |recs|
    requires |recs'| == |recs| - 1
    requires forall j :: 0 <= j < i ==> recs'[j] == recs[j]
    requires forall j :: i < j < |recs| ==> recs'[j - 1] == recs[j]
    ensures UniqueRecordIds(recs')
  {
    forall a, b | 0 <= a < b < |recs'|
      ensures IdOf(recs'[a]) != IdOf(recs'[b])
    {
      var a0 := if a < i then a else a + 1;
      var b0 := if b < i then b else b + 1;
      assert recs'[a] == recs[a0] && recs'[b] == recs[b0];
    }
  }

  /** Without a document record carrying the id, no listed document has it. */
  lemma NoRecordNoDoc(recs: seq<Record>, id: string)
    requires forall j :: 0 <= j < |recs| ==> !IsDocWithId(recs[j], id)
    ensures forall d :: d in DocsOf(recs) ==> d.id != id
  {
    forall d | d in DocsOf(recs)
      ensures d.id != id
    {
      assert DocRecord(d) in recs;
      var j :| 0 <= j < |recs| && recs[j] == DocRecord(d);
      assert !IsDocWithId(recs[j], id);
    }
  }

  // ---------------------------------------------------------------------
  // Search

  /** The document's title, OCR text or one of its tags contains the
      lower-cased query, compared lower-cased. */
  predicate DocMatches(d: Document, lowerQuery: string)
  {
    || Includes(Lower(d.title), lowerQuery)
    || Includes(Lower(d.ocrText), lowerQuery)
    || exists k :: 0 <= k < |d.tags| && Includes(Lower(d.tags[k]), lowerQuery)
  }

  /** `searchDocuments`: the listed documents that match, in list order. */
  function SearchDocuments(s: Store, query: string): (r: seq<Document>)
    requires Valid(s)
    ensures IsSubsequence(r, GetAllDocuments(s))
    ensures forall d :: d in r <==> d in GetAllDocuments(s) && DocMatches(d, Lower(query))
    ensures NonIncreasing(r, CreatedKey)
  {
    var all := GetAllDocuments(s);
    var r := Filter(all, d => DocMatches(d, Lower(query)));
    SubsequenceSorted(r, all, CreatedKey);
    r
  }

  /** The empty query matches everything: every listed document is found. */
  lemma EmptySearchFindsAll(s: Store)
    requires Valid(s)
    ensures forall d :: d in SearchDocuments(s, "") <==> d in GetAllDocuments(s)
  {
    forall d | d in GetAllDocuments(s)
      ensures DocMatches(d, Lower(""))
    {
      EmptyIncluded(Lower(d.title));
    }
  }

  // ---------------------------------------------------------------------
  // Creating a document

  /** `${documentDir}/encrypted/${id}.enc`. */
  function EncryptedPath(documentDir: string, id: string): string
  {
    documentDir + "/encrypted/" + id + ".enc"
  }

  /** The record `createDocument` builds once the blob is written. A
      suggested type wins over the caller's, since every type name is a
      non-empty, truthy string. */
  function NewDocument(p: Platform, filePath: string, title: string, docType: DocumentType,
                       id: string, now: int, ocrText: string): (d: Document)
    ensures d.id == id && d.title == title && d.filePath == filePath && d.ocrText == ocrText
    ensures d.encryptedPath == EncryptedPath(p.documentDir, id)
    ensures d.createdAt == now && d.updatedAt == now
    ensures !d.isFavorite && !d.isArchived && d.thumbnailPath == None
    ensures d.tags == SuggestTags(ocrText, ExtractEntities(ocrText))
    ensures d.docType == match SuggestDocumentType(ocrText, ExtractEntities(ocrText))
      case Some(t) => t.docType
      case None => docType
    ensures d.metadata == Metadata(p.sizeOf(filePath), GetMimeType(filePath), ExtractEntities(ocrText))
    ensures d.expiryDate == match SuggestExpiryDate(ExtractEntities(ocrText), p.parseDate)
      case Some(e) => Some(e.date)
      case None => None
  {
    var entities := ExtractEntities(ocrText);
    var suggestedType := SuggestDocumentType(ocrText, entities);
    var expiry := SuggestExpiryDate(entities, p.parseDate);
    Document(
      id := id,
      title := title,
      docType := if suggestedType.Some? then suggestedType.value.docType else docType,
      filePath := filePath,
      encryptedPath := EncryptedPath(p.documentDir, id),
      thumbnailPath := None,
      ocrText := ocrText,
      metadata := Metadata(p.sizeOf(filePath), GetMimeType(filePath), entities),
      tags := SuggestTags(ocrText, entities),
      createdAt := now,
      updatedAt := now,
      expiryDate := if expiry.Some? then Some(expiry.value.date) else None,
      isFavorite := false,
      isArchived := false)
  }

  /** The body of a write that creates one record. */
  function CreateBody(rec: Record): Store -> Result<Store, DbError>
  {
    st => if Valid(st) then Create(st, rec) else Err(InvalidObject)
  }

  /** The storing steps of `createDocument` for an already built record:
      a missing file makes `stat` throw; a failed encryption throws before
      anything is written; otherwise the blob is written, and then the
      record is created in a write transaction. A store failure at that last
      step propagates but leaves the blob behind. */
  function StoreDocument(w: World, c: Crypto, filePath: string, blobPath: string, doc: Document): (r: (World, Result<Document, DocError>))
    requires Valid(w.store)
    ensures filePath !in w.files ==> r == (w, Err(FileNotFound))
    ensures filePath in w.files && !Ready(w.vault) ==> r == (w, Err(EncryptionFailed))
    ensures r.1 != Err(FileNotFound) && r.1 != Err(EncryptionFailed) ==>
      && filePath in w.files && Ready(w.vault) && r.0.vault == w.vault
      && r.0.files == w.files[blobPath := EncryptFile(w.vault, c, w.files, filePath).value]
    ensures r.1.Ok? <==> filePath in w.files && Ready(w.vault) && w.store.open && !w.store.inWrite
    ensures r.1.Ok? ==> r.1.value == doc
    ensures r.1.Ok? ==> r.0.store == w.store.(tables := w.store.tables[DocumentKind := w.store.tables[DocumentKind] + [DocRecord(doc)]])
    ensures r.1.Err? ==> r.0.store == w.store
  {
    if filePath !in w.files then (w, Err(FileNotFound))
    else
      match EncryptFile(w.vault, c, w.files, filePath)
      case None => (w, Err(EncryptionFailed))
      case Some(data) =>
        var files := w.files[blobPath := data];
        match Write(w.store, CreateBody(DocRecord(doc)))
        case Err(e) => (w.(files := files), Err(StoreFailed(e)))
        case Ok(st) =>
          assert Valid(w.store.(inWrite := true));
          (w.(store := st, files := files), Ok(doc))
  }

  /** `createDocument`: the record is built from the recognised text of the
      file, and stored as `StoreDocument` describes. */
  function CreateDocument(w: World, p: Platform, filePath: string, title: string, docType: DocumentType,
                          id: string, now: int): (r: (World, Result<Document, DocError>))
    requires Valid(w.store)
  {
    StoreDocument(w, p.crypto, filePath, EncryptedPath(p.documentDir, id),
                  NewDocument(p, filePath, title, docType, id, now, p.recognize(filePath)))
  }

  /** A closed store fails the creation only after the blob is written: the
      encrypted file is left with no record pointing to it. */
  lemma OrphanBlobOnClosedStore(w: World, p: Platform, filePath: string, title: string,
                                docType: DocumentType, id: string, now: int)
    requires Valid(w.store) && !w.store.open
    requires filePath in w.files && Ready(w.vault)
    ensures var r := CreateDocument(w, p, filePath, title, docType, id, now);
      r.1 == Err(StoreFailed(NotInitialized)) && EncryptedPath(p.documentDir, id) in r.0.files
      && r.0.store == w.store
  {
    var doc := NewDocument(p, filePath, title, docType, id, now, p.recognize(filePath));
    var r := StoreDocument(w, p.crypto, filePath, EncryptedPath(p.documentDir, id), doc);
    assert Write(w.store, CreateBody(DocRecord(doc))) == Err(NotInitialized);
  }

  /** A stored record with a fresh id can be read back by that id, is
      listed unless archived, and keeps the ids unique. */
  lemma StoreThenGet(w: World, c: Crypto, filePath: string, blobPath: string, doc: Document)
    requires Valid(w.store)
    requires forall d :: d in StoredDocs(w.store) ==> d.id != doc.id
    requires StoreDocument(w, c, filePath, blobPath, doc).1.Ok?
    ensures var r := StoreDocument(w, c, filePath, blobPath, doc);
      && Valid(r.0.store)
      && (UniqueIds(w.store) ==> UniqueIds(r.0.store))
      && GetDocumentById(r.0.store, doc.id) == Some(doc)
      && (!doc.isArchived ==> doc in GetAllDocuments(r.0.store))
  {
    var recs := w.store.tables[DocumentKind];
    var r := StoreDocument(w, c, filePath, blobPath, doc);
    assert r.0.store.tables[DocumentKind] == recs + [DocRecord(doc)];
    MutationsKeepValid(w.store.(inWrite := true), DocumentKind, DocRecord(doc), 0);
    assert Valid(r.0.store);
    forall j | 0 <= j < |recs|
      ensures IdOf(recs[j]) != doc.id
    {
      assert DocRecord(recs[j].doc) in recs;
    }
    assert FirstWithId(recs, doc.id).None?;
    AppendFresh(recs, DocRecord(doc), doc.id);
    assert DocRecord(doc) in recs + [DocRecord(doc)];
  }

  /** `createDocument` with a fresh id: the created record is what
      `getDocumentById` returns afterwards, and it is listed. */
  lemma CreateThenGet(w: World, p: Platform, filePath: string, title: string, docType: DocumentType,
                      id: string, now: int)
    requires Valid(w.store) && UniqueIds(w.store)
    requires forall d :: d in StoredDocs(w.store) ==> d.id != id
    requires filePath in w.files && Ready(w.vault) && w.store.open && !w.store.inWrite
    ensures var r := CreateDocument(w, p, filePath, title, docType, id, now);
      && r.1.Ok? && Valid(r.0.store) && UniqueIds(r.0.store)
      && GetDocumentById(r.0.store, id) == Some(r.1.value)
      && r.1.value in GetAllDocuments(r.0.store)
  {
    var doc := NewDocument(p, filePath, title, docType, id, now, p.recognize(filePath));
    StoreThenGet(w, p.crypto, filePath, EncryptedPath(p.documentDir, id), doc);
  }

  // ---------------------------------------------------------------------
  // Updating a document

  /** `Partial<Document>`: a present key carries its new value. A key that
      is present with the value `undefined` is `Some(None)` for the optional
      fields. */
  datatype Updates = Updates(
    id: Option<string>,
    title: Option<string>,
    docType: Option<DocumentType>,
    filePath: Option<string>,
    encryptedPath: Option<string>,
    thumbnailPath: Option<Option<string>>,
    ocrText: Option<string>,
    metadata: Option<Metadata>,
    tags: Option<seq<string>>,
    createdAt: Option<int>,
    updatedAt: Option<int>,
    expiryDate: Option<Option<int>>,
    isFavorite: Option<bool>,
    isArchived: Option<bool>)

  /** The `Object.keys(updates).forEach` assignment: every present key but
      `id` overwrites its field. */
  function Apply(u: Updates, d: Document): (r: Document)
    ensures r.id == d.id
    ensures r.title == u.title.GetOr(d.title) && r.docType == u.docType.GetOr(d.docType)
    ensures r.filePath == u.filePath.GetOr(d.filePath) && r.encryptedPath == u.encryptedPath.GetOr(d.encryptedPath)
    ensures r.thumbnailPath == u.thumbnailPath.GetOr(d.thumbnailPath) && r.ocrText == u.ocrText.GetOr(d.ocrText)
    ensures r.metadata == u.metadata.GetOr(d.metadata) && r.tags == u.tags.GetOr(d.tags)
    ensures r.createdAt == u.createdAt.GetOr(d.createdAt) && r.updatedAt == u.updatedAt.GetOr(d.updatedAt)
    ensures r.expiryDate == u.expiryDate.GetOr(d.expiryDate)
    ensures r.isFavorite == u.isFavorite.GetOr(d.isFavorite) && r.isArchived == u.isArchived.GetOr(d.isArchived)
  {
    d.(title := u.title.GetOr(d.title),
       docType := u.docType.GetOr(d.docType),
       filePath := u.filePath.GetOr(d.filePath),
       encryptedPath := u.encryptedPath.GetOr(d.encryptedPath),
       thumbnailPath := u.thumbnailPath.GetOr(d.thumbnailPath),
       ocrText := u.ocrText.GetOr(d.ocrText),
       metadata := u.metadata.GetOr(d.metadata),
       tags := u.tags.GetOr(d.tags),
       createdAt := u.createdAt.GetOr(d.createdAt),
       updatedAt := u.updatedAt.GetOr(d.updatedAt),
       expiryDate := u.expiryDate.GetOr(d.expiryDate),
       isFavorite := u.isFavorite.GetOr(d.isFavorite),
       isArchived := u.isArchived.GetOr(d.isArchived))
  }

  /** The updated record: the updates applied, then `updatedAt` stamped. */
  function Updated(u: Updates, d: Document, now: int): Document
  {
    Apply(u, d).(updatedAt := now)
  }

  function UpdateBody(id: string, u: Updates, now: int): Store -> Result<Store, DbError>
  {
    st =>
      if !Valid(st) then Err(InvalidObject)
      else
        var recs := st.tables[DocumentKind];
        match FirstWithId(recs, id)
        case None => Ok(st)
        case Some(i) => Replace(st, DocumentKind, i, DocRecord(Updated(u, recs[i].doc, now)))
  }

  /** `updateDocument`: inside a write, the first record with the id gets
      the updates and the current instant as `updatedAt`. A missing id still
      reports success; only a failing write reports failure. */
  function UpdateDocument(s: Store, id: string, u: Updates, now: int): (r: (Store, bool))
    requires Valid(s)
    ensures r.1 <==> s.open && !s.inWrite
    ensures !r.1 ==> r.0 == s
    ensures r.1 && FirstWithId(s.tables[DocumentKind], id).None? ==> r.0 == s
    ensures r.1 && FirstWithId(s.tables[DocumentKind], id).Some? ==>
      var recs := s.tables[DocumentKind];
      var i := FirstWithId(recs, id).value;
      r.0 == s.(tables := s.tables[DocumentKind := recs[i := DocRecord(Updated(u, recs[i].doc, now))]])
  {
    match Write(s, UpdateBody(id, u, now))
    case Err(_) => (s, false)
    case Ok(st) =>
      assert Valid(s.(inWrite := true));
      (st, true)
  }

  /** An update never changes the id, always stamps `updatedAt` with now
      (whatever the updates say), leaves absent fields alone, and keeps the
      store valid with unique ids. */
  lemma UpdateSpec(s: Store, id: string, u: Updates, now: int)
    requires Valid(s) && s.open && !s.inWrite
    requires GetDocumentById(s, id).Some?
    ensures var r := UpdateDocument(s, id, u, now);
      var prior := GetDocumentById(s, id).value;
      && Valid(r.0) && r.1
      && GetDocumentById(r.0, id) == Some(Updated(u, prior, now))
      && Updated(u, prior, now).id == id && Updated(u, prior, now).updatedAt == now
      && (u.title.None? ==> Updated(u, prior, now).title == prior.title)
      && (u.tags.None? ==> Updated(u, prior, now).tags == prior.tags)
      && (UniqueIds(s) ==> UniqueIds(r.0))
  {
    var recs := s.tables[DocumentKind];
    var i := FirstWithId(recs, id).value;
    var nd := DocRecord(Updated(u, recs[i].doc, now));
    var r := UpdateDocument(s, id, u, now);
    assert r.0.tables[DocumentKind] == recs[i := nd];
    MutationsKeepValid(s.(inWrite := true), DocumentKind, nd, i);
    ReplaceSameId(recs, i, nd, id);
    assert nd in recs[i := nd];
  }

  // ---------------------------------------------------------------------
  // Deleting a document

  function DeleteBody(id: string): Store -> Result<Store, DbError>
  {
    st =>
      if !Valid(st) then Err(InvalidObject)
      else
        match FirstWithId(st.tables[DocumentKind], id)
        case None => Ok(st)
        case Some(i) => Delete(st, DocumentKind, i)
  }

  /** `deleteDocument`: an unknown id (or a closed store) reports failure
      and changes nothing. Otherwise the blob is unlinked if it exists, and
      the first record with the id is deleted in a write; a failing write
      reports failure with the blob already gone. */
  function DeleteDocument(w: World, id: string): (r: (World, bool))
    requires Valid(w.store)
    ensures GetDocumentById(w.store, id).None? ==> r == (w, false)
    ensures r.1 ==> GetDocumentById(w.store, id).Some?
    ensures GetDocumentById(w.store, id).Some? ==>
      var path := GetDocumentById(w.store, id).value.encryptedPath;
      r.0.files == w.files - {path} && r.0.vault == w.vault
    ensures r.1 <==> GetDocumentById(w.store, id).Some? && !w.store.inWrite
    ensures !r.1 ==> r.0.store == w.store
    ensures r.1 ==>
      var recs := w.store.tables[DocumentKind];
      var i := FirstWithId(recs, id).value;
      r.0.store == w.store.(tables := w.store.tables[DocumentKind := recs[..i] + recs[i + 1..]])
  {
    if GetDocumentById(w.store, id).None? then (w, false)
    else
      var doc := GetDocumentById(w.store, id).value;
      var files := if doc.encryptedPath in w.files then w.files - {doc.encryptedPath} else w.files;
      assert files == w.files - {doc.encryptedPath};
      var written := Write(w.store, DeleteBody(id));
      if written.Err? then (w.(files := files), false)
      else
        assert Valid(w.store.(inWrite := true));
        (w.(store := written.value, files := files), true)
  }

  /** With unique ids, a successful delete leaves no record with the id,
      and the ids stay unique. */
  lemma DeleteRemovesId(w: World, id: string)
    requires Valid(w.store) && UniqueIds(w.store)
    requires DeleteDocument(w, id).1
    ensures var r := DeleteDocument(w, id);
      Valid(r.0.store) && UniqueIds(r.0.store) && GetDocumentById(r.0.store, id) == None
  {
    var recs := w.store.tables[DocumentKind];
    var i := FirstWithId(recs, id).value;
    var recs' := recs[..i] + recs[i + 1..];
    var r := DeleteDocument(w, id);
    assert r.0.store.tables[DocumentKind] == recs';
    MutationsKeepValid(w.store.(inWrite := true), DocumentKind, recs[i], i);
    RemoveUnique(recs, i, id);
  }

  // ---------------------------------------------------------------------
  // Opening a document

  /** `${cachesDir}/${id}_temp${extension}`. */
  function TempPath(p: Platform, d: Document): string
  {
    p.cachesDir + "/" + d.id + "_temp" + GetExtension(d.filePath)
  }

  /** `getDecryptedFile`: reads the blob, decrypts it into the temporary
      path and returns that path; a missing blob or a failed decryption is
      no path. */
  function GetDecryptedFile(w: World, p: Platform, d: Document): (r: (Files, Option<string>))
    ensures d.encryptedPath !in w.files ==> r == (w.files, None)
    ensures r.1.Some? <==> (d.encryptedPath in w.files
      && Decrypt(w.vault, p.crypto, w.files[d.encryptedPath]).Some?
      && Decrypt(w.vault, p.crypto, w.files[d.encryptedPath]).value != "")
    ensures r.1.Some? ==> (r.1.value == TempPath(p, d)
      && r.0 == w.files[TempPath(p, d) := Decrypt(w.vault, p.crypto, w.files[d.encryptedPath]).value])
    ensures r.1.None? ==> r.0 == w.files
  {
    if d.encryptedPath !in w.files then (w.files, None)
    else
      var out := DecryptFile(w.vault, p.crypto, w.files, w.files[d.encryptedPath], TempPath(p, d));
      (out.0, if out.1 then Some(TempPath(p, d)) else None)
  }

  /** The round trip: with a cipher that inverts itself, opening a record
      just stored writes the original file contents to the temporary path
      (unless the file was empty, which decryption reports as a failure). */
  lemma StoreThenOpen(w: World, p: Platform, filePath: string, doc: Document)
    requires Valid(w.store) && WellFormed(p.crypto)
    requires StoreDocument(w, p.crypto, filePath, doc.encryptedPath, doc).1.Ok?
    requires filePath in w.files && w.files[filePath] != ""
    ensures var r := StoreDocument(w, p.crypto, filePath, doc.encryptedPath, doc);
      var back := GetDecryptedFile(r.0, p, doc);
      back.1 == Some(TempPath(p, doc)) && back.0[TempPath(p, doc)] == w.files[filePath]
  {
    var r := StoreDocument(w, p.crypto, filePath, doc.encryptedPath, doc);
    var key := w.vault.masterKey.value;
    assert r.0.files[doc.encryptedPath] == p.crypto.aesEncrypt(w.files[filePath], key);
    assert p.crypto.aesDecrypt(p.crypto.aesEncrypt(w.files[filePath], key), key) == Some(w.files[filePath]);
  }

  /** `createDocument` followed by `getDecryptedFile` on the created record
      gives the original file contents back at the temporary path. */
  lemma CreateThenOpen(w: World, p: Platform, filePath: string, title: string, docType: DocumentType,
                       id: string, now: int)
    requires Valid(w.store) && WellFormed(p.crypto)
    requires filePath in w.files && w.files[filePath] != ""
    requires Ready(w.vault) && w.store.open && !w.store.inWrite
    ensures var r := CreateDocument(w, p, filePath, title, docType, id, now);
      && r.1.Ok?
      && GetDecryptedFile(r.0, p, r.1.value).1 == Some(TempPath(p, r.1.value))
      && GetDecryptedFile(r.0, p, r.1.value).0[TempPath(p, r.1.value)] == w.files[filePath]
  {
    var doc := NewDocument(p, filePath, title, docType, id, now, p.recognize(filePath));
    StoreThenOpen(w, p, filePath, doc);
  }
}
