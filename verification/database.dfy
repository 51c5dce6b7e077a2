/** The encrypted object store (`DatabaseService`): a single store that is
    either closed or open, holding four collections in insertion order.
    Every accessor goes through `getInstance`, which throws while the store
    is closed; mutations also need an enclosing write transaction, as the
    storage engine demands. A thrown error is an `Err` and leaves the store
    as it was. */
module Database {
  import opened Wrappers
  import opened Types

  type byte = x: int | 0 <= x < 256

  /** The object schemas: `Document`, `Note`, `ChatMessage`, `Tag`. */
  datatype Kind = DocumentKind | NoteKind | ChatKind | TagKind

  datatype Record =
    | DocRecord(doc: Document)
    | NoteRecord(note: Note)
    | ChatRecord(msg: ChatMessage)
    | TagRecord(tag: Tag)

  function KindOf(r: Record): Kind
  {
    match r
    case DocRecord(_) => DocumentKind
    case NoteRecord(_) => NoteKind
    case ChatRecord(_) => ChatKind
    case TagRecord(_) => TagKind
  }

  /** The application-level `id` of a record. */
  function IdOf(r: Record): string
  {
    match r
    case DocRecord(d) => d.id
    case NoteRecord(n) => n.id
    case ChatRecord(m) => m.id
    case TagRecord(t) => t.id
  }

  datatype DbError = NotInitialized | NotInWriteTransaction | AlreadyInWriteTransaction | InvalidObject

  /** `open` is a live store instance; `fileKey` is the key the database
      file was created with (`None` before it exists); the collections
      survive closing. */
  datatype Store = Store(open: bool, inWrite: bool, fileKey: Option<seq<byte>>, tables: map<Kind, seq<Record>>)

  function EmptyTables(): map<Kind, seq<Record>>
  {
    map[DocumentKind := [], NoteKind := [], ChatKind := [], TagKind := []]
  }

  /** A device on which the database was never opened. */
  function NewStore(): Store
  {
    Store(false, false, None, EmptyTables())
  }

  /** All four collections exist, each holds records of its own kind, and a
      transaction is only ever open on an open store. */
  predicate Valid(s: Store)
  {
    && (forall k: Kind :: k in s.tables)
    && (forall k: Kind, i :: k in s.tables && 0 <= i < |s.tables[k]| ==> KindOf(s.tables[k][i]) == k)
    && (s.inWrite ==> s.open)
  }

  /** The storage engine only accepts 64-byte keys. */
  const KeyLength := 64

  /** `initialize`: with no key available nothing is opened; the engine
      refuses a key of the wrong length or one that does not match the key
      the file was created with; otherwise the store is open and the file
      is bound to the key. */
  function Initialize(s: Store, key: Option<seq<byte>>): (r: (Store, bool))
    ensures key == None ==> r == (s, false)
    ensures !r.1 ==> r.0 == s
    ensures r.1 <==> key.Some? && |key.value| == KeyLength && (s.fileKey == None || s.fileKey == key)
    ensures r.1 ==> r.0 == s.(open := true, fileKey := key)
  {
    if key == None then (s, false)
    else if |key.value| != KeyLength then (s, false)
    else if s.fileKey.Some? && s.fileKey != key then (s, false)
    else (s.(open := true, fileKey := key), true)
  }

  /** `getInstance`: the live store, or the "not initialized" error. */
  function GetInstance(s: Store): (r: Result<Store, DbError>)
    ensures r.Ok? <==> s.open
    ensures r.Ok? ==> r.value == s
    ensures r.Err? ==> r.error == NotInitialized
  {
    if s.open then Ok(s) else Err(NotInitialized)
  }

  /** `close`: closes an open store; on a closed one it does nothing. */
  function Close(s: Store): (r: Store)
    ensures !r.open && (Valid(s) ==> !r.inWrite)
    ensures r.tables == s.tables && r.fileKey == s.fileKey
    ensures !s.open && !s.inWrite ==> r == s
  {
    if s.open then s.(open := false, inWrite := false) else s
  }

  /** `write`: runs `body` inside a transaction. If the body fails, its
      error propagates and nothing it did is kept; otherwise its changes to
      the collections are committed. Nested transactions are refused. */
  function Write(s: Store, body: Store -> Result<Store, DbError>): (r: Result<Store, DbError>)
    ensures !s.open ==> r == Err(NotInitialized)
    ensures s.open && s.inWrite ==> r == Err(AlreadyInWriteTransaction)
    ensures s.open && !s.inWrite ==>
      match body(s.(inWrite := true))
      case Err(e) => r == Err(e)
      case Ok(s2) => r == Ok(s.(tables := s2.tables))
  {
    var _ :- GetInstance(s);
    if s.inWrite then Err(AlreadyInWriteTransaction)
    else
      var s2 :- body(s.(inWrite := true));
      Ok(s.(tables := s2.tables))
  }

  /** `objects(type)`: the records of one kind in insertion order. */
  function Objects(s: Store, k: Kind): (r: Result<seq<Record>, DbError>)
    requires Valid(s)
    ensures r.Ok? <==> s.open
    ensures r.Ok? ==> r.value == s.tables[k]
  {
    var _ :- GetInstance(s);
    Ok(s.tables[k])
  }

  /** `create(type, properties)`: appends the record to its collection.
      Each record gets a fresh internal primary key, so no `id` is refused. */
  function Create(s: Store, rec: Record): (r: Result<Store, DbError>)
    requires Valid(s)
    ensures r.Ok? <==> s.open && s.inWrite
    ensures r.Ok? ==> r.value == s.(tables := s.tables[KindOf(rec) := s.tables[KindOf(rec)] + [rec]])
    ensures r.Err? ==> r.error == (if !s.open then NotInitialized else NotInWriteTransaction)
  {
    var _ :- GetInstance(s);
    if !s.inWrite then Err(NotInWriteTransaction)
    else
      var k := KindOf(rec);
      Ok(s.(tables := s.tables[k := s.tables[k] + [rec]]))
  }

  /** `delete(object)`: the object is the one at position `i` of its
      collection; a stale position is an invalid object. */
  function Delete(s: Store, k: Kind, i: nat): (r: Result<Store, DbError>)
    requires Valid(s)
    ensures r.Ok? <==> s.open && s.inWrite && i < |s.tables[k]|
    ensures r.Ok? ==> r.value == s.(tables := s.tables[k := s.tables[k][..i] + s.tables[k][i + 1..]])
  {
    var _ :- GetInstance(s);
    if !s.inWrite then Err(NotInWriteTransaction)
    else if i >= |s.tables[k]| then Err(InvalidObject)
    else Ok(s.(tables := s.tables[k := s.tables[k][..i] + s.tables[k][i + 1..]]))
  }

  /** Assigning the properties of a live object: allowed only inside a
      write transaction, on an object that is still in its collection. */
  function Replace(s: Store, k: Kind, i: nat, rec: Record): (r: Result<Store, DbError>)
    requires Valid(s) && KindOf(rec) == k
    ensures r.Ok? <==> s.open && s.inWrite && i < |s.tables[k]|
    ensures r.Ok? ==> r.value == s.(tables := s.tables[k := s.tables[k][i := rec]])
  {
    var _ :- GetInstance(s);
    if !s.inWrite then Err(NotInWriteTransaction)
    else if i >= |s.tables[k]| then Err(InvalidObject)
    else Ok(s.(tables := s.tables[k := s.tables[k][i := rec]]))
  }

  /** `deleteAll(type)`: empties one collection. */
  function DeleteAll(s: Store, k: Kind): (r: Result<Store, DbError>)
    requires Valid(s)
    ensures r.Ok? <==> s.open && s.inWrite
    ensures r.Ok? ==> k in r.value.tables && r.value.tables[k] == []
    ensures r.Ok? ==> forall k' :: k' != k ==> k' in r.value.tables && r.value.tables[k'] == s.tables[k']
    ensures r.Ok? ==> r.value.open == s.open && r.value.inWrite == s.inWrite && r.value.fileKey == s.fileKey
  {
    var _ :- GetInstance(s);
    if !s.inWrite then Err(NotInWriteTransaction)
    else Ok(s.(tables := s.tables[k := []]))
  }

  /** While the store is closed every accessor fails with the "not
      initialized" error. */
  lemma ClosedFailsEverything(s: Store, k: Kind, rec: Record, i: nat, body: Store -> Result<Store, DbError>)
    requires Valid(s) && !s.open
    ensures GetInstance(s) == Err(NotInitialized)
    ensures Write(s, body) == Err(NotInitialized)
    ensures Objects(s, k) == Err(NotInitialized)
    ensures Create(s, rec) == Err(NotInitialized)
    ensures Delete(s, k, i) == Err(NotInitialized)
    ensures DeleteAll(s, k) == Err(NotInitialized)
  {
  }

  /** A locked vault (no key) can never open the store. */
  lemma LockedNeverOpens(s: Store)
    requires !s.open
    ensures !Initialize(s, None).0.open && !Initialize(s, None).1
  {
  }

  /** Closing twice is closing once; closing then reopening with the key the
      file was created with gives back the same collections. */
  lemma CloseIdempotent(s: Store)
    ensures Close(Close(s)) == Close(s)
  {
  }

  lemma ReopenKeepsData(s: Store)
    requires s.open && s.fileKey.Some? && |s.fileKey.value| == KeyLength
    ensures Initialize(Close(s), s.fileKey) == (s.(inWrite := false), true)
  {
  }

  /** Each mutation, closing and opening keep the store valid. */
  lemma MutationsKeepValid(s: Store, k: Kind, rec: Record, i: nat)
    requires Valid(s)
    ensures Create(s, rec).Ok? ==> Valid(Create(s, rec).value)
    ensures KindOf(rec) == k && Replace(s, k, i, rec).Ok? ==> Valid(Replace(s, k, i, rec).value)
    ensures Delete(s, k, i).Ok? ==> Valid(Delete(s, k, i).value)
    ensures DeleteAll(s, k).Ok? ==> Valid(DeleteAll(s, k).value)
    ensures Valid(Close(s))
    ensures forall key :: Valid(Initialize(s, key).0)
  {
    CreateKeepsValid(s, rec);
    if KindOf(rec) == k {
      ReplaceKeepsValid(s, k, i, rec);
    }
    DeleteKeepsValid(s, k, i);
  }

  lemma CreateKeepsValid(s: Store, rec: Record)
    requires Valid(s)
    ensures Create(s, rec).Ok? ==> Valid(Create(s, rec).value)
  {
    if Create(s, rec).Ok? {
      var t := s.tables[KindOf(rec)] + [rec];
      assert forall j :: 0 <= j < |t| - 1 ==> t[j] == s.tables[KindOf(rec)][j];
    }
  }

  lemma ReplaceKeepsValid(s: Store, k: Kind, i: nat, rec: Record)
    requires Valid(s) && KindOf(rec) == k
    ensures Replace(s, k, i, rec).Ok? ==> Valid(Replace(s, k, i, rec).value)
  {
  }

  lemma DeleteKeepsValid(s: Store, k: Kind, i: nat)
    requires Valid(s)
    ensures Delete(s, k, i).Ok? ==> Valid(Delete(s, k, i).value)
  {
    if Delete(s, k, i).Ok? {
      var t := s.tables[k];
      var t2 := t[..i] + t[i + 1..];
      forall j | 0 <= j < |t2|
        ensures KindOf(t2[j]) == k
      {
        if j < i {
          assert t2[j] == t[j];
        } else {
          assert t2[j] == t[j + 1];
        }
      }
    }
  }

  /** A body that keeps the store valid keeps it valid through `write`,
      and the transaction is closed afterwards. */
  lemma WriteKeepsValid(s: Store, body: Store -> Result<Store, DbError>)
    requires Valid(s)
    requires s.open && !s.inWrite && body(s.(inWrite := true)).Ok?
    requires Valid(body(s.(inWrite := true)).value)
    ensures Valid(Write(s, body).value) && !Write(s, body).value.inWrite
  {
  }
}
