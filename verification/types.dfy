/** The vault's records: documents, notes, chat messages and tags as the
    store keeps them, the entities the extractor produces, and the results
    the search ranker returns. Instants are milliseconds since the epoch,
    confidences are hundredths and relevances are tenths. */
module Types {
  import opened Wrappers

  datatype DocumentType =
    ID | PASSPORT | CERTIFICATE | BILL | RECEIPT | CONTRACT | MEDICAL | INSURANCE | TAX | OTHER

  /** `ExtractedEntity.type`; the extractor never produces `NameEntity`. */
  datatype EntityKind = DateEntity | AmountEntity | NumberEntity | NameEntity | EmailEntity | PhoneEntity

  datatype Entity = Entity(kind: EntityKind, value: string, confidence: nat)

  /** The metadata fields the document pipeline fills in. */
  datatype Metadata = Metadata(fileSize: int, mimeType: string, extractedEntities: seq<Entity>)

  datatype Document = Document(
    id: string,
    title: string,
    docType: DocumentType,
    filePath: string,
    encryptedPath: string,
    thumbnailPath: Option<string>,
    ocrText: string,
    metadata: Metadata,
    tags: seq<string>,
    createdAt: int,
    updatedAt: int,
    expiryDate: Option<int>,
    isFavorite: bool,
    isArchived: bool)

  datatype Note = Note(
    id: string,
    title: string,
    content: string,
    linkedDocuments: seq<string>,
    linkedNotes: seq<string>,
    tags: seq<string>,
    createdAt: int,
    updatedAt: int,
    isFavorite: bool)

  datatype ChatMessage = ChatMessage(
    id: string,
    content: string,
    attachments: seq<string>,
    timestamp: int,
    isNote: bool,
    noteId: Option<string>)

  datatype Tag = Tag(id: string, name: string, color: string, documentCount: int, noteCount: int)

  datatype ResultKind = DocumentResult | NoteResult | ChatResult

  datatype SearchResult = SearchResult(
    kind: ResultKind,
    id: string,
    title: string,
    snippet: string,
    relevance: nat,
    timestamp: int)
}
