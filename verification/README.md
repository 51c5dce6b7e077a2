# Vault services core, modelled in Dafny

A model of the service layer of an encrypted personal-document vault (a
React Native app). It covers these parts:

- The key vault: a master key derived from a PIN, a salt and a PIN verifier in secure storage, lock and unlock, and the storage key derived from the master key.
- The encrypted object store: open or closed, write transactions, and four collections.
- Document management: create, list, look up by id, update, delete, open a document as a decrypted temporary file, search, and the path helpers.
- Entity extraction from recognised text: seven regular expressions.
- The rule-based assistant: type, tag and expiry suggestions, summary, keywords, similarity and related documents, and query expansion.
- Unified search over documents, notes and chat messages.
- The PIN, truncation, filename and expiry helpers.

Every service call is a pure function on immutable values:

- The device is a `Documents.World`: the store, a map from file paths to contents, and the vault.
- The cryptographic primitives are fields of an `Encryption.Crypto` record.
- The OCR engine, file sizes and the date parser are fields of a `Documents.Platform`.
- The fresh id, the fresh salt and the current instant are parameters.

A thrown and caught error is an `Err`, a `None` or a `false` result, as the service returns it.

Units:

- Confidences are hundredths: 0.85 is 85.
- Search relevances are tenths: 0.5 is 5.
- Instants are integer milliseconds.

Where the code and its documentation disagree, the model follows the code:

- `"A1234567"` yields no document number (`Ocr.OneLetterSevenDigits`): `[A-Z]{2,}` needs two letters.
- The stop list of `extractKeywords` never removes anything (`Ai.ExtractKeywords`): every stop word has three letters, and shorter words are already dropped.
- The keyword `id` of the personal tag matches inside words such as "valid" or "paid" (`Ai.IdMakesPersonal`).
- `updateDocument` reports success for an id that does not exist (`Documents.UpdateDocument`).
- A failed store write in `createDocument` leaves the encrypted blob on disk (`Documents.OrphanBlobOnClosedStore`).

Files:

- `wrappers.dfy`: Option, Result, a filter-map and distinct keys.
- `text.dfy`: JavaScript string primitives, with case mapping on ASCII and white space per ECMAScript.
- `regex.dfy`: a backtracking matcher with a declarative meaning.
- `ocr_receipt.dfy`: entity extraction worked out on one receipt line.
- `sorting.dfy`: a stable descending sort.
- `types.dfy`: the records.
- One file per service: `helpers`, `ocr`, `ai`, `encryption`, `database`, `documents`, `search`.

## Model

| member | source | states |
|---|---|---|
| Helpers.ValidatePin | src/utils/helpers.ts:33-44 | A PIN is valid iff it has 4 to 8 characters, all digits. Too short is reported whatever the characters. Too long is reported next. Otherwise the non-digit error. Each error case is an iff. |
| Helpers.ShortLettersReportLength | src/utils/helpers.ts:34-36 | "ab" gets the "at least 4 digits" message, because the length checks run before the digit check. |
| Helpers.TruncateText | src/utils/helpers.ts:60-63 | A text that fits is returned unchanged. Otherwise the result is the first `maxLength` characters (none when `maxLength` is negative), then "...". |
| Helpers.TruncateIdempotent | src/utils/helpers.ts:60-63 | Truncating an already truncated text changes nothing. |
| Helpers.SanitizeFilename | src/utils/helpers.ts:88-90 | The length is kept. Each character outside `[a-zA-Z0-9._-]` becomes `_`, and every other character is kept. |
| Helpers.SanitizedIsSafe | src/utils/helpers.ts:88-90 | The output contains only safe characters. |
| Helpers.SanitizeKeepsSafeNames | src/utils/helpers.ts:88-90 | A name made only of safe characters is returned unchanged. |
| Helpers.SanitizeIdempotent | src/utils/helpers.ts:88-90 | Sanitising twice is sanitising once. |
| Helpers.IsExpiringSoon | src/utils/helpers.ts:68-73 | An absent date is never expiring. Otherwise the result is true iff the expiry is less than one day in the past or less than 31 days ahead, because full days round toward zero. |
| Regex.EndsSound | src/services/ocr/OCRService.ts:51-53 | Every end position the backtracking engine tries is a real match of the pattern. |
| Regex.EndsComplete | src/services/ocr/OCRService.ts:51-53 | Every declarative match is among the ends the engine tries. |
| Regex.MatchesAtIff | src/services/ocr/OCRService.ts:51-53 | The engine finds a match at a position iff one exists. |
| Regex.ScanSound | src/services/ocr/OCRService.ts:51-53 | Every span the global scan reports is a match. The spans are ordered and do not overlap. |
| Regex.ScanLeftmost | src/services/ocr/OCRService.ts:51-53 | There is no match at any position before the first reported span. |
| Regex.MatchAll | src/services/ocr/OCRService.ts:52 | Each returned string occurs in the text at its span's start. There is one string per span. |
| Regex.NoMatchNoStrings | src/services/ocr/OCRService.ts:52-53 | A pattern with no match anywhere yields no strings (`match` returns null). |
| Regex.SingleMatch | src/services/ocr/OCRService.ts:52 | A pattern whose matches all start at one position, where the first alternative ends later, yields exactly that one string. |
| Regex.RepClass | src/services/ocr/OCRService.ts:46-47 | `[c]{n}` matches exactly n characters of the class. |
| Regex.StarClass | src/services/ocr/OCRService.ts:48 | `[c]*` matches exactly the runs of the class. |
| Regex.AtLeastClass | src/services/ocr/OCRService.ts:78 | `[c]{n,}` matches exactly the runs of at least n characters of the class. |
| Ocr.ExtractEntities | src/services/ocr/OCRService.ts:41-117 | No name entity is produced. Each entity's confidence is its kind's constant. Kinds appear in the order dates, amounts, numbers, emails, phones. |
| Ocr.ExtractByKind | src/services/ocr/OCRService.ts:45-114 | The dates are the matches of the three date patterns, pattern by pattern. Amounts, emails and phones are all their matches in text order. Numbers are the first five number matches. |
| Ocr.NumbersCapped | src/services/ocr/OCRService.ts:79-88 | At most five numbers are reported; they are a prefix of the matches, and exactly five when there are five or more. |
| Ocr.ValuesOccurInText | src/services/ocr/OCRService.ts:41-117 | Every entity value is a substring of the text. |
| Ocr.DocumentNumberIff | src/services/ocr/OCRService.ts:78 | The number pattern matches exactly two or more capitals followed by six or more digits, or eight or more digits, between word boundaries. |
| Ocr.OneLetterSevenDigits | src/services/ocr/OCRService.ts:78-88 | "A1234567" contains no document number. |
| OcrReceipt.ReceiptEntities | src/services/ocr/OCRService.ts:41-117 | "Amount $250.00 Due 12/31/2025" gives exactly the date "12/31/2025" with confidence 80, then the amount "$250.00" with confidence 85. |
| OcrReceipt.DateMatchesOnReceipt | src/services/ocr/OCRService.ts:44-62 | On that line the three date patterns together find only "12/31/2025". |
| OcrReceipt.DayMonthYearOnReceipt | src/services/ocr/OCRService.ts:46 | On that line the day-month-year pattern finds only "12/31/2025". |
| OcrReceipt.AmountOnReceipt | src/services/ocr/OCRService.ts:64-75 | On that line the amount pattern finds only "$250.00", taken greedily. |
| OcrReceipt.NoOtherEntities | src/services/ocr/OCRService.ts:77-114 | That line has no document number, e-mail or phone number. |
| Ai.SuggestDocumentType | src/services/ai/AIService.ts:29-82 | Each type is suggested iff its own rule fires and no earlier rule does (passport, licence, bill, certificate, insurance). There is no suggestion iff no rule fires. The confidence is the type's constant. |
| Ai.TypeIgnoresEntitiesAndCase | src/services/ai/AIService.ts:34 | The suggestion depends only on the lower-cased text, not on the entities. |
| Ai.PassportWins | src/services/ai/AIService.ts:37-43 | Once the text mentions a passport, appending anything keeps the passport suggestion with confidence 90. |
| Ai.DriversLicence | src/services/ai/AIService.ts:45-51 | "Driver's License" is an ID with confidence 85. |
| Ai.SuggestTags | src/services/ai/AIService.ts:166-187 | The result has no duplicates and at most six tags. A name is present iff one of its category's keywords occurs in the lower-cased text. |
| Ai.TagsInOrder | src/services/ai/AIService.ts:180-186 | The tags are the names of the firing categories, taken in declaration order (medical, financial, legal, personal, work, education). |
| Ai.TagsFrom | src/services/ai/AIService.ts:180-186 | Walking the categories keeps the tags found so far as a prefix, adds no duplicate, and adds exactly the names of the firing categories. |
| Ai.TagIff | src/services/ai/AIService.ts:171-184 | A category's name is suggested iff one of its own keywords occurs in the text. |
| Ai.NamesDistinct | src/services/ai/AIService.ts:171-178 | No two categories share a tag name. |
| Ai.IdMakesPersonal | src/services/ai/AIService.ts:175 | Any text containing "id", such as "valid", gets the personal tag. |
| Ai.ParsedDates | src/services/ai/AIService.ts:89-95 | The instants are exactly those of date entities whose value parses. |
| Ai.Latest | src/services/ai/AIService.ts:96-103 | The first instant after sorting latest first is the maximum. There is none iff the list is empty. |
| Ai.SuggestExpiryDate | src/services/ai/AIService.ts:87-111 | There is no suggestion iff no date entity parses. Otherwise the confidence is 70 and the date is some parsed date that is at least every parsed date. |
| Ai.NothingParsed | src/services/ai/AIService.ts:93-98 | An empty list of parsed instants means no date entity parses. |
| Ai.NonBlank | src/services/ai/AIService.ts:120 | The kept pieces are exactly those with a non-space character, in their original order. |
| Ai.NonBlankAppend | src/services/ai/AIService.ts:120 | The filter works piece by piece: filtering a concatenation concatenates the filtered parts, and one piece is kept iff it has a non-space character. |
| Ai.Sentences | src/services/ai/AIService.ts:120 | Each sentence has a non-space character, contains no terminator, and occurs in the text. |
| Ai.SentencesOfOne | src/services/ai/AIService.ts:120 | A text without `.`, `!` or `?` is one sentence when it has a non-space character, and none otherwise. |
| Ai.SentencesAtTerminator | src/services/ai/AIService.ts:120 | Splitting at a terminator gives the sentences before it followed by the sentences after it. With `SentencesOfOne` this fixes every sentence and its order. |
| Ai.SplitAtSeparator | src/services/ai/AIService.ts:120 | Splitting on runs of separators and dropping blank pieces splits the two sides of any one separator separately. |
| Ai.SummarizeDocument | src/services/ai/AIService.ts:116-127 | The summary is the first min(200, n) characters of the first three sentences joined by ". " and followed by ".", where n is that text's length. So it is a prefix of that text with at most 200 characters. It contains no "!" or "?". |
| Ai.BlankSummary | src/services/ai/AIService.ts:120-122 | A text with no sentence summarises to ".". |
| Ai.OneSentenceSummary | src/services/ai/AIService.ts:120-122 | A short text without terminators is kept whole, with a full stop added. |
| Ai.Clean | src/services/ai/AIService.ts:195 | Keeps exactly the lower-case letters, digits and white space, as a subsequence of the input. |
| Ai.CleanAppend | src/services/ai/AIService.ts:195 | The replacement works character by character: cleaning a concatenation concatenates the cleaned parts, and one character is kept iff it is a lower-case letter, digit or white space. |
| Ai.ExtractKeywords | src/services/ai/AIService.ts:192-206 | A word is a keyword iff it is a word of the cleaned lower-cased text with at least four characters; a keyword consists of `[a-z0-9]` only. |
| Ai.KeywordsIgnoreCase | src/services/ai/AIService.ts:193-194 | Keywords do not depend on letter case. |
| Ai.Similarity | src/services/ai/AIService.ts:211-218 | Both sets empty gives NaN (None). Otherwise the value is in [0, 1]. It is 1 iff the sets are equal and 0 iff they are disjoint. |
| Ai.SimilaritySymmetric | src/services/ai/AIService.ts:215-217 | Similarity is symmetric. |
| Ai.Links | src/services/ai/AIService.ts:142-154 | A link is produced iff some candidate's similarity exceeds 0.3, and every link's confidence exceeds 0.3. With distinct candidate ids, the link ids are distinct. |
| Ai.LinksAppend | src/services/ai/AIService.ts:142-154 | The loop works candidate by candidate: the links of a concatenation are the links of each part, in order, and one candidate gives its link iff its similarity exceeds 0.3. |
| Ai.Top | src/services/ai/AIService.ts:156 | Exactly min(5, n) links for n input links. They are the first ones of the stable descending sort by confidence, so most confident first and ties in input order. No dropped link is more confident than a kept one. With five or fewer, all are kept. Distinct ids stay distinct. |
| Ai.SuggestRelatedDocuments | src/services/ai/AIService.ts:132-161 | Exactly min(5, n) links, where n candidates exceed 0.3. They are the head of the stable descending sort of those links by confidence. Each is above 0.3 and comes from a candidate. No dropped link is more confident than a kept one. Distinct candidate ids give distinct link ids. |
| Ai.SelfIsRelated | src/services/ai/AIService.ts:143-152 | A candidate with the current text itself is linked with confidence 1 when the text has keywords. |
| Ai.SuggestSearchQueries | src/services/ai/AIService.ts:223-237 | Exactly two suggestions: the query plus " document" and the query plus " certificate". |
| Encryption.Lock | src/services/encryption/EncryptionService.ts:167-169 | After locking the vault is neither unlocked nor ready, and secure storage is untouched. |
| Encryption.GetOrCreateSalt | src/services/encryption/EncryptionService.ts:181-205 | A stored salt is returned and nothing is stored. Otherwise the new salt is stored and returned, or the call fails when storage refuses the write. |
| Encryption.SaltCreatedOnce | src/services/encryption/EncryptionService.ts:183-189 | Once a salt exists, every later call returns it and stores nothing. |
| Encryption.InitializeFromPin | src/services/encryption/EncryptionService.ts:16-39 | The key is PBKDF2 of the PIN and the salt. The verifier is SHA-256 of the PIN. A failed salt step changes nothing. A failed verifier write reports false with the key already held. |
| Encryption.VerifyPin | src/services/encryption/EncryptionService.ts:44-68 | True iff a verifier is stored, it equals SHA-256 of the PIN, and the salt is available. Then the key is re-derived. On false nothing changes. |
| Encryption.ChangePinSpec | src/services/encryption/EncryptionService.ts:210-222 | A wrong old PIN fails with nothing changed. A right one gives exactly the initialisation with the new PIN. |
| Encryption.Encrypt | src/services/encryption/EncryptionService.ts:73-86 | Fails (null) unless a non-empty key is held. Otherwise the AES ciphertext under the key. |
| Encryption.Decrypt | src/services/encryption/EncryptionService.ts:91-104 | Fails unless a key is held. Otherwise the AES decryption under the key, which may itself fail. |
| Encryption.EncryptFile | src/services/encryption/EncryptionService.ts:109-120 | Succeeds iff a key is held and the file exists. The result is the encryption of the file's contents. |
| Encryption.DecryptFile | src/services/encryption/EncryptionService.ts:125-142 | Succeeds iff decryption gives a non-empty text. Then the output path holds it; otherwise the files are unchanged. |
| Encryption.LockedFailsClosed | src/services/encryption/EncryptionService.ts:73-162 | Without a key, encrypt, decrypt, file encryption and decryption, and the storage key all fail, and nothing is written. |
| Encryption.LockThenFails | src/services/encryption/EncryptionService.ts:167-169 | After lock every guarded operation fails. |
| Encryption.HexRoundTrip | src/services/encryption/EncryptionService.ts:152-156 | Splitting the hex text of a byte string into pairs and parsing each gives the bytes back. |
| Encryption.GetRealmEncryptionKey | src/services/encryption/EncryptionService.ts:147-162 | Fails while locked. Otherwise the bytes parsed from the hex SHA-512 digest of the key. |
| Encryption.RealmKeyIsDigest | src/services/encryption/EncryptionService.ts:147-157 | With well-behaved primitives, the storage key is the 64-byte digest of the master key. |
| Encryption.RealmKeyDeterministic | src/services/encryption/EncryptionService.ts:147-157 | The same master key always gives the same storage key. |
| Encryption.WrongPinChangesNothing | src/services/encryption/EncryptionService.ts:50-53 | A wrong PIN, or no stored verifier, leaves the vault as it was. |
| Encryption.InitializeThenVerify | src/services/encryption/EncryptionService.ts:16-68 | After a successful initialisation, the same PIN verifies and re-derives the same key. |
| Encryption.InitializeThenOtherPinFails | src/services/encryption/EncryptionService.ts:44-53 | After initialisation, a PIN with a different digest does not verify. |
| Encryption.TransitionsKeepKeyShaped | src/services/encryption/EncryptionService.ts:16-176 | Every transition keeps the held key 64 characters long. So unlocked (a key is held) and ready (a non-empty key is held) coincide. |
| Encryption.ScenarioEncryptDecrypt | src/services/encryption/EncryptionService.ts:16-104 | A vault set up with "1234" decrypts what it encrypted. |
| Encryption.ScenarioWrongPin | src/services/encryption/EncryptionService.ts:44-53 | A vault set up with "1234" refuses "9999". |
| Database.Initialize | src/services/database/DatabaseService.ts:13-33 | No key means nothing opens. A key must be 64 bytes and must match the key the file was created with. On success the store is open and bound to the key; on failure it is unchanged. |
| Database.GetInstance | src/services/database/DatabaseService.ts:38-43 | The live store iff it is open. Otherwise the "not initialized" error. |
| Database.Close | src/services/database/DatabaseService.ts:48-53 | The store is closed with no transaction, and the collections and key binding are kept. Closing a closed store does nothing. |
| Database.Write | src/services/database/DatabaseService.ts:58-61 | Fails on a closed store or inside a transaction. A failing body's error propagates and its changes are dropped. Otherwise its collections are committed. |
| Database.Objects | src/services/database/DatabaseService.ts:66-69 | The records of a kind iff the store is open. |
| Database.Create | src/services/database/DatabaseService.ts:74-81 | Succeeds iff the store is open and in a transaction; the record is appended to its collection. |
| Database.Delete | src/services/database/DatabaseService.ts:86-89 | Succeeds iff open, in a transaction, and the position exists; exactly that record is removed. |
| Database.Replace | src/services/document/DocumentService.ts:142-149 | Assigning to a live object succeeds iff open, in a transaction, and the object exists; only that record changes. |
| Database.DeleteAll | src/services/database/DatabaseService.ts:94-98 | Empties one collection and leaves the others unchanged. |
| Database.ClosedFailsEverything | src/services/database/DatabaseService.ts:38-43 | While closed every accessor fails with "not initialized". |
| Database.LockedNeverOpens | src/services/database/DatabaseService.ts:15-18 | Without a storage key the store never opens. |
| Database.CloseIdempotent | src/services/database/DatabaseService.ts:48-53 | Closing twice is closing once. |
| Database.ReopenKeepsData | src/services/database/DatabaseService.ts:13-53 | Closing, then reopening with the file's key, gives back the same collections. |
| Database.MutationsKeepValid | src/services/database/DatabaseService.ts:48-98 | Create, replace, delete, delete-all, close and initialise keep all four collections present, each record in its own collection, and no transaction on a closed store. |
| Database.WriteKeepsValid | src/services/database/DatabaseService.ts:58-61 | A body that keeps the store valid keeps it valid through `write`, and the transaction is closed afterwards. |
| Documents.SplitOn | src/services/document/DocumentService.ts:246 | At least one piece. More than one iff the separator occurs. A string without the separator is its own single piece. |
| Documents.LastPieceSuffix | src/services/document/DocumentService.ts:246-247 | The last piece has no separator. It is the suffix after the last separator, or the whole string when there is none. |
| Documents.GetExtension | src/services/document/DocumentService.ts:245-248 | Empty iff the path has no dot. Otherwise a suffix of the path: "." followed by text with no dot. |
| Documents.GetMimeType | src/services/document/DocumentService.ts:230-240 | The known type of the lower-cased last segment, and the generic binary type for every other extension. The result is always one of the five strings. |
| Documents.GetMimeTypeAsWritten | src/services/document/DocumentService.ts:230-240 | When the lower-cased last segment is `constructor` or `__proto__`, the only inherited members whose names are all lower case, that member is returned. For every other segment the result is the intended MIME type. |
| Documents.MimeTypeOfConstructorFile | src/services/document/DocumentService.ts:231-239 | "scan.constructor" yields the inherited `constructor` member instead of a MIME type; the corrected lookup gives the binary type. |
| Documents.MimeTypeAgrees | src/services/document/DocumentService.ts:231-239 | Outside the inherited names, the code as written and the corrected lookup agree. |
| Documents.MimeFollowsExtension | src/services/document/DocumentService.ts:230-248 | The MIME type depends only on the lower-cased extension. |
| Documents.DocsOf | src/services/document/DocumentService.ts:92 | A document is listed iff a record of it is in the collection. |
| Documents.DocsOfDistinct | src/services/document/DocumentService.ts:92 | Records with distinct ids give documents with distinct ids. |
| Documents.Filter | src/services/document/DocumentService.ts:93 | Keeps exactly the elements satisfying the predicate, as a subsequence. |
| Documents.GetAllDocuments | src/services/document/DocumentService.ts:90-105 | Empty when the store is closed. A document is listed iff it is stored and not archived. Newest first, as a stable sort of the stored order. With unique ids, no document is listed twice. |
| Documents.FirstWithId | src/services/document/DocumentService.ts:112-115 | The first record with the id, or None iff there is none. |
| Documents.GetDocumentById | src/services/document/DocumentService.ts:110-128 | Some iff the store is open and a stored document has the id, archived or not. The value is the first such document. |
| Documents.AppendFresh | src/services/document/DocumentService.ts:72-78 | An appended record with a new id becomes the first with that id, and ids stay unique. |
| Documents.ReplaceSameId | src/services/document/DocumentService.ts:141-149 | Replacing the first record with an id by one with the same id keeps it first, and ids stay unique. |
| Documents.RemoveUnique | src/services/document/DocumentService.ts:179-181 | Removing the only record with an id leaves none, and ids stay unique. |
| Documents.SearchDocuments | src/services/document/DocumentService.ts:210-225 | A subsequence of the listed documents. A document is included iff its title, text or some tag includes the lower-cased query. Order is newest first. |
| Documents.EmptySearchFindsAll | src/services/document/DocumentService.ts:215-220 | The empty query finds every listed document. |
| Documents.NewDocument | src/services/document/DocumentService.ts:38-69 | Id, title, paths, times and flags come from the inputs. Tags and entities come from the recognised text. The suggested type wins over the given one. The expiry date is the suggested one, if any. Metadata holds the size, MIME type and entities. |
| Documents.StoreDocument | src/services/document/DocumentService.ts:25-85 | A missing file or a locked vault fails with nothing written. Otherwise the blob is written. The record is appended iff the store is open and not in a transaction. On failure the store is unchanged. |
| Documents.OrphanBlobOnClosedStore | src/services/document/DocumentService.ts:29-78 | On a closed store creation fails after the blob is written, leaving a file no record points to. |
| Documents.StoreThenGet | src/services/document/DocumentService.ts:72-128 | A stored record with a fresh id is what lookup by id returns, it is listed unless archived, and ids stay unique. |
| Documents.CreateThenGet | src/services/document/DocumentService.ts:15-128 | With an existing file, an unlocked vault, an open store outside a transaction and a fresh id, creation succeeds. The created document is then returned by id and listed, and ids stay unique. |
| Documents.Apply | src/services/document/DocumentService.ts:142-148 | Every present key except `id` overwrites its field, and every other field is kept. |
| Documents.UpdateDocument | src/services/document/DocumentService.ts:133-158 | True iff the store is open and not in a transaction, and false leaves the store unchanged. A missing id changes nothing, even when true. Otherwise the first record with the id is replaced by the updated one. |
| Documents.UpdateSpec | src/services/document/DocumentService.ts:133-158 | After an update of an existing document, lookup returns the updated record with the same id and `updatedAt` equal to now, and the store stays valid with unique ids. |
| Documents.DeleteDocument | src/services/document/DocumentService.ts:163-189 | An unknown id or a closed store fails with nothing changed. Otherwise the blob is removed. True iff no transaction is open, and then the first record with the id is removed. |
| Documents.DeleteRemovesId | src/services/document/DocumentService.ts:163-189 | With unique ids, after a successful delete no document has the id, and ids stay unique. |
| Documents.GetDecryptedFile | src/services/document/DocumentService.ts:194-205 | Succeeds iff the blob exists and decrypts to a non-empty text. Then the text is written to the temporary path and that path is returned; otherwise nothing is written. |
| Documents.StoreThenOpen | src/services/document/DocumentService.ts:29-36 | With a cipher that inverts itself, opening a stored record writes the original contents of a non-empty file to the temporary path. |
| Documents.CreateThenOpen | src/services/document/DocumentService.ts:15-205 | With a non-empty existing file, an unlocked vault and an open store outside a transaction, creation succeeds. Opening the created document then writes the original contents to the temporary path. |
| Search.Around | src/services/search/SearchService.ts:63-66 | The snippet is a window of the text between ellipses. The window reaches 50 characters before the match and 100 from it, cut at the ends of the text. |
| Search.SnippetShowsMatch | src/services/search/SearchService.ts:60-66 | For a query of at most 100 characters, the snippet contains the whole first match. |
| Search.Snippet | src/services/search/SearchService.ts:50-79 | The context of a body match. Failing that, a non-empty matching title. Failing that, the first 100 characters of the body. |
| Search.Score | src/services/search/SearchService.ts:49-83 | A result iff the title, the body or some tag includes the query. Its relevance is the sum of the weights of the matching parts, positive and bounded. It carries the entry's id, title and time. |
| Search.ChatHit | src/services/search/SearchService.ts:160-175 | A result iff the content includes the query. The title is the first 50 characters, the snippet is the match context, and the relevance is 3. |
| Search.CollectKeepsOrder | src/services/search/SearchService.ts:48-84 | Pushing results in the order of a sorted collection keeps that order when each result carries its entry's time. |
| Search.SearchDocuments | src/services/search/SearchService.ts:43-91 | A result iff some listed document matches, and nothing when the store is closed. Ordered by relevance, then newest first among equal relevance. Every listed document has a result when all of them match. With unique document ids, no result id repeats. |
| Search.StoredNotes | src/services/search/SearchService.ts:98 | A note is listed iff a record of it is in the collection. |
| Search.SearchNotes | src/services/search/SearchService.ts:96-146 | A result iff some stored note matches, and nothing when the store is closed. Ordered by relevance, then newest first among equal relevance. With distinct note ids, no result id repeats. |
| Search.StoredMessages | src/services/search/SearchService.ts:153 | A message is listed iff a record of it is in the collection. |
| Search.SearchChat | src/services/search/SearchService.ts:151-183 | A result iff some stored message matches, newest first, and nothing when the store is closed. The results are those of the time-sorted messages, in that order. With distinct message ids, no result id repeats. |
| Search.RankedDistinct | src/services/search/SearchService.ts:48-86 | Collecting one result per entry, each carrying its entry's id, and then sorting, keeps distinct ids distinct. |
| Search.SearchAll | src/services/search/SearchService.ts:11-38 | A closed store finds nothing. Each result comes from an entry of its own kind. Every listed document, note and message that matches the lower-cased query has its result. Documents and notes are ordered by relevance then time; chat is ordered by time. Ids stay distinct. |
| Search.SearchIgnoresCase | src/services/search/SearchService.ts:19 | Searching for a query and for its lower-cased form give the same results. |
| Search.EmptyQueryFindsEverything | src/services/search/SearchService.ts:53-61 | The empty query gives every listed document, note and chat message its result, and there are exactly as many results as entries. |
| Wrappers.CollectAppend | src/services/search/SearchService.ts:48-84 | A `forEach` that pushes one result per hit works entry by entry: the results of a concatenation are those of each part in order, and one entry gives its result iff it hits. |
| Wrappers.CollectDistinct | src/services/search/SearchService.ts:48-84 | When entries have distinct keys and each result carries its entry's key, the results have distinct keys. |
| Sorting.SortDesc | src/services/search/SearchService.ts:86 | A permutation, sorted largest first. Within each key, the input order is kept (stable). |
| Sorting.SortedUnique | src/services/search/SearchService.ts:178 | Two sequences sorted by a key that agree on every per-key subsequence are equal. |
| Sorting.SortSortedIdentity | src/services/search/SearchService.ts:178 | Sorting an already sorted sequence changes nothing. |
| Sorting.SortLex | src/services/search/SearchService.ts:86 | A stable sort by relevance of a sequence already ordered by time orders by relevance, then time. |
| Sorting.PermutationDistinct | src/services/search/SearchService.ts:86 | A permutation of a sequence with distinct keys has distinct keys. |
| Sorting.Take | src/services/ai/AIService.ts:156 | `slice(0, n)` is the prefix of length min(n, length). |
| Text.IndexFrom | src/services/search/SearchService.ts:60 | `indexOf` gives the first occurrence at or after the start, or -1 iff there is none. |
| Text.IncludesIff | src/services/search/SearchService.ts:53 | `includes` holds iff the word occurs somewhere. |
| Text.Substring | src/services/search/SearchService.ts:66 | Clamped bounds. The result is the slice when the bounds are in order and in range. |

## Left out

- Floating point: confidences and relevances are exact integers in hundredths or tenths. The relevance sums the source can produce (0.5, 0.7, 0.8, 1.0 and so on) are ranked the same way. The similarity is an exact rational.
- Unicode: `toLowerCase`, `\s` and `trim` are modelled on ASCII letters plus the ECMAScript white-space set; case mapping outside ASCII is not modelled.
- Strings are sequences of code points, whereas JavaScript `length`, `substring`, `indexOf` and regular expressions without the `u` flag count UTF-16 code units. A character outside the Basic Multilingual Plane counts once here and twice in the source. The lines below name the members whose length tests and cut points shift for such text. Other members either see only ASCII text, such as keywords after cleaning, hex keys and file extensions, or do not depend on lengths.
- `Helpers.TruncateText`: both the length test and the cut at `maxLength` count code points. For text outside the BMP, the model may return a text whole that the source truncates. It may also keep more characters than the source, and it never splits a surrogate pair.
- `Helpers.SanitizeFilename`: a character outside the BMP becomes one `_`, where the source replaces each of its two surrogates and writes `__`.
- `Search.Around`: the 50-character and 100-character window around a match counts code points, not UTF-16 units.
- `Search.ChatHit`: the 50-character title counts code points, not UTF-16 units.
- `Search.Snippet`: the fallback of the first 100 characters of the body counts code points, where `substring(0, 100)` counts UTF-16 units. For a body of 101 characters outside the BMP, the model keeps 100 of them and the source keeps 50. The 100-character bound in `Search.SnippetShowsMatch` counts code points for the same reason.
- `Helpers.ValidatePin`: the length tests against 4 and 8 count code points, where `pin.length` counts UTF-16 units. For "12" followed by one character outside the BMP, the model reports the too-short error and the source reports the not-numeric error (its length is 4). For seven digits followed by such a character, the model reports the not-numeric error and the source reports the too-long error (its length is 9).
- `OCRService.extractText`, `extractTextWithTesseract`, `extractTextFromMultipleImages` and `getConfidenceScore`: the OCR engine is a foreign call. It is the `recognize` field of `Documents.Platform`.
- `AIService.initialize`: it only sets a flag. The suggestions do not depend on it.
- `Ai.SummarizeDocument`: the 200-character cut counts code points, not UTF-16 units. The catch branch is not modelled, because nothing in the try block can throw on a string.
- `new Date(e.value)` is the `parseDate` parameter; an invalid date is `None`.
- The AES, PBKDF2, SHA and random-salt primitives are parameters. `Encryption.WellFormed` states the properties the lemmas rely on: AES decryption inverts encryption, keys are 64 characters, and the digest is 64 bytes.
- Keychain and file-system calls are modelled as map updates. Asynchrony, concurrency and the app-wide singletons are left out: each call is one atomic transition.
- `RNFS.mkdir`, `RNFS.stat` and the base64/utf8 encodings are left out. The file size is the `sizeOf` parameter, and the file contents are one string.
- Realm schemas, `_id` object ids and JSON (de)serialisation of metadata are left out. JSON stringify followed by parse is taken as the identity.
- Realm's `sorted` is assumed to be stable. Its `filtered('id == $0')[0]` is the first record in insertion order.
- `Documents.UpdateDocument`: an `updates` value is a typed partial document. Keys outside `Document` are not modelled.
- `Documents.NewDocument`: the metadata's MIME type is the corrected lookup `Documents.GetMimeType`. `createDocument` calls the lookup as written, which differs only for a segment such as `constructor` (see Findings). The source then keeps an inherited member as `metadata.mimeType`. For `constructor` that member is the `Object` function, and `JSON.stringify` drops the key from the stored record. For `__proto__` it is `Object.prototype`, which is stored as `{}`. The model stores `application/octet-stream` in both cases.
- `Documents.CreateDocument`: it has no row of its own. Its behaviour is stated by `Documents.StoreDocument` and `Documents.NewDocument`, and connected by `Documents.CreateThenGet`, `Documents.CreateThenOpen` and `Documents.OrphanBlobOnClosedStore`.
- `formatFileSize`, `formatDate`, `getRandomColor`, `generateUniqueFilename` and `debounce` in helpers.ts are not part of this model. Neither are `getRecentSearches` and `saveSearchQuery`, which are empty stubs.
- The timing log of `search` is left out. The outer catch of `search` cannot be reached, because each of the three searches catches its own errors.
- `Helpers.IsExpiringSoon`: date-fns computes days on the local calendar, including daylight-saving adjustment. The model uses whole 24-hour days in UTC.

## Findings

| source | as written | input that shows it | evidently intended | confidence | as-written member | corrected member |
|---|---|---|---|---|---|---|
| src/services/document/DocumentService.ts:231-239 | `mimeTypes[ext]` indexes a plain object literal. A lower-cased extension that names an inherited member, such as `constructor`, yields that function, which is truthy and returned as the "MIME type". | a file named `scan.constructor` | only the five listed extensions map to a type; every other extension gets `application/octet-stream` | not executed | Documents.GetMimeTypeAsWritten, Documents.MimeTypeOfConstructorFile | Documents.GetMimeType, Documents.MimeTypeAgrees |
