# hockeypuck PostgreSQL key storage, modelled in Dafny

Hockeypuck is an OpenPGP key server. Its `pghkp` package keeps public keys in
two PostgreSQL tables:

- `keys` has one row per primary key. The row is keyed by the reversed
  fingerprint (rfingerprint) and carries a unique md5 digest, the creation and
  modification times, the JSON document and a full-text keyword vector.
- `subkeys` maps each reversed subkey fingerprint to its primary key's row.
  A foreign key ties it to `keys`.

On these tables the package implements the key store's queries: MatchMD5,
Resolve, MatchKeyword, ModifiedSince, FetchKeys and FetchKeyrings. It also
implements its transactional updates: Insert, Replace, Delete and Update. The
keyword extraction that fills the full-text column is part of the package too.
So is a small notification hub: Subscribe, Notify and RenotifyAll.

The model has seven modules:

- `HkpTypes` holds the value types and two string helpers. `Reverse` stands
  for `openpgp.Reverse`; `Lower` stands for `strings.ToLower` on ASCII.
- `Hex` covers hex validation, as `hex.DecodeString` does it, and the
  lower-cased `IN (...)` list built from valid hex.
- `Keywords` covers keyword extraction from user IDs, the tsvector limits
  and the final string.
- `KeyRead` covers `readOneKey`.
- `Tables` is the database as a pure value. It holds the schema's constraints
  as `Valid`, one function per transaction giving the committed state or the
  error, and the lemmas about them.
- `Queries` gives the meaning of each query, as a relation between the tables
  and an answer, with the lemmas about them.
- `Storage.Store` is the store object. It has the two tables and the
  listeners as fields. Its transactional methods update the tables in place
  and restore a snapshot on rollback. Each method's `ensures` ties the new
  state and the result to the matching `Tables` or `Queries` definition.

The database returns rows in an unspecified order. The model lets that order
be any enumeration of the selected rows. Methods hand the enumeration back as
a ghost out-parameter named `order`.

The model follows the code at three points a reader may not expect:

- MatchMD5 and FetchKeyrings have no guard for an empty list. They send
  `... IN ()`, which the SQL parser rejects, so the model returns
  `ErrEmptyInList`. FetchKeys does have the guard and returns an empty result.
- Update on a key that is not stored updates no row and reports no error,
  unless one of its subkeys is new. The subkey insert then violates the
  foreign key.
- The duplicate flag of `insertKeyTx` means "no key row and no subkey row was
  inserted".

## Model

| member | source | states |
|---|---|---|
| HkpTypes.Reverse | src/hockeypuck/pghkp/storage.go:555 | the result has the same length and holds the characters in reverse order |
| HkpTypes.ReverseInvolutive | src/hockeypuck/pghkp/storage.go:524-555 | reversing twice gives back the input, so `key.Fingerprint()` reversed is the key's rfingerprint |
| HkpTypes.Lower | src/hockeypuck/pghkp/storage.go:198 | same length; each character is mapped by ASCII lower-casing |
| HkpTypes.LowerIsLowered | src/hockeypuck/pghkp/storage.go:231 | a lowered string has no upper-case letter, and lowering it again changes nothing |
| Hex.Decode | src/hockeypuck/pghkp/storage.go:153 | decoding succeeds exactly on even-length strings of hex digits, either case; it gives half as many bytes |
| Hex.DecodeEncode | src/hockeypuck/pghkp/storage.go:153 | decoding the encoding of any byte string gives the bytes back |
| Hex.EncodeDecode | src/hockeypuck/pghkp/storage.go:153-157 | re-encoding a decoded valid string gives its lower-cased form, the text quoted into the IN list |
| Hex.FirstInvalid | src/hockeypuck/pghkp/storage.go:151-156 | None exactly when every string is valid hex; otherwise the index of the first invalid one |
| Hex.ValidatedLower | src/hockeypuck/pghkp/storage.go:151-158 | Ok exactly when all strings are valid hex, holding each one lower-cased; otherwise ErrInvalidHex of an invalid one |
| Hex.BuildInList | src/hockeypuck/pghkp/storage.go:307-314 | the validation loop returns exactly ValidatedLower: it stops at the first invalid string |
| Keywords.Utf8Len | src/hockeypuck/pghkp/storage.go:644 | the UTF-8 byte length lies between the number of characters and four times that |
| Keywords.Join | src/hockeypuck/pghkp/storage.go:648 | joining a single keyword gives that keyword |
| Keywords.JoinSnoc | src/hockeypuck/pghkp/storage.go:648 | joining a non-empty list with one more keyword appends the separator and that keyword to the joined text |
| Keywords.JoinBytes | src/hockeypuck/pghkp/storage.go:648-651 | the joined string's byte length is the sum of the keyword lengths plus 3 per separator |
| Keywords.FirstTooLong | src/hockeypuck/pghkp/storage.go:643-647 | None exactly when every keyword is shorter than 2048 bytes; otherwise the index of one that is not |
| Keywords.KeywordsToTSVector | src/hockeypuck/pghkp/storage.go:638-655 | success gives the keywords joined with " & "; failure is one of the two limit errors |
| Keywords.TSVectorErrorIff | src/hockeypuck/pghkp/storage.go:638-655 | fails exactly when some keyword has at least 2048 bytes, or the joined bytes plus 8 per keyword reach 1 MiB |
| Keywords.FewShortKeywordsFit | src/hockeypuck/pghkp/storage.go:639-653 | at most 509 keywords, each under 2048 bytes, always fit |
| Keywords.ManyLongKeywordsOverflow | src/hockeypuck/pghkp/storage.go:641-653 | 512 keywords of 2047 bytes overflow with the total-size error |
| Keywords.TotalBytesPermutation | src/hockeypuck/pghkp/storage.go:651 | the total byte count does not depend on keyword order |
| Keywords.TSVectorVerdictOrderFree | src/hockeypuck/pghkp/storage.go:691-694 | whether the tsvector fails does not depend on the map's iteration order |
| Keywords.IndexOf | src/hockeypuck/pghkp/storage.go:664 | -1 or an index holding the character |
| Keywords.IndexOfIs | src/hockeypuck/pghkp/storage.go:664 | the first occurrence is the index returned |
| Keywords.IndexOfNone | src/hockeypuck/pghkp/storage.go:664 | -1 exactly when the character does not occur |
| Keywords.LastIndexOf | src/hockeypuck/pghkp/storage.go:664 | -1 or an index holding the character |
| Keywords.LastIndexOfIs | src/hockeypuck/pghkp/storage.go:664 | the last occurrence is the index returned |
| Keywords.WordLen | src/hockeypuck/pghkp/storage.go:677-685 | the longest prefix of letters, digits and '-', stopped by a non-word character |
| Keywords.Fields | src/hockeypuck/pghkp/storage.go:677-685 | every field is non-empty and made of word characters; fields of a lowered string are lowered |
| Keywords.FieldsMaximal | src/hockeypuck/pghkp/storage.go:677-685 | every maximal run of word characters, bounded by separators or the ends, is one whole field: runs are never split |
| Keywords.FieldsFrom | src/hockeypuck/pghkp/storage.go:677-685 | the same for the fields of any suffix, from the offset of the suffix on |
| Keywords.FieldsKeepWordChars | src/hockeypuck/pghkp/storage.go:677-688 | the fields, concatenated, are exactly the word characters of the input, in order |
| Keywords.DedupMembers | src/hockeypuck/pghkp/storage.go:661-694 | the de-duplicated list has the same members as the tokens |
| Keywords.DedupDistinct | src/hockeypuck/pghkp/storage.go:691-695 | the de-duplicated list has no repeats, as map keys have none |
| Keywords.ConcatAllMember | src/hockeypuck/pghkp/storage.go:662-690 | a token is in the concatenation exactly when it is in one of the lists |
| Keywords.EmailTokensLowered | src/hockeypuck/pghkp/storage.go:663-674 | e-mail, user name and domain tokens of a lowered ID are lowered |
| Keywords.UidTokensLowered | src/hockeypuck/pghkp/storage.go:663 | every token of a user ID is lower-case |
| Keywords.UidTokensSpec | src/hockeypuck/pghkp/storage.go:663-674 | with '<' first at lbr and '>' last at rbr > lbr, the e-mail between them is a token, so are its parts around the first '@' (the name fields before lbr are tokens too; NameTokensSpec states that without the '>') |
| Keywords.NameTokensSpec | src/hockeypuck/pghkp/storage.go:675-688 | with '<' first at lbr, every field of the text before lbr is a token, whether or not a '>' follows |
| Keywords.NoBracketNoTokens | src/hockeypuck/pghkp/storage.go:665-676 | a user ID without '<' contributes no token |
| Keywords.UidTokensShape | src/hockeypuck/pghkp/storage.go:664-688 | every token is a word field before the '<', or, when the last '>' follows the '<', the address between them or its part before or after the first '@' |
| Keywords.KeywordListSpec | src/hockeypuck/pghkp/storage.go:660-696 | the keyword list is duplicate-free and lower-case, and holds exactly the tokens of the user IDs |
| Keywords.Put | src/hockeypuck/pghkp/storage.go:667-687 | setting a map entry keeps the insertion-ordered key list equal to Dedup of all tokens so far |
| Keywords.PutEmail | src/hockeypuck/pghkp/storage.go:665-675 | adds the e-mail tokens of one user ID to the map and its ordered key list |
| Keywords.PutNames | src/hockeypuck/pghkp/storage.go:676-689 | adds the name fields of one user ID to the map and its ordered key list |
| Keywords.KeywordsFromKey | src/hockeypuck/pghkp/storage.go:660-696 | the loop over user IDs returns exactly KeywordList, which is duplicate-free |
| Keywords.KeywordsTSVector | src/hockeypuck/pghkp/storage.go:617-632 | the stored keywords are the joined list when the conversion succeeds, or "" when the tsvector limits are exceeded |
| KeyRead.ReadOneKey | src/hockeypuck/pghkp/storage.go:394-410 | a parse error passes through; a key returned has the expected rfingerprint |
| KeyRead.ReadOneKeySpec | src/hockeypuck/pghkp/storage.go:394-410 | one matching key gives that key, no key gives nil, several keys give ErrMultipleKeys naming the first two keys by forward fingerprint, a wrong fingerprint gives ErrFingerprintMismatch with the expected and the found rfingerprint |
| Tables.SubFps | src/hockeypuck/pghkp/storage.go:468-469 | as many rsubfps as the key has subkeys, the set insertKeyTx and updateTx write subkey rows for |
| Tables.InsertSubkeySpec | src/hockeypuck/pghkp/storage.go:436-437 | the conditional insert adds (rsubfp, rfp) exactly when rsubfp has no row, and keeps every other row |
| Tables.InsertSubkeysSpec | src/hockeypuck/pghkp/storage.go:468-478 | after the loop every subkey has a row; old rows are unchanged; new rows point at the key |
| Tables.InsertSubkeysUnchanged | src/hockeypuck/pghkp/storage.go:468-478 | when every subkey already has a row, nothing changes |
| Tables.KeysAfterInsertSpec | src/hockeypuck/pghkp/storage.go:428-430 | the conditional key insert adds the new row exactly when the rfingerprint is absent |
| Tables.InsertKeyTxErrorIff | src/hockeypuck/pghkp/storage.go:454-457 | insertKeyTx fails exactly when the key is new and another row holds its md5, with the UNIQUE error |
| Tables.InsertKeyTxNeverOverwrites | src/hockeypuck/pghkp/storage.go:428-437 | no existing key or subkey row is changed |
| Tables.InsertKeyTxStores | src/hockeypuck/pghkp/storage.go:428-478 | the key has a row, a new one being NewRow with ctime = mtime = now; every subkey has a row; new subkey rows point at the key |
| Tables.InsertKeyTxDuplicateIff | src/hockeypuck/pghkp/storage.go:459-480 | duplicate exactly when the key and all its subkeys were already stored |
| Tables.InsertKeyTxCounts | src/hockeypuck/pghkp/storage.go:459-480 | the duplicate flag equals "rows inserted == 0", as counted by RowsAffected |
| Tables.KnownKeyWithNewSubkeyIsNotDuplicate | src/hockeypuck/pghkp/storage.go:468-480 | a stored key that brings a new subkey succeeds and is not a duplicate |
| Tables.InsertKeyTxValid | src/hockeypuck/pghkp/storage.go:57-69 | a successful insert keeps md5 unique and every subkey row pointing at a key |
| Tables.InsertKeyTxTwice | src/hockeypuck/pghkp/storage.go:427-481 | inserting the same key again succeeds as a duplicate and changes nothing |
| Tables.DropSubkeysOf | src/hockeypuck/pghkp/storage.go:556 | exactly the subkey rows not pointing at rfp remain, unchanged |
| Tables.DeleteTxSpec | src/hockeypuck/pghkp/storage.go:554-569 | ErrKeyNotFound exactly when there is no row; otherwise the old md5 is returned and only that row and its subkey rows are removed |
| Tables.DeleteTxValid | src/hockeypuck/pghkp/storage.go:554-569 | delete keeps the schema constraints |
| Tables.DeleteTwice | src/hockeypuck/pghkp/storage.go:554-569 | a second delete of the same fingerprint fails with ErrKeyNotFound |
| Tables.ReplaceTxSpec | src/hockeypuck/pghkp/storage.go:512-533 | Replace fails with ErrKeyNotFound when there is no row, with the md5 error when another key has the md5; otherwise it returns the old md5 and stores the key as a fresh insert would |
| Tables.ReplaceTxValid | src/hockeypuck/pghkp/storage.go:512-533 | replace keeps the schema constraints |
| Tables.UpdateTxSpec | src/hockeypuck/pghkp/storage.go:593-606 | sets mtime, md5, keywords and doc and keeps ctime; adds only missing subkey rows; leaves other rows alone |
| Tables.UpdateTxErrors | src/hockeypuck/pghkp/storage.go:593-606 | fails exactly on a taken md5 or, for an absent key, on a new subkey (foreign key); an absent key without new subkeys changes nothing |
| Tables.UpdateTxValid | src/hockeypuck/pghkp/storage.go:593-606 | update keeps the schema constraints |
| Tables.InsertBatchValid | src/hockeypuck/pghkp/storage.go:483-510 | a batch insert keeps the schema constraints |
| Tables.InsertBatchErrorCap | src/hockeypuck/pghkp/storage.go:486-489 | a batch collects at most maxInsertErrors + 2 errors |
| Tables.InsertBatchBails | src/hockeypuck/pghkp/storage.go:486-488 | the batch bails only after 101 errors, and its last error is "too many insert errors (101 > 100)" |
| Tables.InsertBatchAccounts | src/hockeypuck/pghkp/storage.go:485-497 | without bailing, each key is counted once as added, duplicate or error |
| Tables.InsertBatchAddedInOrder | src/hockeypuck/pghkp/storage.go:499-503 | the added notifications come from increasing key positions, with their key ID and md5 |
| Tables.InsertBatchKeeps | src/hockeypuck/pghkp/storage.go:483-510 | a stored key stays stored |
| Tables.InsertSameKeyTwice | src/hockeypuck/pghkp/storage.go:483-510 | a batch of one new key twice adds it once and reports the second as a duplicate |
| Queries.Enumerate | src/hockeypuck/pghkp/storage.go:166-175 | the rows come out duplicate-free and from the selection, min(limit, count) of them, and all of them when the limit allows |
| Queries.MD5SelectsOneRow | src/hockeypuck/pghkp/storage.go:160 | on valid tables a stored md5 selects exactly its own row |
| Queries.MD5AfterInsert | src/hockeypuck/pghkp/storage.go:160 | after a fresh insert the key's md5 selects exactly the key |
| Queries.KeyMissesSpec | src/hockeypuck/pghkp/storage.go:197-208 | the IDs passed on to the subkey lookup are the lowered IDs no stored key starts with, and none exactly when every ID matched |
| Queries.ResolutionNamesKeys | src/hockeypuck/pghkp/storage.go:187-242 | on valid tables every Resolve answer is "" or a stored rfingerprint |
| Queries.KeywordAnswerSound | src/hockeypuck/pghkp/storage.go:252-275 | every returned rfingerprint is stored and matches some search term |
| Queries.KeywordAnswerComplete | src/hockeypuck/pghkp/storage.go:254 | when at most 100 rows match a term, all of them are returned |
| Queries.NewestFirstComplete | src/hockeypuck/pghkp/storage.go:282 | when at most 100 rows are newer than since, ModifiedSince returns all of them |
| Queries.UpdatedRowIsModified | src/hockeypuck/pghkp/storage.go:593 | an updated stored key is among the rows modified after any earlier time |
| Queries.InsertedRowIsModified | src/hockeypuck/pghkp/storage.go:454 | a freshly inserted key is among the rows modified after any earlier time |
| Queries.ReadDocsOk | src/hockeypuck/pghkp/storage.go:321-340 | the row loop succeeds exactly when every row reads, and then holds one key per row in row order |
| Queries.ReadDocsErr | src/hockeypuck/pghkp/storage.go:321-340 | a failing row loop reports the error of the first row that does not read |
| Queries.ReadDocsSpec | src/hockeypuck/pghkp/storage.go:321-340 | Ok exactly when every row reads; then one entry per row, in order; otherwise the error of the first failing row |
| Queries.FetchAfterInsert | src/hockeypuck/pghkp/storage.go:302-347 | after a fresh insert, fetching its rfingerprint selects exactly that row and returns the key |
| Queries.AsWrittenScanFails | src/hockeypuck/pghkp/storage.go:358-368 | scanning (ctime, mtime, doc) into (bufStr, CTime, MTime) fails on column 2 for every row |
| Queries.AsWrittenAlwaysFails | src/hockeypuck/pghkp/storage.go:365-371 | with the as-written Scan, any non-empty selection fails with that error |
| Queries.ColumnOrderScans | src/hockeypuck/pghkp/storage.go:358-368 | with destinations in column order, the scan fills doc, ctime and mtime from the row |
| Queries.KeyringsAgreeWithDocs | src/hockeypuck/pghkp/storage.go:365-385 | corrected FetchKeyrings fails exactly when FetchKeys' reading does, with the same error; otherwise each keyring is that key with the row's times |
| Queries.Renotifications | src/hockeypuck/pghkp/storage.go:731-742 | as many KeyAdded changes as the rows enumerated |
| Queries.RenotifyCovers | src/hockeypuck/pghkp/storage.go:723-745 | RenotifyAll sends one KeyAdded per stored key, and one with each stored md5 |
| Storage.Deliveries | src/hockeypuck/pghkp/storage.go:716-719 | one delivery per listener, in subscription order |
| Storage.Store.constructor | src/hockeypuck/pghkp/storage.go:104-118 | empty tables satisfying the constraints, no listeners |
| Storage.Store.Subscribe | src/hockeypuck/pghkp/storage.go:706-710 | appends the listener |
| Storage.Store.Notify | src/hockeypuck/pghkp/storage.go:712-721 | calls every listener once in order, ignores their errors, returns nil |
| Storage.Store.Rollback | src/hockeypuck/pghkp/storage.go:417-419 | restores the tables as they were when the transaction began |
| Storage.Store.InsertSubkeyRows | src/hockeypuck/pghkp/storage.go:599-606 | the subkey loop fails on the foreign key exactly when the key has no row and a subkey is new; otherwise it gives InsertSubkeys and counts the new rows |
| Storage.Store.InsertKeyTx | src/hockeypuck/pghkp/storage.go:427-481 | the new state and duplicate flag are those of Tables.InsertKeyTx; on error the tables are as before; md5 uniqueness and subkey references are kept |
| Storage.Store.InsertKey | src/hockeypuck/pghkp/storage.go:412-425 | the transaction commits Tables.InsertKeyTx or rolls back to the old state; the table constraints are kept |
| Storage.Store.NotifyAdded | src/hockeypuck/pghkp/storage.go:499-502 | extends the notification log and deliveries by one change |
| Storage.Store.InsertTurn | src/hockeypuck/pghkp/storage.go:490-503 | one loop turn advances the state by one step of the batch, notifying exactly when the key was added; the table constraints are kept |
| Storage.Store.InsertOutcome | src/hockeypuck/pghkp/storage.go:486-509 | the returned error is nil exactly when there are no duplicates and no errors, counting the bail-out error |
| Storage.Store.InsertRun | src/hockeypuck/pghkp/storage.go:485-504 | the loop stops at the end or after more than 100 errors, in the state of the batch prefix; the table constraints are kept |
| Storage.Store.Insert | src/hockeypuck/pghkp/storage.go:483-510 | state, count, notifications and InsertError are exactly those of Tables.InsertBatch, and the constraints hold |
| Storage.Store.DeleteTx | src/hockeypuck/pghkp/storage.go:554-569 | result and new state are those of Tables.DeleteTx; the table constraints are kept |
| Storage.Store.Delete | src/hockeypuck/pghkp/storage.go:535-552 | commits Tables.DeleteTx or leaves the tables unchanged; the table constraints are kept |
| Storage.Store.Replace | src/hockeypuck/pghkp/storage.go:512-533 | commits Tables.ReplaceTx or rolls back both steps; the table constraints are kept |
| Storage.Store.Update | src/hockeypuck/pghkp/storage.go:571-615 | commits Tables.UpdateTx and sends KeyReplaced, or rolls back and sends nothing; the table constraints are kept |
| Storage.Store.MatchMD5 | src/hockeypuck/pghkp/storage.go:149-181 | invalid hex gives its error; the empty list gives ErrEmptyInList; otherwise exactly the rows with one of the lowered md5s, once each |
| Storage.Store.ResolveSubKeys | src/hockeypuck/pghkp/storage.go:221-242 | one answer per ID: the key of some subkey with that lowered prefix, or "" |
| Storage.Store.Resolve | src/hockeypuck/pghkp/storage.go:187-219 | an answer per ID (a stored key with that prefix, or ""), followed by the subkey answers for the misses |
| Storage.Store.MatchKeyword | src/hockeypuck/pghkp/storage.go:244-278 | per term, up to 100 distinct matching rows (all of them when there are no more), concatenated in term order; every returned row is stored and matches some term |
| Storage.Store.ModifiedSince | src/hockeypuck/pghkp/storage.go:280-300 | up to 100 distinct rows newer than since, newest first, none left out newer than one returned |
| Storage.Store.ReadDocs | src/hockeypuck/pghkp/storage.go:321-340 | the row loop computes Queries.ReadDocs |
| Storage.Store.ReadKeyrings | src/hockeypuck/pghkp/storage.go:365-385 | the row loop computes Queries.ReadKeyrings |
| Storage.Store.FetchKeys | src/hockeypuck/pghkp/storage.go:302-347 | the empty list gives an empty result; invalid hex gives its error; otherwise the selected rows are read in some enumeration order, one key per selected row on success |
| Storage.Store.ScanKeyrings | src/hockeypuck/pghkp/storage.go:349-392 | hex and empty-list errors, else the selected rows scanned with the given destinations |
| Storage.Store.FetchKeyringsAsWritten | src/hockeypuck/pghkp/storage.go:349-392 | as written: no matching row gives an empty result, any matching row gives the scan error on column 2 |
| Storage.Store.FetchKeyrings | src/hockeypuck/pghkp/storage.go:349-392 | corrected: the selected rows scanned in column order and read as keyrings, one per selected row on success, and none when no row is selected |
| Storage.Store.RenotifyAll | src/hockeypuck/pghkp/storage.go:723-745 | sends KeyAdded with each stored md5 once, in some enumeration order, and returns nil |

## Left out

- The SQL driver is not modelled: connection, Prepare, Query and Exec failures, `rows.Err`, `RowsAffected` failures and `Close`. Only the errors the schema itself raises are modelled: the md5 UNIQUE constraint, the foreign key, a missing row, and the parse error of an empty `IN ()` list.
- Dial, New's `createTables` and `createIndexes`, and the constraint-dropping statements are not modelled. They are DDL run once at start-up; the constructor starts from empty tables.
- The mutex around the listeners and all concurrent use are not modelled. Calls are sequential.
- `log.Debugf` and `log.Warningf` are logging only and are not modelled.
- Time is modelled as a parameter `now` per call. One batch insert uses one `now` for every key; the UTC conversion is not modelled.
- JSON marshalling, `jsonhkp.NewPrimaryKey` and `pk.Bytes()` are not modelled. A stored document is a `Doc` value with its fingerprint and packet text.
- `openpgp.Sort` is not modelled: a key value is taken as already sorted.
- The OpenPGP packet parser behind `readOneKey` is the parameter `read`. Its own behaviour is not part of this model.
- `openpgp.Reverse` is modelled as string reversal.
- `key.KeyID()` is the stored field `keyID`.
- PostgreSQL's full-text match (`@@ plainto_tsquery`) is the parameter `matches`. Stemming and tsquery parsing are not modelled.
- In `LIKE $1 || '%'` every ID is read as a literal prefix. The wildcards `%` and `_` inside an ID are not modelled.
- QueryRow returns the first of several prefix matches in an unspecified order. Resolve's answer is any matching key.
- Unicode is ASCII-only: `strings.ToLower` and `unicode.IsLetter` or `IsNumber` are modelled on ASCII. The UTF-8 byte length is exact for every code point.
- The map in `keywordsFromKey` is iterated in random order. The model keeps insertion order and proves that the tsvector verdict does not depend on the order.
- json.Unmarshal failures in FetchKeys and FetchKeyrings are not modelled. The one decoding failure modelled is a document column that did not reach the string buffer (ErrJSON).
- Which rows `LIMIT 100` keeps in MatchKeyword is left to PostgreSQL, so the model allows any 100 matching rows. As in the code, a row found by two terms appears twice.
- Rows of equal mtime may come in any order in ModifiedSince, as `ORDER BY mtime DESC` allows.

## Findings

| source | as written | input that shows it | evidently intended | confidence | as-written member | corrected member |
|---|---|---|---|---|---|---|
| src/hockeypuck/pghkp/storage.go:368 | `rows.Scan(&bufStr, &kr.CTime, &kr.MTime)` reads the columns of `SELECT ctime, mtime, doc`. Column 2, the jsonb doc, goes into a `*time.Time`, which `database/sql` cannot convert. | FetchKeyrings called with the valid rfingerprint of any stored key | `rows.Scan(&kr.CTime, &kr.MTime, &bufStr)`, destinations in column order | not executed | Storage.Store.FetchKeyringsAsWritten, Queries.AsWrittenAlwaysFails | Storage.Store.FetchKeyrings, Queries.KeyringsAgreeWithDocs |
