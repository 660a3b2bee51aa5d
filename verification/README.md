# Checksum-verified contract archive: a Dafny model

This project models the integrity core of a Spring Boot service that archives
insurance contracts (PDF files) in an Oracle table:

- the SHA-256 checksum of a file as 64 lowercase hex characters, computed
  from an in-memory byte array or by reading an input stream through an
  8192-byte buffer;
- the transactional batch import `saveContracts`, which for each uploaded
  contract checks that its natural key (numPolice, nom, prenom) is new, that
  its Base64 payload is a PDF, decodes it, computes the checksum of the
  decoded bytes and saves a new record; any failure rolls the whole batch
  back;
- integrity verification (recompute and compare with the stored checksum)
  and the duplicate lookup by checksum.

Modules:

- `Wrappers` (wrappers.dfy): `Option`, `Result`, `Outcome`.
- `Hex` (hex.dfy): bytes, `HexFormat.of().formatHex` as `FormatHex`, and its
  inverse `ParseHex`, with the round trips in both directions.
- `Checksum` (checksum.dfy): the security provider (SHA-256 as an arbitrary
  function from bytes to 32-byte digests, plus whether it is available),
  `MessageDigest` as the bytes absorbed so far, the byte-array checksum,
  `InputStream.read`, and the streaming checksum loop.
- `Archive` (archive.dfy): the upload (`ArchiveDTO`), the record
  (`ArchivageEntity`), the store as a map from id to record, the import loop
  `Stage` and the transaction `SaveContracts`, and the table invariants.
- `ImportProperties` (import_properties.dfy): closed-form reference
  definitions of when a batch commits (`Admissible`) and which exception it
  raises (`FirstError`), and the theorems connecting them to the loop.
- `Integrity` (integrity.dfy): the checksum comparison, record verification
  and the lookup by checksum.

Collaborators whose code is not part of the model are parameters: the
`isPdf` check, the Base64 decoder and SHA-256 are function values in
`Archive.Services` and `Checksum.Provider`; how many bytes each `read`
delivers is a function value in `Checksum.InputStream`.

Choices the model makes:

- The PDF check is applied to the Base64 text before decoding, as
  Backend.java:53 does; `isPdf` is a parameter.
- A checksum mismatch raises `IntegrityException` in the code; the model
  returns it as a failure value (`Outcome.Fail`), which carries the same
  information.
- The duplicate error carries the policy number only, as the exception
  message at Backend.java:49 does.

## Model

| member | source | states |
|---|---|---|
| Hex.ParseFormatHex | Backend.java:32 | hex formatting loses nothing: parsing the text `formatHex` produces gives back exactly the digest bytes |
| Hex.FormatParseHex | Vu_globale.java:76 | every string of lowercase hex digit pairs is the formatting of the bytes it parses to, so a stored 64-character checksum names exactly one digest |
| Hex.FormatHexInjective | Vu_globale.java:88-91 | two digests have equal hex text if and only if they are equal, so comparing checksum strings compares digests |
| Hex.ParseHexIff | Backend.java:32 | a string parses to given bytes exactly when it is their lowercase hex formatting |
| Hex.FormatHex | Backend.java:32 | the hex text has exactly two characters per byte, so a 32-byte digest fills the 64-character CHECKSUM column exactly |
| Checksum.GetInstance | Vu_globale.java:43 | obtaining the SHA-256 digest succeeds exactly when the provider offers it, with a digest that has absorbed nothing; otherwise it fails with `NoSuchAlgorithmException` |
| Checksum.Update | Vu_globale.java:48 | `update` keeps everything absorbed before, in order, and appends exactly the `len` bytes of the buffer starting at `offset` |
| Checksum.UpdateConcat | Vu_globale.java:47-49 | two consecutive `update` calls over adjacent pieces of a buffer absorb the same bytes as one call over both, so how reads split the stream cannot change the digest |
| Checksum.CalculateChecksum | Backend.java:29-33 | the byte-array checksum fails exactly when SHA-256 is unavailable; otherwise it is 64 characters long (the CHECKSUM column width) and is the hex text of SHA-256 of exactly the given bytes |
| Checksum.Read | Vu_globale.java:47 | a read returns -1 exactly at end of stream; otherwise it delivers between 1 and 8192 of the next bytes into the front of the buffer, advances the stream by that many, and leaves the rest of the buffer as it was |
| Checksum.CalculateChecksumStream | Vu_globale.java:42-53 | the streaming checksum fails exactly when the byte-array checksum of the stream's remaining contents does, and otherwise equals it and is 64 characters long, whatever sizes the reads deliver |
| Checksum.UpdateFromStream | Vu_globale.java:44-49 | the read loop feeds `update` exactly the bytes each read delivered, never stale buffer contents, so at end of stream the digest has absorbed the whole remaining stream and nothing else |
| Archive.FreshId | Backend.java:70 | a new record's id is not already in use |
| ImportProperties.SaveOneKeys | Backend.java:45-48 | after one contract is saved, the finder matches exactly the natural keys it matched before plus that contract's key, which is why a key repeated later in the batch is found |
| Archive.ToEntity | Backend.java:69-87 | the record built from an upload carries the upload's natural key (numPolice, nom, prenom) |
| Archive.ToEntityRecordOf | Backend.java:58-87 | given the decoded payload, the mapping builds a record with every business field copied, the decoded bytes as its contract, the hex SHA-256 of those bytes as its checksum, and SHA-256 as its algorithm |
| Archive.SaveOne | Backend.java:44-90 | one contract fails as a duplicate exactly when its natural key is taken; as non-PDF exactly when the key is new and `isPdf` rejects it; as bad Base64 exactly when both earlier checks pass and decoding fails; on the checksum exactly when all three pass and SHA-256 is unavailable; it succeeds exactly when all four checks pass, and then exactly one record is added at a fresh id, built from the contract |
| Archive.Stage | Backend.java:43-91 | a loop that gets through the batch leaves the earlier records unchanged and adds one record per contract, in order, each at its own fresh id, with all business fields copied, the decoded payload, its checksum computed from those bytes and the algorithm SHA-256 |
| Archive.SaveContracts | Backend.java:41-92 | on any exception the store is exactly as before the call; on success every existing record is unchanged and the store grows by exactly the number of contracts |
| ImportProperties.StageSucceedsIff | Backend.java:43-91 | the loop gets through a batch exactly when no key is already stored, no two contracts of the batch share a key, every payload passes `isPdf` and decodes, and SHA-256 is available if there is anything to hash |
| ImportProperties.CommitsIffAdmissible | Backend.java:41-92 | `saveContracts` commits exactly on the admissible batches described above |
| ImportProperties.StageReportsFirstError | Backend.java:43-91 | the loop raises the exception of the first contract that fails its checks against the original keys plus those saved earlier in the call |
| ImportProperties.SaveContractsReportsFirstError | Backend.java:41-92 | the exception `saveContracts` raises is that of the first failing contract, judged against the original store and the earlier contracts of the batch |
| ImportProperties.FirstErrorSkipsPassing | Backend.java:43 | contracts that pass all their checks do not change which exception the batch reports |
| ImportProperties.AdmissiblePrefixPasses | Backend.java:43-66 | every contract of an admissible run passes its checks |
| ImportProperties.DuplicateReportedBeforeFormat | Backend.java:45-55 | after earlier contracts went through, a contract whose key is stored or used earlier in the batch is reported as a duplicate whatever its payload, and nothing is saved |
| ImportProperties.FormatReportedBeforeDecoding | Backend.java:52-58 | after earlier contracts went through, a contract with a new key and a non-PDF payload is reported as non-PDF whether or not it decodes, and nothing is saved |
| ImportProperties.ReportedAt | Backend.java:41-92 | when every contract before position k passes and contract k fails, the call raises contract k's exception and leaves the store unchanged |
| ImportProperties.FirstErrorAt | Backend.java:43-66 | the first failing contract of the batch, after a run of passing ones, determines the exception reported |
| ImportProperties.ExistingKeyAborts | Backend.java:45-50 | a contract whose natural key is already stored makes the call fail with the store unchanged |
| ImportProperties.BatchDuplicateAborts | Backend.java:45-90 | a later contract repeating an earlier one's key makes the call fail, and the earlier contract's save is rolled back |
| ImportProperties.BadPayloadAborts | Backend.java:52-58 | a payload that fails `isPdf` or Base64 decoding makes the call fail with nothing saved, including contracts saved earlier in the call |
| ImportProperties.MissingDigestAborts | Backend.java:60-66 | without SHA-256 no non-empty batch is saved |
| ImportProperties.CommittedRecordsMirrorContracts | Backend.java:58-87 | after a commit each contract has a new record built from it and each new record was built from a contract: fields copied, payload decoded, checksum the hex SHA-256 of the decoded bytes, never taken from the upload |
| ImportProperties.ImportPreservesWellFormed | Backend.java:8-12 | importing keeps every record's checksum equal to the hex SHA-256 of its bytes, within the 64-character column, with algorithm SHA-256 within the 10-character column |
| ImportProperties.ImportPreservesUniqueKeys | Backend.java:45-50 | importing keeps natural keys unique across the store |
| ImportProperties.ReimportRejected | Backend.java:45-50 | importing a contract that was just imported fails as a duplicate and changes nothing |
| Integrity.CheckIntegrity | Vu_globale.java:88-91 | the comparison raises `IntegrityException` exactly when the stored and recalculated checksums differ |
| Integrity.VerifyRecord | Vu_globale.java:84-91 | a record passes verification exactly when SHA-256 is available and its stored checksum is the hex text of the SHA-256 of its stored bytes; it fails on recalculation exactly when SHA-256 is unavailable |
| Integrity.FindByChecksum | Vu_globale.java:117 | the lookup returns exactly the stored records whose checksum equals the given one, unchanged |
| Integrity.WellFormedRecordsVerify | Backend.java:100 | every record of a well-formed store passes verification |
| Integrity.CorruptionDetected | Vu_globale.java:82-91 | a record whose bytes were replaced after import fails verification exactly when the new bytes have a different SHA-256 |
| Integrity.DuplicateLookupMatchesDigest | Vu_globale.java:114-117 | in a well-formed store, looking up the checksum of some content finds exactly the records whose bytes have the same SHA-256 |
| Integrity.ImportedRecordsVerify | Backend.java:100-101 | every record created by a committed import passes verification |

## Left out

- The one-time checksum migration runner ("Se lance une seule fois.java") is not part of this model.
- SHA-256 itself, the `isPdf` body and the Base64 decoder: their code is not in the repository, so they are parameters.
- `UUID.randomUUID()`: modelled by `FreshId`, one deterministic id not in the store; the properties hold for any fresh id.
- Field types of the upload and the record other than the payload and checksum are not shown in Backend.java; they are modelled as strings and integers and only copied.
- Null fields (a null payload or key) and the resulting `NullPointerException` are not modelled.
- `new SerialBlob(bytes)` is declared to throw `SQLException`, a checked exception, which Spring's default rollback rule would not roll back on; it cannot fail for the non-null array the decoder returns, so it is modelled as total.
- If the store already holds two records with one natural key, Spring's finder raises a different runtime exception; the model reports a duplicate, and both roll back.
- JPA flushing: the model assumes, as JPA's default AUTO flush mode provides, that a save is visible to the next lookup in the same transaction.
- Concurrent imports, the database's own uniqueness constraint and transaction isolation.
- The multipart upload wrapper, the SQL column definitions (only the widths 64 and 10 are kept), downloads, the React front end and logging.
- Java's `byte` is signed; the model uses the unsigned value, which is what `HexFormat` prints.
- Exception message texts.
- Checksum.CalculateChecksumStream: does not model the `IOException` that `read` may throw and the method would propagate (Vu_globale.java:42, 47); `Checksum.Read` never fails, so the streaming checksum fails only when SHA-256 is unavailable.
- Archive.KeyTaken: compares keys with plain string equality. Oracle stores and binds an empty string as NULL, which matches nothing, so in the code a contract with an empty key field is never found as a duplicate; the model reports it as one.
- Integrity.FindByChecksum: returns the matching rows as a map from id, without a row order.
