/** Integrity verification and duplicate detection (Vu_globale.java): the
    stored checksum is compared with one recalculated from the stored bytes,
    and duplicates are the records whose checksum equals a given one. */
module Integrity {
  import opened Wrappers
  import opened Hex
  import opened Checksum
  import opened Archive
  import opened ImportProperties

  /** The exception raised when a file's recalculated checksum differs from
      the stored one. */
  datatype IntegrityError = IntegrityException

  /** Why verifying a record can fail: the bytes no longer match their
      checksum, or the checksum could not be recalculated at all. */
  datatype VerifyError = Corrupted(mismatch: IntegrityError) | RecalculationFailed(failure: ChecksumError)

  /** The comparison: raises exactly when the two checksums differ. */
  function CheckIntegrity(storedChecksum: string, recalculatedChecksum: string): (o: Outcome<IntegrityError>)
    ensures o.Pass? <==> storedChecksum == recalculatedChecksum
  {
    if storedChecksum != recalculatedChecksum then Fail(IntegrityException) else Pass
  }

  /** Re-read the record's bytes, recalculate, compare. The record passes
      exactly when its stored checksum is the hex form of the SHA-256 of the
      bytes now stored. */
  function VerifyRecord(p: Provider, e: ArchivageEntity): (o: Outcome<VerifyError>)
    ensures o.Pass? <==> p.hasSha256 && ParseHex(e.checksum) == Some(p.sha256(e.contrat))
    ensures o.Fail? && o.error.RecalculationFailed? <==> !p.hasSha256
  {
    match CalculateChecksum(p, e.contrat)
    case Failure(err) => Fail(RecalculationFailed(err))
    case Success(recalculated) =>
      ParseHexIff(recalculated, p.sha256(e.contrat));
      ParseHexIff(e.checksum, p.sha256(e.contrat));
      match CheckIntegrity(e.checksum, recalculated)
      case Pass => Pass
      case Fail(err) => Fail(Corrupted(err))
  }

  /** The duplicate query: every row of the archive table whose CHECKSUM
      column equals the given checksum. */
  function FindByChecksum(store: Store, checksum: string): (rows: Store)
    ensures forall id :: id in rows <==> id in store && store[id].checksum == checksum
    ensures forall id | id in rows :: rows[id] == store[id]
  {
    map id | id in store && store[id].checksum == checksum :: store[id]
  }

  /** In a well-formed table, every record verifies whenever SHA-256 is
      available. */
  lemma WellFormedRecordsVerify(p: Provider, store: Store, id: Id)
    requires WellFormed(p, store) && id in store && p.hasSha256
    ensures VerifyRecord(p, store[id]) == Pass
  {
    ParseFormatHex(p.sha256(store[id].contrat));
  }

  /** A record whose stored bytes were replaced after import fails
      verification exactly when the new bytes have a different SHA-256. */
  lemma CorruptionDetected(p: Provider, e: ArchivageEntity, corrupted: seq<byte>)
    requires p.hasSha256 && e.checksum == FormatHex(p.sha256(e.contrat))
    ensures VerifyRecord(p, e.(contrat := corrupted)) == Fail(Corrupted(IntegrityException))
            <==> p.sha256(corrupted) != p.sha256(e.contrat)
  {
    ParseFormatHex(p.sha256(e.contrat));
  }

  /** In a well-formed table, looking up the checksum of some content finds
      exactly the records whose stored bytes have the same SHA-256 digest. */
  lemma DuplicateLookupMatchesDigest(p: Provider, store: Store, content: seq<byte>)
    requires WellFormed(p, store)
    ensures forall id :: id in FindByChecksum(store, FormatHex(p.sha256(content)))
                         <==> id in store && p.sha256(store[id].contrat) == p.sha256(content)
  {
    forall id | id in store
      ensures store[id].checksum == FormatHex(p.sha256(content))
              <==> p.sha256(store[id].contrat) == p.sha256(content)
    {
      FormatHexInjective(p.sha256(store[id].contrat), p.sha256(content));
    }
  }

  /** A record created by a committed import verifies. */
  lemma ImportedRecordsVerify(sv: Services, store: Store, contracts: seq<ArchiveDTO>, id: Id)
    requires SaveContracts(sv, store, contracts).error.None?
    requires id in SaveContracts(sv, store, contracts).store && id !in store
    ensures VerifyRecord(sv.provider, SaveContracts(sv, store, contracts).store[id]) == Pass
  {
    var s := Stage(sv, store, contracts).value;
    var i := NewIdIndex(sv, store, contracts, s, id);
    CommitsIffAdmissible(sv, store, contracts);
    ParseFormatHex(sv.provider.sha256(s.store[id].contrat));
  }
}
