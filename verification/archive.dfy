/** The batch contract import `saveContracts` (Backend.java) over a store of
    archived contracts, modelled as a map from id to record.

    The Java method is `@Transactional` and every failure in it is a
    `RuntimeException`, so a call either saves one record per contract or
    leaves the store as it was. `Stage` is the loop, saving into a working
    copy of the store so that later lookups see earlier saves; `SaveContracts`
    commits that copy or, on the first error, keeps the snapshot. */
module Archive {
  import opened Wrappers
  import opened Hex
  import opened Checksum

  /** The record id; a random UUID string in Backend.java. */
  type Id = nat

  /** An uploaded contract (`ArchiveDTO`). The field types are not part of
      Backend.java; the import only copies them. */
  datatype ArchiveDTO = ArchiveDTO(
    numPolice: string, nom: string, prenom: string, njf: string,
    annee: int, mois: int, produitId: string, archivePar: string,
    montantAssure: int, montantPrime: int, contratBase64: string,
    dateNaissance: string, dateEffet: string, flag: string)

  /** An archived contract (`ArchivageEntity`), with the PDF as raw bytes. */
  datatype ArchivageEntity = ArchivageEntity(
    id: Id, numPolice: string, nom: string, prenom: string, njf: string,
    annee: int, mois: int, produitId: string, archivePar: string,
    montantAssure: int, montantPrime: int, contrat: seq<byte>,
    dateNaissance: string, dateEffet: string, flag: string,
    checksum: string, checksumAlgo: string)

  type Store = map<Id, ArchivageEntity>

  /** The uniqueness key (numPolice, nom, prenom). */
  datatype NaturalKey = NaturalKey(numPolice: string, nom: string, prenom: string)

  function KeyOf(c: ArchiveDTO): NaturalKey {
    NaturalKey(c.numPolice, c.nom, c.prenom)
  }

  function EntityKey(e: ArchivageEntity): NaturalKey {
    NaturalKey(e.numPolice, e.nom, e.prenom)
  }

  /** The runtime exceptions `saveContracts` can raise. */
  datatype ImportError =
    | ContractExists(numPolice: string)   // a record with the same natural key exists
    | NotPdf                              // `isPdf` rejected the payload
    | InvalidBase64                       // the Base64 decoder rejected the payload
    | ChecksumFailure(cause: ChecksumError)

  /** The collaborators whose code is not part of this model: the `isPdf`
      check on the encoded payload, the Base64 decoder, and the security
      provider. */
  datatype Services = Services(
    isPdf: string -> bool,
    decodeBase64: string -> Option<seq<byte>>,
    provider: Provider)

  /** What a call leaves behind: the store, and the exception if one escaped. */
  datatype ImportOutcome = ImportOutcome(store: Store, error: Option<ImportError>)

  /** `findByNumPoliceAndNomAndPrenom(...).isPresent()`. */
  predicate KeyTaken(store: Store, key: NaturalKey) {
    exists id | id in store :: EntityKey(store[id]) == key
  }

  /** `UUID.randomUUID()`: some id not already in the store. */
  function FreshId(used: set<Id>): (id: Id)
    ensures id !in used
  {
    if used == {} then 0
    else
      MaxExists(used);
      var m :| m in used && forall k | k in used :: k <= m;
      m + 1
  }

  lemma {:induction false} MaxExists(s: set<nat>)
    requires s != {}
    ensures exists m :: m in s && forall k | k in s :: k <= m
  {
    var x :| x in s;
    var rest := s - {x};
    if rest == {} {
      forall k | k in s
        ensures k <= x
      {
        assert k !in rest;
      }
    } else {
      MaxExists(rest);
      var m :| m in rest && forall k | k in rest :: k <= m;
      var top := if m < x then x else m;
      forall k | k in s
        ensures k <= top
      {
        if k != x {
          assert k in rest;
        }
      }
      assert top in s;
    }
  }

  /** The record the mapping code builds for contract `c`. */
  function ToEntity(id: Id, c: ArchiveDTO, bytes: seq<byte>, checksum: string): (e: ArchivageEntity)
    ensures EntityKey(e) == KeyOf(c)
  {
    ArchivageEntity(
      id, c.numPolice, c.nom, c.prenom, c.njf, c.annee, c.mois, c.produitId,
      c.archivePar, c.montantAssure, c.montantPrime, bytes,
      c.dateNaissance, c.dateEffet, c.flag, checksum, Algorithm)
  }

  /** `e` is the record that importing `c` must produce: every business field
      copied from the upload, the payload decoded, the checksum computed from
      the decoded bytes alone, and the algorithm recorded as SHA-256. */
  ghost predicate RecordOf(sv: Services, e: ArchivageEntity, c: ArchiveDTO) {
    && e.numPolice == c.numPolice && e.nom == c.nom && e.prenom == c.prenom
    && e.njf == c.njf && e.annee == c.annee && e.mois == c.mois
    && e.produitId == c.produitId && e.archivePar == c.archivePar
    && e.montantAssure == c.montantAssure && e.montantPrime == c.montantPrime
    && e.dateNaissance == c.dateNaissance && e.dateEffet == c.dateEffet
    && e.flag == c.flag
    && sv.decodeBase64(c.contratBase64) == Some(e.contrat)
    && e.checksum == FormatHex(sv.provider.sha256(e.contrat))
    && e.checksumAlgo == Algorithm
  }

  /** The mapping builds exactly the record `RecordOf` describes once the
      payload is decoded and its checksum computed, and that record carries
      the upload's natural key. */
  lemma ToEntityRecordOf(sv: Services, id: Id, c: ArchiveDTO, bytes: seq<byte>)
    requires sv.decodeBase64(c.contratBase64) == Some(bytes)
    ensures RecordOf(sv, ToEntity(id, c, bytes, FormatHex(sv.provider.sha256(bytes))), c)
    ensures EntityKey(ToEntity(id, c, bytes, FormatHex(sv.provider.sha256(bytes)))) == KeyOf(c)
  {
  }

  /** One iteration of the loop: uniqueness, then the PDF check, then
      decoding, then the checksum, then the save. Each check fails exactly
      when the ones before it pass and its own condition fails. */
  function SaveOne(sv: Services, staged: Store, c: ArchiveDTO): (r: Result<(Store, Id), ImportError>)
    ensures r == Failure(ContractExists(c.numPolice)) <==> KeyTaken(staged, KeyOf(c))
    ensures r == Failure(NotPdf) <==> !KeyTaken(staged, KeyOf(c)) && !sv.isPdf(c.contratBase64)
    ensures r == Failure(InvalidBase64) <==>
              !KeyTaken(staged, KeyOf(c)) && sv.isPdf(c.contratBase64) && sv.decodeBase64(c.contratBase64).None?
    ensures r.Failure? && r.error.ChecksumFailure? <==>
              && !KeyTaken(staged, KeyOf(c)) && sv.isPdf(c.contratBase64)
              && sv.decodeBase64(c.contratBase64).Some? && !sv.provider.hasSha256
    ensures r.Success? <==>
              && !KeyTaken(staged, KeyOf(c)) && sv.isPdf(c.contratBase64)
              && sv.decodeBase64(c.contratBase64).Some? && sv.provider.hasSha256
    ensures r.Success? ==>
              && r.value.1 !in staged
              && r.value.1 in r.value.0
              && r.value.0 == staged[r.value.1 := r.value.0[r.value.1]]
              && r.value.0[r.value.1].id == r.value.1
              && RecordOf(sv, r.value.0[r.value.1], c)
  {
    if KeyTaken(staged, KeyOf(c)) then Failure(ContractExists(c.numPolice))
    else if !sv.isPdf(c.contratBase64) then Failure(NotPdf)
    else match sv.decodeBase64(c.contratBase64)
      case None => Failure(InvalidBase64)
      case Some(bytes) =>
        match CalculateChecksum(sv.provider, bytes)
        case Failure(e) => Failure(ChecksumFailure(e))
        case Success(checksum) =>
          ParseHexIff(checksum, sv.provider.sha256(bytes));
          var id := FreshId(staged.Keys);
          Success((staged[id := ToEntity(id, c, bytes, checksum)], id))
  }

  /** The working copy after a run of the loop, with the ids it assigned. */
  datatype Staged = Staged(store: Store, ids: seq<Id>)

  /** `s` is what staging `contracts` onto `staged` must produce: the
      original records unchanged plus one new record per contract, in order,
      each at its own fresh id and built from its contract. */
  ghost predicate StagedFrom(sv: Services, staged: Store, contracts: seq<ArchiveDTO>, s: Staged) {
    && |s.ids| == |contracts|
    && |s.store| == |staged| + |contracts|
    && (forall id :: id in s.store <==> id in staged || id in s.ids)
    && (forall id | id in staged :: s.store[id] == staged[id])
    && (forall i | 0 <= i < |contracts| ::
          && s.ids[i] !in staged
          && s.ids[i] in s.store
          && s.store[s.ids[i]].id == s.ids[i]
          && RecordOf(sv, s.store[s.ids[i]], contracts[i]))
  }

  /** The `for` loop of `saveContracts`, stopping at the first exception. */
  function Stage(sv: Services, staged: Store, contracts: seq<ArchiveDTO>): (r: Result<Staged, ImportError>)
    ensures r.Success? ==> StagedFrom(sv, staged, contracts, r.value)
    decreases |contracts|
  {
    if contracts == [] then Success(Staged(staged, []))
    else
      match SaveOne(sv, staged, contracts[0])
      case Failure(e) => Failure(e)
      case Success((next, id)) =>
        match Stage(sv, next, contracts[1..])
        case Failure(e) => Failure(e)
        case Success(rest) =>
          StagedStep(sv, staged, contracts, next, id, rest);
          Success(Staged(rest.store, [id] + rest.ids))
  }

  /** Prepending one saved contract to a staged run gives a staged run. */
  lemma StagedStep(sv: Services, staged: Store, contracts: seq<ArchiveDTO>, next: Store, id: Id, rest: Staged)
    requires contracts != []
    requires id !in staged && id in next && next == staged[id := next[id]]
    requires next[id].id == id && RecordOf(sv, next[id], contracts[0])
    requires StagedFrom(sv, next, contracts[1..], rest)
    ensures StagedFrom(sv, staged, contracts, Staged(rest.store, [id] + rest.ids))
  {
    assert |next| == |staged| + 1;
    StagedStepRecords(sv, staged, contracts, next, id, rest);
  }

  /** The per-contract half of `StagedStep`: each contract, the first one
      included, has its record at its own id. */
  lemma StagedStepRecords(sv: Services, staged: Store, contracts: seq<ArchiveDTO>, next: Store, id: Id, rest: Staged)
    requires contracts != []
    requires id !in staged && id in next && next == staged[id := next[id]]
    requires next[id].id == id && RecordOf(sv, next[id], contracts[0])
    requires StagedFrom(sv, next, contracts[1..], rest)
    ensures forall i | 0 <= i < |contracts| ::
              && ([id] + rest.ids)[i] !in staged
              && ([id] + rest.ids)[i] in rest.store
              && rest.store[([id] + rest.ids)[i]].id == ([id] + rest.ids)[i]
              && RecordOf(sv, rest.store[([id] + rest.ids)[i]], contracts[i])
  {
    var ids := [id] + rest.ids;
    forall i | 0 <= i < |contracts|
      ensures && ids[i] !in staged
              && ids[i] in rest.store
              && rest.store[ids[i]].id == ids[i]
              && RecordOf(sv, rest.store[ids[i]], contracts[i])
    {
      if i > 0 {
        assert ids[i] == rest.ids[i - 1];
        assert contracts[i] == contracts[1..][i - 1];
      }
    }
  }

  /** `saveContracts`: commits the staged store when every contract went
      through, and otherwise reports the exception and leaves the store
      exactly as it was. Existing records are never changed. */
  function SaveContracts(sv: Services, store: Store, contracts: seq<ArchiveDTO>): (o: ImportOutcome)
    ensures o.error.Some? ==> o.store == store
    ensures o.error.None? ==>
              && store.Keys <= o.store.Keys
              && (forall id | id in store :: o.store[id] == store[id])
              && |o.store| == |store| + |contracts|
  {
    match Stage(sv, store, contracts)
    case Failure(e) => ImportOutcome(store, Some(e))
    case Success(s) => ImportOutcome(s.store, None)
  }

  /** The invariant of the archive table: each record is stored under its
      own id, its checksum is the 64-character hex SHA-256 of its payload
      and fits the CHECKSUM column, and its algorithm is SHA-256, which fits
      the CHECKSUM_ALGO column. */
  ghost predicate WellFormed(p: Provider, store: Store) {
    forall id | id in store ::
      && store[id].id == id
      && store[id].checksum == FormatHex(p.sha256(store[id].contrat))
      && |store[id].checksum| <= ChecksumLength
      && store[id].checksumAlgo == Algorithm
      && |store[id].checksumAlgo| <= AlgorithmColumnLength
  }

  /** No two records share a natural key. */
  ghost predicate KeysUnique(store: Store) {
    forall a, b | a in store && b in store && a != b :: EntityKey(store[a]) != EntityKey(store[b])
  }
}
