/** What `saveContracts` guarantees, stated against reference definitions
    that do not simulate the loop: `Admissible` says in closed form when a
    batch goes through, and `FirstError` names the exception a batch raises
    by looking at each contract against the original store and the earlier
    contracts of the same batch. */
module ImportProperties {
  import opened Wrappers
  import opened Hex
  import opened Checksum
  import opened Archive

  /** A batch commits exactly when no contract's natural key is already
      stored, no two contracts of the batch share a natural key, every
      payload passes `isPdf` and decodes, and SHA-256 is available (needed
      only if there is something to hash). */
  ghost predicate Admissible(sv: Services, store: Store, contracts: seq<ArchiveDTO>) {
    && (forall i | 0 <= i < |contracts| :: !KeyTaken(store, KeyOf(contracts[i])))
    && (forall i, j | 0 <= i < j < |contracts| :: KeyOf(contracts[i]) != KeyOf(contracts[j]))
    && (forall i | 0 <= i < |contracts| :: sv.isPdf(contracts[i].contratBase64))
    && (forall i | 0 <= i < |contracts| :: sv.decodeBase64(contracts[i].contratBase64).Some?)
    && (contracts != [] ==> sv.provider.hasSha256)
  }

  predicate KeyInBatch(earlier: seq<ArchiveDTO>, key: NaturalKey) {
    exists i | 0 <= i < |earlier| :: KeyOf(earlier[i]) == key
  }

  /** The exception contract `c` raises when the contracts `earlier` in the
      batch all went through: the checks in the order Backend.java makes
      them. */
  function ItemError(sv: Services, store: Store, earlier: seq<ArchiveDTO>, c: ArchiveDTO): Option<ImportError>
  {
    if KeyTaken(store, KeyOf(c)) || KeyInBatch(earlier, KeyOf(c)) then Some(ContractExists(c.numPolice))
    else if !sv.isPdf(c.contratBase64) then Some(NotPdf)
    else if sv.decodeBase64(c.contratBase64).None? then Some(InvalidBase64)
    else if !sv.provider.hasSha256 then Some(ChecksumFailure(NoSuchAlgorithm))
    else None
  }

  /** The exception of the first contract of `rest` that raises one. */
  function FirstError(sv: Services, store: Store, earlier: seq<ArchiveDTO>, rest: seq<ArchiveDTO>): Option<ImportError>
    decreases |rest|
  {
    if rest == [] then None
    else
      var e := ItemError(sv, store, earlier, rest[0]);
      if e.Some? then e else FirstError(sv, store, earlier + [rest[0]], rest[1..])
  }

  function ErrorOf<R>(r: Result<R, ImportError>): Option<ImportError> {
    if r.Failure? then Some(r.error) else None
  }

  lemma KeyTakenAfterSave(staged: Store, id: Id, e: ArchivageEntity, key: NaturalKey)
    ensures KeyTaken(staged[id := e], key) <==> KeyTaken(staged - {id}, key) || EntityKey(e) == key
  {
    var next := staged[id := e];
    if KeyTaken(next, key) && EntityKey(e) != key {
      var k :| k in next && EntityKey(next[k]) == key;
      assert k in staged - {id};
    }
    if KeyTaken(staged - {id}, key) {
      var k :| k in staged - {id} && EntityKey((staged - {id})[k]) == key;
      assert k in next && EntityKey(next[k]) == key;
    }
    if EntityKey(e) == key {
      assert id in next && EntityKey(next[id]) == key;
    }
  }

  lemma KeyInBatchAppend(earlier: seq<ArchiveDTO>, c: ArchiveDTO, key: NaturalKey)
    ensures KeyInBatch(earlier + [c], key) <==> KeyInBatch(earlier, key) || KeyOf(c) == key
  {
    var all := earlier + [c];
    if KeyInBatch(earlier, key) {
      var i :| 0 <= i < |earlier| && KeyOf(earlier[i]) == key;
      assert all[i] == earlier[i];
    }
    if KeyOf(c) == key {
      assert all[|earlier|] == c;
    }
    if KeyInBatch(all, key) && KeyOf(c) != key {
      var i :| 0 <= i < |all| && KeyOf(all[i]) == key;
      assert i < |earlier| && all[i] == earlier[i];
    }
  }

  /** The staged store of one successful iteration holds exactly the natural
      keys it held before plus the saved contract's. */
  lemma SaveOneKeys(sv: Services, staged: Store, c: ArchiveDTO, key: NaturalKey)
    requires SaveOne(sv, staged, c).Success?
    ensures KeyTaken(SaveOne(sv, staged, c).value.0, key) <==> KeyTaken(staged, key) || KeyOf(c) == key
  {
    var (next, id) := SaveOne(sv, staged, c).value;
    KeyTakenAfterSave(staged, id, next[id], key);
    assert staged - {id} == staged;
  }

  /** A single contract passes all four checks against the staged store. */
  ghost predicate ItemPasses(sv: Services, staged: Store, c: ArchiveDTO) {
    && !KeyTaken(staged, KeyOf(c))
    && sv.isPdf(c.contratBase64)
    && sv.decodeBase64(c.contratBase64).Some?
    && sv.provider.hasSha256
  }

  lemma SaveOneSucceedsIff(sv: Services, staged: Store, c: ArchiveDTO)
    ensures SaveOne(sv, staged, c).Success? <==> ItemPasses(sv, staged, c)
  {
  }

  lemma AdmissibleHead(sv: Services, staged: Store, contracts: seq<ArchiveDTO>)
    requires contracts != [] && Admissible(sv, staged, contracts)
    ensures ItemPasses(sv, staged, contracts[0])
  {
  }

  lemma AdmissibleTail(sv: Services, staged: Store, contracts: seq<ArchiveDTO>, next: Store)
    requires contracts != [] && Admissible(sv, staged, contracts)
    requires forall key :: KeyTaken(next, key) <==> KeyTaken(staged, key) || KeyOf(contracts[0]) == key
    ensures Admissible(sv, next, contracts[1..])
  {
    var tail := contracts[1..];
    forall i | 0 <= i < |tail|
      ensures !KeyTaken(next, KeyOf(tail[i]))
    {
      assert tail[i] == contracts[i + 1];
      assert KeyOf(contracts[0]) != KeyOf(contracts[i + 1]);
    }
    forall i, j | 0 <= i < j < |tail|
      ensures KeyOf(tail[i]) != KeyOf(tail[j])
    {
      assert tail[i] == contracts[i + 1] && tail[j] == contracts[j + 1];
    }
    forall i | 0 <= i < |tail|
      ensures sv.isPdf(tail[i].contratBase64) && sv.decodeBase64(tail[i].contratBase64).Some?
    {
      assert tail[i] == contracts[i + 1];
    }
  }

  lemma AdmissibleCons(sv: Services, staged: Store, contracts: seq<ArchiveDTO>, next: Store)
    requires contracts != [] && ItemPasses(sv, staged, contracts[0])
    requires Admissible(sv, next, contracts[1..])
    requires forall key :: KeyTaken(next, key) <==> KeyTaken(staged, key) || KeyOf(contracts[0]) == key
    ensures Admissible(sv, staged, contracts)
  {
    var tail := contracts[1..];
    forall i | 0 <= i < |contracts|
      ensures !KeyTaken(staged, KeyOf(contracts[i]))
      ensures sv.isPdf(contracts[i].contratBase64) && sv.decodeBase64(contracts[i].contratBase64).Some?
    {
      if i > 0 {
        assert contracts[i] == tail[i - 1];
      }
    }
    forall i, j | 0 <= i < j < |contracts|
      ensures KeyOf(contracts[i]) != KeyOf(contracts[j])
    {
      assert contracts[j] == tail[j - 1];
      if i > 0 {
        assert contracts[i] == tail[i - 1];
      }
    }
  }

  /** Staging succeeds on exactly the admissible batches. */
  lemma {:induction false} StageSucceedsIff(sv: Services, staged: Store, contracts: seq<ArchiveDTO>)
    ensures Stage(sv, staged, contracts).Success? <==> Admissible(sv, staged, contracts)
    decreases |contracts|
  {
    if contracts != [] {
      var c := contracts[0];
      var one := SaveOne(sv, staged, c);
      SaveOneSucceedsIff(sv, staged, c);
      if one.Success? {
        var next := one.value.0;
        StageSucceedsIff(sv, next, contracts[1..]);
        forall key
          ensures KeyTaken(next, key) <==> KeyTaken(staged, key) || KeyOf(c) == key
        {
          SaveOneKeys(sv, staged, c, key);
        }
        if Admissible(sv, staged, contracts) {
          AdmissibleTail(sv, staged, contracts, next);
        }
        if Admissible(sv, next, contracts[1..]) {
          AdmissibleCons(sv, staged, contracts, next);
        }
      } else if Admissible(sv, staged, contracts) {
        AdmissibleHead(sv, staged, contracts);
        assert false;
      }
    }
  }

  /** The batch commits exactly when it is admissible. */
  lemma CommitsIffAdmissible(sv: Services, store: Store, contracts: seq<ArchiveDTO>)
    ensures SaveContracts(sv, store, contracts).error.None? <==> Admissible(sv, store, contracts)
  {
    StageSucceedsIff(sv, store, contracts);
  }

  /** Staging from a store that holds the original keys plus those of the
      earlier contracts raises the first error `FirstError` names. */
  lemma {:induction false} StageReportsFirstError(
    sv: Services, store: Store, staged: Store, earlier: seq<ArchiveDTO>, rest: seq<ArchiveDTO>)
    requires forall key :: KeyTaken(staged, key) <==> KeyTaken(store, key) || KeyInBatch(earlier, key)
    ensures ErrorOf(Stage(sv, staged, rest)) == FirstError(sv, store, earlier, rest)
    decreases |rest|
  {
    if rest != [] {
      var c := rest[0];
      var one := SaveOne(sv, staged, c);
      assert KeyTaken(staged, KeyOf(c)) <==> KeyTaken(store, KeyOf(c)) || KeyInBatch(earlier, KeyOf(c));
      if one.Success? {
        var next := one.value.0;
        forall key
          ensures KeyTaken(next, key) <==> KeyTaken(store, key) || KeyInBatch(earlier + [c], key)
        {
          SaveOneKeys(sv, staged, c, key);
          KeyInBatchAppend(earlier, c, key);
        }
        StageReportsFirstError(sv, store, next, earlier + [c], rest[1..]);
      }
    }
  }

  /** `saveContracts` raises the exception of the first contract that fails
      its checks, judged against the original store and the contracts before
      it in the batch. */
  lemma SaveContractsReportsFirstError(sv: Services, store: Store, contracts: seq<ArchiveDTO>)
    ensures SaveContracts(sv, store, contracts).error == FirstError(sv, store, [], contracts)
  {
    StageReportsFirstError(sv, store, store, [], contracts);
  }

  /** Contracts that pass their checks do not change which error is reported. */
  lemma {:induction false} FirstErrorSkipsPassing(
    sv: Services, store: Store, earlier: seq<ArchiveDTO>, rest: seq<ArchiveDTO>, k: nat)
    requires k <= |rest|
    requires forall i | 0 <= i < k :: ItemError(sv, store, earlier + rest[..i], rest[i]) == None
    ensures FirstError(sv, store, earlier, rest) == FirstError(sv, store, earlier + rest[..k], rest[k..])
    decreases k
  {
    if k == 0 {
      assert earlier + rest[..0] == earlier;
      assert rest[0..] == rest;
    } else {
      FirstErrorSkipsPassing(sv, store, earlier, rest, k - 1);
      var before := earlier + rest[..k - 1];
      assert ItemError(sv, store, before, rest[k - 1]) == None;
      assert rest[k - 1..][0] == rest[k - 1];
      assert rest[k - 1..][1..] == rest[k..];
      assert before + [rest[k - 1]] == earlier + rest[..k];
    }
  }

  /** The contracts before `k` of an admissible prefix all pass their checks. */
  lemma AdmissiblePrefixPasses(sv: Services, store: Store, contracts: seq<ArchiveDTO>, k: nat)
    requires k <= |contracts| && Admissible(sv, store, contracts[..k])
    ensures forall i | 0 <= i < k :: ItemError(sv, store, contracts[..i], contracts[i]) == None
  {
    forall i | 0 <= i < k
      ensures ItemError(sv, store, contracts[..i], contracts[i]) == None
    {
      assert contracts[i] == contracts[..k][i];
      forall j | 0 <= j < i
        ensures KeyOf(contracts[..i][j]) != KeyOf(contracts[i])
      {
        assert contracts[..i][j] == contracts[..k][j];
      }
    }
  }

  /** Once the contracts before `k` went through, a contract `k` that fails
      its checks decides the exception and nothing is saved. */
  lemma ReportedAt(sv: Services, store: Store, contracts: seq<ArchiveDTO>, k: nat)
    requires k < |contracts| && Admissible(sv, store, contracts[..k])
    requires ItemError(sv, store, contracts[..k], contracts[k]).Some?
    ensures SaveContracts(sv, store, contracts) == ImportOutcome(store, ItemError(sv, store, contracts[..k], contracts[k]))
  {
    SaveContractsReportsFirstError(sv, store, contracts);
    FirstErrorAt(sv, store, contracts, k);
  }

  lemma FirstErrorAt(sv: Services, store: Store, contracts: seq<ArchiveDTO>, k: nat)
    requires k < |contracts| && Admissible(sv, store, contracts[..k])
    requires ItemError(sv, store, contracts[..k], contracts[k]).Some?
    ensures FirstError(sv, store, [], contracts) == ItemError(sv, store, contracts[..k], contracts[k])
  {
    AdmissiblePrefixPasses(sv, store, contracts, k);
    forall i | 0 <= i < k
      ensures ItemError(sv, store, [] + contracts[..i], contracts[i]) == None
    {
      assert [] + contracts[..i] == contracts[..i];
    }
    FirstErrorSkipsPassing(sv, store, [], contracts, k);
    var earlier, rest := [] + contracts[..k], contracts[k..];
    assert earlier == contracts[..k];
    assert rest[0] == contracts[k];
    assert FirstError(sv, store, earlier, rest) == ItemError(sv, store, earlier, rest[0]);
  }

  /** Uniqueness is checked before the format: once the contracts before `k`
      went through, a contract `k` whose natural key is already stored, or
      was used earlier in the batch, fails as a duplicate whatever its
      payload. */
  lemma DuplicateReportedBeforeFormat(sv: Services, store: Store, contracts: seq<ArchiveDTO>, k: nat)
    requires k < |contracts| && Admissible(sv, store, contracts[..k])
    requires KeyTaken(store, KeyOf(contracts[k])) || KeyInBatch(contracts[..k], KeyOf(contracts[k]))
    ensures SaveContracts(sv, store, contracts) == ImportOutcome(store, Some(ContractExists(contracts[k].numPolice)))
  {
    ReportedAt(sv, store, contracts, k);
  }

  /** The format is checked before decoding: a contract with a new natural
      key whose payload fails `isPdf` is reported as such, whether or not it
      would decode. */
  lemma FormatReportedBeforeDecoding(sv: Services, store: Store, contracts: seq<ArchiveDTO>, k: nat)
    requires k < |contracts| && Admissible(sv, store, contracts[..k])
    requires !KeyTaken(store, KeyOf(contracts[k])) && !KeyInBatch(contracts[..k], KeyOf(contracts[k]))
    requires !sv.isPdf(contracts[k].contratBase64)
    ensures SaveContracts(sv, store, contracts) == ImportOutcome(store, Some(NotPdf))
  {
    ReportedAt(sv, store, contracts, k);
  }

  /** A contract whose natural key is already stored aborts the whole call. */
  lemma ExistingKeyAborts(sv: Services, store: Store, contracts: seq<ArchiveDTO>, i: nat)
    requires i < |contracts| && KeyTaken(store, KeyOf(contracts[i]))
    ensures SaveContracts(sv, store, contracts).error.Some?
    ensures SaveContracts(sv, store, contracts).store == store
  {
    CommitsIffAdmissible(sv, store, contracts);
  }

  /** A later contract repeating an earlier one's natural key aborts the
      call, earlier saves included: the earlier contract was saved before the
      later lookup. */
  lemma BatchDuplicateAborts(sv: Services, store: Store, contracts: seq<ArchiveDTO>, i: nat, j: nat)
    requires i < j < |contracts| && KeyOf(contracts[i]) == KeyOf(contracts[j])
    ensures SaveContracts(sv, store, contracts).error.Some?
    ensures SaveContracts(sv, store, contracts).store == store
  {
    CommitsIffAdmissible(sv, store, contracts);
  }

  /** A payload that is not a PDF, or is not valid Base64, aborts the call
      and rolls back the contracts saved before it. */
  lemma BadPayloadAborts(sv: Services, store: Store, contracts: seq<ArchiveDTO>, i: nat)
    requires i < |contracts|
    requires !sv.isPdf(contracts[i].contratBase64) || sv.decodeBase64(contracts[i].contratBase64).None?
    ensures SaveContracts(sv, store, contracts).error.Some?
    ensures SaveContracts(sv, store, contracts).store == store
  {
    CommitsIffAdmissible(sv, store, contracts);
  }

  /** Without SHA-256 no non-empty batch is saved. */
  lemma MissingDigestAborts(sv: Services, store: Store, contracts: seq<ArchiveDTO>)
    requires contracts != [] && !sv.provider.hasSha256
    ensures SaveContracts(sv, store, contracts).error.Some?
    ensures SaveContracts(sv, store, contracts).store == store
  {
    CommitsIffAdmissible(sv, store, contracts);
  }

  /** After a commit every contract has its own new record built from it,
      and every new record was built from some contract: the checksum comes
      from the decoded payload, never from the upload. */
  lemma CommittedRecordsMirrorContracts(sv: Services, store: Store, contracts: seq<ArchiveDTO>)
    requires SaveContracts(sv, store, contracts).error.None?
    ensures var after := SaveContracts(sv, store, contracts).store;
            && (forall i | 0 <= i < |contracts| ::
                  exists id :: id in after && id !in store && RecordOf(sv, after[id], contracts[i]))
            && (forall id | id in after && id !in store ::
                  exists i :: 0 <= i < |contracts| && RecordOf(sv, after[id], contracts[i]))
  {
    var s := Stage(sv, store, contracts).value;
    EveryContractSaved(sv, store, contracts, s);
    EveryNewRecordFromContract(sv, store, contracts, s);
  }

  lemma EveryContractSaved(sv: Services, store: Store, contracts: seq<ArchiveDTO>, s: Staged)
    requires StagedFrom(sv, store, contracts, s)
    ensures forall i | 0 <= i < |contracts| ::
              exists id :: id in s.store && id !in store && RecordOf(sv, s.store[id], contracts[i])
  {
    forall i | 0 <= i < |contracts|
      ensures exists id :: id in s.store && id !in store && RecordOf(sv, s.store[id], contracts[i])
    {
      ContractHasRecord(sv, store, contracts, s, i);
    }
  }

  lemma EveryNewRecordFromContract(sv: Services, store: Store, contracts: seq<ArchiveDTO>, s: Staged)
    requires StagedFrom(sv, store, contracts, s)
    ensures forall id | id in s.store && id !in store ::
              exists i :: 0 <= i < |contracts| && RecordOf(sv, s.store[id], contracts[i])
  {
    forall id | id in s.store && id !in store
      ensures exists i :: 0 <= i < |contracts| && RecordOf(sv, s.store[id], contracts[i])
    {
      var i := NewIdIndex(sv, store, contracts, s, id);
    }
  }

  lemma ContractHasRecord(sv: Services, store: Store, contracts: seq<ArchiveDTO>, s: Staged, i: nat)
    requires StagedFrom(sv, store, contracts, s) && i < |contracts|
    ensures exists id :: id in s.store && id !in store && RecordOf(sv, s.store[id], contracts[i])
  {
    var id := s.ids[i];
    assert id in s.store && id !in store && RecordOf(sv, s.store[id], contracts[i]);
  }

  /** The position in the batch of the contract a new record came from. */
  lemma NewIdIndex(sv: Services, store: Store, contracts: seq<ArchiveDTO>, s: Staged, id: Id) returns (i: nat)
    requires StagedFrom(sv, store, contracts, s)
    requires id in s.store && id !in store
    ensures i < |contracts| && s.ids[i] == id
    ensures RecordOf(sv, s.store[id], contracts[i])
  {
    assert id in s.ids;
    i :| 0 <= i < |s.ids| && s.ids[i] == id;
  }

  /** Importing keeps the table's checksum invariant. */
  lemma ImportPreservesWellFormed(sv: Services, store: Store, contracts: seq<ArchiveDTO>)
    requires WellFormed(sv.provider, store)
    ensures WellFormed(sv.provider, SaveContracts(sv, store, contracts).store)
  {
    var o := SaveContracts(sv, store, contracts);
    if o.error.None? {
      var s := Stage(sv, store, contracts).value;
      forall id | id in o.store
        ensures && o.store[id].id == id
                && o.store[id].checksum == FormatHex(sv.provider.sha256(o.store[id].contrat))
                && |o.store[id].checksum| <= ChecksumLength
                && o.store[id].checksumAlgo == Algorithm
                && |o.store[id].checksumAlgo| <= AlgorithmColumnLength
      {
        if id !in store {
          var i :| 0 <= i < |s.ids| && s.ids[i] == id;
          assert RecordOf(sv, o.store[id], contracts[i]);
        }
      }
    }
  }

  /** Importing keeps natural keys unique. */
  lemma ImportPreservesUniqueKeys(sv: Services, store: Store, contracts: seq<ArchiveDTO>)
    requires KeysUnique(store)
    ensures KeysUnique(SaveContracts(sv, store, contracts).store)
  {
    var o := SaveContracts(sv, store, contracts);
    if o.error.None? {
      CommitsIffAdmissible(sv, store, contracts);
      var s := Stage(sv, store, contracts).value;
      forall a, b | a in o.store && b in o.store && a != b
        ensures EntityKey(o.store[a]) != EntityKey(o.store[b])
      {
        if a !in store {
          var i :| 0 <= i < |s.ids| && s.ids[i] == a;
          assert RecordOf(sv, o.store[a], contracts[i]);
          if b !in store {
            var j :| 0 <= j < |s.ids| && s.ids[j] == b;
            assert RecordOf(sv, o.store[b], contracts[j]);
            assert i != j;
          } else {
            assert !KeyTaken(store, KeyOf(contracts[i]));
          }
        } else if b !in store {
          var j :| 0 <= j < |s.ids| && s.ids[j] == b;
          assert RecordOf(sv, o.store[b], contracts[j]);
          assert !KeyTaken(store, KeyOf(contracts[j]));
        }
      }
    }
  }

  /** Importing the same contract a second time is rejected as a duplicate
      and changes nothing. */
  lemma ReimportRejected(sv: Services, store: Store, c: ArchiveDTO)
    requires SaveContracts(sv, store, [c]).error.None?
    ensures var first := SaveContracts(sv, store, [c]).store;
            SaveContracts(sv, first, [c]) == ImportOutcome(first, Some(ContractExists(c.numPolice)))
  {
    var s := Stage(sv, store, [c]).value;
    var id := s.ids[0];
    assert EntityKey(s.store[id]) == KeyOf(c);
    assert KeyTaken(s.store, KeyOf(c));
  }
}
