/** What a seeding run guarantees: the tally, per-id isolation, when cleanup happens and
    which failures end the process with exit code 1. */
module RunProperties {
  import opened Common
  import opened Text
  import opened RandomSelection
  import opened PayloadMapper
  import opened Catalog
  import opened CreatureSource
  import opened StoreClient
  import opened Orchestrator

  /** The catalog loaded and the population bound was accepted, so the seeding loop runs. */
  predicate SetupSucceeds(env: Environment)
  {
    LoadMovesCatalog(env.catalogFile).Ok? && FetchTotalPokemonCount(env.countReply).Ok?
  }

  lemma {:induction false} SeedAllCountsSucceeding(ids: seq<int>, attempts: seq<Attempt>, catalog: seq<MoveEntry>)
    requires |ids| <= |attempts|
    requires forall k :: 0 <= k < |attempts| ==> ValidDraws(|catalog|, attempts[k].moveDraws)
    ensures CountInserted(SeedAll(ids, attempts, catalog)) == CountSucceeding(attempts[..|ids|])
  {
    if ids != [] {
      var last := |ids| - 1;
      SeedAllCountsSucceeding(ids[..last], attempts, catalog);
      var outcomes := SeedAll(ids, attempts, catalog);
      assert outcomes[..last] == SeedAll(ids[..last], attempts, catalog);
      assert attempts[..|ids|][..last] == attempts[..last];
    }
  }

  /** Once setup succeeds, the run's outcomes are the fold over the sampled ids and the
      tally counts its `Inserted` entries. */
  lemma LoopOutcomes(env: Environment)
    requires WellFormed(env) && SetupSucceeds(env)
    ensures var catalog := LoadMovesCatalog(env.catalogFile).value;
            && Run(env).outcomes == SeedAll(SampledIds(env), env.attempts, catalog)
            && Run(env).successCount == CountInserted(Run(env).outcomes)
  {
  }

  /** Once the loop runs, every sampled id gets an outcome and the tally is the number of
      ids whose fetch and insert both succeeded. */
  lemma LoopTally(env: Environment)
    requires WellFormed(env) && SetupSucceeds(env)
    ensures |Run(env).outcomes| == POKEMON_TO_INSERT
    ensures Run(env).successCount == CountSucceeding(env.attempts)
  {
    var catalog := LoadMovesCatalog(env.catalogFile).value;
    LoopOutcomes(env);
    SeedAllCountsSucceeding(SampledIds(env), env.attempts, catalog);
    assert env.attempts[..POKEMON_TO_INSERT] == env.attempts;
  }

  /** `successCount` never exceeds POKEMON_TO_INSERT and is the number of `Inserted`
      outcomes; once the loop runs, every sampled id gets an outcome and the count is the
      number of ids whose fetch and insert both succeeded. */
  lemma SuccessCountIsSucceedingAttempts(env: Environment)
    requires WellFormed(env)
    ensures Run(env).successCount == CountInserted(Run(env).outcomes) <= POKEMON_TO_INSERT
    ensures SetupSucceeds(env) ==>
              && |Run(env).outcomes| == POKEMON_TO_INSERT
              && Run(env).successCount == CountSucceeding(env.attempts)
  {
    if SetupSucceeds(env) {
      LoopOutcomes(env);
      LoopTally(env);
    }
  }

  lemma {:induction false} CountAllButOne(attempts: seq<Attempt>, bad: nat)
    requires bad < |attempts| && !Succeeds(attempts[bad])
    requires forall k :: 0 <= k < |attempts| && k != bad ==> Succeeds(attempts[k])
    ensures CountSucceeding(attempts) == |attempts| - 1
  {
    var last := |attempts| - 1;
    if bad < last {
      CountAllButOne(attempts[..last], bad);
    } else {
      CountAllSucceed(attempts[..last]);
    }
  }

  lemma {:induction false} CountAllSucceed(attempts: seq<Attempt>)
    requires forall k :: 0 <= k < |attempts| ==> Succeeds(attempts[k])
    ensures CountSucceeding(attempts) == |attempts|
  {
    if attempts != [] {
      CountAllSucceed(attempts[..|attempts| - 1]);
    }
  }

  /** One failing id among the eight: the other seven are inserted, and the run still ends
      with the cleanup request. */
  lemma OneFailureLeavesSeven(env: Environment, bad: nat)
    requires WellFormed(env) && SetupSucceeds(env)
    requires bad < POKEMON_TO_INSERT && !Succeeds(env.attempts[bad])
    requires forall k :: 0 <= k < POKEMON_TO_INSERT && k != bad ==> Succeeds(env.attempts[k])
    ensures Run(env).successCount == POKEMON_TO_INSERT - 1
    ensures Run(env).requests[|Run(env).requests| - 1] == DeleteRequest(SAMPLE_RECORD_ID)
  {
    SuccessCountIsSucceedingAttempts(env);
    CountAllButOne(env.attempts, bad);
  }

  /** Changing the answers one id receives changes nothing about any other id, nor whether
      the run is fatal. */
  lemma FailureIsolation(env: Environment, j: nat, attempt: Attempt)
    requires WellFormed(env) && j < |env.attempts|
    requires WellFormed(env.(attempts := env.attempts[j := attempt]))
    ensures var changed := Run(env.(attempts := env.attempts[j := attempt]));
            && changed.fatal == Run(env).fatal
            && |changed.outcomes| == |Run(env).outcomes|
            && forall k :: 0 <= k < |changed.outcomes| && k != j ==> changed.outcomes[k] == Run(env).outcomes[k]
  {
    var env' := env.(attempts := env.attempts[j := attempt]);
    if SetupSucceeds(env) {
      assert SetupSucceeds(env');
      assert SampledIds(env') == SampledIds(env);
    }
  }

  lemma {:induction false} SeedingIssuesNoDelete(outcomes: seq<IdOutcome>, id: int)
    ensures DeleteRequest(id) !in AllRequests(outcomes)
    ensures CountRequest !in AllRequests(outcomes)
  {
    if outcomes != [] {
      SeedingIssuesNoDelete(outcomes[..|outcomes| - 1], id);
    }
  }

  /** Cleanup is attempted exactly when the seeding loop ran, and then as the very last
      request; a fatal setup error stops the run before it. */
  lemma CleanupAfterLoop(env: Environment)
    requires WellFormed(env)
    ensures (DeleteRequest(SAMPLE_RECORD_ID) in Run(env).requests) <==> SetupSucceeds(env)
    ensures SetupSucceeds(env) ==> Run(env).requests[|Run(env).requests| - 1] == DeleteRequest(SAMPLE_RECORD_ID)
  {
    if SetupSucceeds(env) {
      var catalog := LoadMovesCatalog(env.catalogFile).value;
      SeedingIssuesNoDelete(SeedAll(SampledIds(env), env.attempts, catalog), SAMPLE_RECORD_ID);
    }
  }

  /** Exit code 1 exactly when loading the catalog, fetching the population bound or
      deleting the placeholder fails; per-id failures never reach `main().catch`. */
  lemma ExitCodeOne(env: Environment)
    requires WellFormed(env)
    ensures ExitCode(Run(env)) == 1 <==>
              || LoadMovesCatalog(env.catalogFile).Err?
              || FetchTotalPokemonCount(env.countReply).Err?
              || DeleteSampleRecord(env.deleteStatus).Err?
    ensures Run(env).fatal.Some? ==>
              !(Run(env).fatal.value.FetchError? || Run(env).fatal.value.InsertError?
                || Run(env).fatal.value.ResponseBodyError?)
  {
  }

  /** A catalog of fewer than four moves stops the run before any request is made. */
  lemma SmallCatalogMakesNoRequest(env: Environment)
    requires WellFormed(env)
    requires env.catalogFile.MoveArray? && |env.catalogFile.entries| < MOVES_PER_POKEMON
    ensures Run(env).fatal == Some(CatalogShapeError) && ExitCode(Run(env)) == 1
    ensures Run(env).requests == [] && Run(env).successCount == 0
  {
  }

  /** A population bound under the quota stops the run after the count request: no creature
      is fetched and nothing is inserted. */
  lemma LowCountInsertsNothing(env: Environment)
    requires WellFormed(env) && LoadMovesCatalog(env.catalogFile).Ok?
    requires IsOk(env.countReply.status) && env.countReply.count.Some?
    requires env.countReply.count.value < POKEMON_TO_INSERT
    ensures Run(env).fatal == Some(CountShapeError)
    ensures Run(env).requests == [CountRequest] && Run(env).successCount == 0
  {
  }

  /** A 404 on the cleanup is the already-deleted case, not a failure of the run. */
  lemma AbsentPlaceholderIsBenign(env: Environment)
    requires WellFormed(env) && SetupSucceeds(env) && env.deleteStatus == NOT_FOUND
    ensures ExitCode(Run(env)) == 0
  {
  }

  /** The seeded ids are POKEMON_TO_INSERT pairwise distinct ids within [1, total]. */
  lemma SeededIdsDistinctInRange(env: Environment)
    requires WellFormed(env) && SetupSucceeds(env)
    ensures var outcomes := Run(env).outcomes;
            && |outcomes| == POKEMON_TO_INSERT
            && (forall k :: 0 <= k < |outcomes| ==>
                  1 <= outcomes[k].id <= FetchTotalPokemonCount(env.countReply).value)
            && forall k, m :: 0 <= k < m < |outcomes| ==> outcomes[k].id != outcomes[m].id
  {
    var ids := SampledIds(env);
    var catalog := LoadMovesCatalog(env.catalogFile).value;
    var outcomes := SeedAll(ids, env.attempts, catalog);
    var all := FirstDraws(env.idDraws);
    forall k | 0 <= k < |ids| ensures 1 <= ids[k] <= env.countReply.count.value && ids[k] == all[k] {
      assert ids[k] == all[k] && all[k] in env.idDraws;
    }
  }

  /** Every inserted record lists four moves of the catalog, in the order the shuffle left
      them. */
  lemma InsertedRecordsCarryFourMoves(env: Environment, k: nat)
    requires WellFormed(env) && SetupSucceeds(env)
    requires k < |Run(env).outcomes| && Run(env).outcomes[k].Inserted?
    requires CommaFree(MoveNames(env.catalogFile.entries))
    ensures var parts := Split(Run(env).outcomes[k].payload.moves);
            && parts == MoveNames(Picked(env.catalogFile.entries, MOVES_PER_POKEMON, env.attempts[k].moveDraws))
            && |parts| == MOVES_PER_POKEMON
            && forall i :: 0 <= i < |parts| ==> parts[i] in MoveNames(env.catalogFile.entries)
  {
    var catalog := env.catalogFile.entries;
    var attempt := env.attempts[k];
    var sample := Picked(catalog, MOVES_PER_POKEMON, attempt.moveDraws);
    var creature := attempt.fetch.body.value;
    assert Run(env).outcomes[k].payload == MapPayload(creature, sample);
    forall i | 0 <= i < |sample| ensures sample[i] in catalog && ',' !in MoveNames(sample)[i] {
      assert sample[i] in multiset(sample);
      assert sample[i] in multiset(catalog);
      var m :| 0 <= m < |catalog| && catalog[m] == sample[i];
      assert MoveNames(catalog)[m] == sample[i].name;
    }
    PayloadMovesReadBack(creature, sample);
    forall i | 0 <= i < |sample| ensures sample[i].name in MoveNames(catalog) {
      var m :| 0 <= m < |catalog| && catalog[m] == sample[i];
      assert MoveNames(catalog)[m] == sample[i].name;
    }
  }
}
