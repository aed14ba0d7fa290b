/** `main`: load the catalog, bound the population, sample the ids, seed each id in
    isolation, report the tally, then delete the placeholder row. Every answer from the file
    system, the two HTTP services and `Math.random` is part of the `Environment`. */
module Orchestrator {
  import opened Common
  import opened RandomSelection
  import opened PayloadMapper
  import opened Catalog
  import opened CreatureSource
  import opened StoreClient

  /** The answers the k-th sampled id receives. */
  datatype Attempt = Attempt(fetch: CreatureReply, moveDraws: seq<nat>, insert: InsertReply)

  /** Everything the outside world answers during one run. */
  datatype Environment = Environment(
    catalogFile: CatalogFile,
    countReply: CountReply,
    idDraws: seq<int>,       // successive values of `Math.floor(Math.random() * total) + 1`
    attempts: seq<Attempt>,  // indexed by the position of the id in the sample
    deleteStatus: int)

  /** Outbound requests, in the order they are issued. */
  datatype Request =
    | CountRequest
    | FetchRequest(id: int)
    | PostRequest(payload: SeedPayload)
    | DeleteRequest(id: int)

  /** What became of one sampled id; `posted` is the body sent before the store refused it. */
  datatype IdOutcome =
    | Inserted(id: int, payload: SeedPayload)
    | Failed(id: int, posted: Option<SeedPayload>, error: SeedError)

  /** The observable result of a run; `fatal` is what reaches `main().catch`. */
  datatype Report = Report(
    fatal: Option<SeedError>,
    outcomes: seq<IdOutcome>,
    successCount: nat,
    requests: seq<Request>)

  /** `process.exitCode` after the run. */
  function ExitCode(report: Report): int
  {
    if report.fatal.Some? then 1 else 0
  }

  /** What the environment must satisfy for the run to be modelled: one set of answers per
      sampled id, move draws in range for the catalog, and, once the population bound is
      accepted, id draws in [1, total] holding POKEMON_TO_INSERT distinct ids (real
      randomness supplies them with probability one; see `StreamCannotExceedRange`). */
  predicate WellFormed(env: Environment)
  {
    && |env.attempts| == POKEMON_TO_INSERT
    && (forall k :: 0 <= k < |env.attempts| ==> ValidDraws(Size(env.catalogFile), env.attempts[k].moveDraws))
    && (FetchTotalPokemonCount(env.countReply).Ok? ==>
          && InRange(env.idDraws, env.countReply.count.value)
          && POKEMON_TO_INSERT <= |FirstDraws(env.idDraws)|)
  }

  /** Both the fetch and the insert of this attempt succeed. */
  predicate Succeeds(attempt: Attempt)
  {
    IsOk(attempt.fetch.status) && attempt.fetch.body.Some? && IsOk(attempt.insert.status) && attempt.insert.bodyIsJson
  }

  /** One pass of the `try` block for one id. */
  function SeedOne(id: int, attempt: Attempt, catalog: seq<MoveEntry>): (outcome: IdOutcome)
    requires ValidDraws(|catalog|, attempt.moveDraws)
    ensures outcome.id == id
    ensures outcome.Inserted? <==> Succeeds(attempt)
    ensures outcome.Failed? && outcome.posted.None? <==> !(IsOk(attempt.fetch.status) && attempt.fetch.body.Some?)
  {
    match FetchPokemon(id, attempt.fetch)
    case Err(e) => Failed(id, None, e)
    case Ok(creature) =>
      var payload := MapPayload(creature, Picked(catalog, MOVES_PER_POKEMON, attempt.moveDraws));
      match InsertPokemon(attempt.insert)
      case Err(e) => Failed(id, Some(payload), e)
      case Ok(_) => Inserted(id, payload)
  }

  /** What the `for…of` loop collects: the k-th outcome depends on the k-th id and its own
      answers only, whatever happened to the others. */
  function SeedAll(ids: seq<int>, attempts: seq<Attempt>, catalog: seq<MoveEntry>): (outcomes: seq<IdOutcome>)
    requires |ids| <= |attempts|
    requires forall k :: 0 <= k < |attempts| ==> ValidDraws(|catalog|, attempts[k].moveDraws)
    ensures |outcomes| == |ids|
    ensures forall k :: 0 <= k < |ids| ==> outcomes[k] == SeedOne(ids[k], attempts[k], catalog)
  {
    seq(|ids|, k requires 0 <= k < |ids| => SeedOne(ids[k], attempts[k], catalog))
  }

  /** Number of `Inserted` outcomes. */
  function CountInserted(outcomes: seq<IdOutcome>): (n: nat)
    ensures n <= |outcomes|
  {
    if outcomes == [] then 0
    else
      var last := |outcomes| - 1;
      CountInserted(outcomes[..last]) + (if outcomes[last].Inserted? then 1 else 0)
  }

  /** Number of attempts whose fetch and insert both succeed. */
  function CountSucceeding(attempts: seq<Attempt>): nat
  {
    if attempts == [] then 0
    else
      var last := |attempts| - 1;
      CountSucceeding(attempts[..last]) + (if Succeeds(attempts[last]) then 1 else 0)
  }

  function RequestsOf(outcome: IdOutcome): seq<Request>
  {
    match outcome
    case Inserted(id, payload) => [FetchRequest(id), PostRequest(payload)]
    case Failed(id, posted, _) =>
      if posted.Some? then [FetchRequest(id), PostRequest(posted.value)] else [FetchRequest(id)]
  }

  function AllRequests(outcomes: seq<IdOutcome>): seq<Request>
  {
    if outcomes == [] then []
    else
      var last := |outcomes| - 1;
      AllRequests(outcomes[..last]) + RequestsOf(outcomes[last])
  }

  /** The ids `getRandomPokemonIds(POKEMON_TO_INSERT, total)` returns for this environment. */
  function SampledIds(env: Environment): seq<int>
    requires WellFormed(env) && FetchTotalPokemonCount(env.countReply).Ok?
  {
    FirstDraws(env.idDraws)[..POKEMON_TO_INSERT]
  }

  /** The whole run, stage by stage. */
  function Run(env: Environment): (report: Report)
    requires WellFormed(env)
    ensures |report.outcomes| <= POKEMON_TO_INSERT
    ensures report.successCount == CountInserted(report.outcomes)
    ensures report.requests != [] ==> report.requests[0] == CountRequest
  {
    match LoadMovesCatalog(env.catalogFile)
    case Err(e) => Report(Some(e), [], 0, [])
    case Ok(catalog) =>
      match FetchTotalPokemonCount(env.countReply)
      case Err(e) => Report(Some(e), [], 0, [CountRequest])
      case Ok(_) =>
        var outcomes := SeedAll(SampledIds(env), env.attempts, catalog);
        var requests := [CountRequest] + AllRequests(outcomes) + [DeleteRequest(SAMPLE_RECORD_ID)];
        var cleanup := DeleteSampleRecord(env.deleteStatus);
        Report(if cleanup.Err? then Some(cleanup.error) else None, outcomes, CountInserted(outcomes), requests)
  }

  /** The `try` block for one id: fetch, pick moves, map, insert. Also returns the requests
      it issued. */
  method SeedId(pokemonId: int, attempt: Attempt, catalog: array<MoveEntry>) returns (outcome: IdOutcome, sent: seq<Request>)
    requires ValidDraws(catalog.Length, attempt.moveDraws)
    ensures outcome == SeedOne(pokemonId, attempt, catalog[..])
    ensures sent == RequestsOf(outcome)
  {
    sent := [FetchRequest(pokemonId)];
    var fetched := FetchPokemon(pokemonId, attempt.fetch);
    if fetched.Err? {
      return Failed(pokemonId, None, fetched.error), sent;
    }
    var randomMoves := PickRandomMoves(catalog, MOVES_PER_POKEMON, attempt.moveDraws);
    var payload := MapPayload(fetched.value, randomMoves);
    sent := sent + [PostRequest(payload)];
    var inserted := InsertPokemon(attempt.insert);
    if inserted.Err? {
      outcome := Failed(pokemonId, Some(payload), inserted.error);
    } else {
      outcome := Inserted(pokemonId, payload);
    }
  }

  /** Appending the outcome of the next id extends the fold, the tally and the request log. */
  lemma FoldStep(ids: seq<int>, k: nat, attempts: seq<Attempt>, catalog: seq<MoveEntry>, outcomes: seq<IdOutcome>)
    requires k < |ids| <= |attempts|
    requires forall i :: 0 <= i < |attempts| ==> ValidDraws(|catalog|, attempts[i].moveDraws)
    requires outcomes == SeedAll(ids[..k], attempts, catalog)
    ensures var next := outcomes + [SeedOne(ids[k], attempts[k], catalog)];
            && next == SeedAll(ids[..k + 1], attempts, catalog)
            && CountInserted(next) == CountInserted(outcomes) + (if next[k].Inserted? then 1 else 0)
            && AllRequests(next) == AllRequests(outcomes) + RequestsOf(next[k])
  {
    var next := outcomes + [SeedOne(ids[k], attempts[k], catalog)];
    var longer := SeedAll(ids[..k + 1], attempts, catalog);
    forall i | 0 <= i <= k ensures next[i] == longer[i] {
      assert ids[..k + 1][i] == ids[i];
      if i < k {
        assert next[i] == outcomes[i] && ids[..k][i] == ids[i];
      }
    }
    assert next == longer;
    assert next[..k] == outcomes;
  }

  /** The `for…of` loop over the sampled ids, keeping the running `successCount`; a failed id
      only adds its outcome and the loop moves on. */
  method SeedLoop(ids: seq<int>, attempts: seq<Attempt>, catalog: array<MoveEntry>)
    returns (outcomes: seq<IdOutcome>, successCount: nat, sent: seq<Request>)
    requires |ids| <= |attempts|
    requires forall i :: 0 <= i < |attempts| ==> ValidDraws(catalog.Length, attempts[i].moveDraws)
    ensures outcomes == SeedAll(ids, attempts, catalog[..])
    ensures successCount == CountInserted(outcomes)
    ensures sent == AllRequests(outcomes)
  {
    successCount := 0;
    outcomes, sent := [], [];
    for k := 0 to |ids|
      invariant outcomes == SeedAll(ids[..k], attempts, catalog[..])
      invariant successCount == CountInserted(outcomes)
      invariant sent == AllRequests(outcomes)
    {
      var outcome, issued := SeedId(ids[k], attempts[k], catalog);
      if outcome.Inserted? {
        successCount := successCount + 1;
      }
      sent := sent + issued;
      FoldStep(ids, k, attempts, catalog[..], outcomes);
      outcomes := outcomes + [outcome];
    }
    assert ids[..|ids|] == ids;
  }

  /** `main()`. */
  method RunSeed(env: Environment) returns (report: Report)
    requires WellFormed(env)
    ensures report == Run(env)
  {
    var loaded := LoadMovesCatalog(env.catalogFile);
    if loaded.Err? {
      return Report(Some(loaded.error), [], 0, []);
    }
    var movesCatalog := loaded.value;
    var counted := FetchTotalPokemonCount(env.countReply);
    if counted.Err? {
      return Report(Some(counted.error), [], 0, [CountRequest]);
    }
    var totalPokemonCount := counted.value;
    var randomPokemonIds, _ := RandomPokemonIds(POKEMON_TO_INSERT, totalPokemonCount, env.idDraws);
    var catalog := new MoveEntry[|movesCatalog|](i requires 0 <= i < |movesCatalog| => movesCatalog[i]);
    assert catalog[..] == movesCatalog;
    var outcomes, successCount, sent := SeedLoop(randomPokemonIds, env.attempts, catalog);
    var requests := [CountRequest] + sent + [DeleteRequest(SAMPLE_RECORD_ID)];
    var cleanup := DeleteSampleRecord(env.deleteStatus);
    report := Report(if cleanup.Err? then Some(cleanup.error) else None, outcomes, successCount, requests);
  }
}
