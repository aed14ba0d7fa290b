# Seeding pipeline of the creature store, in Dafny

This project models `scripts/seedRetoolFromPokeApi.js`, the script that seeds a remote
tabular store with random creature records. In order, the script:

1. loads a local catalog of moves and checks that it holds at least four entries;
2. asks the public creature catalog for its species count and checks that it is at least
   eight;
3. draws eight distinct random ids in `[1, count]`;
4. for each id: fetches the creature, picks four random moves by Fisher–Yates shuffle, maps
   the creature to a flat record and POSTs it to the store. A failure on one id is caught and
   the loop goes on;
5. reports how many inserts succeeded;
6. deletes the store's placeholder row (id 1), where a 404 counts as "already gone".

The catalog load, the species count and the cleanup are fatal when they fail: the process
exit code becomes 1.

The model replaces every outside answer with an input:

- the parsed catalog file;
- each HTTP status and parsed body;
- every `Math.random` draw.

`Orchestrator.Run` is the whole run as a function of those inputs, and `Orchestrator.RunSeed`
is `main` written as the imperative loop it is. The modules follow the script's parts:

- `Common`: constants, `Option`/`Result`, the error taxonomy and `response.ok`.
- `Text`: `capitalize`, plus `join(', ')` and the `Split` that reads a joined field back.
- `RandomSelection`: `shuffle` (a method over an array copy, proved against the recursive
  function `Shuffled`), `pickRandomMoves`, and `getRandomPokemonIds` (a method proved against
  `FirstDraws`).
- `PayloadMapper`: `getStat` and `mapPokemonToRetoolPayload`.
- `Catalog`, `CreatureSource`, `StoreClient`: how the catalog, the species count, a fetched
  creature, a POST answer and a DELETE answer are judged.
- `Orchestrator`: `main`, as a fold over the per-id answers (`Run`) and as the method
  `RunSeed`.
- `RunProperties`: what a whole run guarantees.

Randomness is a stream of draws:

- A shuffle of n items takes `draws`, where `draws[i - 1]` is the index in `[0, i]` that
  position `i` is swapped with.
- The id sampler takes an id stream in `[1, total]`.

On these points the model follows the script:

- Ids come back in first-draw order (`Array.from` of an insertion-ordered `Set`), not as an
  unordered set.
- A failed cleanup makes the run fatal.
- "No duplicate moves within one creature" holds only when the catalog itself has no
  duplicate entries (`RandomSelection.PickedDistinct`).
- A 2xx answer to the creature fetch or to the insert whose body is not the expected JSON is
  an error of its own (`ResponseBodyError`).

## Model

| member | source | states |
|---|---|---|
| Text.Capitalize | scripts/seedRetoolFromPokeApi.js:10 | same length; the first character becomes its upper-case form; every later character is unchanged; the empty string stays empty |
| Text.CapitalizeKeepsCapitalized | scripts/seedRetoolFromPokeApi.js:10 | a name whose first character is already upper case is returned unchanged |
| Text.CapitalizeIdempotent | scripts/seedRetoolFromPokeApi.js:10 | capitalizing twice is the same as capitalizing once |
| Text.Join | scripts/seedRetoolFromPokeApi.js:76 | the definition of `join(', ')`: no parts give the empty string, and the result starts with the first part; `Text.JoinEndsWithLast` and `Text.SplitJoin` state the rest |
| Text.JoinEndsWithLast | scripts/seedRetoolFromPokeApi.js:76 | a join of at least one part ends with the last part |
| Text.SplitJoin | scripts/seedRetoolFromPokeApi.js:76 | joining a non-empty list of comma-free parts with ", " and splitting at ", " gives back exactly those parts, in order |
| Text.JoinEmptyAmbiguous | scripts/seedRetoolFromPokeApi.js:82 | an empty list and a list with one empty name join to the same empty string, so the round trip needs at least one part |
| RandomSelection.Shuffle | scripts/seedRetoolFromPokeApi.js:16-27 | returns a fresh array whose contents are `Shuffled(items, draws)`; it modifies nothing, so the input array is unchanged |
| RandomSelection.SettledIsShuffled | scripts/seedRetoolFromPokeApi.js:19-24 | running the swap loop from the last index down to 1 computes the recursive shuffle `Shuffled` |
| RandomSelection.ShuffledPermutes | scripts/seedRetoolFromPokeApi.js:16-27 | for every valid draw stream, the shuffle is a permutation of its input (equal multisets, hence equal length) |
| RandomSelection.EveryPermutationReachable | scripts/seedRetoolFromPokeApi.js:19-24 | every permutation of the input is produced by some valid draw stream, so no order is out of reach |
| RandomSelection.Picked | scripts/seedRetoolFromPokeApi.js:29-31 | the pick has min(count, catalog size) entries and is a sub-multiset of the catalog |
| RandomSelection.PickRandomMoves | scripts/seedRetoolFromPokeApi.js:29-31 | the array method returns the first `count` entries of the shuffled catalog, as `Picked` specifies |
| RandomSelection.PickedDistinct | scripts/seedRetoolFromPokeApi.js:29-31 | from a catalog without duplicates, the picked moves are pairwise distinct |
| RandomSelection.FirstDraws | scripts/seedRetoolFromPokeApi.js:34-41 | the collected ids are duplicate-free and are exactly the values drawn |
| RandomSelection.FirstDrawsPrefix | scripts/seedRetoolFromPokeApi.js:36-39 | drawing more never reorders or drops the ids already collected |
| RandomSelection.RandomPokemonIds | scripts/seedRetoolFromPokeApi.js:33-42 | returns exactly `count` distinct ids in `[1, maxPokemonId]`, in first-draw order; it stops at the first draw that completes the set |
| RandomSelection.DistinctInRangeBound | scripts/seedRetoolFromPokeApi.js:36-38 | distinct ids drawn from `[1, max]` number at most `max` |
| RandomSelection.StreamCannotExceedRange | scripts/seedRetoolFromPokeApi.js:36-39 | some in-range stream yields `count` distinct ids if and only if count <= maxPokemonId; otherwise the loop never ends |
| PayloadMapper.GetStat | scripts/seedRetoolFromPokeApi.js:12-14 | null exactly when no entry has that name; otherwise the base stat of the first entry that has it |
| PayloadMapper.GetStatIgnoresOrder | scripts/seedRetoolFromPokeApi.js:13 | with unique stat names, every reordering of the stat list gives the same answer (lookup by name, not by position) |
| PayloadMapper.MapPayload | scripts/seedRetoolFromPokeApi.js:73-84 | the name is capitalized; the sprite passes through, null included; attack, defense, hp and speed are each the lookup of that exact name |
| PayloadMapper.PayloadTypesReadBack | scripts/seedRetoolFromPokeApi.js:76 | `types` reads back as every type name, capitalized, in source order |
| PayloadMapper.PayloadMovesReadBack | scripts/seedRetoolFromPokeApi.js:82 | `moves` reads back as the sampled move names, in sample order |
| PayloadMapper.MissingStatIsNull | scripts/seedRetoolFromPokeApi.js:81 | a stat list without "speed" gives `speed: null`, never 0 |
| PayloadMapper.MovesFollowSampleOrder | scripts/seedRetoolFromPokeApi.js:82 | the sample [C, A, E, B] gives "moves": "C, A, E, B" |
| Catalog.LoadMovesCatalog | scripts/seedRetoolFromPokeApi.js:44-54 | accepted if and only if the file is an array of at least four entries, and then returned as parsed; an unreadable file and a wrongly shaped one are distinct errors |
| CreatureSource.FetchTotalPokemonCount | scripts/seedRetoolFromPokeApi.js:96-111 | accepted if and only if the status is 2xx and the count is present and at least 8; a non-2xx answer is an error carrying its status; otherwise the error is a shape error |
| CreatureSource.FetchPokemon | scripts/seedRetoolFromPokeApi.js:86-94 | a creature only from a 2xx answer with a readable body; a non-2xx answer is an error carrying the id and the status |
| StoreClient.InsertPokemon | scripts/seedRetoolFromPokeApi.js:113-128 | succeeds if and only if the status is 2xx and the body is JSON; a non-2xx answer is an error carrying its status |
| StoreClient.DeleteSampleRecord | scripts/seedRetoolFromPokeApi.js:56-71 | 2xx if and only if deleted; 404 if and only if already absent; any other status is an error carrying that status |
| Orchestrator.SeedOne | scripts/seedRetoolFromPokeApi.js:142-153 | an id is inserted if and only if its fetch and its insert both succeed; nothing is posted if and only if the fetch failed |
| Orchestrator.SeedAll | scripts/seedRetoolFromPokeApi.js:141-154 | one outcome per id, and the k-th depends only on the k-th id and its own answers |
| Orchestrator.Run | scripts/seedRetoolFromPokeApi.js:130-167 | the definition of a whole run: at most 8 outcomes, `successCount` counts the inserted ones, and the species-count request comes first whenever any request is made; the `RunProperties` lemmas state the rest |
| Orchestrator.SeedId | scripts/seedRetoolFromPokeApi.js:142-153 | the method for one id yields the outcome `SeedOne` specifies and the requests that outcome implies |
| Orchestrator.SeedLoop | scripts/seedRetoolFromPokeApi.js:139-154 | the loop's outcomes are the fold `SeedAll`; its running `successCount` counts the inserted outcomes; its request log is theirs in order |
| Orchestrator.RunSeed | scripts/seedRetoolFromPokeApi.js:130-162 | `main` produces exactly the report of `Run`: fatal error, outcomes, success count and request log |
| RunProperties.SeedAllCountsSucceeding | scripts/seedRetoolFromPokeApi.js:141-154 | the number of inserted outcomes is the number of attempts whose fetch and insert both succeed |
| RunProperties.SuccessCountIsSucceedingAttempts | scripts/seedRetoolFromPokeApi.js:139-156 | `successCount` is at most 8 and counts the inserted ids; once setup succeeds, all eight ids get an outcome and the count is the number whose fetch and insert both succeeded |
| RunProperties.OneFailureLeavesSeven | scripts/seedRetoolFromPokeApi.js:141-159 | one failing id among eight leaves a count of seven, and the cleanup is still the last request |
| RunProperties.FailureIsolation | scripts/seedRetoolFromPokeApi.js:142-153 | changing one id's answers changes no other id's outcome and does not change whether the run is fatal |
| RunProperties.CleanupAfterLoop | scripts/seedRetoolFromPokeApi.js:156-159 | the placeholder delete is sent if and only if setup succeeded, and then as the very last request |
| RunProperties.ExitCodeOne | scripts/seedRetoolFromPokeApi.js:164-167 | exit code 1 if and only if the catalog load, the species count or the cleanup fails; a per-id error is never fatal |
| RunProperties.SmallCatalogMakesNoRequest | scripts/seedRetoolFromPokeApi.js:49-51 | a catalog of fewer than four moves makes the run fatal before any request |
| RunProperties.LowCountInsertsNothing | scripts/seedRetoolFromPokeApi.js:106-108 | a species count below 8 makes the run fatal after the count request alone: nothing is fetched or inserted |
| RunProperties.AbsentPlaceholderIsBenign | scripts/seedRetoolFromPokeApi.js:64-67 | a 404 on the cleanup leaves exit code 0 |
| RunProperties.SeededIdsDistinctInRange | scripts/seedRetoolFromPokeApi.js:135-141 | the seeded ids are eight pairwise distinct ids in `[1, total]` |
| RunProperties.InsertedRecordsCarryFourMoves | scripts/seedRetoolFromPokeApi.js:144-145 | every inserted record lists exactly four moves, each from the catalog, in the order of that id's shuffled pick |

## Left out

- File and network I/O (`readFile`, `resolve`, `fetch`, `response.json()`, `response.text()`). Their results are inputs: a parsed catalog file, status codes, parsed bodies. A request that fails without any response takes the same path as a non-2xx status, and is given as one.
- `JSON.parse` and `JSON.stringify`: parsed values are Dafny datatypes, and a body that does not parse is a flag or `None`.
- `Math.random` and `Math.floor(Math.random() * n)`: replaced by streams of in-range integers. The proofs cover every stream; that each order is equally likely is not stated, only that every order is reachable (`RandomSelection.EveryPermutationReachable`).
- RandomPokemonIds: requires the id stream to hold `count` distinct ids. The source loops for ever otherwise; `RandomSelection.StreamCannotExceedRange` shows when such a stream exists.
- RunSeed: requires the draws that `Math.random` would supply: move draws in range for the catalog, and an id stream in `[1, total]` with eight distinct ids (`Orchestrator.WellFormed`).
- FetchTotalPokemonCount: a 2xx answer whose body is not JSON is given as a missing count, so it ends in `CountShapeError`. The script fails there at `response.json()`, before the count check, with a different message; both are fatal.
- FetchTotalPokemonCount: `Number(data.count)` and `Number.isFinite` are modelled as an optional integer, so a fractional count (accepted by the source, which then draws ids up to its ceiling) is not modelled.
- Capitalize: upper-cases ASCII letters only. The full Unicode `toUpperCase`, where one character can become several, is not modelled.
- LoadMovesCatalog: every catalog entry is taken to be an object with a string `name`. An array of at least four entries holding, say, `null` is accepted by the script, which then fails each id at `move.name` after its fetch, before any POST; the model cannot express that entry.
- MapPayload: a move name is a string and a base stat an integer. `join` rendering a missing name as empty, and `?? null` turning a null base stat into null, are not modelled.
- `console.log` / `console.error` output and the text of error messages: these are logs, not behaviour. Errors are a tagged `SeedError` instead.
- `async`/`await`: the script runs strictly in sequence, so there is no concurrency to model.
- `src/router/index.js` (client-side routing) is not part of this model.
