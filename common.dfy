/** Constants, wrappers and the error taxonomy shared by every stage of the seed script. */
module Common {

  /** Number of creatures inserted per run. */
  const POKEMON_TO_INSERT: nat := 8

  /** Number of moves attached to each inserted creature. */
  const MOVES_PER_POKEMON: nat := 4

  /** Id of the placeholder row removed from the store at the end of a run. */
  const SAMPLE_RECORD_ID: int := 1

  /** HTTP status the store answers when the row to delete does not exist. */
  const NOT_FOUND: int := 404

  datatype Option<T> = None | Some(value: T)

  datatype Result<T, E> = Ok(value: T) | Err(error: E)

  /** What the script throws, as a tagged variant instead of a message string. */
  datatype SeedError =
    | CatalogReadError            // moves.json could not be read or is not JSON
    | CatalogShapeError           // moves.json is not an array of at least four moves
    | CountRequestError(status: int)
    | CountShapeError             // the species count is missing, not finite or below the quota
    | FetchError(id: int, status: int)
    | ResponseBodyError           // a 2xx answer whose body is not the expected JSON
    | InsertError(status: int)
    | DeleteError(status: int)

  /** `response.ok` of the Fetch API. */
  predicate IsOk(status: int)
  {
    200 <= status <= 299
  }

  predicate NoDuplicates<T(==)>(s: seq<T>)
  {
    forall i, j :: 0 <= i < j < |s| ==> s[i] != s[j]
  }
}
