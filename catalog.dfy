/** `loadMovesCatalog`: the local move list, checked before any network call. */
module Catalog {
  import opened Common
  import opened PayloadMapper

  /** What reading and parsing moves.json produced. */
  datatype CatalogFile =
    | Unreadable                      // readFile or JSON.parse threw
    | NotAnArray                      // parsed, but not a JSON array
    | MoveArray(entries: seq<MoveEntry>)

  /** Number of entries the parsed file offers (0 when it is not an array). */
  function Size(file: CatalogFile): nat
  {
    if file.MoveArray? then |file.entries| else 0
  }

  /** The catalog is accepted exactly when it is an array of at least MOVES_PER_POKEMON
      entries, and is then returned as parsed. */
  function LoadMovesCatalog(file: CatalogFile): (r: Result<seq<MoveEntry>, SeedError>)
    ensures r.Ok? <==> file.MoveArray? && |file.entries| >= MOVES_PER_POKEMON
    ensures r.Ok? ==> r.value == file.entries && |r.value| >= MOVES_PER_POKEMON
    ensures file.Unreadable? ==> r == Err(CatalogReadError)
    ensures r.Err? && !file.Unreadable? ==> r.error == CatalogShapeError
  {
    match file
    case Unreadable => Err(CatalogReadError)
    case NotAnArray => Err(CatalogShapeError)
    case MoveArray(entries) =>
      if |entries| < MOVES_PER_POKEMON then Err(CatalogShapeError) else Ok(entries)
  }
}
