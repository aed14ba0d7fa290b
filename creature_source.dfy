/** `fetchTotalPokemonCount` and `fetchPokemonFromPokeApi`, reduced to how they judge the
    upstream answer; the request itself is an input. */
module CreatureSource {
  import opened Common
  import opened PayloadMapper

  /** Answer to the species-list request: its status, and `Number(data.count)` when that is a
      finite number (None when the body has no count, a non-numeric one, or is not JSON). */
  datatype CountReply = CountReply(status: int, count: Option<int>)

  /** Answer to `GET /pokemon/{id}`: its status, and the creature when the body is a record
      the mapper can read (None when it is not). */
  datatype CreatureReply = CreatureReply(status: int, body: Option<Creature>)

  /** The population bound is accepted exactly when the request succeeded and the count is
      finite and at least POKEMON_TO_INSERT. */
  function FetchTotalPokemonCount(reply: CountReply): (r: Result<nat, SeedError>)
    ensures r.Ok? <==> IsOk(reply.status) && reply.count.Some? && reply.count.value >= POKEMON_TO_INSERT
    ensures r.Ok? ==> r.value == reply.count.value && r.value >= POKEMON_TO_INSERT
    ensures !IsOk(reply.status) ==> r == Err(CountRequestError(reply.status))
    ensures IsOk(reply.status) && r.Err? ==> r.error == CountShapeError
  {
    if !IsOk(reply.status) then Err(CountRequestError(reply.status))
    else if reply.count.None? || reply.count.value < POKEMON_TO_INSERT then Err(CountShapeError)
    else Ok(reply.count.value)
  }

  /** A creature is obtained only from a 2xx answer with a readable body; a non-2xx answer is
      reported with the id and the status. */
  function FetchPokemon(pokemonId: int, reply: CreatureReply): (r: Result<Creature, SeedError>)
    ensures r.Ok? <==> IsOk(reply.status) && reply.body.Some?
    ensures r.Ok? ==> r.value == reply.body.value
    ensures !IsOk(reply.status) ==> r == Err(FetchError(pokemonId, reply.status))
    ensures IsOk(reply.status) && r.Err? ==> r.error == ResponseBodyError
  {
    if !IsOk(reply.status) then Err(FetchError(pokemonId, reply.status))
    else if reply.body.None? then Err(ResponseBodyError)
    else Ok(reply.body.value)
  }
}
