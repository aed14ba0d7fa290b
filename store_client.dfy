/** `insertPokemonInRetool` and `deleteSampleRecord`, reduced to how they classify the
    store's answer; the request itself is an input. */
module StoreClient {
  import opened Common

  /** Answer to the POST: its status, and whether its body parsed as JSON. */
  datatype InsertReply = InsertReply(status: int, bodyIsJson: bool)

  /** The two non-error outcomes of deleting the placeholder row. */
  datatype DeleteOutcome = Deleted | AlreadyAbsent

  /** An insert succeeds exactly when the answer is 2xx and `response.json()` can read it;
      any other status is an error carrying that status. */
  function InsertPokemon(reply: InsertReply): (r: Result<(), SeedError>)
    ensures r.Ok? <==> IsOk(reply.status) && reply.bodyIsJson
    ensures !IsOk(reply.status) ==> r == Err(InsertError(reply.status))
    ensures IsOk(reply.status) && r.Err? ==> r.error == ResponseBodyError
  {
    if !IsOk(reply.status) then Err(InsertError(reply.status))
    else if !reply.bodyIsJson then Err(ResponseBodyError)
    else Ok(())
  }

  /** 2xx means deleted, 404 means already absent, and every other status is an error. */
  function DeleteSampleRecord(status: int): (r: Result<DeleteOutcome, SeedError>)
    ensures r == Ok(Deleted) <==> IsOk(status)
    ensures r == Ok(AlreadyAbsent) <==> status == NOT_FOUND
    ensures r.Err? <==> !IsOk(status) && status != NOT_FOUND
    ensures r.Err? ==> r.error == DeleteError(status)
  {
    if IsOk(status) then Ok(Deleted)
    else if status == NOT_FOUND then Ok(AlreadyAbsent)
    else Err(DeleteError(status))
  }
}
