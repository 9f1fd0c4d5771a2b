/** The exceptions the repositories throw and the `OperationResult` the use
    cases turn them into. */
module Results {
  import opened Text

  /** The exceptions raised below the use cases, each with its message. */
  datatype RepoError =
    | NoContent(message: string)       // NoContentException
    | IdNotFound(message: string)      // IdNotFoundException
    | EmailNotFound(message: string)   // EmailNotFoundException
    | SaveFailed(message: string)      // DbUpdateException from SaveChangesAsync

  /** A repository call that either returns a value or throws. */
  datatype Result<+T> = Ok(value: T) | Err(error: RepoError)

  /** The message of the `DbUpdateException` thrown when the database refuses a save. */
  const SaveChangesFailed: string :=
    "An error occurred while saving the entity changes. See the inner exception for details."

  /** The message of the `NoContentException` thrown by the active-only lookups by id. */
  const UserNotFoundMessage: string := "Usuário não encontrado."

  /** `$"... ID: {id} - <tail>"`, the shape of every IdNotFoundException
      message: the entity, " com ID: ", the id in decimal, " - ", the tail. */
  function IdMessage(entity: string, id: int, tail: string): (s: string)
    ensures |s| >= |entity| + 9 + |tail| + 3
    ensures s[..|entity|] == entity
    ensures s[|entity|..|entity| + 9] == " com ID: "
    ensures s[|entity| + 9..|s| - |tail| - 3] == IntToString(id)
    ensures s[|s| - |tail| - 3..|s| - |tail|] == " - "
    ensures s[|s| - |tail|..] == tail
  {
    var named := entity + " com ID: ";
    var numbered := named + IntToString(id);
    var dashed := numbered + " - ";
    assert (dashed + tail)[..|dashed|] == dashed;
    assert dashed[..|numbered|] == numbered && numbered[..|named|] == named;
    dashed + tail
  }

  /** The message names the id: two ids give the same message only when they are equal. */
  lemma IdMessageNamesId(entity: string, a: int, b: int, tail: string)
    requires IdMessage(entity, a, tail) == IdMessage(entity, b, tail)
    ensures a == b
  {
    IntToStringInjective(a, b);
  }

  /** `OperationResult<T>`: the outcome of a use case with its HTTP status code. */
  datatype OperationResult<+T> =
    | Success(value: T, statusCode: int := 200)
    | Failure(error: string, statusCode: int)
  {
    predicate IsSuccess() { Success? }
  }

  /** `catch (Exception ex) { Failure($"Erro interno: {ex.Message}", 500) }`. */
  function InternalError<T>(e: RepoError): (r: OperationResult<T>)
    ensures r.Failure? && r.statusCode == 500
    ensures r.error == "Erro interno: " + e.message
  {
    Failure("Erro interno: " + e.message, 500)
  }

  /** The two catch clauses most use cases carry: `IdNotFoundException` becomes
      404 with its own message, every other exception 500. */
  function CatchIdNotFound<T>(e: RepoError): (r: OperationResult<T>)
    ensures r.Failure?
    ensures r.statusCode == 404 <==> e.IdNotFound?
    ensures r.statusCode == 500 <==> !e.IdNotFound?
    ensures e.IdNotFound? ==> r.error == e.message
    ensures !e.IdNotFound? ==> r == InternalError(e)
  {
    if e.IdNotFound? then Failure(e.message, 404) else InternalError(e)
  }
}
