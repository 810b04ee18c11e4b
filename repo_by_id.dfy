/**
  The single-repository store (useFetchRepoById): the repository last
  fetched by id, with its own loading and error state.
 */
module RepoById {
  import opened Wrappers
  import opened GitHubApi

  const NotFoundMessage: string := "Repository not found"

  const FallbackMessage: string := "An error occurred"

  /** err.message || "An error occurred": a caught error always yields a non-empty text. */
  function ErrorText(message: string): (text: string)
    ensures text != ""
    ensures message != "" ==> text == message
    ensures message == "" ==> text == FallbackMessage
  {
    if message == "" then FallbackMessage else message
  }

  /**
    What a call by id leads to: the repository to store, or the message of
    the error caught. An empty body (None) is thrown as "Repository not found".
   */
  function FetchResult(outcome: Outcome<Option<Repo>>): (r: Result<Repo, string>)
    ensures r.Success? <==> outcome.Ok? && outcome.data.Some?
    ensures r.Success? ==> r.value == outcome.data.value
    ensures outcome.Ok? && outcome.data.None? ==> r == Failure(NotFoundMessage)
    ensures outcome.Err? ==> r.Failure? && r.error != ""
    ensures outcome.Err? && outcome.failure.message != "" ==> r.error == outcome.failure.message
    ensures outcome.Err? && outcome.failure.message == "" ==> r == Failure(FallbackMessage)
  {
    match outcome
    case Err(f) => Failure(ErrorText(f.message))
    case Ok(data, _) =>
      match data
      case None => Failure(ErrorText(NotFoundMessage))
      case Some(repo) => Success(repo)
  }

  class RepoByIdStore {
    var repo: Option<Repo>
    var loading: bool
    var error: Option<string>

    constructor ()
      ensures repo == None && !loading && error == None
    {
      repo := None;
      loading := false;
      error := None;
    }

    /** fetchRepoById(id), the call answering with `outcome`; a failure keeps the repository held before. */
    method FetchRepoById(id: string, outcome: Outcome<Option<Repo>>) returns (sent: Request)
      modifies this
      ensures sent == GetRepository(id)
      ensures !loading
      ensures FetchResult(outcome).Success? ==> repo == Some(FetchResult(outcome).value) && error == None
      ensures FetchResult(outcome).Failure? ==> repo == old(repo) && error == Some(FetchResult(outcome).error)
    {
      loading := true;
      error := None;
      sent := GetRepository(id);
      match outcome {
        case Ok(data, _) =>
          if data.None? {
            error := Some(ErrorText(NotFoundMessage));
          } else {
            repo := data;
          }
        case Err(failure) =>
          error := Some(ErrorText(failure.message));
      }
      loading := false;
    }
  }
}
