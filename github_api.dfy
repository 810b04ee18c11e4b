/**
  The values exchanged with the repository-hosting REST API. The HTTP client
  itself is not modelled: each operation receives the outcome of its call as
  an input and returns the request it would have issued.
 */
module GitHubApi {
  import opened Wrappers

  /** A repository as the API returns it: an opaque record looked up by name. */
  datatype Repo = Repo(name: string, attributes: map<string, string>)

  /** A request body or partial record: field name to field value. */
  type Fields = map<string, string>

  /** The response headers the stores read; None stands for an absent header. */
  datatype Headers = Headers(
    link: Option<string>,
    rateLimitRemaining: Option<string>,
    rateLimitReset: Option<string>)

  /** A rejected call: with an HTTP response (err.response set) or without one. */
  datatype CallError =
    | HttpError(status: int, message: string, headers: Headers)
    | NoResponse(message: string)

  /** What the awaited HTTP call produced. */
  datatype Outcome<+T> = Ok(data: T, headers: Headers) | Err(failure: CallError)

  /** The request an operation issues; endpoint URLs and the access token are not modelled. */
  datatype Request =
    | ListRepos(page: int, perPage: nat)
    | GetRepository(id: string)
    | CreateRepo(body: Fields)
    | PatchRepo(name: string, patch: Fields)
    | DeleteRepo(name: string)

  /** new URL(u).searchParams.get("page"): a throw, null, or the parameter's text. */
  datatype QueryLookup = InvalidUrl | NoPage | Page(value: string)
}
