# GitHub repository portfolio: the data-access stores in Dafny

This project models the two Vue composables that hold all of the
application's logic:

- `useFetchRepos`, the repository list store. It lists one page of the
  account's repositories and keeps `repos`, `loading`, `error`,
  `currentPage`, `totalPages`, `rateLimitRemaining` and `rateLimitReset`.
  It reads the pagination `Link` header of the list response. Its
  create, edit and delete operations update the in-memory list
  write-through.
- `useFetchRepoById`, the single-repository store. It keeps `repo`,
  `loading` and `error`.

Each composable is a class. Its refs are plain fields, and each
operation is a method. The HTTP call is not performed. The method takes
the call's `Outcome` as an input: either `Ok(data, headers)`, or
`Err(HttpError(status, message, headers))` or `Err(NoResponse(message))`.
It then returns the `Request` it would have issued, which records the
page size 6, the tagged creation payload, and the patch. Things that
depend on the JavaScript engine, the clock or the locale also become
parameters:

- `pageOf` is `new URL(u).searchParams.get("page")`: it throws, gives
  null, or gives the parameter's text.
- `describe` gives the message of a TypeError thrown while the response
  is read.
- `localTime` is the `toLocaleTimeString()` rendering of the
  `x-ratelimit-reset` header.

Files:

- `wrappers.dfy`: `Option` and `Result`.
- `js_strings.dfy`: the JavaScript string built-ins the parser uses:
  `split` with a one-character separator (proved to be the inverse of
  joining), `trim` with the full ECMAScript white-space set, and
  `replace(/[<>]/g, "")`.
- `link_header.dfy`: the `Link` header parser (section 3 of RFC 8288),
  written as the source's `reduce`.
  - The pattern `/rel="(.*)"/` is modelled exactly: leftmost match, a
    greedy capture that stops at a line terminator.
  - The lemmas prove that a later entry overrides an earlier one for
    the same relation, that the first bad entry decides the thrown
    error, and that a header rendered from `(url, rel)` links parses
    back to each relation's last URL.
- `github_api.dfy`: repositories, headers, failures, outcomes and
  requests.
- `repo_list.dfy`: the list store (`RepoListStore`), its pagination
  rule, its error texts and its list edits, with their lemmas.
- `repo_by_id.dfy`: the single-repository store (`RepoByIdStore`).

## Behaviour of the code worth knowing

- **The "prev with no next" rule uses the old page.** The assignment
  at src/composables/useFetchRepos.js:44 copies `currentPage`, and
  line 52 sets `currentPage` to the new page only afterwards. So
  `totalPages` receives the page shown *before* the call, not the page
  just fetched. Example: fetch page 1, whose header has `next` and
  `last` (page 3), then fetch page 3, whose header has only `prev` and
  `first`. `totalPages` is "3" after the first call
  (`FirstPageScenario`) and 1 after the second (`LastPageScenario`).
- **`totalPages` is not always a number.** It starts as the number 1
  (line 11). Line 44 copies `currentPage` into it, which is 1 at first
  (line 10) and afterwards whatever `page` the caller passed to the
  previous successful fetch (line 52). Line 42 stores the *text* that
  `searchParams.get("page")` returns, or null when the `last` URL has
  no `page` parameter. Hence `PageValue`.
- **The rate-limit fields change only on success.** Lines 48-49 run
  only after the call succeeded. The 403 branch (lines 54-58) reads
  `x-ratelimit-reset` only to build its message.
- **An empty link URL counts as absent.** Lines 41 and 43 test the
  truthiness of `links.last`, `links.prev` and `links.next`, so a link
  whose URL is the empty string does not count (`HasLink`).

## Model

| member | source | states |
|---|---|---|
| `JsStrings.Split` | src/composables/useFetchRepos.js:35-36 | `split` yields at least one piece. No piece holds the separator. Joining the pieces with it gives the input back. |
| `JsStrings.SplitJoin` | src/composables/useFetchRepos.js:35-36 | Splitting undoes joining when no piece holds the separator, so the entries of a header are exactly its comma-free pieces. |
| `JsStrings.Trim` | src/composables/useFetchRepos.js:37 | `trim` returns a slice of the input. Everything cut before and after it is ECMAScript white space, and the result neither starts nor ends with white space. |
| `JsStrings.StripAngles` | src/composables/useFetchRepos.js:37 | After `replace(/[<>]/g, "")` no `<` or `>` is left. |
| `JsStrings.StripAnglesKeeps` | src/composables/useFetchRepos.js:37 | Every other character is kept, as often as it occurred. |
| `JsStrings.StripAnglesAppend` | src/composables/useFetchRepos.js:37 | Stripping works piecewise over concatenation, so the kept characters keep their order. |
| `LinkHeader.FindRel` | src/composables/useFetchRepos.js:37 | Finds the leftmost position where `rel="` starts a match. No earlier position matches, and none matches when None is returned. |
| `LinkHeader.RelCapture` | src/composables/useFetchRepos.js:37 | `match` gives null exactly when the pattern matches nowhere. Otherwise the leftmost match spans `rel="`, the capture and a closing `"` in the entry's text, and the capture contains no line terminator, since `.` does not cross one. |
| `LinkHeader.RelCaptureOfParam` | src/composables/useFetchRepos.js:37 | ` rel="r"` captures exactly r when r has no quote and no line terminator. |
| `LinkHeader.ParseEntry` | src/composables/useFetchRepos.js:36-37 | An entry without `;` throws (its `rel` is undefined). One whose second part has no `rel="…"` match throws too (`match` gives null). A parsed relation holds no line terminator and a parsed URL no `<` or `>`. `ParseEntryWithSemicolon` states the `;` case exactly, and `ParseFormatted` proves that a well-formed entry parses to its relation and URL. |
| `LinkHeader.ParseEntryWithSemicolon` | src/composables/useFetchRepos.js:36-37 | An entry with a `;` has a second piece. It throws exactly when that piece has no `rel="…"` match, and the thrown error carries that piece. |
| `LinkHeader.FoldEntries` | src/composables/useFetchRepos.js:35-39 | The reduce succeeds when every entry parses, and a failure is the fault of one of the entries. `FoldAllParse` and `FoldFirstFault` give its exact result. |
| `LinkHeader.ParseLinks` | src/composables/useFetchRepos.js:35-39 | A header without `,` is one entry and parses exactly when that entry does. A failure is the fault of one of the comma-separated pieces. `ParseRendered` proves what a rendered header parses to. |
| `LinkHeader.Bindings` | src/composables/useFetchRepos.js:35-39 | The dictionary built from (relation, url) pairs has exactly the relations that occur as keys. |
| `LinkHeader.BindingsLastWins` | src/composables/useFetchRepos.js:35-39 | A pair that no later pair overrides gives its relation's value, so when a relation repeats the later entry wins. |
| `LinkHeader.FoldAllParse` | src/composables/useFetchRepos.js:35-39 | When every entry parses, the reduce yields the dictionary of the entries' (relation, trimmed and stripped url) pairs. |
| `LinkHeader.FoldFirstFault` | src/composables/useFetchRepos.js:35-39 | The first entry that throws (no `;`, or no `rel="…"` match) decides the reduce's outcome, whatever follows it. |
| `LinkHeader.ParseFormatted` | src/composables/useFetchRepos.js:36-37 | The entry `<url>; rel="r"`, with or without the space that follows a comma, parses to (r, url). This holds for a URL without `,` `;` `<` `>` and a relation without `,` `;` `"` or line terminators. |
| `LinkHeader.ParseRendered` | src/composables/useFetchRepos.js:33-39 | Take a header written as a server writes it, `<u1>; rel="r1", <u2>; rel="r2"`, from such links. It parses to the dictionary of their pairs, the last link for a relation winning. |
| `LinkHeader.BindingsAreLastUrls` | src/composables/useFetchRepos.js:35-39 | That dictionary holds a relation exactly when some link has it, and then maps it to the URL of the last such link. |
| `RepoList.HasLink` | src/composables/useFetchRepos.js:41-43 | `links.last`, `links.prev` and `links.next` are truthy exactly when the relation is present with a non-empty URL. `RenderedLinks` ties this to the last link of each relation in a rendered header. |
| `RepoList.LastPageTotal` | src/composables/useFetchRepos.js:42 | `new URL(last)` throws exactly when the URL does not parse. Otherwise `totalPages` becomes the `page` parameter's text, or null without one, and never a number. |
| `RepoList.TotalPagesAfter` | src/composables/useFetchRepos.js:33-45 | An absent or empty header keeps `totalPages`. A failure is a throw, and a parse failure is the reduce's fault. A changed value is the old `currentPage`, a page text or null. The lemmas below state each rule. |
| `RepoList.ListFetch` | src/composables/useFetchRepos.js:19-53 | The list update succeeds only for a response. A rejected call fails with its rejection, and a throw while reading can only come from a response. |
| `RepoList.LastLinkDecidesTotal` | src/composables/useFetchRepos.js:41-42 | Suppose the header's last `last` link has a non-empty URL. Then `totalPages` comes from that URL's `page` parameter (its text, null, or a throw), whatever `totalPages` and `currentPage` were. |
| `RepoList.PrevWithoutNextUsesCurrent` | src/composables/useFetchRepos.js:43-44 | With no truthy `last`, a truthy `prev` and no truthy `next`, `totalPages` becomes the `currentPage` held before the call. |
| `RepoList.NeitherRuleKeepsTotal` | src/composables/useFetchRepos.js:41-45 | When neither rule fires, `totalPages` is unchanged. |
| `RepoList.NoHeaderKeepsTotal` | src/composables/useFetchRepos.js:33-34 | An absent or empty link header leaves `totalPages` unchanged. |
| `RepoList.EntryWithoutSemicolonThrows` | src/composables/useFetchRepos.js:36-37 | An entry without `;` throws, unless an earlier entry already threw, so the whole list update fails. |
| `RepoList.FirstPageScenario` | src/composables/useFetchRepos.js:41-42 | Page 1 with `next` and `last` (page "3") sets `totalPages` to "3". |
| `RepoList.LastPageScenario` | src/composables/useFetchRepos.js:43-52 | Page 3 fetched next, with only `prev` and `first`, sets `totalPages` to the old `currentPage` 1, not 3. |
| `RepoList.RateLimitMessage` | src/composables/useFetchRepos.js:58 | The 403 message is "Rate limit exceeded. Try again at " followed by the time text and ".". |
| `RepoList.ListErrorText` | src/composables/useFetchRepos.js:53-61 | A throw while reading the response gives that TypeError's message. A 403 response gives the rate-limit message for its reset header. Any other rejection gives the failure's own message. |
| `RepoList.TaggedDescription` | src/composables/useFetchRepos.js:75 | The sent description ends with the project tag. Before the tag and its space comes the given description, or "" when there is none. |
| `RepoList.CreatePayload` | src/composables/useFetchRepos.js:74-75 | The creation payload keeps every draft field except `description`, and always has a `description`. |
| `RepoList.Untagged` | src/composables/useFetchRepos.js:75 | Removing the project tag gives a text that, followed by " [my-vue-project]", is the description. |
| `RepoList.TagRoundTrip` | src/composables/useFetchRepos.js:75 | The sent description is (the given description or "") + " " + "[my-vue-project]", and removing the tag gives the given description back. |
| `RepoList.FindIndex` | src/composables/useFetchRepos.js:104 | `findIndex` returns -1 exactly when no entry has the name. Otherwise it returns the first position holding it. |
| `RepoList.ReplaceFirstNamed` | src/composables/useFetchRepos.js:104-107 | The edited list has the same length and only the first entry with the name replaced. It is unchanged when no entry has the name. |
| `RepoList.WithoutName` | src/composables/useFetchRepos.js:127 | The filtered list holds exactly the entries of the old one whose name differs. |
| `RepoList.WithoutNameCounts` | src/composables/useFetchRepos.js:127 | Each kept entry occurs as often as before, and no entry with the name remains. |
| `RepoList.WithoutNameAppend` | src/composables/useFetchRepos.js:127 | Filtering works piecewise, so the kept entries stay in their original order. |
| `RepoList.WithoutAbsentName` | src/composables/useFetchRepos.js:127 | Deleting a name that no entry has leaves the list unchanged. |
| `RepoList.RepoListStore.constructor` | src/composables/useFetchRepos.js:7-14 | The initial state: empty list, not loading, no error, page 1 of 1, rate limits null. |
| `RepoList.RepoListStore.FetchRepos` | src/composables/useFetchRepos.js:16-65 | It always issues page and per_page 6 and ends with `loading` false. On success: `repos` is the response data, `currentPage` is the page, `totalPages` follows the link rules, the rate-limit fields are the headers, and `error` is null. On any failure (rejection or a throw while reading the response) those fields are unchanged and `error` is the failure's text. |
| `RepoList.RepoListStore.CreateRepo` | src/composables/useFetchRepos.js:67-89 | It sends the tagged payload. On success the created repository is at index 0, followed by the old list. On failure the list is unchanged and `error` is the message. It always ends with `loading` false, and pagination and rate limits are untouched. |
| `RepoList.RepoListStore.EditRepo` | src/composables/useFetchRepos.js:91-113 | On success the first entry with the name is replaced by the response. On failure the list is unchanged and `error` is the message. It always ends with `loading` false. |
| `RepoList.RepoListStore.DeleteRepo` | src/composables/useFetchRepos.js:115-133 | On success every entry with the name is removed. On failure the list is unchanged and `error` is the message. It always ends with `loading` false. |
| `RepoById.ErrorText` | src/composables/useFetchRepoById.js:22 | The caught message, falling back to "An error occurred", is never empty. It is the message when that is non-empty, and the fallback otherwise. |
| `RepoById.FetchResult` | src/composables/useFetchRepoById.js:13-22 | A call succeeds exactly when the response carries a (truthy) body. An empty body gives "Repository not found". A rejection gives its message, or the fallback when that message is empty. |
| `RepoById.RepoByIdStore.constructor` | src/composables/useFetchRepoById.js:5-7 | The initial state: no repository, not loading, no error. |
| `RepoById.RepoByIdStore.FetchRepoById` | src/composables/useFetchRepoById.js:9-26 | It requests the id and ends with `loading` false. On success `repo` is the body and `error` is null. On failure `repo` keeps its previous value (it is never reset) and `error` is the failure text. |

## Left out

- The axios calls, the endpoint URLs and the access token read from the
  build environment are I/O. Each call's result is an input `Outcome`,
  and the issued request is returned as a `Request` value without URL
  or token.
- `new URL(...)` and `searchParams.get("page")` are URL parsing done by
  the platform. They are the parameter `pageOf`.
- The texts of TypeErrors thrown while the response is read are
  engine-specific. They are the parameter `describe`.
- `new Date(reset * 1000).toLocaleTimeString()` in the 403 message
  depends on the clock and locale. It is the parameter `localTime`.
- Asynchrony and overlapping calls are not modelled. Each method runs
  as one atomic step, so the intermediate `loading = true` and
  `error = null` writes are made but cannot be observed.
- Vue reactivity is not modelled. Each ref is a plain field.
- Arrays are modelled as immutable sequences that each method
  reassigns. So the in-place `unshift` (line 83), the element write
  `repos.value[index] = ...` (line 106) and the sharing of
  `response.data` as `repos.value` (line 51) are modelled only by their
  effect on the store's list. The effect on other references to the
  same array is not modelled.
- Strings are sequences of Unicode code points, not UTF-16 code units.
  A surrogate pair therefore counts as one character for `split`,
  `trim` and the `rel` pattern.
- JavaScript's dynamic typing is not modelled. Response bodies are
  assumed to have the expected shape (a list of repositories, one
  repository, or any value for delete). Draft and patch fields are
  strings, so the stringification of non-string descriptions is not
  modelled. A null and an absent header are both `None`. The `page`
  argument of a fetch is taken to be an integer, so `currentPage`, and
  what line 44 copies from it, is always a number in the model.
- Special dictionary keys such as `__proto__` used as a relation name
  are not modelled. They are treated like any other key and cannot
  affect `last`, `prev` or `next`.
- vite.config.js, src/main.js and src/router/index.js are not part of
  this model. They are build configuration, app bootstrap and a static
  route table.
