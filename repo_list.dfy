/**
  The repository list store (useFetchRepos): one page of repositories, the
  pagination and rate-limit state read from the list response, and the
  write-through create, edit and delete operations. Every operation raises
  `loading`, clears `error`, applies the outcome of its HTTP call and lowers
  `loading` again.
 */
module RepoList {
  import opened Wrappers
  import opened JsStrings
  import opened GitHubApi
  import opened LinkHeader

  /** The tag appended to the description of every repository created here. */
  const ProjectIdentifier: string := "[my-vue-project]"

  /** The page size sent with every list request. */
  const PerPage: nat := 6

  const RateLimitPrefix: string := "Rate limit exceeded. Try again at "

  /**
    What totalPages holds: a number (the initial 1, or a copy of currentPage),
    the text of a `page` query parameter, or null when the `last` URL has none.
   */
  datatype PageValue = PageNumber(n: int) | PageText(text: string) | NullPage

  /** The TypeErrors thrown while the response of a list call is read. */
  datatype Thrown = LinkThrew(fault: Fault) | UrlThrew(url: string)

  /** Why a list fetch failed: the call was rejected, or reading its response threw. */
  datatype ListError = Rejected(failure: CallError) | Threw(thrown: Thrown)

  // ---------------------------------------------------------------------------
  // pagination

  /** links[rel] is truthy: present and not the empty string. */
  predicate HasLink(links: map<string, string>, rel: string) {
    rel in links && links[rel] != ""
  }

  /** totalPages taken from the `page` parameter of the `last` URL. */
  function LastPageTotal(last: string, pageOf: string -> QueryLookup): (r: Result<PageValue, ListError>)
    ensures r.Failure? <==> pageOf(last).InvalidUrl?
    ensures r.Failure? ==> r.error == Threw(UrlThrew(last))
    ensures r.Success? ==> !r.value.PageNumber?
    ensures r.Success? && r.value.PageText? ==> pageOf(last) == Page(r.value.text)
    ensures pageOf(last).Page? ==> r == Success(PageText(pageOf(last).value))
    ensures pageOf(last).NoPage? ==> r == Success(NullPage)
  {
    match pageOf(last)
    case InvalidUrl => Failure(Threw(UrlThrew(last)))
    case NoPage => Success(NullPage)
    case Page(p) => Success(PageText(p))
  }

  /**
    The totalPages a successful list response leads to, from the link header,
    the old totalPages and the OLD currentPage (currentPage is only updated
    after this), or the TypeError thrown on the way.
   */
  function TotalPagesAfter(link: Option<string>, total: PageValue, current: int,
                           pageOf: string -> QueryLookup): (r: Result<PageValue, ListError>)
    ensures link.None? || link == Some("") ==> r == Success(total)
    ensures r.Failure? ==> r.error.Threw?
    ensures r.Failure? && r.error.thrown.LinkThrew? ==> ParseLinks(link.value) == Failure(r.error.thrown.fault)
    ensures r.Success? && r.value != total ==>
      r.value == PageNumber(current) || r.value.PageText? || r.value.NullPage?
  {
    if link.None? || link.value == "" then Success(total)
    else
      match ParseLinks(link.value)
      case Failure(f) => Failure(Threw(LinkThrew(f)))
      case Success(links) =>
        if HasLink(links, "last") then LastPageTotal(links["last"], pageOf)
        else if HasLink(links, "prev") && !HasLink(links, "next") then Success(PageNumber(current))
        else Success(total)
  }

  /** The totalPages a list call leads to, or why it fails. */
  function ListFetch(outcome: Outcome<seq<Repo>>, total: PageValue, current: int,
                     pageOf: string -> QueryLookup): (r: Result<PageValue, ListError>)
    ensures r.Success? ==> outcome.Ok?
    ensures outcome.Err? ==> r == Failure(Rejected(outcome.failure))
    ensures r.Failure? && r.error.Threw? ==> outcome.Ok?
  {
    match outcome
    case Err(f) => Failure(Rejected(f))
    case Ok(_, headers) => TotalPagesAfter(headers.link, total, current, pageOf)
  }

  /** The rate-limit message; `time` is the reset time as local wall-clock text. */
  function RateLimitMessage(time: string): (m: string)
    ensures RateLimitPrefix <= m && m[|m| - 1] == '.'
    ensures m[|RateLimitPrefix|..|m| - 1] == time
  {
    RateLimitPrefix + time + "."
  }

  /**
    The error text of a failed list fetch. `describe` gives the message of a
    TypeError; `localTime` renders an x-ratelimit-reset header as toLocaleTimeString does.
   */
  function ListErrorText(e: ListError, describe: Thrown -> string,
                         localTime: Option<string> -> string): (text: string)
    ensures e.Threw? ==> text == describe(e.thrown)
    ensures e.Rejected? && e.failure.HttpError? && e.failure.status == 403 ==>
      text == RateLimitMessage(localTime(e.failure.headers.rateLimitReset))
    ensures e.Rejected? && !(e.failure.HttpError? && e.failure.status == 403) ==> text == e.failure.message
  {
    match e
    case Threw(t) => describe(t)
    case Rejected(f) =>
      if f.HttpError? && f.status == 403 then RateLimitMessage(localTime(f.headers.rateLimitReset))
      else f.message
  }

  // ---------------------------------------------------------------------------
  // the collection edits

  /** The description sent to the API: the given one (or "") followed by the project tag. */
  function TaggedDescription(draft: Fields): (d: string)
    ensures |d| > |ProjectIdentifier| && d[|d| - |ProjectIdentifier|..] == ProjectIdentifier
    ensures d[|d| - |ProjectIdentifier| - 1] == ' '
    ensures d[..|d| - |ProjectIdentifier| - 1] == (if "description" in draft then draft["description"] else "")
  {
    (if "description" in draft then draft["description"] else "") + " " + ProjectIdentifier
  }

  /** The creation payload: the draft's fields with the description replaced by the tagged one. */
  function CreatePayload(draft: Fields): (body: Fields)
    ensures body.Keys == draft.Keys + {"description"}
    ensures forall k :: k in draft && k != "description" ==> body[k] == draft[k]
  {
    draft["description" := TaggedDescription(draft)]
  }

  /** The description without the project tag, if it carries one. */
  function Untagged(description: string): (given: Option<string>)
    ensures given.Some? ==> given.value + " " + ProjectIdentifier == description
  {
    var tag := " " + ProjectIdentifier;
    if |tag| <= |description| && description[|description| - |tag|..] == tag then
      assert description == description[..|description| - |tag|] + description[|description| - |tag|..];
      Some(description[..|description| - |tag|])
    else None
  }

  /** findIndex on the name: the first position holding `name`, or -1. */
  function FindIndex(rs: seq<Repo>, name: string): (i: int)
    ensures -1 <= i < |rs|
    ensures i == -1 <==> forall j :: 0 <= j < |rs| ==> rs[j].name != name
    ensures 0 <= i ==> rs[i].name == name && forall j :: 0 <= j < i ==> rs[j].name != name
    decreases |rs|
  {
    if rs == [] then -1
    else if rs[0].name == name then 0
    else
      var k := FindIndex(rs[1..], name);
      if k == -1 then -1 else k + 1
  }

  /** The list after editRepo: the first entry named `name` replaced by r, if there is one. */
  function ReplaceFirstNamed(rs: seq<Repo>, name: string, r: Repo): (out: seq<Repo>)
    ensures |out| == |rs|
    ensures (forall j :: 0 <= j < |rs| ==> rs[j].name != name) ==> out == rs
    ensures forall i ::
      (0 <= i < |rs| && rs[i].name == name && forall j :: 0 <= j < i ==> rs[j].name != name)
      ==> out == rs[i := r]
  {
    var i := FindIndex(rs, name);
    if i == -1 then rs else rs[i := r]
  }

  /** filter on the name: every entry not named `name`. */
  function WithoutName(rs: seq<Repo>, name: string): (out: seq<Repo>)
    ensures forall r :: r in out <==> r in rs && r.name != name
    ensures |out| <= |rs|
    decreases |rs|
  {
    if rs == [] then []
    else
      assert forall r :: r in rs <==> r == rs[0] || r in rs[1..];
      (if rs[0].name == name then [] else [rs[0]]) + WithoutName(rs[1..], name)
  }

  // ---------------------------------------------------------------------------
  // what the pure parts promise

  /** A `last` link decides totalPages, whatever totalPages and currentPage were. */
  lemma LastLinkDecidesTotal(ls: seq<Link>, total: PageValue, current: int,
                             pageOf: string -> QueryLookup)
    requires |ls| >= 1 && forall j :: 0 <= j < |ls| ==> WellFormed(ls[j])
    requires LastUrl(ls, "last").Some? && LastUrl(ls, "last").value != ""
    ensures TotalPagesAfter(Some(Render(ls)), total, current, pageOf)
         == LastPageTotal(LastUrl(ls, "last").value, pageOf)
  {
    RenderedLinks(ls, "last");
    var links := ParseLinks(Render(ls)).value;
    assert HasLink(links, "last") && links["last"] == LastUrl(ls, "last").value;
  }

  /** With `prev` but no `next` (and no `last`), totalPages becomes the currentPage held before the call. */
  lemma PrevWithoutNextUsesCurrent(ls: seq<Link>, total: PageValue, current: int,
                                   pageOf: string -> QueryLookup)
    requires |ls| >= 1 && forall j :: 0 <= j < |ls| ==> WellFormed(ls[j])
    requires LastUrl(ls, "last").None? || LastUrl(ls, "last").value == ""
    requires LastUrl(ls, "prev").Some? && LastUrl(ls, "prev").value != ""
    requires LastUrl(ls, "next").None? || LastUrl(ls, "next").value == ""
    ensures TotalPagesAfter(Some(Render(ls)), total, current, pageOf) == Success(PageNumber(current))
  {
    RenderedLinks(ls, "last");
    RenderedLinks(ls, "prev");
    RenderedLinks(ls, "next");
  }

  /** When neither rule fires, totalPages keeps its value. */
  lemma NeitherRuleKeepsTotal(ls: seq<Link>, total: PageValue, current: int,
                              pageOf: string -> QueryLookup)
    requires |ls| >= 1 && forall j :: 0 <= j < |ls| ==> WellFormed(ls[j])
    requires LastUrl(ls, "last").None? || LastUrl(ls, "last").value == ""
    requires LastUrl(ls, "prev").None? || LastUrl(ls, "prev").value == ""
             || (LastUrl(ls, "next").Some? && LastUrl(ls, "next").value != "")
    ensures TotalPagesAfter(Some(Render(ls)), total, current, pageOf) == Success(total)
  {
    RenderedLinks(ls, "last");
    RenderedLinks(ls, "prev");
    RenderedLinks(ls, "next");
  }

  /** Without a (non-empty) link header, totalPages keeps its value. */
  lemma NoHeaderKeepsTotal(link: Option<string>, total: PageValue, current: int,
                           pageOf: string -> QueryLookup)
    requires link.None? || link.value == ""
    ensures TotalPagesAfter(link, total, current, pageOf) == Success(total)
  {
  }

  /** An entry without ';' throws, unless an earlier entry already threw. */
  lemma EntryWithoutSemicolonThrows(header: string, j: nat, total: PageValue, current: int,
                                    pageOf: string -> QueryLookup)
    requires header != ""
    requires j < |Split(header, ',')| && ';' !in Split(header, ',')[j]
    requires forall i :: 0 <= i < j ==> ParseEntry(Split(header, ',')[i]).Success?
    ensures TotalPagesAfter(Some(header), total, current, pageOf)
         == Failure(Threw(LinkThrew(MissingRel(Split(header, ',')[j]))))
  {
    var entries := Split(header, ',');
    SplitWhole(entries[j], ';');
    FoldFirstFault(entries, j);
  }

  /** The rendered header's dictionary holds each relation's last URL, and the header is not empty. */
  lemma RenderedLinks(ls: seq<Link>, rel: string)
    requires |ls| >= 1 && forall j :: 0 <= j < |ls| ==> WellFormed(ls[j])
    ensures Render(ls) != ""
    ensures ParseLinks(Render(ls)).Success?
    ensures HasLink(ParseLinks(Render(ls)).value, rel)
        <==> LastUrl(ls, rel).Some? && LastUrl(ls, rel).value != ""
    ensures HasLink(ParseLinks(Render(ls)).value, rel)
        ==> ParseLinks(Render(ls)).value[rel] == LastUrl(ls, rel).value
  {
    ParseRendered(ls);
    BindingsAreLastUrls(ls, rel);
  }

  /**
    Page 1 of a three-page listing announces `next` and `last`: totalPages
    becomes the `page` parameter of the `last` URL.
   */
  lemma FirstPageScenario(next: string, last: string, pageOf: string -> QueryLookup)
    requires PlainFrom(next, 0, ",;<>") && PlainFrom(last, 0, ",;<>") && last != ""
    requires pageOf(last) == Page("3")
    ensures TotalPagesAfter(Some(Render([Link(next, "next"), Link(last, "last")])),
                            PageNumber(1), 1, pageOf) == Success(PageText("3"))
  {
    var ls := [Link(next, "next"), Link(last, "last")];
    CheckWellFormed(ls[0]);
    CheckWellFormed(ls[1]);
    LastUrlOfPair(ls[0], ls[1], "last");
    LastLinkDecidesTotal(ls, PageNumber(1), 1, pageOf);
  }

  /**
    Page 3 of that listing, fetched next, announces only `prev` and `first`:
    totalPages becomes the currentPage held before the call, 1, not 3.
   */
  lemma LastPageScenario(prev: string, first: string, pageOf: string -> QueryLookup)
    requires PlainFrom(prev, 0, ",;<>") && PlainFrom(first, 0, ",;<>") && prev != ""
    ensures TotalPagesAfter(Some(Render([Link(prev, "prev"), Link(first, "first")])),
                            PageText("3"), 1, pageOf) == Success(PageNumber(1))
  {
    var ls := [Link(prev, "prev"), Link(first, "first")];
    CheckWellFormed(ls[0]);
    CheckWellFormed(ls[1]);
    LastUrlOfPair(ls[0], ls[1], "prev");
    LastUrlOfPair(ls[0], ls[1], "last");
    LastUrlOfPair(ls[0], ls[1], "next");
    PrevWithoutNextUsesCurrent(ls, PageText("3"), 1, pageOf);
  }

  /** The tagged description ends with the tag, and removing it gives back the given description. */
  lemma TagRoundTrip(draft: Fields)
    ensures Untagged(CreatePayload(draft)["description"])
         == Some(if "description" in draft then draft["description"] else "")
  {
    var d := TaggedDescription(draft);
    assert CreatePayload(draft)["description"] == d;
    var n := |d| - |ProjectIdentifier| - 1;
    assert d[n..] == [d[n]] + d[n + 1..];
    assert d[n..] == " " + ProjectIdentifier;
  }

  /** Removal keeps every other entry as often as it occurred. */
  lemma {:induction false} WithoutNameCounts(rs: seq<Repo>, name: string, r: Repo)
    ensures multiset(WithoutName(rs, name))[r] == if r.name == name then 0 else multiset(rs)[r]
    decreases |rs|
  {
    if rs != [] {
      assert rs == [rs[0]] + rs[1..];
      WithoutNameCounts(rs[1..], name, r);
    }
  }

  /** Removal works piecewise, so the kept entries stay in their order. */
  lemma {:induction false} WithoutNameAppend(a: seq<Repo>, b: seq<Repo>, name: string)
    ensures WithoutName(a + b, name) == WithoutName(a, name) + WithoutName(b, name)
    decreases |a|
  {
    if a == [] {
      assert a + b == b;
    } else {
      assert (a + b)[0] == a[0] && (a + b)[1..] == a[1..] + b;
      WithoutNameAppend(a[1..], b, name);
    }
  }

  /** Deleting a name that is not in the list changes nothing. */
  lemma {:induction false} WithoutAbsentName(rs: seq<Repo>, name: string)
    requires forall j :: 0 <= j < |rs| ==> rs[j].name != name
    ensures WithoutName(rs, name) == rs
    decreases |rs|
  {
    if rs != [] {
      assert forall j :: 0 <= j < |rs| - 1 ==> rs[1..][j] == rs[j + 1];
      WithoutAbsentName(rs[1..], name);
    }
  }

  // ---------------------------------------------------------------------------
  // the store

  class RepoListStore {
    var repos: seq<Repo>
    var loading: bool
    var error: Option<string>
    var currentPage: int
    var totalPages: PageValue
    var rateLimitRemaining: Option<string>
    var rateLimitReset: Option<string>

    constructor ()
      ensures repos == [] && !loading && error == None
      ensures currentPage == 1 && totalPages == PageNumber(1)
      ensures rateLimitRemaining == None && rateLimitReset == None
    {
      repos := [];
      loading := false;
      error := None;
      currentPage := 1;
      totalPages := PageNumber(1);
      rateLimitRemaining := None;
      rateLimitReset := None;
    }

    /** fetchRepos(page), the list call answering with `outcome`. */
    method FetchRepos(page: int, outcome: Outcome<seq<Repo>>, pageOf: string -> QueryLookup,
                      describe: Thrown -> string, localTime: Option<string> -> string)
      returns (sent: Request)
      modifies this
      ensures sent == ListRepos(page, PerPage)
      ensures !loading
      ensures match ListFetch(outcome, old(totalPages), old(currentPage), pageOf)
        case Success(total) =>
          repos == outcome.data && currentPage == page && totalPages == total
          && rateLimitRemaining == outcome.headers.rateLimitRemaining
          && rateLimitReset == outcome.headers.rateLimitReset
          && error == None
        case Failure(e) =>
          repos == old(repos) && currentPage == old(currentPage) && totalPages == old(totalPages)
          && rateLimitRemaining == old(rateLimitRemaining) && rateLimitReset == old(rateLimitReset)
          && error == Some(ListErrorText(e, describe, localTime))
    {
      loading := true;
      error := None;
      sent := ListRepos(page, PerPage);
      match outcome {
        case Ok(data, headers) =>
          var pages := TotalPagesAfter(headers.link, totalPages, currentPage, pageOf);
          if pages.Success? {
            totalPages := pages.value;
            rateLimitRemaining := headers.rateLimitRemaining;
            rateLimitReset := headers.rateLimitReset;
            repos := data;
            currentPage := page;
          } else {
            error := Some(ListErrorText(pages.error, describe, localTime));
          }
        case Err(failure) =>
          error := Some(ListErrorText(Rejected(failure), describe, localTime));
      }
      loading := false;
    }

    /** createRepo(draft), the creation call answering with `outcome`. */
    method CreateRepo(draft: Fields, outcome: Outcome<Repo>) returns (sent: Request)
      modifies this
      ensures sent == Request.CreateRepo(CreatePayload(draft))
      ensures !loading
      ensures outcome.Ok? ==> repos == [outcome.data] + old(repos) && error == None
      ensures outcome.Err? ==> repos == old(repos) && error == Some(outcome.failure.message)
      ensures currentPage == old(currentPage) && totalPages == old(totalPages)
      ensures rateLimitRemaining == old(rateLimitRemaining) && rateLimitReset == old(rateLimitReset)
    {
      loading := true;
      error := None;
      sent := Request.CreateRepo(CreatePayload(draft));
      match outcome {
        case Ok(created, _) => repos := [created] + repos;
        case Err(failure) => error := Some(failure.message);
      }
      loading := false;
    }

    /** editRepo(name, patch), the update call answering with `outcome`. */
    method EditRepo(name: string, patch: Fields, outcome: Outcome<Repo>) returns (sent: Request)
      modifies this
      ensures sent == PatchRepo(name, patch)
      ensures !loading
      ensures outcome.Ok? ==> repos == ReplaceFirstNamed(old(repos), name, outcome.data) && error == None
      ensures outcome.Err? ==> repos == old(repos) && error == Some(outcome.failure.message)
      ensures currentPage == old(currentPage) && totalPages == old(totalPages)
      ensures rateLimitRemaining == old(rateLimitRemaining) && rateLimitReset == old(rateLimitReset)
    {
      loading := true;
      error := None;
      sent := PatchRepo(name, patch);
      match outcome {
        case Ok(updated, _) =>
          var index := FindIndex(repos, name);
          if index != -1 {
            repos := repos[index := updated];
          }
        case Err(failure) => error := Some(failure.message);
      }
      loading := false;
    }

    /** deleteRepo(name), the delete call answering with `outcome`. */
    method DeleteRepo(name: string, outcome: Outcome<()>) returns (sent: Request)
      modifies this
      ensures sent == Request.DeleteRepo(name)
      ensures !loading
      ensures outcome.Ok? ==> repos == WithoutName(old(repos), name) && error == None
      ensures outcome.Err? ==> repos == old(repos) && error == Some(outcome.failure.message)
      ensures currentPage == old(currentPage) && totalPages == old(totalPages)
      ensures rateLimitRemaining == old(rateLimitRemaining) && rateLimitReset == old(rateLimitReset)
    {
      loading := true;
      error := None;
      sent := Request.DeleteRepo(name);
      match outcome {
        case Ok(_, _) => repos := WithoutName(repos, name);
        case Err(failure) => error := Some(failure.message);
      }
      loading := false;
    }
  }
}
