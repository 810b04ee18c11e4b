/**
  The pagination `Link` header parser of the repository list store: the header
  is a comma-separated list of `<url>; rel="name"` entries (section 3 of
  RFC 8288) folded left to right into a relation-to-URL dictionary, a later
  entry for the same relation overwriting an earlier one.
 */
module LinkHeader {
  import opened Wrappers
  import opened JsStrings

  /** The literal text the pattern /rel="(.*)"/ starts with. */
  const RelOpen: string := "rel=\""

  /** The TypeErrors an ill-formed entry throws inside the fold. */
  datatype Fault =
    | MissingRel(entry: string)  // the entry has no ';', so `rel` is undefined
    | NoRelMatch(rel: string)    // the pattern does not match, so match(...) is null

  // ---------------------------------------------------------------------------
  // the regular expression /rel="(.*)"/

  /** The first line terminator at or after j, or the end of s. */
  function LineEnd(s: string, j: nat): (e: nat)
    requires j <= |s|
    ensures j <= e <= |s|
    ensures e < |s| ==> IsLineTerminator(s[e])
    ensures forall k :: j <= k < e ==> !IsLineTerminator(s[k])
    decreases |s| - j
  {
    if j == |s| || IsLineTerminator(s[j]) then j else LineEnd(s, j + 1)
  }

  /** The last '"' in s[j..e], if there is one. */
  function LastQuote(s: string, j: nat, e: nat): (q: Option<nat>)
    requires j <= e <= |s|
    ensures q.Some? ==> j <= q.value < e && s[q.value] == '"'
    ensures q.Some? ==> forall k :: q.value < k < e ==> s[k] != '"'
    ensures q.None? ==> forall k :: j <= k < e ==> s[k] != '"'
    decreases e - j
  {
    if e == j then None else if s[e - 1] == '"' then Some(e - 1) else LastQuote(s, j, e - 1)
  }

  /**
    Whether the pattern matches starting at i, and if so where its closing quote
    is: `.*` is greedy but does not cross a line terminator, so the capture runs
    to the last quote before the end of the line.
   */
  function MatchAt(s: string, i: nat): (q: Option<nat>)
    requires i <= |s|
  {
    if i + |RelOpen| <= |s| && s[i..i + |RelOpen|] == RelOpen then
      LastQuote(s, i + |RelOpen|, LineEnd(s, i + |RelOpen|))
    else None
  }

  /** The leftmost match at or after `from`: its start and its closing quote. */
  function FindRel(s: string, from: nat): (r: Option<(nat, nat)>)
    requires from <= |s|
    ensures r.Some? ==> from <= r.value.0 <= |s| && MatchAt(s, r.value.0) == Some(r.value.1)
    ensures r.Some? ==> forall i :: from <= i < r.value.0 ==> MatchAt(s, i).None?
    ensures r.None? ==> forall i :: from <= i <= |s| ==> MatchAt(s, i).None?
    decreases |s| - from
  {
    match MatchAt(s, from)
    case Some(k) => Some((from, k))
    case None => if from == |s| then None else FindRel(s, from + 1)
  }

  /** rel.match(/rel="(.*)"/)[1], None where match returns null. */
  function RelCapture(rel: string): (c: Option<string>)
    ensures c.None? <==> FindRel(rel, 0).None?
    ensures c.Some? ==>
      var (i, k) := FindRel(rel, 0).value;
      k < |rel| && rel[i..k + 1] == RelOpen + c.value + "\""
    ensures c.Some? ==> forall ch :: ch in c.value ==> !IsLineTerminator(ch) && ch in rel
  {
    match FindRel(rel, 0)
    case None => None
    case Some((i, k)) =>
      MatchedCapture(rel, i, k);
      Some(rel[i + |RelOpen|..k])
  }

  /** A match at i closing at k spans `rel="`, the capture and the quote, all on one line. */
  lemma MatchedCapture(s: string, i: nat, k: nat)
    requires i <= |s| && MatchAt(s, i) == Some(k)
    ensures i + |RelOpen| <= k < |s|
    ensures s[i..k + 1] == RelOpen + s[i + |RelOpen|..k] + "\""
    ensures forall ch :: ch in s[i + |RelOpen|..k] ==> !IsLineTerminator(ch) && ch in s
  {
    var j := i + |RelOpen|;
    var c := s[j..k];
    assert forall n :: 0 <= n < |c| ==> c[n] == s[j + n];
    assert s[i..k + 1] == s[i..j] + c + [s[k]];
  }

  /** A relation parameter written as `rel="r"` is captured back as r. */
  lemma RelCaptureOfParam(r: string)
    requires forall ch :: ch in r ==> ch != '"' && !IsLineTerminator(ch)
    ensures RelCapture(" " + RelOpen + r + "\"") == Some(r)
  {
    var s := " " + RelOpen + r + "\"";
    var j := 1 + |RelOpen|;
    assert s[1..j] == RelOpen;
    assert s[j..|s| - 1] == r;
    assert MatchAt(s, 0).None? by {
      assert s[0..|RelOpen|][0] == ' ';
    }
    assert forall k :: j <= k < |s| - 1 ==> s[k] == r[k - j];
    assert LineEnd(s, j) == |s| by {
      forall k | j <= k < |s| ensures !IsLineTerminator(s[k]) {
        if k < |s| - 1 { assert s[k] in r; }
      }
    }
    assert forall k :: j <= k < |s| - 1 ==> s[k] != '"' by {
      forall k | j <= k < |s| - 1 ensures s[k] != '"' { assert s[k] in r; }
    }
    assert MatchAt(s, 1) == Some(|s| - 1);
  }

  // ---------------------------------------------------------------------------
  // one entry and the fold

  /** One entry: `const [url, rel] = link.split(";")`, then the captured relation and the bare URL. */
  function ParseEntry(link: string): (r: Result<(string, string), Fault>)
    ensures ';' !in link ==> r == Failure(MissingRel(link))
    ensures ';' in link && r.Failure? ==> r.error.NoRelMatch? && RelCapture(r.error.rel).None?
    ensures r.Success? ==> forall ch :: ch in r.value.0 ==> !IsLineTerminator(ch)
    ensures r.Success? ==> forall ch :: ch in r.value.1 ==> !IsAngle(ch)
  {
    var parts := Split(link, ';');
    if |parts| < 2 then
      assert ';' !in link by {
        assert parts == [parts[0]];
        assert Join(parts, ';') == parts[0];
      }
      Failure(MissingRel(link))
    else
      match RelCapture(parts[1])
      case None => Failure(NoRelMatch(parts[1]))
      case Some(rel) => Success((rel, StripAngles(Trim(parts[0]))))
  }

  /**
    An entry with a ';' throws exactly when its second piece does not match
    the pattern, and the thrown error carries that piece.
   */
  lemma ParseEntryWithSemicolon(link: string)
    requires ';' in link
    ensures |Split(link, ';')| >= 2
    ensures ParseEntry(link).Failure? <==> RelCapture(Split(link, ';')[1]).None?
    ensures ParseEntry(link).Failure? ==> ParseEntry(link).error == NoRelMatch(Split(link, ';')[1])
  {
  }

  /**
    The reduce over the entries: the dictionary after each of them, or the first throw.
    It succeeds exactly when every entry parses, and a failure is some entry's fault.
   */
  function FoldEntries(entries: seq<string>): (r: Result<map<string, string>, Fault>)
    ensures (forall j :: 0 <= j < |entries| ==> ParseEntry(entries[j]).Success?) ==> r.Success?
    ensures r.Failure? ==> exists j :: 0 <= j < |entries| && ParseEntry(entries[j]) == Failure(r.error)
    decreases |entries|
  {
    if entries == [] then Success(map[])
    else
      var n := |entries| - 1;
      var prefix := entries[..n];
      assert forall j :: 0 <= j < n ==> prefix[j] == entries[j];
      var last := ParseEntry(entries[n]);
      match FoldEntries(prefix)
      case Failure(f) => Failure(f)
      case Success(acc) =>
        if last.Failure? then Failure(last.error)
        else Success(acc[last.value.0 := last.value.1])
  }

  /** linkHeader.split(",").reduce(...) */
  function ParseLinks(header: string): (r: Result<map<string, string>, Fault>)
    ensures ',' !in header ==> (r.Success? <==> ParseEntry(header).Success?)
    ensures r.Failure? ==> exists e :: e in Split(header, ',') && ParseEntry(e) == Failure(r.error)
  {
    assert ',' !in header ==> Split(header, ',') == [header] by {
      if ',' !in header { SplitWhole(header, ','); }
    }
    FoldEntries(Split(header, ','))
  }

  /** The dictionary a sequence of (relation, url) pairs builds, the last pair for a relation winning. */
  function Bindings(ps: seq<(string, string)>): (m: map<string, string>)
    ensures forall k :: k in m <==> exists j :: 0 <= j < |ps| && ps[j].0 == k
    decreases |ps|
  {
    if ps == [] then map[]
    else
      var n := |ps| - 1;
      var m := Bindings(ps[..n])[ps[n].0 := ps[n].1];
      assert forall j :: 0 <= j < n ==> ps[..n][j] == ps[j];
      m
  }

  /** A pair that no later pair overrides gives the value of its relation. */
  lemma {:induction false} BindingsLastWins(ps: seq<(string, string)>, j: nat)
    requires j < |ps|
    requires forall i :: j < i < |ps| ==> ps[i].0 != ps[j].0
    ensures ps[j].0 in Bindings(ps) && Bindings(ps)[ps[j].0] == ps[j].1
    decreases |ps|
  {
    var n := |ps| - 1;
    assert Bindings(ps) == Bindings(ps[..n])[ps[n].0 := ps[n].1];
    if j < n {
      var prefix := ps[..n];
      assert prefix[j] == ps[j];
      assert forall i :: j < i < n ==> prefix[i] == ps[i];
      BindingsLastWins(prefix, j);
    }
  }

  ghost predicate AllParse(entries: seq<string>) {
    forall j :: 0 <= j < |entries| ==> ParseEntry(entries[j]).Success?
  }

  ghost function Pairs(entries: seq<string>): (ps: seq<(string, string)>)
    requires AllParse(entries)
    ensures |ps| == |entries|
    ensures forall j :: 0 <= j < |entries| ==> ParseEntry(entries[j]) == Success(ps[j])
  {
    seq(|entries|, j requires 0 <= j < |entries| => ParseEntry(entries[j]).value)
  }

  /** Every prefix of entries that all parse parses too, to the prefix of the pairs. */
  lemma PrefixParses(entries: seq<string>, n: nat)
    requires AllParse(entries) && n <= |entries|
    ensures AllParse(entries[..n]) && Pairs(entries[..n]) == Pairs(entries)[..n]
  {
    var prefix := entries[..n];
    forall j | 0 <= j < n ensures ParseEntry(prefix[j]) == ParseEntry(entries[j]) {
      assert prefix[j] == entries[j];
    }
  }

  /** One step of the fold: the last entry's pair is written over the dictionary so far. */
  lemma FoldStep(entries: seq<string>, acc: map<string, string>, binding: (string, string))
    requires entries != [] && FoldEntries(entries[..|entries| - 1]) == Success(acc)
    requires ParseEntry(entries[|entries| - 1]) == Success(binding)
    ensures FoldEntries(entries) == Success(acc[binding.0 := binding.1])
  {
  }

  /** When every entry parses, the fold yields the dictionary of their pairs. */
  lemma {:induction false} FoldAllParse(entries: seq<string>)
    requires AllParse(entries)
    ensures FoldEntries(entries) == Success(Bindings(Pairs(entries)))
    decreases |entries|
  {
    if entries != [] {
      var n := |entries| - 1;
      var prefix := entries[..n];
      PrefixParses(entries, n);
      FoldAllParse(prefix);
      var ps := Pairs(entries);
      FoldStep(entries, Bindings(ps[..n]), ps[n]);
      assert Bindings(ps) == Bindings(ps[..n])[ps[n].0 := ps[n].1];
    }
  }

  /** Once the fold has thrown, the entries after that are not looked at. */
  lemma FoldKeepsFault(entries: seq<string>)
    requires entries != [] && FoldEntries(entries[..|entries| - 1]).Failure?
    ensures FoldEntries(entries) == FoldEntries(entries[..|entries| - 1])
  {
  }

  /** The fold over entries whose first n all parse gets past those n. */
  lemma FoldPrefixSucceeds(entries: seq<string>, n: nat)
    requires n <= |entries|
    requires forall i :: 0 <= i < n ==> ParseEntry(entries[i]).Success?
    ensures FoldEntries(entries[..n]).Success?
  {
    var prefix := entries[..n];
    forall i | 0 <= i < n ensures ParseEntry(prefix[i]).Success? {
      assert prefix[i] == entries[i];
    }
  }

  /** One step of the fold: a throwing last entry after a successful prefix is the fold's fault. */
  lemma FoldFaultStep(entries: seq<string>)
    requires entries != [] && FoldEntries(entries[..|entries| - 1]).Success?
    requires ParseEntry(entries[|entries| - 1]).Failure?
    ensures FoldEntries(entries) == Failure(ParseEntry(entries[|entries| - 1]).error)
  {
  }

  /** The last entry throws after every earlier one parsed: its fault is the fold's. */
  lemma FoldFaultAtEnd(entries: seq<string>)
    requires entries != [] && ParseEntry(entries[|entries| - 1]).Failure?
    requires forall i :: 0 <= i < |entries| - 1 ==> ParseEntry(entries[i]).Success?
    ensures FoldEntries(entries) == Failure(ParseEntry(entries[|entries| - 1]).error)
  {
    FoldPrefixSucceeds(entries, |entries| - 1);
    FoldFaultStep(entries);
  }

  /** The first entry that throws decides the outcome of the fold. */
  lemma {:induction false} FoldFirstFault(entries: seq<string>, j: nat)
    requires j < |entries| && ParseEntry(entries[j]).Failure?
    requires forall i :: 0 <= i < j ==> ParseEntry(entries[i]).Success?
    ensures FoldEntries(entries) == Failure(ParseEntry(entries[j]).error)
    decreases |entries|
  {
    var n := |entries| - 1;
    if j == n {
      FoldFaultAtEnd(entries);
    } else {
      var prefix := entries[..n];
      assert prefix[j] == entries[j];
      assert forall i :: 0 <= i < j ==> prefix[i] == entries[i];
      FoldFirstFault(prefix, j);
      FoldKeepsFault(entries);
    }
  }

  // ---------------------------------------------------------------------------
  // headers written in the RFC 8288 form

  datatype Link = Link(url: string, rel: string)

  /** A URL and a relation that the header syntax can carry without escaping. */
  ghost predicate WellFormed(l: Link) {
    (forall c :: c in l.url ==> c != ',' && c != ';' && !IsAngle(c))
    && (forall c :: c in l.rel ==> c != ',' && c != ';' && c != '"' && !IsLineTerminator(c))
  }

  /** A character-by-character check of WellFormed, which Dafny can evaluate on literals. */
  predicate PlainFrom(s: string, i: nat, banned: string)
    requires i <= |s|
    decreases |s| - i
  {
    i == |s| || (s[i] !in banned && PlainFrom(s, i + 1, banned))
  }

  lemma {:induction false} PlainFromAvoids(s: string, i: nat, banned: string, k: nat)
    requires i <= k < |s| && PlainFrom(s, i, banned)
    ensures s[k] !in banned
    decreases k - i
  {
    if i < k {
      PlainFromAvoids(s, i + 1, banned, k);
    }
  }

  /** A link with a plain URL and a lower-case relation name (the registered relations are). */
  lemma CheckWellFormed(l: Link)
    requires PlainFrom(l.url, 0, ",;<>")
    requires forall c :: c in l.rel ==> 'a' <= c <= 'z'
    ensures WellFormed(l)
  {
    forall k | 0 <= k < |l.url| ensures l.url[k] !in ",;<>" {
      PlainFromAvoids(l.url, 0, ",;<>", k);
    }
  }

  /** One link as a server writes it: `<url>; rel="name"`. */
  function FormatLink(l: Link): string {
    "<" + l.url + ">;" + " " + RelOpen + l.rel + "\""
  }

  /** The i-th entry of a header: links after the first follow a ", " separator. */
  function Entry(ls: seq<Link>, i: nat): string
    requires i < |ls|
  {
    (if i == 0 then "" else " ") + FormatLink(ls[i])
  }

  /** The entries of the header for ls, in order. */
  function Entries(ls: seq<Link>): (es: seq<string>)
    ensures |es| == |ls|
    ensures forall i :: 0 <= i < |ls| ==> es[i] == Entry(ls, i)
  {
    seq(|ls|, i requires 0 <= i < |ls| => Entry(ls, i))
  }

  /** The header text for a non-empty list of links, `<a>; rel="x", <b>; rel="y"`. */
  function Render(ls: seq<Link>): (h: string)
    requires |ls| >= 1
    ensures FormatLink(ls[0]) <= h
  {
    var entries := Entries(ls);
    JoinStartsWithFirst(entries, ',');
    Join(entries, ',')
  }

  /** The URL of the last link with relation rel: the value the dictionary should hold. */
  function LastUrl(ls: seq<Link>, rel: string): (u: Option<string>)
    ensures u.Some? <==> exists j :: 0 <= j < |ls| && ls[j].rel == rel
    decreases |ls|
  {
    if ls == [] then None
    else
      var n := |ls| - 1;
      assert forall j :: 0 <= j < n ==> ls[..n][j] == ls[j];
      if ls[n].rel == rel then Some(ls[n].url) else LastUrl(ls[..n], rel)
  }

  /** LastUrl of a two-link header. */
  lemma LastUrlOfPair(a: Link, b: Link, rel: string)
    ensures LastUrl([a, b], rel)
         == if b.rel == rel then Some(b.url) else if a.rel == rel then Some(a.url) else None
  {
    assert [a, b][..1] == [a];
    assert [a][..0] == [];
  }

  function LinkPairs(ls: seq<Link>): (ps: seq<(string, string)>)
    ensures |ps| == |ls|
    ensures forall j :: 0 <= j < |ls| ==> ps[j] == (ls[j].rel, ls[j].url)
  {
    seq(|ls|, i requires 0 <= i < |ls| => (ls[i].rel, ls[i].url))
  }

  /** Splitting an entry on ';' separates the URL part from the relation part. */
  lemma SplitFormatted(lead: string, l: Link)
    requires lead == "" || lead == " "
    requires WellFormed(l)
    ensures Split(lead + FormatLink(l), ';') == [lead + ("<" + l.url + ">"), " " + RelOpen + l.rel + "\""]
  {
    var a := lead + ("<" + l.url + ">");
    var b := " " + RelOpen + l.rel + "\"";
    var u := |lead| + 1;
    assert lead + FormatLink(l) == a + [';'] + b;
    assert ';' !in a by {
      forall k | 0 <= k < |a| ensures a[k] != ';' {
        if u <= k < |a| - 1 { assert a[k] == l.url[k - u]; assert a[k] in l.url; }
      }
    }
    assert ';' !in b by {
      forall k | 0 <= k < |b| ensures b[k] != ';' {
        if 1 + |RelOpen| <= k < |b| - 1 {
          assert b[k] == l.rel[k - 1 - |RelOpen|];
          assert b[k] in l.rel;
        }
      }
    }
    SplitAtFirst(a, b, ';');
    SplitWhole(b, ';');
  }

  /** Trimming `<url>`, with or without the space after a comma, leaves `<url>`. */
  lemma TrimBracketed(lead: string, url: string)
    requires lead == "" || lead == " "
    ensures Trim(lead + ("<" + url + ">")) == "<" + url + ">"
  {
    var x := "<" + url + ">";
    assert x[0] == '<' && x[|x| - 1] == '>';
    TrimmedIsFixed(x);
    if lead == " " {
      TrimLeadingSpace(x);
    } else {
      assert lead + x == x;
    }
  }

  /** Stripping `<url>` leaves url. */
  lemma StripBracketed(url: string)
    requires forall c :: c in url ==> !IsAngle(c)
    ensures StripAngles("<" + url + ">") == url
  {
    assert "<" + url + ">" == "<" + (url + ">");
    StripAnglesAppend("<", url + ">");
    StripAnglesAppend(url, ">");
    StripAnglesFixed(url);
    assert StripAngles("<") == [] && StripAngles(">") == [];
    assert url + [] == url;
  }

  /** The URL part `<url>` of an entry is trimmed and stripped back to url. */
  lemma BareUrl(lead: string, url: string)
    requires lead == "" || lead == " "
    requires forall c :: c in url ==> !IsAngle(c)
    ensures StripAngles(Trim(lead + ("<" + url + ">"))) == url
  {
    TrimBracketed(lead, url);
    StripBracketed(url);
  }

  /** An entry parses back to its link's relation and URL. */
  lemma ParseFormatted(lead: string, l: Link)
    requires lead == "" || lead == " "
    requires WellFormed(l)
    ensures ParseEntry(lead + FormatLink(l)) == Success((l.rel, l.url))
  {
    SplitFormatted(lead, l);
    RelCaptureOfParam(l.rel);
    BareUrl(lead, l.url);
  }

  /** No entry of a header built from well-formed links contains a comma. */
  lemma EntryWithoutComma(ls: seq<Link>, i: nat)
    requires i < |ls| && WellFormed(ls[i])
    ensures ',' !in Entry(ls, i)
  {
    var p := Entry(ls, i);
    var l := ls[i];
    var v := if i == 0 then 1 else 2;
    var u := v + |l.url|;
    forall k | 0 <= k < |p| ensures p[k] != ',' {
      if v <= k < u { assert p[k] == l.url[k - v]; assert p[k] in l.url; }
      else if u + 3 + |RelOpen| <= k < |p| - 1 {
        assert p[k] == l.rel[k - u - 3 - |RelOpen|];
        assert p[k] in l.rel;
      }
    }
  }

  /** Every entry of a header built from well-formed links parses to its link's pair. */
  lemma EntriesParse(ls: seq<Link>)
    requires forall j :: 0 <= j < |ls| ==> WellFormed(ls[j])
    ensures AllParse(Entries(ls)) && Pairs(Entries(ls)) == LinkPairs(ls)
  {
    var entries := Entries(ls);
    forall j | 0 <= j < |entries| ensures ParseEntry(entries[j]) == Success(LinkPairs(ls)[j]) {
      ParseFormatted(if j == 0 then "" else " ", ls[j]);
    }
  }

  /** Parsing a rendered header gives the dictionary of its links, last one winning. */
  lemma ParseRendered(ls: seq<Link>)
    requires |ls| >= 1
    requires forall j :: 0 <= j < |ls| ==> WellFormed(ls[j])
    ensures ParseLinks(Render(ls)) == Success(Bindings(LinkPairs(ls)))
  {
    var entries := Entries(ls);
    forall p | p in entries ensures ',' !in p {
      var j :| 0 <= j < |entries| && entries[j] == p;
      EntryWithoutComma(ls, j);
    }
    SplitJoin(entries, ',');
    EntriesParse(ls);
    FoldAllParse(entries);
  }

  /** The dictionary of a list of links holds exactly each relation's last URL. */
  lemma {:induction false} BindingsAreLastUrls(ls: seq<Link>, rel: string)
    ensures rel in Bindings(LinkPairs(ls)) <==> LastUrl(ls, rel).Some?
    ensures rel in Bindings(LinkPairs(ls)) ==> Bindings(LinkPairs(ls))[rel] == LastUrl(ls, rel).value
    decreases |ls|
  {
    if ls != [] {
      var n := |ls| - 1;
      assert LinkPairs(ls)[..n] == LinkPairs(ls[..n]);
      BindingsAreLastUrls(ls[..n], rel);
    }
  }
}
