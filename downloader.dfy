/** The download driver: classification of each reference, the project
    page lookup and the hand-off to the browser.

    The browser is reduced to two logs: the addresses loaded to read a
    project page (`driver.get`) and the addresses opened in a new window to
    start a download (`download_file`). What a page shows is a fixed
    function of its address. */
module Downloader {
  import opened Results
  import opened Strings
  import opened Flatten
  import opened Classify
  import opened Rewrite
  import opened Versions

  /** Why a run stops: the mod list could not be flattened, a reference was
      not a string (`re.match` raises TypeError), or the selection loop
      raised. */
  datatype Failure = FlattenFailed(flat: FlatError) | NotAString(lit: string) | SelectFailed(select: SelectError)

  /** What `parse_curse_url` returns for a project reference. */
  function CurseDownloadUrl(modUrl: string, versions: seq<string>, web: string -> Page): Result<string, SelectError> {
    if HasFilesId(modUrl) then Ok(DownloadUrl(modUrl))
    else match Select(Groups(web(modUrl)), versions, modUrl)
      case Err(e) => Err(e)
      case Ok(u) => Ok(DownloadUrl(u))
  }

  /** The address handed to `download_file` for one reference. */
  function Handle(ref: Atom, versions: seq<string>, web: string -> Page): Result<string, Failure> {
    match ref
    case Other(lit) => Err(NotAString(lit))
    case Text(s) =>
      if IsCurseProject(s) then
        match CurseDownloadUrl(s, versions, web)
        case Err(e) => Err(SelectFailed(e))
        case Ok(u) => Ok(u)
      else Ok(s)
  }

  /** The page loads made while handling one reference. */
  function Lookups(ref: Atom): seq<string> {
    match ref
    case Other(_) => []
    case Text(s) => if IsCurseProject(s) && !HasFilesId(s) then [s] else []
  }

  function LaunchedBy(refs: seq<Atom>, versions: seq<string>, web: string -> Page): seq<string>
    decreases |refs|
  {
    if refs == [] then []
    else
      var last := Handle(refs[|refs| - 1], versions, web);
      LaunchedBy(refs[..|refs| - 1], versions, web) + (if last.Ok? then [last.value] else [])
  }

  /** Every reference of `refs` is handed over without an exception. */
  predicate AllHandled(refs: seq<Atom>, versions: seq<string>, web: string -> Page)
    decreases |refs|
  {
    refs == [] || (AllHandled(refs[..|refs| - 1], versions, web) && Handle(refs[|refs| - 1], versions, web).Ok?)
  }

  lemma {:induction false} AllHandledAt(refs: seq<Atom>, versions: seq<string>, web: string -> Page)
    ensures AllHandled(refs, versions, web) <==> forall i | 0 <= i < |refs| :: Handle(refs[i], versions, web).Ok?
  {
    if AllHandled(refs, versions, web) {
      HandledEach(refs, versions, web);
    }
    if forall i | 0 <= i < |refs| :: Handle(refs[i], versions, web).Ok? {
      EachHandled(refs, versions, web);
    }
  }

  lemma {:induction false} HandledEach(refs: seq<Atom>, versions: seq<string>, web: string -> Page)
    requires AllHandled(refs, versions, web)
    ensures forall i | 0 <= i < |refs| :: Handle(refs[i], versions, web).Ok?
    decreases |refs|
  {
    if refs != [] {
      var n := |refs| - 1;
      var init := refs[..n];
      assert AllHandled(init, versions, web) && Handle(refs[n], versions, web).Ok?;
      HandledEach(init, versions, web);
      forall i | 0 <= i < |refs| ensures Handle(refs[i], versions, web).Ok? {
        if i < n { assert init[i] == refs[i]; } else { assert i == n; }
      }
    }
  }

  lemma {:induction false} EachHandled(refs: seq<Atom>, versions: seq<string>, web: string -> Page)
    requires forall i | 0 <= i < |refs| :: Handle(refs[i], versions, web).Ok?
    ensures AllHandled(refs, versions, web)
    decreases |refs|
  {
    if refs != [] {
      var n := |refs| - 1;
      var init := refs[..n];
      forall i | 0 <= i < n ensures Handle(init[i], versions, web).Ok? {
        assert init[i] == refs[i];
      }
      EachHandled(init, versions, web);
    }
  }


  lemma LaunchedSnoc(refs: seq<Atom>, versions: seq<string>, web: string -> Page)
    requires refs != [] && AllHandled(refs, versions, web)
    ensures AllHandled(refs[..|refs| - 1], versions, web)
    ensures LaunchedBy(refs, versions, web)
            == LaunchedBy(refs[..|refs| - 1], versions, web) + [Handle(refs[|refs| - 1], versions, web).value]
    ensures Handle(refs[|refs| - 1], versions, web).Ok?
  {
  }

  /** When every reference was handled, the downloads started are their
      addresses, one per reference, in the order they were visited. */
  lemma {:induction false} LaunchedInOrder(refs: seq<Atom>, versions: seq<string>, web: string -> Page)
    requires AllHandled(refs, versions, web)
    ensures |LaunchedBy(refs, versions, web)| == |refs|
    ensures forall i | 0 <= i < |refs| :: Handle(refs[i], versions, web) == Ok(LaunchedBy(refs, versions, web)[i])
    decreases |refs|
  {
    if refs != [] {
      var n := |refs| - 1;
      var init := refs[..n];
      LaunchedSnoc(refs, versions, web);
      LaunchedInOrder(init, versions, web);
      var all := LaunchedBy(refs, versions, web);
      var before := LaunchedBy(init, versions, web);
      var last := Handle(refs[n], versions, web);
      assert all == before + [last.value];
      forall i | 0 <= i < |refs|
        ensures Handle(refs[i], versions, web) == Ok(all[i])
      {
        if i < n {
          assert all[i] == before[i];
          assert Handle(init[i], versions, web) == Ok(before[i]);
          assert init[i] == refs[i];
        } else {
          assert all[i] == last.value;
        }
      }
    }
  }

  function LookupsOf(refs: seq<Atom>): seq<string>
    decreases |refs|
  {
    if refs == [] then [] else LookupsOf(refs[..|refs| - 1]) + Lookups(refs[|refs| - 1])
  }

  predicate Distinct<T(==)>(s: seq<T>) {
    forall i, j | 0 <= i < j < |s| :: s[i] != s[j]
  }

  lemma LogsSnoc(refs: seq<Atom>, ref: Atom, versions: seq<string>, web: string -> Page)
    ensures var h := Handle(ref, versions, web);
            LaunchedBy(refs + [ref], versions, web) == LaunchedBy(refs, versions, web) + (if h.Ok? then [h.value] else [])
    ensures LookupsOf(refs + [ref]) == LookupsOf(refs) + Lookups(ref)
    ensures AllHandled(refs + [ref], versions, web) <==> AllHandled(refs, versions, web) && Handle(ref, versions, web).Ok?
  {
    assert (refs + [ref])[..|refs|] == refs;
  }

  /** Handling one more reference extends both logs by what it does. */
  lemma LogStep(launched0: seq<string>, loads0: seq<string>, before: seq<Atom>, ref: Atom,
                r: Result<string, Failure>, launched: seq<string>, loads: seq<string>,
                versions: seq<string>, web: string -> Page)
    requires r == Handle(ref, versions, web)
    requires launched == launched0 + LaunchedBy(before, versions, web) + (if r.Ok? then [r.value] else [])
    requires loads == loads0 + LookupsOf(before) + Lookups(ref)
    ensures launched == launched0 + LaunchedBy(before + [ref], versions, web)
    ensures loads == loads0 + LookupsOf(before + [ref])
    ensures AllHandled(before + [ref], versions, web) <==> AllHandled(before, versions, web) && r.Ok?
  {
    LogsSnoc(before, ref, versions, web);
  }

  lemma DistinctSnoc<T>(s: seq<T>, x: T)
    requires Distinct(s) && x !in s
    ensures Distinct(s + [x])
  {
  }

  /** The visit of a set so far: `done` lists, without repetitions, exactly
      the members of `all` that are no longer `remaining`. */
  predicate Visited<T>(all: set<T>, remaining: set<T>, done: seq<T>) {
    remaining <= all && Distinct(done) &&
    (forall a | a in done :: a in all && a !in remaining) &&
    (forall a | a in all && a !in remaining :: a in done)
  }

  /** Visiting one more unvisited member keeps the visit consistent. */
  lemma VisitStep<T>(all: set<T>, remaining: set<T>, done: seq<T>, x: T)
    requires Visited(all, remaining, done) && x in remaining
    ensures Visited(all, remaining - {x}, done + [x])
  {
    DistinctSnoc(done, x);
  }

  /** In a sequence without repetitions, every element occurs exactly once. */
  lemma {:induction false} DistinctOnce<T>(s: seq<T>, x: T)
    requires Distinct(s) && x in s
    ensures multiset(s)[x] == 1
    decreases |s|
  {
    assert s == [s[0]] + s[1..];
    assert Distinct(s[1..]) by {
      forall i, j | 0 <= i < j < |s[1..]| ensures s[1..][i] != s[1..][j] {
        assert s[1..][i] == s[i + 1] && s[1..][j] == s[j + 1];
      }
    }
    if x == s[0] {
      assert x !in s[1..] by {
        forall i | 0 <= i < |s[1..]| ensures s[1..][i] != x { assert s[1..][i] == s[i + 1]; }
      }
      assert multiset(s[1..])[x] == 0;
    } else {
      DistinctOnce(s[1..], x);
    }
  }

  /** A reference with a file id is rewritten without consulting the web:
      any two webs give the same download address, which ends in `/file`. */
  lemma NoLookupWithFileId(modUrl: string, versions: seq<string>, web1: string -> Page, web2: string -> Page)
    requires HasFilesId(modUrl)
    ensures CurseDownloadUrl(modUrl, versions, web1) == CurseDownloadUrl(modUrl, versions, web2)
    ensures CurseDownloadUrl(modUrl, versions, web1).Ok?
    ensures var r := CurseDownloadUrl(modUrl, versions, web1).value; |r| >= 5 && r[|r| - 5..] == "/file"
  {
  }

  /** The download address of a project page: the newest file of the last
      listed group whose version is configured, else the page address
      itself, then rewritten; the lookup fails exactly when some group is
      not sound. */
  lemma CurseSelection(modUrl: string, versions: seq<string>, web: string -> Page)
    requires !HasFilesId(modUrl)
    ensures var gs := Groups(web(modUrl));
            CurseDownloadUrl(modUrl, versions, web).Ok? <==> forall i | 0 <= i < |gs| :: Sound(gs[i], versions)
    ensures var gs := Groups(web(modUrl));
            (forall i | 0 <= i < |gs| :: Sound(gs[i], versions) && !Kept(gs[i], versions)) ==>
            CurseDownloadUrl(modUrl, versions, web) == Ok(DownloadUrl(modUrl))
    ensures var gs := Groups(web(modUrl));
            forall j | 0 <= j < |gs| ::
              (forall i | 0 <= i < |gs| :: Sound(gs[i], versions)) &&
              Kept(gs[j], versions) && (forall i | j < i < |gs| :: !Kept(gs[i], versions)) ==>
              gs[j].files != [] && CurseDownloadUrl(modUrl, versions, web) == Ok(DownloadUrl(Newest(gs[j].files)))
  {
    var gs := Groups(web(modUrl));
    SelectOkIff(gs, versions, modUrl);
    if Select(gs, versions, modUrl).Ok? {
      SelectLastKept(gs, versions, modUrl);
    }
  }

  /** A reference that is not a project reference is handed over verbatim,
      with no page load. */
  lemma DirectLink(s: string, versions: seq<string>, web: string -> Page)
    requires !(StartsWith(s, "https") && MatchesAt(Tail(), s[5..]))
    requires !(StartsWith(s, "http") && MatchesAt(Tail(), s[4..]))
    ensures Handle(Text(s), versions, web) == Ok(s) && Lookups(Text(s)) == []
  {
    ProjectIff(s);
  }

  class MinecraftCurseModDownload {
    const web: string -> Page
    var pageLoads: seq<string>
    var launched: seq<string>

    constructor (web: string -> Page)
      ensures this.web == web && pageLoads == [] && launched == []
    {
      this.web := web;
      pageLoads := [];
      launched := [];
    }

    /** `download_file`: open `url` in a new window. */
    method DownloadFile(url: string)
      modifies this
      ensures launched == old(launched) + [url] && pageLoads == old(pageLoads)
    {
      launched := launched + [url];
    }

    /** `parse_curse_url`: unless the address already names a file, load the
        project page and keep the newest file of every configured version,
        the last one winning; then rewrite the address. */
    method ParseCurseUrl(modUrl: string, versions: seq<string>) returns (r: Result<string, SelectError>)
      modifies this
      ensures r == CurseDownloadUrl(modUrl, versions, web)
      ensures pageLoads == old(pageLoads) + (if HasFilesId(modUrl) then [] else [modUrl])
      ensures launched == old(launched)
    {
      var url := modUrl;
      if !HasFilesId(modUrl) {
        pageLoads := pageLoads + [modUrl];
        var groups := Groups(web(modUrl));
        var i := 0;
        while i < |groups|
          invariant 0 <= i <= |groups|
          invariant Select(groups, versions, modUrl) == Select(groups[i..], versions, url)
          invariant pageLoads == old(pageLoads) + [modUrl] && launched == old(launched)
        {
          assert groups[i..][0] == groups[i] && groups[i..][1..] == groups[i + 1..];
          var g := groups[i];
          var version := FirstVersion(g.title);
          if version.None? {
            r := Err(NoVersionInTitle(g.title));
            return;
          }
          if version.value in versions {
            if g.files == [] {
              r := Err(NoFiles(version.value));
              return;
            }
            url := g.files[FirstMax(g.files)].href;
          }
          i := i + 1;
        }
      }
      r := Ok(DownloadUrl(url));
    }

    /** The body of the loop in `download`: classify one reference and
        hand its download address to the browser. */
    method DownloadOne(ref: Atom, versions: seq<string>) returns (r: Result<string, Failure>)
      modifies this
      ensures r == Handle(ref, versions, web)
      ensures launched == old(launched) + (if r.Ok? then [r.value] else [])
      ensures pageLoads == old(pageLoads) + Lookups(ref)
    {
      match ref {
        case Other(lit) =>
          r := Err(NotAString(lit));
        case Text(s) =>
          if IsCurseProject(s) {
            var u := ParseCurseUrl(s, versions);
            if u.Err? {
              r := Err(SelectFailed(u.error));
            } else {
              DownloadFile(u.value);
              r := Ok(u.value);
            }
          } else {
            DownloadFile(s);
            r := Ok(s);
          }
      }
    }

    /** The loop of `download` over the set of references: each is handed
        over once, in an order the set chooses, until one fails. */
    method DownloadAll(refs: set<Atom>, versions: seq<string>) returns (processed: seq<Atom>, outcome: Result<(), Failure>)
      modifies this
      ensures Distinct(processed) && forall a | a in processed :: a in refs
      ensures outcome.Ok? ==> (forall a | a in refs :: a in processed) && AllHandled(processed, versions, web)
      ensures outcome.Err? ==>
                |processed| > 0 && Handle(processed[|processed| - 1], versions, web) == Err(outcome.error) &&
                AllHandled(processed[..|processed| - 1], versions, web)
      ensures launched == old(launched) + LaunchedBy(processed, versions, web)
      ensures pageLoads == old(pageLoads) + LookupsOf(processed)
    {
      processed := [];
      var remaining := refs;
      while remaining != {}
        invariant Visited(refs, remaining, processed)
        invariant AllHandled(processed, versions, web)
        invariant launched == old(launched) + LaunchedBy(processed, versions, web)
        invariant pageLoads == old(pageLoads) + LookupsOf(processed)
        decreases remaining
      {
        var ref :| ref in remaining;
        VisitStep(refs, remaining, processed, ref);
        remaining := remaining - {ref};
        ghost var before := processed;
        processed := processed + [ref];
        var r := DownloadOne(ref, versions);
        LogStep(old(launched), old(pageLoads), before, ref, r, launched, pageLoads, versions, web);
        if r.Err? {
          assert processed[..|processed| - 1] == before;
          outcome := Err(r.error);
          return;
        }
      }
      outcome := Ok(());
    }

    /** `download`: flatten the mod list, collect it into a set and hand
        each reference, once, to the browser, a project page through
        `ParseCurseUrl`. The first exception ends the run; `processed` is
        the order in which the set was visited, up to and including the
        reference that failed. */
    method Download(mods: Yaml, versions: seq<string>) returns (processed: seq<Atom>, outcome: Result<(), Failure>)
      modifies this
      ensures FlatGen(mods).Err? ==> processed == [] && outcome == Err(FlattenFailed(FlatGen(mods).error))
      ensures FlatGen(mods).Ok? ==> Distinct(processed) && forall a | a in processed :: a in RefSet(mods)
      ensures outcome.Ok? ==> FlatGen(mods).Ok? && forall a | a in RefSet(mods) :: multiset(processed)[a] == 1
      ensures outcome.Ok? ==> AllHandled(processed, versions, web)
      ensures outcome.Err? && FlatGen(mods).Ok? ==>
                |processed| > 0 && Handle(processed[|processed| - 1], versions, web) == Err(outcome.error) &&
                AllHandled(processed[..|processed| - 1], versions, web)
      ensures launched == old(launched) + LaunchedBy(processed, versions, web)
      ensures pageLoads == old(pageLoads) + LookupsOf(processed)
    {
      var flat := FlatGen(mods);
      if flat.Err? {
        processed, outcome := [], Err(FlattenFailed(flat.error));
        return;
      }
      processed, outcome := DownloadAll(RefSet(mods), versions);
      if outcome.Ok? {
        forall a | a in RefSet(mods) ensures multiset(processed)[a] == 1 {
          DistinctOnce(processed, a);
        }
      }
    }
  }
}
