/** The version-selection rule of `parse_curse_url`, with the page's DOM
    queries replaced by their results.

    The page lists file groups: a sub-header title per game version and,
    beside it, the recent files of that version, each with an upload epoch
    and a link. */
module Versions {
  import opened Strings
  import opened Results

  /** One `<li>` of a recent-files list: its `data-epoch` and its link. */
  datatype FileEntry = FileEntry(epoch: int, href: string)

  datatype Group = Group(title: string, files: seq<FileEntry>)

  /** What the project page shows: the sub-header titles and the
      recent-file lists, as two separate queries. */
  datatype Page = Page(titles: seq<string>, recent: seq<seq<FileEntry>>)

  /** The exceptions the selection loop can raise: a title without a
      version number (`.group(0)` on no match) and a kept group without
      files (`max` of an empty list). */
  datatype SelectError = NoVersionInTitle(title: string) | NoFiles(version: string)

  /** `zip(titles, recent)`: pairs up the two lists, stopping at the
      shorter one. */
  function Groups(page: Page): seq<Group> {
    var n := if |page.titles| <= |page.recent| then |page.titles| else |page.recent|;
    seq(n, i requires 0 <= i < n => Group(page.titles[i], page.recent[i]))
  }

  /** The titles of a list of groups (the first half of unzipping it). */
  function Titles(gs: seq<Group>): seq<string>
    decreases |gs|
  {
    if gs == [] then [] else Titles(gs[..|gs| - 1]) + [gs[|gs| - 1].title]
  }

  /** The file lists of a list of groups (the second half of unzipping it). */
  function FileLists(gs: seq<Group>): seq<seq<FileEntry>>
    decreases |gs|
  {
    if gs == [] then [] else FileLists(gs[..|gs| - 1]) + [gs[|gs| - 1].files]
  }

  lemma {:induction false} UnzipPrefix(page: Page, n: nat)
    requires n <= |Groups(page)|
    ensures Titles(Groups(page)[..n]) == page.titles[..n]
    ensures FileLists(Groups(page)[..n]) == page.recent[..n]
  {
    if n > 0 {
      var gs := Groups(page)[..n];
      assert gs[..n - 1] == Groups(page)[..n - 1];
      UnzipPrefix(page, n - 1);
      assert page.titles[..n] == page.titles[..n - 1] + [page.titles[n - 1]];
      assert page.recent[..n] == page.recent[..n - 1] + [page.recent[n - 1]];
    }
  }

  /** Unzipping undoes `zip`: it gives back both lists, cut to the length of
      the shorter one, so a title is never paired with another title's
      files. */
  lemma Unzip(page: Page)
    ensures var n := if |page.titles| <= |page.recent| then |page.titles| else |page.recent|;
            Titles(Groups(page)) == page.titles[..n] && FileLists(Groups(page)) == page.recent[..n]
  {
    var gs := Groups(page);
    UnzipPrefix(page, |gs|);
    assert gs[..|gs|] == gs;
  }

  /** Length of the leading run of digits. */
  function DigitRun(s: string): (n: nat)
    ensures n <= |s| && AllDigits(s[..n]) && (n == |s| || !IsDigit(s[n]))
  {
    if |s| > 0 && IsDigit(s[0]) then
      var n := 1 + DigitRun(s[1..]);
      assert forall i | 1 <= i < n :: s[..n][i] == s[1..][..n - 1][i - 1];
      n
    else 0
  }

  /** A string of the shape `\d+\.\d+`. */
  predicate IsVersionLabel(v: string) {
    exists k | 0 < k < |v| - 1 :: v[k] == '.' && AllDigits(v[..k]) && AllDigits(v[k + 1..])
  }

  /** `s` begins with some string of that shape. */
  predicate HasLabelPrefix(s: string) {
    exists n | 0 <= n <= |s| :: IsVersionLabel(s[..n])
  }

  /** The pattern `\d+\.\d+` matched at the start of `s` (both runs greedy). */
  function MatchAt(s: string): (r: Option<string>)
    ensures r.Some? ==> IsVersionLabel(r.value) && StartsWith(s, r.value) &&
                        (|r.value| == |s| || !IsDigit(s[|r.value|]))
    ensures r.None? ==> !HasLabelPrefix(s)
  {
    var k := DigitRun(s);
    if 0 < k && k + 1 < |s| && s[k] == '.' && IsDigit(s[k + 1]) then
      var m := DigitRun(s[k + 1..]);
      var v := s[..k + 1 + m];
      assert v[..k] == s[..k] && v[k + 1..] == s[k + 1..][..m];
      assert IsVersionLabel(v);
      Some(v)
    else
      assert !HasLabelPrefix(s) by {
        forall n | 0 <= n <= |s| ensures !IsVersionLabel(s[..n]) {
          if IsVersionLabel(s[..n]) {
            LabelPrefixFound(s, n);
            assert false;
          }
        }
      }
      None
  }

  /** The leading digit run ends exactly at the first non-digit. */
  lemma {:induction false} DigitRunExact(s: string, j: nat)
    requires j < |s| && !IsDigit(s[j])
    requires forall i | 0 <= i < j :: IsDigit(s[i])
    ensures DigitRun(s) == j
    decreases j
  {
    if j > 0 {
      DigitRunExact(s[1..], j - 1);
    }
  }

  /** A prefix of the shape `\d+\.\d+` is found by the anchored match. */
  lemma LabelPrefixFound(s: string, n: nat)
    requires n <= |s| && IsVersionLabel(s[..n])
    ensures var k := DigitRun(s); 0 < k && k + 1 < |s| && s[k] == '.' && IsDigit(s[k + 1])
  {
    var v := s[..n];
    var j :| 0 < j < |v| - 1 && v[j] == '.' && AllDigits(v[..j]) && AllDigits(v[j + 1..]);
    forall i | 0 <= i < j ensures IsDigit(s[i]) {
      assert s[i] == v[..j][i];
    }
    assert s[j] == v[j];
    DigitRunExact(s, j);
    assert s[j + 1] == v[j + 1..][0];
  }

  /** `re.search(r'\d+\.\d+', s)`: the match at the leftmost position where
      one exists. */
  function FirstVersion(s: string): Option<string>
    decreases |s|
  {
    if MatchAt(s).Some? then MatchAt(s)
    else if |s| == 0 then None
    else FirstVersion(s[1..])
  }

  /** `FirstVersion` finds nothing exactly when no position matches, and
      otherwise returns the match at the first position that does. */
  lemma {:induction false} FirstVersionLeftmost(s: string)
    ensures FirstVersion(s).None? <==> forall i | 0 <= i <= |s| :: MatchAt(s[i..]).None?
    ensures FirstVersion(s).Some? ==>
            exists i | 0 <= i <= |s| :: MatchAt(s[i..]) == FirstVersion(s) &&
                                        forall j | 0 <= j < i :: MatchAt(s[j..]).None?
    decreases |s|
  {
    assert s[0..] == s;
    if MatchAt(s).None? && |s| > 0 {
      FirstVersionLeftmost(s[1..]);
      forall i | 0 <= i <= |s[1..]| ensures s[1..][i..] == s[i + 1..] {}
      if FirstVersion(s).Some? {
        var i :| 0 <= i <= |s[1..]| && MatchAt(s[1..][i..]) == FirstVersion(s[1..]) &&
                 forall j | 0 <= j < i :: MatchAt(s[1..][j..]).None?;
        assert MatchAt(s[i + 1..]) == FirstVersion(s);
        forall j | 0 <= j < i + 1 ensures MatchAt(s[j..]).None? {
          if j > 0 { assert s[j..] == s[1..][j - 1..]; }
        }
      }
      if FirstVersion(s).None? {
        forall i | 0 <= i <= |s| ensures MatchAt(s[i..]).None? {
          if i > 0 { assert s[i..] == s[1..][i - 1..]; }
        }
      }
    }
  }

  /** `max(files, key=epoch)`: the index of the first entry with the largest
      epoch (the scan replaces its candidate only on a strictly larger one). */
  function FirstMax(files: seq<FileEntry>): (k: nat)
    requires |files| > 0
    ensures k < |files|
    ensures forall j | 0 <= j < |files| :: files[j].epoch <= files[k].epoch
    ensures forall j | 0 <= j < k :: files[j].epoch < files[k].epoch
  {
    if |files| == 1 then 0
    else
      var k := FirstMax(files[..|files| - 1]);
      assert forall j | 0 <= j < |files| - 1 :: files[..|files| - 1][j] == files[j];
      if files[|files| - 1].epoch > files[k].epoch then |files| - 1 else k
  }

  /** The group's label is one of the configured versions. */
  predicate Kept(g: Group, versions: seq<string>) {
    FirstVersion(g.title).Some? && FirstVersion(g.title).value in versions
  }

  /** Processing the group raises no exception. */
  predicate Sound(g: Group, versions: seq<string>) {
    FirstVersion(g.title).Some? && (Kept(g, versions) ==> g.files != [])
  }

  /** The link chosen from a kept group. */
  function Newest(files: seq<FileEntry>): string
    requires |files| > 0
  {
    files[FirstMax(files)].href
  }

  /** One iteration of the loop: `current` is the value of `mod_url`
      before it. */
  function Step(g: Group, versions: seq<string>, current: string): Result<string, SelectError> {
    match FirstVersion(g.title)
    case None => Err(NoVersionInTitle(g.title))
    case Some(v) =>
      if v !in versions then Ok(current)
      else if g.files == [] then Err(NoFiles(v))
      else Ok(Newest(g.files))
  }

  /** The whole loop, as a left fold over the groups starting from the
      address given. */
  function Select(groups: seq<Group>, versions: seq<string>, current: string): Result<string, SelectError>
    decreases |groups|
  {
    if groups == [] then Ok(current)
    else match Step(groups[0], versions, current)
      case Err(e) => Err(e)
      case Ok(next) => Select(groups[1..], versions, next)
  }

  /** The selection fails exactly when some group is not sound. */
  lemma {:induction false} SelectOkIff(groups: seq<Group>, versions: seq<string>, current: string)
    ensures Select(groups, versions, current).Ok? <==> forall i | 0 <= i < |groups| :: Sound(groups[i], versions)
    decreases |groups|
  {
    if groups != [] {
      var st := Step(groups[0], versions, current);
      assert st.Ok? <==> Sound(groups[0], versions);
      if st.Ok? {
        SelectOkIff(groups[1..], versions, st.value);
        assert forall i | 1 <= i < |groups| :: groups[i] == groups[1..][i - 1];
      }
    }
  }

  /** The exception an unsound group raises. */
  function GroupError(g: Group, versions: seq<string>): SelectError
    requires !Sound(g, versions)
  {
    match FirstVersion(g.title)
    case None => NoVersionInTitle(g.title)
    case Some(v) => NoFiles(v)
  }

  /** The error raised is that of the first group that is not sound. */
  lemma {:induction false} SelectFirstError(groups: seq<Group>, versions: seq<string>, current: string, i: nat)
    requires i < |groups| && !Sound(groups[i], versions)
    requires forall j | 0 <= j < i :: Sound(groups[j], versions)
    ensures Select(groups, versions, current) == Err(GroupError(groups[i], versions))
    decreases i
  {
    if i > 0 {
      var st := Step(groups[0], versions, current);
      assert Sound(groups[0], versions);
      assert groups[1..][i - 1] == groups[i];
      assert forall j | 0 <= j < i - 1 :: groups[1..][j] == groups[j + 1];
      SelectFirstError(groups[1..], versions, st.value, i - 1);
    }
  }

  /** The last kept group wins: its newest file is the result; when no group
      is kept, the address given is returned unchanged. */
  lemma {:induction false} SelectLastKept(groups: seq<Group>, versions: seq<string>, current: string)
    requires Select(groups, versions, current).Ok?
    ensures (forall i | 0 <= i < |groups| :: !Kept(groups[i], versions)) ==>
            Select(groups, versions, current).value == current
    ensures forall j | 0 <= j < |groups| ::
              Kept(groups[j], versions) && (forall i | j < i < |groups| :: !Kept(groups[i], versions)) ==>
              groups[j].files != [] && Select(groups, versions, current).value == Newest(groups[j].files)
    decreases |groups|
  {
    if groups != [] {
      var next := Step(groups[0], versions, current).value;
      var r := Select(groups, versions, current).value;
      SelectLastKept(groups[1..], versions, next);
      assert forall i | 1 <= i < |groups| :: groups[i] == groups[1..][i - 1];
      if Kept(groups[0], versions) {
        assert next == Newest(groups[0].files);
      } else {
        assert next == current;
      }
      forall j | 0 <= j < |groups| && Kept(groups[j], versions) && (forall i | j < i < |groups| :: !Kept(groups[i], versions))
        ensures groups[j].files != [] && r == Newest(groups[j].files)
      {
        if j > 0 {
          assert forall i | j - 1 < i < |groups[1..]| :: !Kept(groups[1..][i], versions);
        } else {
          SelectOkIff(groups, versions, current);
          assert forall i | 0 <= i < |groups[1..]| :: !Kept(groups[1..][i], versions);
        }
      }
    }
  }
}
