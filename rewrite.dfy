/** The string side of `parse_curse_url`: the `/files/<digits>` test that
    skips the page lookup, and the rewrite of a file page address into its
    download address. */
module Rewrite {
  import opened Strings

  /** `re.search(r'\/files\/\d+', url) is not None`. */
  predicate HasFilesId(url: string)
    decreases |url|
  {
    (StartsWith(url, "/files/") && |url| > 7 && IsDigit(url[7])) || (|url| > 0 && HasFilesId(url[1..]))
  }

  /** `re.sub(r'\/files\/', '/download/', url)`: scanning left to right,
      every occurrence is replaced and scanning resumes after it, so
      occurrences that overlap a replaced one are left alone. */
  function ReplaceFiles(url: string): string
    decreases |url|
  {
    if |url| == 0 then ""
    else if StartsWith(url, "/files/") then "/download/" + ReplaceFiles(url[7..])
    else [url[0]] + ReplaceFiles(url[1..])
  }

  /** The reverse substitution, `/download/` back to `/files/`. */
  function RestoreFiles(url: string): string
    decreases |url|
  {
    if |url| == 0 then ""
    else if StartsWith(url, "/download/") then "/files/" + RestoreFiles(url[10..])
    else [url[0]] + RestoreFiles(url[1..])
  }

  /** What `parse_curse_url` returns for `url`: the substituted address
      followed by `/file`. The rewrite loses nothing: stripping `/file`
      and substituting back gives the address again, as long as it did not
      already contain `/download/`. */
  function DownloadUrl(url: string): (r: string)
    ensures |r| >= 5 && r[|r| - 5..] == "/file"
    ensures !Contains(url, "/download/") ==> RestoreFiles(r[..|r| - 5]) == url
  {
    var r := ReplaceFiles(url) + "/file";
    assert r[..|r| - 5] == ReplaceFiles(url);
    assert !Contains(url, "/download/") ==> RestoreFiles(ReplaceFiles(url)) == url by {
      if !Contains(url, "/download/") { RoundTrip(url); }
    }
    r
  }

  /** A `/files/` followed by a digit starts at index `i` of `url`. */
  predicate FilesIdAt(url: string, i: nat) {
    i + 7 < |url| && url[i..i + 7] == "/files/" && IsDigit(url[i + 7])
  }

  /** `HasFilesId` agrees with its positional reading. */
  lemma {:induction false} HasFilesIdAt(url: string)
    ensures HasFilesId(url) <==> exists i: nat :: FilesIdAt(url, i)
    decreases |url|
  {
    if |url| > 0 {
      HasFilesIdAt(url[1..]);
      if HasFilesId(url[1..]) {
        var i: nat :| FilesIdAt(url[1..], i);
        assert url[i + 1..i + 8] == url[1..][i..i + 7];
        assert FilesIdAt(url, i + 1);
      }
      if StartsWith(url, "/files/") && |url| > 7 && IsDigit(url[7]) {
        assert FilesIdAt(url, 0);
      }
      if exists i: nat :: FilesIdAt(url, i) {
        var i: nat :| FilesIdAt(url, i);
        if i > 0 {
          assert url[1..][i - 1..i + 6] == url[i..i + 7];
          assert FilesIdAt(url[1..], i - 1);
        } else {
          assert url[..7] == url[0..7];
        }
      }
    }
  }

  /** An address without `/files/` is left untouched. */
  lemma {:induction false} NoFilesUnchanged(url: string)
    requires !Contains(url, "/files/")
    ensures ReplaceFiles(url) == url
    decreases |url|
  {
    if |url| > 0 {
      NoFilesUnchanged(url[1..]);
      assert [url[0]] + url[1..] == url;
    }
  }

  /** A character other than `/` is copied as it is. */
  lemma CopiedChar(c: char, w: string)
    requires c != '/'
    ensures ReplaceFiles([c] + w) == [c] + ReplaceFiles(w)
  {
    assert ([c] + w)[0] == c;
    assert ([c] + w)[1..] == w;
  }

  lemma PrefixShift(c: char, w: string, p: string)
    ensures StartsWith([c] + w, [c] + p) <==> StartsWith(w, p)
  {
    if |p| <= |w| {
      assert ([c] + w)[..|p| + 1] == [c] + w[..|p|];
      assert ([c] + w[..|p|])[1..] == w[..|p|];
      assert ([c] + p)[1..] == p;
    }
  }

  /** A slash not followed by `files/` is copied as it is. */
  lemma CopiedSlash(t: string)
    requires !StartsWith(t, "files/")
    ensures ReplaceFiles("/" + t) == "/" + ReplaceFiles(t)
  {
    PrefixShift('/', t, "files/");
    assert "/files/" == ['/'] + "files/";
    assert ("/" + t)[1..] == t;
  }

  /** Occurrences are not overlapped: when two occurrences share a slash,
      as in `/files/files/`, the first is replaced and the second survives,
      whatever follows. */
  lemma OverlapSurvives(t: string)
    requires !StartsWith(t, "files/")
    ensures ReplaceFiles("/files/files/" + t) == "/download/files/" + ReplaceFiles(t)
  {
    var w := "files/" + t;
    var r := ReplaceFiles(t);
    assert "/files/files/" + t == "/files/" + w;
    assert ReplaceFiles("/files/" + w) == "/download/" + ("files/" + r) by {
      ReplacedOccurrence(w);
      CopiedWord(t);
    }
    assert "/download/" + ("files/" + r) == "/download/files/" + r;
  }

  /** An occurrence at the start is replaced. */
  lemma ReplacedOccurrence(w: string)
    ensures ReplaceFiles("/files/" + w) == "/download/" + ReplaceFiles(w)
  {
    var s := "/files/" + w;
    assert StartsWith(s, "/files/") && s[7..] == w;
  }

  /** A word without slashes is copied as it is. */
  lemma {:induction false} CopiedChars(w: string, t: string)
    requires '/' !in w
    ensures ReplaceFiles(w + t) == w + ReplaceFiles(t)
  {
    if w == [] {
      assert w + t == t;
    } else {
      var c, rest := w[0], w[1..];
      assert w == [c] + rest;
      assert w + t == [c] + (rest + t);
      CopiedChar(c, rest + t);
      CopiedChars(rest, t);
    }
  }

  /** `files/` not followed by another `files/` is copied as it is. */
  lemma CopiedWord(t: string)
    requires !StartsWith(t, "files/")
    ensures ReplaceFiles("files/" + t) == "files/" + ReplaceFiles(t)
  {
    CopiedSlash(t);
    CopiedChars("files", "/" + t);
    assert "files" + ("/" + t) == "files/" + t;
  }

  lemma ContainsTail(url: string, k: nat, p: string)
    requires k <= |url| && !Contains(url, p)
    ensures !Contains(url[k..], p)
  {
    ContainsAt(url[k..], p);
    ContainsAt(url, p);
    forall i | 0 <= i <= |url[k..]| ensures url[k..][i..] == url[k + i..] {}
  }

  /** The substitution can introduce a prefix of the form `u/` (`u` without
      slashes) only where the input already had it. */
  lemma {:induction false} PrefixFromInput(t: string, w: string)
    requires |w| > 0 && w[|w| - 1] == '/' && forall i | 0 <= i < |w| - 1 :: w[i] != '/'
    requires StartsWith(ReplaceFiles(t), w)
    ensures StartsWith(t, w)
    decreases |t|
  {
    if StartsWith(t, "/files/") {
      assert ReplaceFiles(t)[0] == '/';
      assert |w| == 1;
    } else if |w| > 1 {
      var r := ReplaceFiles(t[1..]);
      assert ReplaceFiles(t) == [t[0]] + r;
      assert r[..|w| - 1] == ReplaceFiles(t)[1..|w|];
      PrefixFromInput(t[1..], w[1..]);
      assert t[..|w|] == [t[0]] + t[1..][..|w| - 1];
      assert w == [w[0]] + w[1..];
    }
  }

  /** Substituting back undoes the rewrite of an address that had no
      `/download/` of its own. */
  lemma {:induction false} RoundTrip(url: string)
    requires !Contains(url, "/download/")
    ensures RestoreFiles(ReplaceFiles(url)) == url
    decreases |url|
  {
    if |url| == 0 {
    } else if StartsWith(url, "/files/") {
      ContainsTail(url, 7, "/download/");
      RoundTrip(url[7..]);
      var r := "/download/" + ReplaceFiles(url[7..]);
      assert StartsWith(r, "/download/") && r[10..] == ReplaceFiles(url[7..]);
      assert "/files/" + url[7..] == url;
    } else {
      RoundTrip(url[1..]);
      var r := [url[0]] + ReplaceFiles(url[1..]);
      if StartsWith(r, "/download/") {
        assert ReplaceFiles(url[1..])[..9] == r[1..10];
        assert r[1..10] == "download/";
        PrefixFromInput(url[1..], "download/");
        assert false;
      }
      assert r[1..] == ReplaceFiles(url[1..]);
      assert [url[0]] + url[1..] == url;
    }
  }
}
