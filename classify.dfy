/** Which references are CurseForge project pages: the prefix test
    `re.match(r'https?://www.curseforge.com/minecraft/mc-mods/', ref)`. */
module Classify {
  import opened Strings

  /** One element of a regular expression made only of literals, an
      optional literal (`s?`) and the wildcard `.` (any character except a
      newline). */
  datatype Pat = Lit(c: char) | Opt(c: char) | AnyChar

  function Literal(w: string): seq<Pat> {
    seq(|w|, i requires 0 <= i < |w| => Lit(w[i]))
  }

  /** The part after `https?`. Both dots of the host name are unescaped in
      the source, so each matches any character. */
  function Tail(): seq<Pat> {
    Literal("://www") + [AnyChar] + Literal("curseforge") + [AnyChar] + Literal("com/minecraft/mc-mods/")
  }

  function ProjectPattern(): seq<Pat> {
    Literal("http") + [Opt('s')] + Tail()
  }

  /** `re.match`: the pattern matches a prefix of `s` (anchored at the start
      only), trying the optional character first and backtracking. */
  predicate MatchPrefix(pat: seq<Pat>, s: string)
    decreases |pat|
  {
    if pat == [] then true
    else match pat[0]
      case Opt(c) => (|s| > 0 && s[0] == c && MatchPrefix(pat[1..], s[1..])) || MatchPrefix(pat[1..], s)
      case Lit(c) => |s| > 0 && s[0] == c && MatchPrefix(pat[1..], s[1..])
      case AnyChar => |s| > 0 && s[0] != '\n' && MatchPrefix(pat[1..], s[1..])
  }

  predicate IsCurseProject(ref: string) {
    MatchPrefix(ProjectPattern(), ref)
  }

  /** Positional reading of a pattern without optional elements. */
  predicate CharMatches(p: Pat, c: char) {
    match p
    case Lit(d) => c == d
    case AnyChar => c != '\n'
    case Opt(d) => false
  }

  predicate MatchesAt(pat: seq<Pat>, s: string) {
    |pat| <= |s| && forall i | 0 <= i < |pat| :: CharMatches(pat[i], s[i])
  }

  predicate NoOpt(pat: seq<Pat>) {
    forall i | 0 <= i < |pat| :: !pat[i].Opt?
  }

  /** For a pattern without optional elements, the matcher accepts exactly
      the strings whose first characters match position by position. */
  lemma {:induction false} FixedMatch(pat: seq<Pat>, s: string)
    requires NoOpt(pat)
    ensures MatchPrefix(pat, s) <==> MatchesAt(pat, s)
    decreases |pat|
  {
    if pat != [] {
      assert NoOpt(pat[1..]) by {
        forall i | 0 <= i < |pat[1..]| ensures !pat[1..][i].Opt? { assert pat[1..][i] == pat[i + 1]; }
      }
      if |s| > 0 {
        FixedMatch(pat[1..], s[1..]);
        if MatchesAt(pat[1..], s[1..]) && CharMatches(pat[0], s[0]) {
          forall i | 0 <= i < |pat| ensures CharMatches(pat[i], s[i]) {
            if i > 0 { assert pat[1..][i - 1] == pat[i] && s[1..][i - 1] == s[i]; }
          }
        }
        if MatchesAt(pat, s) {
          forall i | 0 <= i < |pat[1..]| ensures CharMatches(pat[1..][i], s[1..][i]) {
            assert pat[1..][i] == pat[i + 1] && s[1..][i] == s[i + 1];
          }
        }
      }
    }
  }

  lemma {:induction false} LiteralThen(w: string, rest: seq<Pat>, s: string)
    ensures MatchPrefix(Literal(w) + rest, s) <==> StartsWith(s, w) && MatchPrefix(rest, s[|w|..])
    decreases |w|
  {
    if w == [] {
      assert Literal(w) + rest == rest;
    } else {
      var p := Literal(w) + rest;
      assert p[0] == Lit(w[0]);
      assert p[1..] == Literal(w[1..]) + rest;
      if |s| > 0 {
        LiteralThen(w[1..], rest, s[1..]);
        if |w| <= |s| {
          assert s[1..][|w| - 1..] == s[|w|..];
          assert s[..|w|] == [s[0]] + s[1..][..|w| - 1];
          assert w == [w[0]] + w[1..];
        }
      }
    }
  }

  /** The classification, stated positionally: after `https` or `http`
      come the forty characters of the tail, each dot matching any
      character but a newline. Nothing after that prefix matters. */
  lemma ProjectIff(ref: string)
    ensures IsCurseProject(ref) <==>
            (StartsWith(ref, "https") && MatchesAt(Tail(), ref[5..])) ||
            (StartsWith(ref, "http") && MatchesAt(Tail(), ref[4..]))
  {
    var tail := Tail();
    assert NoOpt(tail) by {
      forall i | 0 <= i < |tail| ensures !tail[i].Opt? {
        assert tail == Literal("://www") + [AnyChar] + Literal("curseforge") + [AnyChar] + Literal("com/minecraft/mc-mods/");
      }
    }
    LiteralThen("http", [Opt('s')] + tail, ref);
    assert ProjectPattern() == Literal("http") + ([Opt('s')] + tail);
    if StartsWith(ref, "http") {
      var r := ref[4..];
      var p := [Opt('s')] + tail;
      assert p[0] == Opt('s') && p[1..] == tail;
      FixedMatch(tail, r);
      if |r| > 0 {
        FixedMatch(tail, r[1..]);
        assert r[1..] == ref[5..];
      }
      assert StartsWith(ref, "https") <==> |r| > 0 && r[0] == 's' by {
        if |ref| >= 5 { assert ref[..5] == ref[..4] + [ref[4]]; }
      }
    } else {
      assert !StartsWith(ref, "https") by {
        if |ref| >= 5 { assert ref[..4] == ref[..5][..4]; }
      }
    }
  }

  /** `re.match` looks only at the start: text after a matching prefix is
      irrelevant. */
  lemma {:induction false} MatchExtends(pat: seq<Pat>, s: string, t: string)
    requires MatchPrefix(pat, s)
    ensures MatchPrefix(pat, s + t)
    decreases |pat|
  {
    if pat != [] {
      if |s| > 0 && (pat[0].Lit? || pat[0].AnyChar? || (s[0] == pat[0].c && MatchPrefix(pat[1..], s[1..]))) {
        assert (s + t)[0] == s[0] && (s + t)[1..] == s[1..] + t;
        MatchExtends(pat[1..], s[1..], t);
      } else if pat[0].Opt? {
        MatchExtends(pat[1..], s, t);
      }
    }
  }

  lemma ProjectPrefix(ref: string, rest: string)
    requires IsCurseProject(ref)
    ensures IsCurseProject(ref + rest)
  {
    MatchExtends(ProjectPattern(), ref, rest);
  }

  lemma LiteralMatches(w: string, t: string)
    ensures MatchesAt(Literal(w), w + t)
  {
    forall i | 0 <= i < |w| ensures CharMatches(Literal(w)[i], (w + t)[i]) {
      assert (w + t)[i] == w[i];
    }
  }

  lemma MatchesConcat(p1: seq<Pat>, p2: seq<Pat>, s1: string, s2: string)
    requires |p1| == |s1| && MatchesAt(p1, s1) && MatchesAt(p2, s2)
    ensures MatchesAt(p1 + p2, s1 + s2)
  {
    forall i | 0 <= i < |p1 + p2| ensures CharMatches((p1 + p2)[i], (s1 + s2)[i]) {
      if i < |p1| {
        assert (p1 + p2)[i] == p1[i] && (s1 + s2)[i] == s1[i];
      } else {
        assert (p1 + p2)[i] == p2[i - |p1|] && (s1 + s2)[i] == s2[i - |s1|];
      }
    }
  }

  lemma TailMatches(c1: char, c2: char, slug: string)
    requires c1 != '\n' && c2 != '\n'
    ensures MatchesAt(Tail(), "://www" + ([c1] + ("curseforge" + ([c2] + ("com/minecraft/mc-mods/" + slug)))))
  {
    var rest := "com/minecraft/mc-mods/" + slug;
    LiteralMatches("com/minecraft/mc-mods/", slug);
    MatchesConcat([AnyChar], Literal("com/minecraft/mc-mods/"), [c2], rest);
    LiteralMatches("curseforge", []);
    assert "curseforge" + [] == "curseforge";
    MatchesConcat(Literal("curseforge"), [AnyChar] + Literal("com/minecraft/mc-mods/"), "curseforge", [c2] + rest);
    var pat3 := Literal("curseforge") + ([AnyChar] + Literal("com/minecraft/mc-mods/"));
    MatchesConcat([AnyChar], pat3, [c1], "curseforge" + ([c2] + rest));
    LiteralMatches("://www", []);
    assert "://www" + [] == "://www";
    MatchesConcat(Literal("://www"), [AnyChar] + pat3, "://www", [c1] + ("curseforge" + ([c2] + rest)));
    assert Tail() == Literal("://www") + ([AnyChar] + pat3);
  }

  lemma SchemeMatches(t: string)
    requires MatchesAt(Tail(), t)
    ensures IsCurseProject("https" + t) && IsCurseProject("http" + t)
  {
    ProjectIff("https" + t);
    ProjectIff("http" + t);
    assert ("https" + t)[5..] == t;
    assert ("http" + t)[4..] == t;
    assert ("https" + t)[..5] == "https";
    assert ("http" + t)[..4] == "http";
  }

  /** Any two characters other than a newline stand in for the dots of the
      host name, over both schemes, and anything may follow the prefix. */
  lemma LookAlikeHost(c1: char, c2: char, slug: string)
    requires c1 != '\n' && c2 != '\n'
    ensures IsCurseProject("https" + ("://www" + ([c1] + ("curseforge" + ([c2] + ("com/minecraft/mc-mods/" + slug))))))
    ensures IsCurseProject("http" + ("://www" + ([c1] + ("curseforge" + ([c2] + ("com/minecraft/mc-mods/" + slug))))))
  {
    TailMatches(c1, c2, slug);
    SchemeMatches("://www" + ([c1] + ("curseforge" + ([c2] + ("com/minecraft/mc-mods/" + slug)))));
  }

  /** The test is a prefix match, not a search: a reference that does not
      start with `http` is never a project reference. */
  lemma NotHttpNotProject(ref: string)
    requires !StartsWith(ref, "http")
    ensures !IsCurseProject(ref)
  {
    LiteralThen("http", [Opt('s')] + Tail(), ref);
    assert ProjectPattern() == Literal("http") + ([Opt('s')] + Tail());
  }
}
