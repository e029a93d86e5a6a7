/**
 * The "tag list to release notes" pipeline of whats_new.py. Git and the
 * language-model service are parameters: `git` maps an argument vector to
 * what the finished process reports, and `claude` maps a request to the
 * generated text or to a raised exception.
 */
module WhatsNew {
  import opened Wrappers
  import opened Text
  import opened Semver
  import opened TagSort

  /** What a finished git process reports. */
  datatype Completed = Completed(returncode: int, stdout: string, stderr: string)

  /** The errors whats_new.py raises and does not catch. */
  datatype Error =
    | GitError(stderr: string)     // raised by run_git_command on a non-zero exit, printed as "Git error: " + stderr
    | ValueError(message: string)  // raised by main when validation fails

  /** `run_git_command`: runs `git -C repoPath args...`, fails with the
      captured standard error on a non-zero exit, and otherwise returns the
      standard output stripped of surrounding whitespace. */
  function RunGitCommand(git: seq<string> -> Completed, repoPath: string, args: seq<string>): (r: Result<string, Error>)
    ensures r.Failure? <==> git(["git", "-C", repoPath] + args).returncode != 0
    ensures r.Failure? ==> r.error == GitError(git(["git", "-C", repoPath] + args).stderr)
    ensures r.Success? ==> IsStripOf(r.value, git(["git", "-C", repoPath] + args).stdout)
  {
    var c := git(["git", "-C", repoPath] + args);
    if c.returncode != 0 then Failure(GitError(c.stderr)) else Success(Strip(c.stdout))
  }

  /** The loop of `get_all_semver_tags`: group 1 of every line that matches the
      tag pattern, one entry per matching line, in line order. */
  function Captured(rawTags: seq<string>): (r: seq<string>)
    ensures |r| <= |rawTags|
    ensures forall k :: 0 <= k < |r| ==> IsCore(r[k])
  {
    if rawTags == [] then []
    else
      var m := MatchTag(rawTags[|rawTags| - 1]);
      Captured(rawTags[..|rawTags| - 1]) + (if m.Some? then [m.value] else [])
  }

  /** Collection distributes over concatenation of tag lists. */
  lemma {:induction false} CapturedAppend(a: seq<string>, b: seq<string>)
    ensures Captured(a + b) == Captured(a) + Captured(b)
    decreases |b|
  {
    if b != [] {
      var b' := b[..|b| - 1];
      assert (a + b)[..|a + b| - 1] == a + b';
      CapturedAppend(a, b');
    } else {
      assert a + b == a;
    }
  }

  /** Collection of one line: its group if it matches, nothing otherwise. */
  lemma CapturedOne(tag: string)
    ensures Captured([tag]) == if MatchTag(tag).Some? then [MatchTag(tag).value] else []
  {
    assert [tag][..0] == [];
  }

  /** `get_all_semver_tags` after reading the lines: collect, then sort by
      `version.parse`. */
  function SemverTags(rawTags: seq<string>): seq<string> {
    SortByKey(Captured(rawTags), Key)
  }

  /** What `get_all_semver_tags` promises: bare release numbers only, in
      ascending precedence, each matching line kept once (duplicates
      included), equal precedences in line order. */
  lemma SemverTagsSpec(rawTags: seq<string>)
    ensures forall k :: 0 <= k < |SemverTags(rawTags)| ==> IsCore(SemverTags(rawTags)[k])
    ensures Sorted(SemverTags(rawTags), Key)
    ensures multiset(SemverTags(rawTags)) == multiset(Captured(rawTags))
    ensures IsStableSortOf(SemverTags(rawTags), Captured(rawTags), Key)
  {
    var c := Captured(rawTags);
    var r := SemverTags(rawTags);
    SortByKeyPermutes(c, Key);
    SortByKeyIsTheStableSort(c, Key, r);
    forall k | 0 <= k < |r| ensures IsCore(r[k]) {
      assert r[k] in multiset(c);
      var p :| 0 <= p < |c| && c[p] == r[k];
    }
  }

  /** Collection of a two-line tag list. */
  lemma CapturedPair(t1: string, t2: string)
    ensures Captured([t1, t2]) == Captured([t1]) + Captured([t2])
  {
    CapturedAppend([t1], [t2]);
    assert [t1] + [t2] == [t1, t2];
  }

  /** Two release numbers, with or without 'v', are both collected as bare numbers. */
  lemma CapturedCores(t1: string, g1: string, t2: string, g2: string)
    requires IsCore(g1) && TagSpells(t1, g1) && IsCore(g2) && TagSpells(t2, g2)
    ensures Captured([t1, t2]) == [g1, g2]
  {
    MatchTagComplete(t1, g1);
    MatchTagComplete(t2, g2);
    CapturedPair(t1, t2);
    CapturedOne(t1);
    CapturedOne(t2);
  }

  /** A release number tagged both with and without 'v' is collected twice:
      nothing removes duplicates. */
  lemma SemverTagsKeepsDuplicates(g: string)
    requires IsCore(g)
    ensures SemverTags([g, "v" + g]) == [g, g]
  {
    CapturedCores(g, g, "v" + g, g);
    SortPair(g, g, Key);
  }

  /** Two release numbers are collected in precedence order, whatever their
      order in the tag list. */
  lemma SemverTagsOrdersPair(a: string, b: string)
    requires IsCore(a) && IsCore(b) && !VersionLe(Key(b), Key(a))
    ensures SemverTags([a, b]) == [a, b] && SemverTags([b, a]) == [a, b]
  {
    CapturedCores(a, a, b, b);
    CapturedCores(b, b, a, a);
    SortPair(a, b, Key);
    SortPair(b, a, Key);
  }

  /** 9.9.9 is collected before 10.0.0. */
  lemma SemverTagsNumericOrder()
    ensures SemverTags(["10.0.0", "9.9.9"]) == ["9.9.9", "10.0.0"]
  {
    NumericNotLexical();
    SemverTagsOrdersPair("9.9.9", "10.0.0");
  }

  /** A tag that is not a plain release number is dropped without error,
      wherever it stands in the list. */
  lemma SemverTagsDropsOthers(a: seq<string>, t: string, b: seq<string>)
    requires MatchTag(t).None?
    ensures SemverTags(a + [t] + b) == SemverTags(a + b)
  {
    CapturedAppend(a + [t], b);
    CapturedAppend(a, [t]);
    CapturedAppend(a, b);
    CapturedOne(t);
    assert Captured(a) + [] == Captured(a);
  }

  /** `get_all_semver_tags` as a whole: `git tag`, then collect and sort. */
  function AllSemverTags(git: seq<string> -> Completed, repoPath: string): Result<seq<string>, Error> {
    match RunGitCommand(git, repoPath, ["tag"])
    case Failure(e) => Failure(e)
    case Success(out) => Success(SemverTags(SplitLines(out)))
  }

  /** A repository without tags, whose `git tag` prints only whitespace,
      yields an empty list, not an error. */
  lemma AllSemverTagsEmpty(git: seq<string> -> Completed, repoPath: string)
    requires git(["git", "-C", repoPath, "tag"]).returncode == 0
    requires var out := git(["git", "-C", repoPath, "tag"]).stdout; SpaceIn(out, 0, |out|)
    ensures AllSemverTags(git, repoPath) == Success([])
  {
    var out := git(["git", "-C", repoPath, "tag"]).stdout;
    assert ["git", "-C", repoPath] + ["tag"] == ["git", "-C", repoPath, "tag"];
    StripAllSpace(out);
  }

  /** The body of `get_all_semver_tags` after the tags are read: appends the
      group of every matching line to a list, then sorts that list in place
      by precedence. */
  method CollectSemverTags(rawTags: seq<string>) returns (tags: seq<string>)
    ensures tags == SemverTags(rawTags)
    ensures Sorted(tags, Key) && forall k :: 0 <= k < |tags| ==> IsCore(tags[k])
  {
    var semverTags := [];
    for i := 0 to |rawTags|
      invariant semverTags == Captured(rawTags[..i])
    {
      assert rawTags[..i + 1][..i] == rawTags[..i];
      var m := MatchTag(rawTags[i]);
      if m.Some? {
        semverTags := semverTags + [m.value];
      }
    }
    assert rawTags[..|rawTags|] == rawTags;
    var a := new string[|semverTags|](k requires 0 <= k < |semverTags| => semverTags[k]);
    assert a[..] == semverTags;
    SortInPlace(a, Key);
    tags := a[..];
    SemverTagsSpec(rawTags);
  }

  /** `get_all_semver_tags`: `git tag`, one tag per line, collected and sorted. */
  method GetAllSemverTags(git: seq<string> -> Completed, repoPath: string) returns (r: Result<seq<string>, Error>)
    ensures r == AllSemverTags(git, repoPath)
    ensures r.Failure? <==> git(["git", "-C", repoPath, "tag"]).returncode != 0
    ensures r.Success? ==> Sorted(r.value, Key) && forall k :: 0 <= k < |r.value| ==> IsCore(r.value[k])
  {
    assert ["git", "-C", repoPath] + ["tag"] == ["git", "-C", repoPath, "tag"];
    var output := RunGitCommand(git, repoPath, ["tag"]);
    if output.Failure? {
      return Failure(output.error);
    }
    var tags := CollectSemverTags(SplitLines(output.value));
    return Success(tags);
  }

  /** `list.index`: the position of the first occurrence of `x`. */
  function IndexOf(s: seq<string>, x: string): (i: nat)
    requires x in s
    ensures i < |s| && s[i] == x
    ensures forall k :: 0 <= k < i ==> s[k] != x
  {
    if s[0] == x then 0 else 1 + IndexOf(s[1..], x)
  }

  /** `find_previous_version`: the element just before the first occurrence
      of the target, or none when the target comes first. */
  function FindPreviousVersion(allVersions: seq<string>, currentVersion: string): (r: Option<string>)
    requires currentVersion in allVersions
    ensures r.None? <==> allVersions[0] == currentVersion
    ensures r.Some? ==> r.value != currentVersion
    ensures r.Some? ==> exists i :: 0 < i < |allVersions| && allVersions[i] == currentVersion
                                    && currentVersion !in allVersions[..i] && allVersions[i - 1] == r.value
  {
    var i := IndexOf(allVersions, currentVersion);
    assert currentVersion !in allVersions[..i];
    if i > 0 then Some(allVersions[i - 1]) else None
  }

  /** On a sorted list the predecessor never has a higher precedence than the target. */
  lemma PreviousNotNewer(allVersions: seq<string>, currentVersion: string)
    requires currentVersion in allVersions && Sorted(allVersions, Key)
    requires FindPreviousVersion(allVersions, currentVersion).Some?
    ensures VersionLe(Key(FindPreviousVersion(allVersions, currentVersion).value), Key(currentVersion))
  {
    var i :| 0 < i < |allVersions| && allVersions[i] == currentVersion
             && allVersions[i - 1] == FindPreviousVersion(allVersions, currentVersion).value;
    assert VersionLe(Key(allVersions[i - 1]), Key(allVersions[i]));
  }

  /** The predecessors in `1.0.0, 1.1.0, 2.0.0`, and what duplicates do: the
      first of two equal tags has no predecessor. */
  lemma FindPreviousExamples()
    ensures FindPreviousVersion(["1.0.0", "1.1.0", "2.0.0"], "1.1.0") == Some("1.0.0")
    ensures FindPreviousVersion(["1.0.0", "1.1.0", "2.0.0"], "1.0.0") == None
    ensures FindPreviousVersion(["1.0.0", "1.0.0", "1.1.0"], "1.0.0") == None
  {
    assert ["1.0.0", "1.1.0", "2.0.0"][1] == "1.1.0";
  }

  /** `get_commits_between_versions`: `git log FROM..TO --pretty=format:%s`,
      one subject per line. */
  function GetCommitsBetweenVersions(git: seq<string> -> Completed, repoPath: string,
                                     fromVersion: string, toVersion: string): (r: Result<seq<string>, Error>)
    ensures var c := git(["git", "-C", repoPath, "log", fromVersion + ".." + toVersion, "--pretty=format:%s"]);
      r.Failure? <==> c.returncode != 0
    ensures r.Failure? ==> r.error == GitError(git(["git", "-C", repoPath, "log", fromVersion + ".." + toVersion, "--pretty=format:%s"]).stderr)
    ensures r.Success? ==> forall k :: 0 <= k < |r.value| ==> '\n' !in r.value[k]
    ensures var c := git(["git", "-C", repoPath, "log", fromVersion + ".." + toVersion, "--pretty=format:%s"]);
      r.Success? ==> JoinLines(r.value) == Strip(c.stdout)
    ensures var c := git(["git", "-C", repoPath, "log", fromVersion + ".." + toVersion, "--pretty=format:%s"]);
      r.Success? ==> (r.value == [] <==> Strip(c.stdout) == [])
  {
    var args := ["log", fromVersion + ".." + toVersion, "--pretty=format:%s"];
    assert ["git", "-C", repoPath] + args == ["git", "-C", repoPath, "log", fromVersion + ".." + toVersion, "--pretty=format:%s"];
    match RunGitCommand(git, repoPath, args)
    case Failure(e) => Failure(e)
    case Success(out) =>
      assert out != [] ==> !IsSpace(out[|out| - 1]);
      JoinLinesSplitLines(out);
      Success(SplitLines(out))
  }

  /** `f"• {msg}"`. */
  function Bullet(msg: string): string {
    "\U{2022} " + msg
  }

  /** One bullet per commit, in commit order. */
  function Bullets(commits: seq<string>): seq<string> {
    seq(|commits|, k requires 0 <= k < |commits| => Bullet(commits[k]))
  }

  /** The fallback summary: a heading, a blank line, and the bullets joined by '\n'. */
  function Fallback(commits: seq<string>): string {
    "What's New:\n\n" + JoinLines(Bullets(commits))
  }

  /** What the prompt embeds: the target version and the bulleted commit list. */
  datatype Request = Request(version: string, commitList: string)

  /** What `anthropic.messages.create(...)` and `message.content[0].text`
      produce: the generated text, or any exception. */
  datatype Reply = Generated(text: string) | Raised

  /** `format_whats_new_with_claude`. */
  function FormatWhatsNew(commits: seq<string>, currentVersion: string, claude: Request -> Reply): string {
    if commits == [] then "No changes found."
    else
      match claude(Request(currentVersion, JoinLines(Bullets(commits))))
      case Generated(text) => text
      case Raised => Fallback(commits)
  }

  /** An empty commit list gives the fixed message whatever the service would
      answer: the service is not consulted. */
  lemma FormatEmptyIgnoresService(currentVersion: string, claude1: Request -> Reply, claude2: Request -> Reply)
    ensures FormatWhatsNew([], currentVersion, claude1) == FormatWhatsNew([], currentVersion, claude2) == "No changes found."
  {
  }

  /** The fallback is the heading, a blank line and the bullets, joined by '\n'. */
  lemma FallbackJoin(commits: seq<string>)
    requires commits != []
    ensures JoinLines(["What's New:", ""] + Bullets(commits)) == Fallback(commits)
  {
    var b := Bullets(commits);
    var parts := ["What's New:", ""] + b;
    assert parts[1..] == [""] + b && ([""] + b)[1..] == b;
  }

  /** The fallback's lines are the heading, a blank line and one bullet per
      commit, in commit order, and it has no trailing newline. */
  lemma FallbackLines(commits: seq<string>)
    requires commits != [] && forall k :: 0 <= k < |commits| ==> '\n' !in commits[k]
    ensures var r := Fallback(commits);
      r[..13] == "What's New:\n\n" && r[|r| - 1] != '\n'
    ensures var lines := SplitLines(Fallback(commits));
      && |lines| == |commits| + 2 && lines[0] == "What's New:" && lines[1] == ""
      && forall k :: 0 <= k < |commits| ==> lines[k + 2] == "\U{2022} " + commits[k]
  {
    var parts := ["What's New:", ""] + Bullets(commits);
    FallbackJoin(commits);
    forall k | 0 <= k < |parts| ensures '\n' !in parts[k] {
      if k >= 2 {
        assert parts[k] == Bullet(commits[k - 2]);
      }
    }
    assert parts[|parts| - 1] == Bullet(commits[|commits| - 1]);
    SplitLinesJoinLines(parts);
    JoinLinesLast(parts);
    forall k | 0 <= k < |commits| ensures parts[k + 2] == "\U{2022} " + commits[k] {
      assert parts[k + 2] == Bullet(commits[k]);
    }
  }

  /** When the service raises, the summary is the fallback. */
  lemma FormatFallsBack(commits: seq<string>, currentVersion: string, claude: Request -> Reply)
    requires commits != [] && claude(Request(currentVersion, JoinLines(Bullets(commits)))) == Raised
    ensures FormatWhatsNew(commits, currentVersion, claude) == Fallback(commits)
  {
  }

  /** The fallback for the commits `Fix bug`, `Add feature`. */
  lemma FallbackExample()
    ensures Fallback(["Fix bug", "Add feature"]) == "What's New:\n\n\U{2022} Fix bug\n\U{2022} Add feature"
  {
    assert Bullets(["Fix bug", "Add feature"]) == [Bullet("Fix bug"), Bullet("Add feature")];
  }

  /** `main` after argument parsing: collect the tags, check the target, find
      its predecessor, read the commits between them and format the summary
      that is printed. */
  function Run(git: seq<string> -> Completed, repoPath: string, currentVersion: string,
               claude: Request -> Reply): Result<string, Error>
  {
    match AllSemverTags(git, repoPath)
    case Failure(e) => Failure(e)
    case Success(allVersions) =>
      if currentVersion !in allVersions then
        Failure(ValueError("Version " + currentVersion + " not found in tags."))
      else
        var prev := FindPreviousVersion(allVersions, currentVersion);
        if prev.None? || prev.value == "" then Failure(ValueError("No previous version found."))
        else
          match GetCommitsBetweenVersions(git, repoPath, prev.value, currentVersion)
          case Failure(e) => Failure(e)
          case Success(commits) => Success(FormatWhatsNew(commits, currentVersion, claude))
  }

  /** When validation passes, the summary covers the commits from the
      target's predecessor to the target: a different release number, of no
      higher precedence, that comes just before the target's first occurrence. */
  lemma RunSummarises(git: seq<string> -> Completed, repoPath: string, currentVersion: string,
                      claude: Request -> Reply)
    requires AllSemverTags(git, repoPath).Success?
    requires currentVersion in AllSemverTags(git, repoPath).value
    requires AllSemverTags(git, repoPath).value[0] != currentVersion
    ensures var tags := AllSemverTags(git, repoPath).value;
      var prev := FindPreviousVersion(tags, currentVersion).value;
      && IsCore(prev) && IsCore(currentVersion) && prev != currentVersion
      && VersionLe(Key(prev), Key(currentVersion))
      && Run(git, repoPath, currentVersion, claude)
           == match GetCommitsBetweenVersions(git, repoPath, prev, currentVersion)
              case Failure(e) => Failure(e)
              case Success(commits) => Success(FormatWhatsNew(commits, currentVersion, claude))
  {
    var tags := AllSemverTags(git, repoPath).value;
    SemverTagsSpec(SplitLines(RunGitCommand(git, repoPath, ["tag"]).value));
    var prev := FindPreviousVersion(tags, currentVersion);
    var i :| 0 < i < |tags| && tags[i] == currentVersion && tags[i - 1] == prev.value;
    CoreEdges(tags[i - 1]);
    PreviousNotNewer(tags, currentVersion);
  }

  /** The target is rejected as not found exactly when it is not among the
      collected release numbers. */
  lemma RunNotFound(git: seq<string> -> Completed, repoPath: string, currentVersion: string,
                    claude: Request -> Reply)
    requires AllSemverTags(git, repoPath).Success?
    ensures Run(git, repoPath, currentVersion, claude)
              == Failure(ValueError("Version " + currentVersion + " not found in tags."))
            <==> currentVersion !in AllSemverTags(git, repoPath).value
  {
    var msg := "Version " + currentVersion + " not found in tags.";
    assert msg[0] == 'V';
    if currentVersion in AllSemverTags(git, repoPath).value {
      if AllSemverTags(git, repoPath).value[0] == currentVersion {
        RunNoPrevious(git, repoPath, currentVersion, claude);
        assert "No previous version found."[0] == 'N';
      } else {
        RunSummarises(git, repoPath, currentVersion, claude);
      }
    }
  }

  /** A target spelled with a leading 'v' is never found: the collected tags
      have the 'v' removed. */
  lemma RunRejectsPrefixedTarget(git: seq<string> -> Completed, repoPath: string, currentVersion: string,
                                 claude: Request -> Reply)
    requires AllSemverTags(git, repoPath).Success? && |currentVersion| > 0 && currentVersion[0] == 'v'
    ensures Run(git, repoPath, currentVersion, claude)
              == Failure(ValueError("Version " + currentVersion + " not found in tags."))
  {
    var tags := AllSemverTags(git, repoPath).value;
    SemverTagsSpec(SplitLines(RunGitCommand(git, repoPath, ["tag"]).value));
    if currentVersion in tags {
      var k :| 0 <= k < |tags| && tags[k] == currentVersion;
      CoreEdges(tags[k]);
    }
  }

  /** A found target is rejected for having no predecessor exactly when it is
      the first collected tag: a predecessor is a release number, never the
      empty string that `not prev_version` would also reject. */
  lemma RunNoPrevious(git: seq<string> -> Completed, repoPath: string, currentVersion: string,
                      claude: Request -> Reply)
    requires AllSemverTags(git, repoPath).Success?
    requires currentVersion in AllSemverTags(git, repoPath).value
    ensures Run(git, repoPath, currentVersion, claude) == Failure(ValueError("No previous version found."))
            <==> AllSemverTags(git, repoPath).value[0] == currentVersion
  {
    if AllSemverTags(git, repoPath).value[0] != currentVersion {
      RunSummarises(git, repoPath, currentVersion, claude);
    }
  }

  /** `main`: the same steps, collecting the tags with the in-place sort. */
  method GenerateWhatsNew(git: seq<string> -> Completed, repoPath: string, currentVersion: string,
                          claude: Request -> Reply) returns (r: Result<string, Error>)
    ensures r == Run(git, repoPath, currentVersion, claude)
  {
    var allVersions := GetAllSemverTags(git, repoPath);
    if allVersions.Failure? {
      return Failure(allVersions.error);
    }
    if currentVersion !in allVersions.value {
      return Failure(ValueError("Version " + currentVersion + " not found in tags."));
    }
    var prev := FindPreviousVersion(allVersions.value, currentVersion);
    if prev.None? || prev.value == "" {
      return Failure(ValueError("No previous version found."));
    }
    var commits := GetCommitsBetweenVersions(git, repoPath, prev.value, currentVersion);
    if commits.Failure? {
      return Failure(commits.error);
    }
    var summary := FormatWhatsNew(commits.value, currentVersion, claude);
    return Success(summary);
  }
}
