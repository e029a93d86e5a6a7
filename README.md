# whats_new — a verified model of the release-notes pipeline

`whats_new.py` prints a "What's New" summary for one release of a git
repository. It lists the repository's tags, keeps those spelled as release
numbers (`1.2.3` or `v1.2.3`), and sorts them by numeric precedence. It then
checks that the requested version is among them and finds the version just
before it. Next it reads the subjects of the commits between the two versions.
Finally it asks a language-model service to turn them into prose, and falls
back to a plain bulleted list when the service fails.

This project models that pipeline in Dafny. Git and the language-model
service are the only effects, and both are parameters:

- `git: seq<string> -> Completed` maps an argument vector such as
  `["git", "-C", repo, "tag"]` to the exit code, standard output and standard
  error of the finished process;
- `claude: Request -> Reply` maps the target version and the bulleted commit
  list to either the generated text or `Raised`, which stands for any
  exception. Constructing the client counts too.

Modules:

- `Wrappers`: `Option` and `Result`.
- `Text`: Python's `str.strip()`, with the full `str.isspace()` character
  set, `splitlines()` over `'\n'`, and `"\n".join(...)`, with their
  inverse laws.
- `Semver`: a hand-written matcher for the tag pattern
  `^v?(\d+\.\d+\.\d+)$`. It covers Python's `$`, which also matches before a
  final newline. The module also holds the numeric triple that
  `packaging.version.parse` reads from a matched tag, and its precedence,
  which is section 11 of Semantic Versioning 2.0.0 restricted to three
  numeric components.
- `TagSort`: Python's stable `list.sort(key=...)`. The specification is an
  insertion sort on sequences, proved sorted, a permutation, stable, and the
  only stable sort. The implementation is an in-place insertion sort on an
  array, proved equal to that specification.
- `WhatsNew`:
  - `run_git_command`;
  - the collecting loop of `get_all_semver_tags`, as a method, followed by
    the in-place sort;
  - `find_previous_version`;
  - `get_commits_between_versions`;
  - `format_whats_new_with_claude`;
  - `main`, as the function `Run` and the method `GenerateWhatsNew`.

Four consequences of the code are worth stating plainly:

- No duplicates are removed: `1.0.0` and `v1.0.0` are both collected as
  `1.0.0` (`SemverTagsKeepsDuplicates`). On such a list the predecessor of
  `1.0.0` is looked up at its first occurrence.
- `run_git_command` calls `strip()`, which trims whitespace at both ends of
  git's output (`RunGitCommand`, `StripUnique`).
- The requested version's spelling is never checked: it is only tested for
  membership among the collected tags, which have lost their `v`. A requested
  `v1.2.3` is therefore always "not found" (`RunRejectsPrefixedTarget`).
- Membership is string equality, so `01.2.3` and `1.2.3` are different
  targets even though they sort as equals.

## Model

| member | source | states |
|---|---|---|
| Text.IsSpace | whats_new.py:34 | `str.isspace()` on one character: the characters `strip()` removes; `StripUnique` proves that `Strip` removes exactly the runs of them at both ends |
| Text.StripLeft | whats_new.py:34 | the result is a suffix of the input; everything removed is whitespace; the result does not start with whitespace |
| Text.StripRight | whats_new.py:34 | the result is a prefix of the input; everything removed is whitespace; the result does not end with whitespace |
| Text.Strip | whats_new.py:34 | `strip()` leaves a contiguous piece of the input, with only whitespace on either side and none at either end of the result |
| Text.PieceStrips | whats_new.py:34 | a suffix past leading whitespace, cut back to a prefix before trailing whitespace, sits in the input with only whitespace around it |
| Text.StripShape | whats_new.py:34 | right-stripping the left-stripped text leaves a piece of the input with only whitespace around it and none at its ends |
| Text.StripAt | whats_new.py:34 | a non-empty piece with only whitespace around it and none at its ends is exactly what `strip()` returns |
| Text.StripAllSpace | whats_new.py:34 | text made only of whitespace (including the empty string) strips to the empty string |
| Text.StripUnique | whats_new.py:34 | that description of `strip()` is exact: `Strip(s)` is the only string satisfying it |
| Text.StripLeftAt | whats_new.py:34 | whitespace up to `i` and none at `i` means `lstrip` removes exactly the first `i` characters |
| Text.StripRightAt | whats_new.py:34 | whitespace from `n` on and none just before means `rstrip` keeps exactly the first `n` characters |
| Text.SplitNewlines | whats_new.py:50 | the helper `SplitLines` is built on (the source itself never calls `split("\n")`): splitting on every newline gives at least one piece, and no piece contains a newline |
| Text.SplitLines | whats_new.py:50 | `splitlines()` gives pieces without newlines, and an empty list exactly for the empty string |
| Text.JoinSplitNewlines | whats_new.py:50 | joining the pieces of a split with `'\n'` gives back the text |
| Text.SplitNewlinesCons | whats_new.py:50 | a newline-free piece followed by a newline splits off as one piece ahead of the rest's pieces |
| Text.SplitNewlinesNone | whats_new.py:50 | text without a newline is a single piece |
| Text.JoinLines | whats_new.py:120 | `"\n".join(parts)`; `SplitJoinLines` and `SplitLinesJoinLines` prove splitting undoes it, `JoinSplitNewlines` and `JoinLinesSplitLines` that it undoes splitting |
| Text.SplitJoinLines | whats_new.py:141 | splitting newline-free pieces joined with `'\n'` on every newline gives the pieces back |
| Text.JoinLinesLast | whats_new.py:141 | a join whose last piece is non-empty ends with that piece's last character |
| Text.SplitLinesJoinLines | whats_new.py:141 | `splitlines()` of `"\n".join(parts)` is `parts` when no part has a newline and the last is non-empty |
| Text.JoinLinesSplitLines | whats_new.py:93 | `"\n".join` of `splitlines()` of text not ending in a newline is the text again |
| Semver.MatchCore | whats_new.py:54-57 | the `\d+\.\d+\.\d+` part of the tag pattern and the three numbers `version.parse` reads from it; `MatchCoreSound`, `MatchCoreComplete` and `IsCoreIff` characterise it in both directions |
| Semver.VersionLe | whats_new.py:57 | the comparison of `version.parse` keys that the sort uses: numeric, component by component; `NumericNotLexical` and `SortByKeySorted` state its consequences |
| Semver.DigitRunFrom | whats_new.py:54 | a greedy `\d+` stops at the first non-digit: every character it consumed is a digit |
| Semver.DigitRunExact | whats_new.py:54 | a run of digits followed by a non-digit or the end is exactly where `DigitRunFrom` stops |
| Semver.MatchCoreSound | whats_new.py:54 | what the matcher accepts is `digits.digits.digits`, and the numbers it reads are those of the three parts |
| Semver.MatchCoreComplete | whats_new.py:54 | every `digits.digits.digits` string is accepted, with its three numbers |
| Semver.IsCoreIff | whats_new.py:54 | `IsCore` holds exactly for strings of the shape `\d+\.\d+\.\d+`, in both directions |
| Semver.CoreEdges | whats_new.py:54 | a release number is at least five characters and starts and ends with a digit, so it has no leading `v` and no surrounding whitespace |
| Semver.MatchTag | whats_new.py:54-56 | `re.match(r"^v?(\d+\.\d+\.\d+)$", tag)` and its group; `MatchTagSound` and `MatchTagComplete` characterise it in both directions |
| Semver.MatchTagSound | whats_new.py:54-56 | a matching tag is `g`, `vg`, `g\n` or `vg\n` for a release number `g`, and the group is `g` |
| Semver.MatchTagComplete | whats_new.py:54-56 | each of those four spellings of a release number matches with the bare number as group |
| Semver.ValueInEmbedded | whats_new.py:57 | digits read the same wherever they are copied |
| Semver.ValueInCopy | whats_new.py:57 | digits copied to `t[off..hi]` read the same there |
| Semver.ValueDecimal | whats_new.py:57 | reading the canonical decimal spelling of `n` gives `n` |
| Semver.JoinedCore | whats_new.py:54-57 | three digit strings joined by dots are accepted, with the three numbers they spell |
| Semver.FormatMatches | whats_new.py:57 | every version triple is read back from its canonical spelling |
| Semver.Key | whats_new.py:57 | `version.parse` on a release number: its three numbers; `FormatMatches` and `FormatRoundTrip` prove it reads back every version, `NumericNotLexical` that the order is numeric |
| Semver.FormatRoundTrip | whats_new.py:54-57 | every version's canonical tag, with or without `v`, matches, and its group reads back as that version |
| Semver.MatchNines | whats_new.py:57 | `9.9.9` reads as (9, 9, 9) |
| Semver.MatchTen | whats_new.py:57 | `10.0.0` reads as (10, 0, 0) |
| Semver.NumericNotLexical | whats_new.py:57 | `9.9.9` precedes `10.0.0` and not the other way round, although `"10.0.0"` is the smaller string |
| Semver.MatchTagAcceptsExample | whats_new.py:54-56 | `v1.2.3` matches with group `1.2.3` |
| Semver.MatchTagRejectsName | whats_new.py:54-55 | `release-1` does not match |
| Semver.MatchTagRejectsTwoParts | whats_new.py:54-55 | `1.2` does not match |
| Semver.MatchTagRejectsPrerelease | whats_new.py:54-55 | `1.2.3-rc1` does not match |
| TagSort.Insert | whats_new.py:57 | one insertion step of the stable sort; `InsertPermutes`, `InsertSorted` and `InsertWithKey` prove it adds one element, keeps the order and keeps equal keys in input order |
| TagSort.SortByKey | whats_new.py:57 | `list.sort(key=...)`; `SortByKeySorted`, `SortByKeyPermutes`, `SortByKeyStable` and `SortByKeyIsTheStableSort` prove it is the one stable sort of its input |
| TagSort.SortPair | whats_new.py:57 | sorting two tags puts the smaller key first and keeps equal keys in input order |
| TagSort.InsertPermutes | whats_new.py:57 | inserting adds exactly the inserted tag |
| TagSort.InsertSorted | whats_new.py:57 | inserting into a sorted list keeps it sorted |
| TagSort.InsertWithKey | whats_new.py:57 | inserting appends the new tag to the tags of its key and leaves every other key's tags unchanged |
| TagSort.SortByKeySorted | whats_new.py:57 | the sort's output is ascending by key |
| TagSort.SortByKeyPermutes | whats_new.py:57 | the sort's output is a permutation of its input |
| TagSort.SortByKeyStable | whats_new.py:57 | for every key, the tags with that key keep their input order |
| TagSort.StableSortUnique | whats_new.py:57 | two lists sorted by key that agree on each key's tags in order are equal |
| TagSort.SortByKeyIsTheStableSort | whats_new.py:57 | a list is the sort's output if and only if it is sorted and stable with respect to the input |
| TagSort.InsertSplit | whats_new.py:57 | inserting after the last smaller-or-equal key, before a run of greater keys, places the tag between them |
| TagSort.InsertAt | whats_new.py:57 | moving `a[i]` left in place leaves `a[..i+1]` equal to the insertion of `a[i]` into `a[..i]` and the rest untouched |
| TagSort.SortInPlace | whats_new.py:57 | the in-place sort leaves the array equal to the specified stable sort of its old contents |
| WhatsNew.RunGitCommand | whats_new.py:26-34 | fails, carrying standard error, exactly on a non-zero exit of `git -C repo args...`; otherwise gives standard output stripped |
| WhatsNew.Captured | whats_new.py:51-56 | the loop collects at most one entry per line, and every entry is a bare release number |
| WhatsNew.CapturedAppend | whats_new.py:52-56 | collecting two lists of lines one after the other is collecting their concatenation |
| WhatsNew.CapturedOne | whats_new.py:52-56 | one line contributes its group if it matches, and nothing otherwise |
| WhatsNew.CapturedPair | whats_new.py:52-56 | two lines contribute what each contributes, in line order |
| WhatsNew.CapturedCores | whats_new.py:52-56 | two spellings of release numbers are collected as the two bare numbers |
| WhatsNew.SemverTags | whats_new.py:51-57 | the collected groups sorted by `version.parse`; `SemverTagsSpec` states what they are |
| WhatsNew.SemverTagsSpec | whats_new.py:51-57 | the collected tags are bare release numbers, ascending by numeric precedence, a permutation of the captured groups, and the stable sort of them |
| WhatsNew.SemverTagsKeepsDuplicates | whats_new.py:51-57 | `g` and `vg` yield `g` twice: nothing removes duplicates |
| WhatsNew.SemverTagsOrdersPair | whats_new.py:57 | two release numbers come out in precedence order whatever their line order |
| WhatsNew.SemverTagsNumericOrder | whats_new.py:57 | the lines `10.0.0`, `9.9.9` yield `9.9.9`, `10.0.0` |
| WhatsNew.SemverTagsDropsOthers | whats_new.py:52-56 | a line that does not match changes nothing, wherever it stands |
| WhatsNew.AllSemverTagsEmpty | whats_new.py:50-58 | a successful `git tag` with only whitespace output yields the empty list, not an error |
| WhatsNew.CollectSemverTags | whats_new.py:51-57 | the loop followed by the in-place sort returns the specified sorted list of release numbers |
| WhatsNew.AllSemverTags | whats_new.py:37-58 | `get_all_semver_tags`: `git tag`, split into lines, collected and sorted; `GetAllSemverTags` computes it and `AllSemverTagsEmpty` covers a repository without tags |
| WhatsNew.GetAllSemverTags | whats_new.py:37-58 | `get_all_semver_tags` fails exactly when `git tag` exits non-zero, and otherwise returns the sorted release numbers of its lines |
| WhatsNew.IndexOf | whats_new.py:72 | `list.index` returns the position of the first occurrence |
| WhatsNew.FindPreviousVersion | whats_new.py:61-75 | there is no predecessor exactly when the list starts with the target; otherwise the predecessor is the element just before the target's first occurrence, and differs from the target |
| WhatsNew.PreviousNotNewer | whats_new.py:72-75 | on a sorted list the predecessor's precedence is never higher than the target's |
| WhatsNew.FindPreviousExamples | whats_new.py:72-75 | in `1.0.0, 1.1.0, 2.0.0`, `1.1.0`'s predecessor is `1.0.0` and `1.0.0` has none; in `1.0.0, 1.0.0, 1.1.0`, `1.0.0` has none |
| WhatsNew.GetCommitsBetweenVersions | whats_new.py:78-94 | fails with git's standard error exactly on a non-zero exit of `git log FROM..TO --pretty=format:%s`; otherwise gives newline-free subjects whose join is the stripped output, and none exactly when that output is empty |
| WhatsNew.FormatWhatsNew | whats_new.py:97-141 | `format_whats_new_with_claude`; `FormatEmptyIgnoresService` and `FormatFallsBack` state its two branches that do not depend on the service's text |
| WhatsNew.FormatEmptyIgnoresService | whats_new.py:112-113 | an empty commit list gives "No changes found." whatever the service would answer |
| WhatsNew.FormatFallsBack | whats_new.py:139-141 | when the service raises on a non-empty commit list, the summary is the fallback |
| WhatsNew.Fallback | whats_new.py:141 | the fallback text; `FallbackJoin`, `FallbackLines` and `FallbackExample` state its shape |
| WhatsNew.FallbackJoin | whats_new.py:141 | the fallback is the heading, a blank line and the bullets, joined by newlines |
| WhatsNew.FallbackLines | whats_new.py:141 | the fallback starts with "What's New:\n\n", does not end in a newline, and it has exactly `|commits| + 2` lines: "What's New:", an empty line, then `"• " + commit` for each commit in order |
| WhatsNew.FallbackExample | whats_new.py:141 | `Fix bug`, `Add feature` give "What's New:\n\n• Fix bug\n• Add feature" |
| WhatsNew.Run | whats_new.py:158-172 | `main` after argument parsing; `RunNotFound`, `RunNoPrevious` and `RunSummarises` state its three outcomes |
| WhatsNew.RunNotFound | whats_new.py:162-164 | once the tags are read, `main` fails with "Version V not found in tags." exactly when V is not among them |
| WhatsNew.RunRejectsPrefixedTarget | whats_new.py:163-164 | a target spelled with a leading `v` is never found |
| WhatsNew.RunNoPrevious | whats_new.py:166-168 | a found target fails with "No previous version found." exactly when it is the first tag |
| WhatsNew.RunSummarises | whats_new.py:166-172 | past validation, the predecessor is a different release number of no higher precedence, and the output is the formatting of the commits between the two, or git's error |
| WhatsNew.GenerateWhatsNew | whats_new.py:158-172 | `main` as statements returns what `Run` specifies |

## Left out

- argparse, `os.path.abspath` and `print` in `main` are left out (whats_new.py:151-159, 173). The repository path is passed unchanged, and `GenerateWhatsNew` returns the summary instead of printing it.
- The subprocess and the language-model call are oracles. The prompt's wording, the model name, the temperature and the token budget (whats_new.py:117-136) are not modelled: only the target version and the bulleted commit list go into `Request`.
- `WhatsNew.GetCommitsBetweenVersions` says nothing about which commits `git log FROM..TO` selects. Revision ranges are git's semantics, not this program's.
- `Semver.Key` models `packaging.version.parse` only on three-component numeric strings, which is all the tag pattern lets through. Its normalisation of other spellings is not modelled.
- `Semver.MatchCore` matches ASCII digits only. Python's `\d` also accepts other Unicode decimal digits, so a tag spelled with, say, Arabic-Indic digits passes the pattern; `version.parse` reads only ASCII digits and raises `InvalidVersion` on it, so `get_all_semver_tags` fails with that exception where the model drops the tag.
- `Text.SplitLines` splits on `'\n'` only. `str.splitlines()` also splits on `'\r'`, `"\r\n"`, `'\x0b'`, `'\x0c'`, `'\x1c'`–`'\x1e'`, `'\x85'`, `'\u2028'` and `'\u2029'`.
- `WhatsNew.FindPreviousVersion` requires the target to be in the list. `list.index` would raise `ValueError` otherwise, and the only caller, `main`, checks membership first.
- `WhatsNew.Run` does not distinguish how an uncaught exception is printed. A git failure is `GitError(stderr)`, which Python prints as "Git error: " followed by the standard error.
