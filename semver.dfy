/**
 * Release numbers: the tag pattern `^v?(\d+\.\d+\.\d+)$` of whats_new.py as a
 * hand-written matcher over ASCII digits, the numeric triple that
 * `packaging.version.parse` reads from a matched tag, and its precedence.
 */
module Semver {
  import opened Wrappers

  /** A parsed release number (major, minor, patch). */
  datatype Version = Version(major: nat, minor: nat, patch: nat)

  /** Precedence of section 11 of Semantic Versioning 2.0.0 for three numeric
      components: compare major, then minor, then patch, as numbers. */
  predicate VersionLe(a: Version, b: Version) {
    || a.major < b.major
    || (a.major == b.major && a.minor < b.minor)
    || (a.major == b.major && a.minor == b.minor && a.patch <= b.patch)
  }

  predicate IsDigit(c: char) {
    '0' <= c <= '9'
  }

  /** `s[lo..hi]` consists of digits. */
  predicate DigitsIn(s: string, lo: nat, hi: nat)
    requires lo <= hi <= |s|
  {
    forall k :: lo <= k < hi ==> IsDigit(s[k])
  }

  /** Where the run of digits starting at `i` ends: what a greedy `\d+` consumes. */
  function DigitRunFrom(s: string, i: nat): (n: nat)
    requires i <= |s|
    ensures i <= n <= |s| && DigitsIn(s, i, n)
    ensures n < |s| ==> !IsDigit(s[n])
    decreases |s| - i
  {
    if i < |s| && IsDigit(s[i]) then DigitRunFrom(s, i + 1) else i
  }

  /** Decimal value of the digits `s[lo..hi]` (leading zeros allowed). */
  function ValueIn(s: string, lo: nat, hi: nat): nat
    requires lo <= hi <= |s| && DigitsIn(s, lo, hi)
    decreases hi - lo
  {
    if hi == lo then 0 else 10 * ValueIn(s, lo, hi - 1) + (s[hi - 1] as int - '0' as int)
  }

  /** Matches the whole of `s` against `\d+\.\d+\.\d+` and reads the three numbers. */
  function MatchCore(s: string): Option<Version> {
    var i := DigitRunFrom(s, 0);
    if i == 0 || i == |s| || s[i] != '.' then None
    else
      var j := DigitRunFrom(s, i + 1);
      if j == i + 1 || j == |s| || s[j] != '.' then None
      else
        var n := DigitRunFrom(s, j + 1);
        if n == j + 1 || n < |s| then None
        else Some(Version(ValueIn(s, 0, i), ValueIn(s, i + 1, j), ValueIn(s, j + 1, |s|)))
  }

  /** `s` is a bare release number `digits.digits.digits`. */
  predicate IsCore(s: string) {
    MatchCore(s).Some?
  }

  /** The reading of the pattern `\d+\.\d+\.\d+`: the two dots of `s` are at
      `i` and `j`, and the three parts around them are non-empty digit strings. */
  ghost predicate CoreAt(s: string, i: nat, j: nat) {
    && 0 < i && i + 1 < j && j + 1 < |s|
    && s[i] == '.' && s[j] == '.'
    && DigitsIn(s, 0, i) && DigitsIn(s, i + 1, j) && DigitsIn(s, j + 1, |s|)
  }

  /** The numbers of a release number whose dots are at `i` and `j`. */
  ghost function PartsAt(s: string, i: nat, j: nat): Version
    requires CoreAt(s, i, j)
  {
    Version(ValueIn(s, 0, i), ValueIn(s, i + 1, j), ValueIn(s, j + 1, |s|))
  }

  /** A run of digits followed by a non-digit is exactly what `DigitRunFrom` finds. */
  lemma {:induction false} DigitRunExact(s: string, i: nat, n: nat)
    requires i <= n <= |s| && DigitsIn(s, i, n)
    requires n < |s| ==> !IsDigit(s[n])
    ensures DigitRunFrom(s, i) == n
    decreases n - i
  {
    if i < n {
      DigitRunExact(s, i + 1, n);
    }
  }

  /** What the matcher accepts has the shape of the pattern, and the numbers it
      reads are those of the three parts. */
  lemma MatchCoreSound(s: string)
    requires MatchCore(s).Some?
    ensures exists i, j :: CoreAt(s, i, j) && MatchCore(s).value == PartsAt(s, i, j)
  {
    var i := DigitRunFrom(s, 0);
    var j := DigitRunFrom(s, i + 1);
    assert CoreAt(s, i, j);
  }

  /** Every string of the pattern's shape is accepted, with its three numbers. */
  lemma MatchCoreComplete(s: string, i: nat, j: nat)
    requires CoreAt(s, i, j)
    ensures MatchCore(s) == Some(PartsAt(s, i, j))
  {
    DigitRunExact(s, 0, i);
    DigitRunExact(s, i + 1, j);
    DigitRunExact(s, j + 1, |s|);
  }

  /** `IsCore` is exactly the pattern `\d+\.\d+\.\d+`, in both directions. */
  lemma IsCoreIff(s: string)
    ensures IsCore(s) <==> exists i, j :: CoreAt(s, i, j)
  {
    if IsCore(s) {
      MatchCoreSound(s);
    }
    if exists i, j :: CoreAt(s, i, j) {
      var i: nat, j: nat :| CoreAt(s, i, j);
      MatchCoreComplete(s, i, j);
    }
  }

  /** A release number starts and ends with a digit: it has no leading 'v',
      no surrounding whitespace and no trailing newline. */
  lemma CoreEdges(s: string)
    requires IsCore(s)
    ensures |s| >= 5 && IsDigit(s[0]) && IsDigit(s[|s| - 1])
  {
    MatchCoreSound(s);
  }

  /** `re.match(r"^v?(\d+\.\d+\.\d+)$", tag)` and its group 1: an optional
      leading 'v' is dropped, and, as Python's `$` also matches just before a
      final newline, one trailing '\n' is allowed and left out of the group. */
  function MatchTag(tag: string): Option<string> {
    var rest := if |tag| > 0 && tag[0] == 'v' then tag[1..] else tag;
    var body := if |rest| > 0 && rest[|rest| - 1] == '\n' then rest[..|rest| - 1] else rest;
    if IsCore(body) then Some(body) else None
  }

  /** The four spellings of release number `g` that the tag pattern accepts. */
  predicate TagSpells(tag: string, g: string) {
    tag == g || tag == "v" + g || tag == g + "\n" || tag == "v" + g + "\n"
  }

  /** A matched tag is one of the spellings of a release number, its group. */
  lemma MatchTagSound(tag: string)
    requires MatchTag(tag).Some?
    ensures IsCore(MatchTag(tag).value) && TagSpells(tag, MatchTag(tag).value)
  {
    var rest := if |tag| > 0 && tag[0] == 'v' then tag[1..] else tag;
    if |tag| > 0 && tag[0] == 'v' {
      assert tag == "v" + rest;
    }
    if |rest| > 0 && rest[|rest| - 1] == '\n' {
      assert rest == rest[..|rest| - 1] + "\n";
    }
  }

  /** Every spelling of a release number matches, and its group is the bare number. */
  lemma MatchTagComplete(tag: string, g: string)
    requires IsCore(g) && TagSpells(tag, g)
    ensures MatchTag(tag) == Some(g)
  {
    CoreEdges(g);
    if tag == "v" + g {
      assert tag[1..] == g;
    } else if tag == g + "\n" {
      assert tag[0] == g[0];
      assert tag[..|tag| - 1] == g;
    } else if tag == "v" + g + "\n" {
      assert tag[1..] == g + "\n";
      assert (g + "\n")[..|g|] == g;
    }
  }

  /** The sort key: `packaging.version.parse` of a collected tag. Every string
      sorted by this key is a release number; any other string gets 0.0.0. */
  function Key(t: string): Version {
    match MatchCore(t)
    case Some(v) => v
    case None => Version(0, 0, 0)
  }

  /** Canonical decimal spelling of `n`, without leading zeros. */
  function Decimal(n: nat): (d: string)
    ensures d != [] && DigitsIn(d, 0, |d|)
  {
    var c := ('0' as int + n % 10) as char;
    if n < 10 then [c] else Decimal(n / 10) + [c]
  }

  /** The value of digits does not depend on what surrounds them: the first
      `n` digits of `x`, copied into `t` at `off`, read the same there. */
  lemma {:induction false} ValueInEmbedded(x: string, n: nat, t: string, off: nat)
    requires n <= |x| && DigitsIn(x, 0, |x|) && off + |x| <= |t|
    requires forall k :: 0 <= k < |x| ==> t[off + k] == x[k]
    ensures DigitsIn(t, off, off + n)
    ensures ValueIn(t, off, off + n) == ValueIn(x, 0, n)
    decreases n
  {
    forall k | off <= k < off + n ensures IsDigit(t[k]) {
      assert t[off + (k - off)] == x[k - off];
    }
    if n > 0 {
      ValueInEmbedded(x, n - 1, t, off);
      assert t[off + (n - 1)] == x[n - 1];
    }
  }

  /** The digits `x`, copied into `t[off..hi]`, read the same there. */
  lemma ValueInCopy(x: string, t: string, off: nat, hi: nat)
    requires DigitsIn(x, 0, |x|) && hi == off + |x| <= |t|
    requires forall k :: 0 <= k < |x| ==> t[off + k] == x[k]
    ensures DigitsIn(t, off, hi) && ValueIn(t, off, hi) == ValueIn(x, 0, |x|)
  {
    ValueInEmbedded(x, |x|, t, off);
  }

  /** Reading a canonical decimal gives back the number. */
  lemma {:induction false} ValueDecimal(n: nat)
    ensures ValueIn(Decimal(n), 0, |Decimal(n)|) == n
  {
    var d := Decimal(n);
    if n >= 10 {
      var p := Decimal(n / 10);
      ValueDecimal(n / 10);
      ValueInEmbedded(p, |p|, d, 0);
    }
  }

  /** The canonical tag of a version. */
  function Format(v: Version): string {
    Decimal(v.major) + "." + Decimal(v.minor) + "." + Decimal(v.patch)
  }

  /** The matcher reads every version back from its canonical tag, with or
      without the leading 'v'. */
  lemma FormatRoundTrip(v: Version)
    ensures MatchCore(Format(v)) == Some(v)
    ensures MatchTag(Format(v)) == Some(Format(v)) && MatchTag("v" + Format(v)) == Some(Format(v))
  {
    FormatMatches(v);
    MatchTagComplete(Format(v), Format(v));
    MatchTagComplete("v" + Format(v), Format(v));
  }

  /** A string laid out as three non-empty digit strings separated by dots
      has the pattern's shape, and its numbers are those of the three parts. */
  lemma JoinedCore(s: string, a: string, b: string, c: string)
    requires a != [] && b != [] && c != []
    requires DigitsIn(a, 0, |a|) && DigitsIn(b, 0, |b|) && DigitsIn(c, 0, |c|)
    requires |s| == |a| + 1 + |b| + 1 + |c| && s[|a|] == '.' && s[|a| + 1 + |b|] == '.'
    requires forall k :: 0 <= k < |a| ==> s[k] == a[k]
    requires forall k :: 0 <= k < |b| ==> s[|a| + 1 + k] == b[k]
    requires forall k :: 0 <= k < |c| ==> s[|a| + 1 + |b| + 1 + k] == c[k]
    ensures MatchCore(s) == Some(Version(ValueIn(a, 0, |a|), ValueIn(b, 0, |b|), ValueIn(c, 0, |c|)))
  {
    ValueInCopy(a, s, 0, |a|);
    ValueInCopy(b, s, |a| + 1, |a| + 1 + |b|);
    ValueInCopy(c, s, |a| + 1 + |b| + 1, |s|);
    MatchCoreComplete(s, |a|, |a| + 1 + |b|);
  }

  lemma FormatMatches(v: Version)
    ensures MatchCore(Format(v)) == Some(v)
  {
    var a, b, c := Decimal(v.major), Decimal(v.minor), Decimal(v.patch);
    var s := Format(v);
    forall k | 0 <= k < |a| ensures s[k] == a[k] { }
    forall k | 0 <= k < |b| ensures s[|a| + 1 + k] == b[k] { }
    forall k | 0 <= k < |c| ensures s[|a| + 1 + |b| + 1 + k] == c[k] { }
    JoinedCore(s, a, b, c);
    ValueDecimal(v.major);
    ValueDecimal(v.minor);
    ValueDecimal(v.patch);
  }

  /** The matcher reads 9.9.9. */
  lemma MatchNines()
    ensures MatchCore("9.9.9") == Some(Version(9, 9, 9))
  {
  }

  /** The matcher reads 10.0.0, both digits of the major number. */
  lemma MatchTen()
    ensures MatchCore("10.0.0") == Some(Version(10, 0, 0))
  {
  }

  /** Precedence is numeric, not lexical: 9.9.9 comes before 10.0.0, although
      "10.0.0" is the smaller string character by character. */
  lemma NumericNotLexical()
    ensures VersionLe(Key("9.9.9"), Key("10.0.0")) && !VersionLe(Key("10.0.0"), Key("9.9.9"))
    ensures "10.0.0"[0] < "9.9.9"[0]
  {
    MatchNines();
    MatchTen();
  }

  /** A 'v'-prefixed release number matches, and its group drops the 'v'. */
  lemma MatchTagAcceptsExample()
    ensures MatchTag("v1.2.3") == Some("1.2.3")
  {
    assert MatchCore("1.2.3") == Some(Version(1, 2, 3));
    MatchTagComplete("v1.2.3", "1.2.3");
  }

  /** A tag that is a name does not match. */
  lemma MatchTagRejectsName()
    ensures MatchTag("release-1") == None
  {
  }

  /** A tag with two components does not match. */
  lemma MatchTagRejectsTwoParts()
    ensures MatchTag("1.2") == None
  {
  }

  /** A tag with a pre-release suffix does not match. */
  lemma MatchTagRejectsPrerelease()
    ensures MatchTag("1.2.3-rc1") == None
  {
  }
}
