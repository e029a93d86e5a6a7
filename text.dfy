/**
 * The text post-processing that whats_new.py applies to git's output:
 * `str.strip()`, `str.splitlines()` and `"\n".join(...)`.
 */
module Text {

  /** Python's `str.isspace()` for one character: general category Zs,
      or bidirectional class WS, B or S. */
  predicate IsSpace(c: char) {
    var n := c as int;
    (0x09 <= n <= 0x0D) || (0x1C <= n <= 0x20) || n == 0x85 || n == 0xA0 || n == 0x1680
    || (0x2000 <= n <= 0x200A) || n == 0x2028 || n == 0x2029 || n == 0x202F
    || n == 0x205F || n == 0x3000
  }

  /** `s[lo..hi]` is all whitespace. */
  predicate SpaceIn(s: string, lo: nat, hi: nat)
    requires lo <= hi <= |s|
  {
    forall k :: lo <= k < hi ==> IsSpace(s[k])
  }

  /** `s.lstrip()`: the longest suffix of `s` that does not start with whitespace. */
  function StripLeft(s: string): (r: string)
    ensures |r| <= |s| && r == s[|s| - |r|..]
    ensures SpaceIn(s, 0, |s| - |r|)
    ensures r != [] ==> !IsSpace(r[0])
  {
    if s != [] && IsSpace(s[0]) then StripLeft(s[1..]) else s
  }

  /** `s.rstrip()`: the longest prefix of `s` that does not end with whitespace. */
  function StripRight(s: string): (r: string)
    ensures |r| <= |s| && r == s[..|r|]
    ensures SpaceIn(s, |r|, |s|)
    ensures r != [] ==> !IsSpace(r[|r| - 1])
  {
    if s != [] && IsSpace(s[|s| - 1]) then StripRight(s[..|s| - 1]) else s
  }

  /** `r` is the piece of `s` starting at `i`, with only whitespace around it
      and none at either of its ends. */
  ghost predicate StripsAt(r: string, s: string, i: nat) {
    && i + |r| <= |s| && s[i..i + |r|] == r
    && SpaceIn(s, 0, i) && SpaceIn(s, i + |r|, |s|)
    && (r != [] ==> !IsSpace(r[0]) && !IsSpace(r[|r| - 1]))
  }

  /** `r` is `s` with only whitespace removed from its two ends, and none left at either end. */
  ghost predicate IsStripOf(r: string, s: string) {
    exists i :: StripsAt(r, s, i)
  }

  /** A suffix `l` of `s` past leading whitespace, cut back to a prefix `r`
      before trailing whitespace, is a piece of `s` with only whitespace
      around it. */
  lemma PieceStrips(s: string, l: string, r: string)
    requires |l| <= |s| && l == s[|s| - |l|..] && SpaceIn(s, 0, |s| - |l|)
    requires l != [] ==> !IsSpace(l[0])
    requires |r| <= |l| && r == l[..|r|] && SpaceIn(l, |r|, |l|)
    requires r != [] ==> !IsSpace(r[|r| - 1])
    ensures StripsAt(r, s, |s| - |l|)
  {
    var i := |s| - |l|;
    forall k | i + |r| <= k < |s| ensures IsSpace(s[k]) {
      assert s[k] == l[k - i];
    }
    assert s[i..i + |r|] == r;
    assert r != [] ==> r[0] == l[0];
  }

  /** Right-stripping the left-stripped string leaves a piece of `s` with
      only whitespace around it and none at its ends. */
  lemma StripShape(s: string)
    ensures IsStripOf(StripRight(StripLeft(s)), s)
  {
    var l := StripLeft(s);
    PieceStrips(s, l, StripRight(l));
  }

  /** `s.strip()`. */
  function Strip(s: string): (r: string)
    ensures IsStripOf(r, s)
  {
    StripShape(s);
    StripRight(StripLeft(s))
  }

  /** Only whitespace before `i`, and none at `i`: `lstrip` removes exactly `s[..i]`. */
  lemma {:induction false} StripLeftAt(s: string, i: nat)
    requires i <= |s| && SpaceIn(s, 0, i) && (i < |s| ==> !IsSpace(s[i]))
    ensures StripLeft(s) == s[i..]
  {
    if i > 0 {
      assert forall k :: 0 <= k < i - 1 ==> s[1..][k] == s[k + 1];
      StripLeftAt(s[1..], i - 1);
      assert s[1..][i - 1..] == s[i..];
    }
  }

  /** Only whitespace from `n` on, and none just before: `rstrip` keeps exactly `s[..n]`. */
  lemma {:induction false} StripRightAt(s: string, n: nat)
    requires n <= |s| && SpaceIn(s, n, |s|) && (n > 0 ==> !IsSpace(s[n - 1]))
    ensures StripRight(s) == s[..n]
    decreases |s| - n
  {
    if n < |s| {
      var init := s[..|s| - 1];
      StripRightAt(init, n);
      assert init[..n] == s[..n];
    } else {
      assert s[..n] == s;
    }
  }

  /** `r` sits in `s` at `i` with only whitespace around it and none at its
      ends: `strip()` keeps exactly `r`. */
  lemma StripAt(s: string, i: nat, r: string)
    requires r != [] && i + |r| <= |s| && s[i..i + |r|] == r
    requires SpaceIn(s, 0, i) && SpaceIn(s, i + |r|, |s|)
    requires !IsSpace(r[0]) && !IsSpace(r[|r| - 1])
    ensures Strip(s) == r
  {
    assert s[i] == r[0];
    StripLeftAt(s, i);
    var l := s[i..];
    assert l[|r| - 1] == r[|r| - 1];
    StripRightAt(l, |r|);
    assert l[..|r|] == r;
  }

  /** A string of whitespace only strips to the empty string. */
  lemma StripAllSpace(s: string)
    requires SpaceIn(s, 0, |s|)
    ensures Strip(s) == []
  {
    StripLeftAt(s, |s|);
  }

  /** `IsStripOf` pins the result down: `Strip(s)` is the only string it accepts. */
  lemma StripUnique(r: string, s: string)
    requires IsStripOf(r, s)
    ensures r == Strip(s)
  {
    var i :| StripsAt(r, s, i);
    if r == [] {
      StripAllSpace(s);
    } else {
      StripAt(s, i, r);
    }
  }

  /** Splits on every '\n'; always at least one piece (`s.split("\n")`). */
  function SplitNewlines(s: string): (r: seq<string>)
    ensures |r| >= 1
    ensures forall k :: 0 <= k < |r| ==> '\n' !in r[k]
  {
    if s == [] then [""]
    else
      var rest := SplitNewlines(s[1..]);
      if s[0] == '\n' then [""] + rest
      else [[s[0]] + rest[0]] + rest[1..]
  }

  /** `s.splitlines()` with '\n' as the only line boundary: like splitting
      on '\n', except that an empty string has no lines and a final '\n'
      does not open an empty last line. */
  function SplitLines(s: string): (r: seq<string>)
    ensures forall k :: 0 <= k < |r| ==> '\n' !in r[k]
    ensures r == [] <==> s == []
  {
    if s == [] then []
    else if s[|s| - 1] == '\n' then SplitNewlines(s[..|s| - 1])
    else SplitNewlines(s)
  }

  /** `"\n".join(parts)`. */
  function JoinLines(parts: seq<string>): string {
    if |parts| == 0 then ""
    else if |parts| == 1 then parts[0]
    else parts[0] + "\n" + JoinLines(parts[1..])
  }

  /** Joining the pieces of a split gives back the string. */
  lemma {:induction false} JoinSplitNewlines(s: string)
    ensures JoinLines(SplitNewlines(s)) == s
  {
    if s != [] {
      var rest := SplitNewlines(s[1..]);
      JoinSplitNewlines(s[1..]);
      if s[0] == '\n' {
        assert ([""] + rest)[1..] == rest;
      } else if |rest| > 1 {
        var parts := [[s[0]] + rest[0]] + rest[1..];
        assert parts[1..] == rest[1..];
        assert JoinLines(rest) == rest[0] + "\n" + JoinLines(rest[1..]);
      }
    }
  }

  /** A piece without '\n' followed by '\n' splits off as one piece. */
  lemma {:induction false} SplitNewlinesCons(a: string, b: string)
    requires '\n' !in a
    ensures SplitNewlines(a + "\n" + b) == [a] + SplitNewlines(b)
  {
    if a == [] {
      assert (a + "\n" + b)[1..] == b;
    } else {
      assert (a + "\n" + b)[1..] == a[1..] + "\n" + b;
      assert a[0] in a && [a[0]] + a[1..] == a;
      SplitNewlinesCons(a[1..], b);
    }
  }

  /** A piece without '\n' is its own single piece. */
  lemma {:induction false} SplitNewlinesNone(a: string)
    requires '\n' !in a
    ensures SplitNewlines(a) == [a]
  {
    if a != [] {
      assert a[0] in a && [a[0]] + a[1..] == a;
      SplitNewlinesNone(a[1..]);
    }
  }

  /** Splitting the join of pieces without '\n' gives back the pieces. */
  lemma {:induction false} SplitJoinLines(parts: seq<string>)
    requires |parts| >= 1
    requires forall k :: 0 <= k < |parts| ==> '\n' !in parts[k]
    ensures SplitNewlines(JoinLines(parts)) == parts
  {
    if |parts| == 1 {
      SplitNewlinesNone(parts[0]);
    } else {
      SplitJoinLines(parts[1..]);
      SplitNewlinesCons(parts[0], JoinLines(parts[1..]));
    }
  }

  /** The join of pieces whose last piece is not empty ends with that piece's last character. */
  lemma {:induction false} JoinLinesLast(parts: seq<string>)
    requires |parts| >= 1 && parts[|parts| - 1] != []
    ensures var j := JoinLines(parts); j != [] && j[|j| - 1] == parts[|parts| - 1][|parts[|parts| - 1]| - 1]
  {
    if |parts| > 1 {
      JoinLinesLast(parts[1..]);
    }
  }

  /** `splitlines` undoes `"\n".join` when no piece holds '\n' and the last is not empty. */
  lemma SplitLinesJoinLines(parts: seq<string>)
    requires |parts| >= 1 && parts[|parts| - 1] != []
    requires forall k :: 0 <= k < |parts| ==> '\n' !in parts[k]
    ensures SplitLines(JoinLines(parts)) == parts
  {
    JoinLinesLast(parts);
    var last := parts[|parts| - 1];
    assert last[|last| - 1] in last;
    SplitJoinLines(parts);
  }

  /** `"\n".join` undoes `splitlines` on text that does not end with '\n',
      which is the case for all stripped text. */
  lemma JoinLinesSplitLines(s: string)
    requires s == [] || s[|s| - 1] != '\n'
    ensures JoinLines(SplitLines(s)) == s
  {
    if s != [] {
      JoinSplitNewlines(s);
    }
  }
}
