/**
 * `semver_tags.sort(key=version.parse)`: Python's list sort is stable, so the
 * tags come out ordered by the key, and tags with equal keys (such as "1.0.0"
 * collected twice, or "1.0.0" and "01.0.0") keep the order in which they were
 * collected. The key is a parameter here, as it is in Python.
 */
module TagSort {
  import opened Semver

  /** Ascending by release precedence of the keys. */
  predicate Sorted(s: seq<string>, key: string -> Version) {
    forall i, j :: 0 <= i < j < |s| ==> VersionLe(key(s[i]), key(s[j]))
  }

  /** The elements of `s` whose key is `k`, in their order in `s`. */
  function WithKey(s: seq<string>, key: string -> Version, k: Version): seq<string> {
    if s == [] then []
    else WithKey(s[..|s| - 1], key, k) + (if key(s[|s| - 1]) == k then [s[|s| - 1]] else [])
  }

  /** `r` and `t` have the same elements with each key, in the same order. */
  ghost predicate SameClasses(r: seq<string>, t: seq<string>, key: string -> Version) {
    forall k :: WithKey(r, key, k) == WithKey(t, key, k)
  }

  /** `r` is a stable sort of `s`: sorted, and every class of equal keys in its
      original order. */
  ghost predicate IsStableSortOf(r: seq<string>, s: seq<string>, key: string -> Version) {
    Sorted(r, key) && SameClasses(r, s, key)
  }

  /** Inserts `x` into `s` after every element that does not follow it,
      scanning from the right as insertion sort does. */
  function Insert(s: seq<string>, x: string, key: string -> Version): seq<string> {
    if s == [] || VersionLe(key(s[|s| - 1]), key(x)) then s + [x]
    else Insert(s[..|s| - 1], x, key) + [s[|s| - 1]]
  }

  /** Insertion sort by key: the specification of the in-place sort. */
  function SortByKey(s: seq<string>, key: string -> Version): seq<string> {
    if s == [] then [] else Insert(SortByKey(s[..|s| - 1], key), s[|s| - 1], key)
  }

  /** Sorting two tags puts the one of lower key first, and keeps two tags
      of equal key in their order. */
  lemma SortPair(a: string, b: string, key: string -> Version)
    ensures SortByKey([a, b], key) == if VersionLe(key(a), key(b)) then [a, b] else [b, a]
  {
    assert [a, b][..1] == [a];
    assert [a][..0] == [];
    assert SortByKey([a], key) == [a];
    assert Insert([], b, key) == [b];
  }

  lemma {:induction false} InsertPermutes(s: seq<string>, x: string, key: string -> Version)
    ensures multiset(Insert(s, x, key)) == multiset(s) + multiset{x}
  {
    if s != [] && !VersionLe(key(s[|s| - 1]), key(x)) {
      InsertPermutes(s[..|s| - 1], x, key);
      assert s == s[..|s| - 1] + [s[|s| - 1]];
    }
  }

  /** Appending an element that no element follows keeps a sequence sorted. */
  lemma SortedSnoc(t: seq<string>, y: string, key: string -> Version)
    requires Sorted(t, key)
    requires forall k :: 0 <= k < |t| ==> VersionLe(key(t[k]), key(y))
    ensures Sorted(t + [y], key)
  {
    var u := t + [y];
    forall i, j | 0 <= i < j < |u|
      ensures VersionLe(key(u[i]), key(u[j]))
    {
      if j == |t| {
        assert u[i] == t[i];
      } else {
        assert u[i] == t[i] && u[j] == t[j];
      }
    }
  }

  lemma {:induction false} InsertSorted(s: seq<string>, x: string, key: string -> Version)
    requires Sorted(s, key)
    ensures Sorted(Insert(s, x, key), key)
  {
    if s == [] {
    } else if VersionLe(key(s[|s| - 1]), key(x)) {
      forall k | 0 <= k < |s|
        ensures VersionLe(key(s[k]), key(x))
      {
        if k < |s| - 1 {
          assert VersionLe(key(s[k]), key(s[|s| - 1]));
        }
      }
      SortedSnoc(s, x, key);
    } else {
      var init, last := s[..|s| - 1], s[|s| - 1];
      assert Sorted(init, key) by {
        forall i, j | 0 <= i < j < |init|
          ensures VersionLe(key(init[i]), key(init[j]))
        {
          assert init[i] == s[i] && init[j] == s[j];
        }
      }
      InsertSorted(init, x, key);
      InsertPermutes(init, x, key);
      var t := Insert(init, x, key);
      forall k | 0 <= k < |t|
        ensures VersionLe(key(t[k]), key(last))
      {
        assert t[k] in multiset(t);
        if t[k] != x {
          assert t[k] in multiset(init);
          var p :| 0 <= p < |init| && init[p] == t[k];
          assert s[p] == init[p];
        }
      }
      SortedSnoc(t, last, key);
    }
  }

  lemma {:induction false} InsertWithKey(s: seq<string>, x: string, key: string -> Version, k: Version)
    ensures WithKey(Insert(s, x, key), key, k) == WithKey(s, key, k) + (if key(x) == k then [x] else [])
  {
    if s == [] || VersionLe(key(s[|s| - 1]), key(x)) {
      assert (s + [x])[..|s|] == s;
    } else {
      var init, last := s[..|s| - 1], s[|s| - 1];
      InsertWithKey(init, x, key, k);
      var t := Insert(init, x, key);
      assert (t + [last])[..|t|] == t;
    }
  }

  /** The insertion sort is ordered by key. */
  lemma {:induction false} SortByKeySorted(s: seq<string>, key: string -> Version)
    ensures Sorted(SortByKey(s, key), key)
  {
    if s != [] {
      SortByKeySorted(s[..|s| - 1], key);
      InsertSorted(SortByKey(s[..|s| - 1], key), s[|s| - 1], key);
    }
  }

  /** The insertion sort is a permutation: it keeps every element, duplicates included. */
  lemma {:induction false} SortByKeyPermutes(s: seq<string>, key: string -> Version)
    ensures multiset(SortByKey(s, key)) == multiset(s)
  {
    if s != [] {
      SortByKeyPermutes(s[..|s| - 1], key);
      InsertPermutes(SortByKey(s[..|s| - 1], key), s[|s| - 1], key);
      assert s == s[..|s| - 1] + [s[|s| - 1]];
    }
  }

  /** The insertion sort is stable: elements with equal keys keep their order. */
  lemma {:induction false} SortByKeyStable(s: seq<string>, key: string -> Version, k: Version)
    ensures WithKey(SortByKey(s, key), key, k) == WithKey(s, key, k)
  {
    if s != [] {
      SortByKeyStable(s[..|s| - 1], key, k);
      InsertWithKey(SortByKey(s[..|s| - 1], key), s[|s| - 1], key, k);
    }
  }

  lemma {:induction false} WithKeyMember(s: seq<string>, key: string -> Version, k: Version, y: string)
    requires y in WithKey(s, key, k)
    ensures y in s && key(y) == k
  {
    if s != [] {
      var init := s[..|s| - 1];
      if y in WithKey(init, key, k) {
        WithKeyMember(init, key, k, y);
      }
    }
  }

  /** The last element of a non-empty sequence is the last of its key class. */
  lemma WithKeyLast(s: seq<string>, key: string -> Version)
    requires s != []
    ensures var w := WithKey(s, key, key(s[|s| - 1])); w != [] && w[|w| - 1] == s[|s| - 1]
  {
  }

  /** Dropping the last element keeps a sequence sorted. */
  lemma SortedInit(s: seq<string>, key: string -> Version)
    requires s != [] && Sorted(s, key)
    ensures Sorted(s[..|s| - 1], key)
  {
    var init := s[..|s| - 1];
    forall i, j | 0 <= i < j < |init| ensures VersionLe(key(init[i]), key(init[j])) {
      assert init[i] == s[i] && init[j] == s[j];
    }
  }

  /** Two sorted sequences with the same key classes end with the same element. */
  lemma SameLast(r: seq<string>, t: seq<string>, key: string -> Version)
    requires r != [] && t != [] && Sorted(r, key) && Sorted(t, key)
    requires SameClasses(r, t, key)
    ensures r[|r| - 1] == t[|t| - 1]
  {
    var y, z := r[|r| - 1], t[|t| - 1];
    WithKeyLast(r, key);
    WithKeyLast(t, key);
    WithKeyMember(t, key, key(y), y);
    WithKeyMember(r, key, key(z), z);
    var p :| 0 <= p < |t| && t[p] == y;
    var q :| 0 <= q < |r| && r[q] == z;
    assert p < |t| - 1 ==> VersionLe(key(t[p]), key(z));
    assert q < |r| - 1 ==> VersionLe(key(r[q]), key(y));
    assert key(y) == key(z);
  }

  /** Dropping one common last element keeps the key classes equal. */
  lemma SameClassesInit(r: seq<string>, t: seq<string>, key: string -> Version)
    requires r != [] && t != [] && r[|r| - 1] == t[|t| - 1]
    requires SameClasses(r, t, key)
    ensures SameClasses(r[..|r| - 1], t[..|t| - 1], key)
  {
    var y := r[|r| - 1];
    var r', t' := r[..|r| - 1], t[..|t| - 1];
    forall k
      ensures WithKey(r', key, k) == WithKey(t', key, k)
    {
      var e := if key(y) == k then [y] else [];
      var a, b := WithKey(r', key, k), WithKey(t', key, k);
      assert WithKey(r, key, k) == a + e;
      assert WithKey(t, key, k) == b + e;
      assert a == (a + e)[..|a|] && b == (b + e)[..|b|];
    }
  }

  /** Two stable sorts of one sequence are equal: a stable sort is determined
      by its input. */
  lemma {:induction false} StableSortUnique(r: seq<string>, t: seq<string>, key: string -> Version)
    requires Sorted(r, key) && Sorted(t, key)
    requires SameClasses(r, t, key)
    ensures r == t
    decreases |r|
  {
    if r == [] && t != [] {
      WithKeyLast(t, key);
    } else if r != [] && t == [] {
      WithKeyLast(r, key);
    } else if r != [] {
      SameLast(r, t, key);
      SameClassesInit(r, t, key);
      SortedInit(r, key);
      SortedInit(t, key);
      StableSortUnique(r[..|r| - 1], t[..|t| - 1], key);
      assert r == r[..|r| - 1] + [r[|r| - 1]] && t == t[..|t| - 1] + [t[|t| - 1]];
    }
  }

  /** The insertion sort is the one stable sort by key; any stable sort,
      Python's included, returns exactly this sequence. */
  lemma SortByKeyIsTheStableSort(s: seq<string>, key: string -> Version, r: seq<string>)
    ensures IsStableSortOf(SortByKey(s, key), s, key)
    ensures IsStableSortOf(r, s, key) ==> r == SortByKey(s, key)
  {
    SortByKeySorted(s, key);
    forall k ensures WithKey(SortByKey(s, key), key, k) == WithKey(s, key, k) {
      SortByKeyStable(s, key, k);
    }
    if IsStableSortOf(r, s, key) {
      StableSortUnique(r, SortByKey(s, key), key);
    }
  }

  /** Inserting after the last element of lower-or-equal key that precedes a
      run of greater keys puts `x` between the two. */
  lemma {:induction false} InsertSplit(done: seq<string>, j: nat, x: string, key: string -> Version)
    requires j <= |done|
    requires j == 0 || VersionLe(key(done[j - 1]), key(x))
    requires forall k :: j <= k < |done| ==> !VersionLe(key(done[k]), key(x))
    ensures Insert(done, x, key) == done[..j] + [x] + done[j..]
    decreases |done|
  {
    if j < |done| {
      var init := done[..|done| - 1];
      assert init[..j] == done[..j];
      InsertSplit(init, j, x, key);
      assert done[j..] == init[j..] + [done[|done| - 1]];
    } else {
      assert done[..j] == done;
    }
  }

  /** Moves `a[i]` left past every element of `a[..i]` that follows it. */
  method InsertAt(a: array<string>, i: nat, key: string -> Version)
    requires i < a.Length
    modifies a
    ensures a[..i + 1] == Insert(old(a[..i]), old(a[i]), key)
    ensures a[i + 1..] == old(a[i + 1..])
  {
    var x := a[i];
    ghost var done := a[..i];
    ghost var rest := a[i + 1..];
    var j := i;
    while j > 0 && !VersionLe(key(a[j - 1]), key(x))
      invariant 0 <= j <= i
      invariant a[..j] == done[..j]
      invariant a[j + 1..i + 1] == done[j..]
      invariant a[i + 1..] == rest
      invariant forall k :: j <= k < i ==> !VersionLe(key(done[k]), key(x))
    {
      a[j] := a[j - 1];
      j := j - 1;
    }
    a[j] := x;
    InsertSplit(done, j, x, key);
    assert a[..i + 1] == done[..j] + [x] + done[j..];
  }

  /** `list.sort(key=key)` on an array: sorts `a` in place, by insertion. */
  method SortInPlace(a: array<string>, key: string -> Version)
    modifies a
    ensures a[..] == SortByKey(old(a[..]), key)
  {
    ghost var input := a[..];
    var i := 0;
    while i < a.Length
      invariant 0 <= i <= a.Length
      invariant a[..i] == SortByKey(input[..i], key)
      invariant a[i..] == input[i..]
    {
      InsertAt(a, i, key);
      assert input[..i + 1][..i] == input[..i];
      i := i + 1;
    }
    assert input[..a.Length] == input;
  }
}
