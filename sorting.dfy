/** `sort_unstable` and `dedup` on a vector of strings, as in-place array
    algorithms, each proved equal to a functional specification, and the
    laws that say what sorting then deduplicating produces. */
module Sorting {
  import opened Text

  /** Every element is at most every later one. */
  predicate Sorted(s: seq<string>) {
    forall i, j :: 0 <= i < j < |s| ==> AtMost(s[i], s[j])
  }

  /** Every element is below every later one: sorted and duplicate-free. */
  predicate StrictlyIncreasing(s: seq<string>) {
    forall i, j :: 0 <= i < j < |s| ==> Below(s[i], s[j])
  }

  /** `y` is at most every element of `s`. */
  predicate LowerBound(y: string, s: seq<string>) {
    forall j :: 0 <= j < |s| ==> AtMost(y, s[j])
  }

  /** A lower bound of a list bounds every list made of its elements. */
  lemma LowerBoundOfElements(y: string, s: seq<string>, t: seq<string>)
    requires LowerBound(y, s) && multiset(t) <= multiset(s)
    ensures LowerBound(y, t)
  {
    forall j | 0 <= j < |t| ensures AtMost(y, t[j]) {
      assert t[j] in multiset(s);
      var k :| 0 <= k < |s| && s[k] == t[j];
    }
  }

  /** A lower bound of a sorted list can be put in front of it. */
  lemma SortedCons(y: string, s: seq<string>)
    requires Sorted(s) && LowerBound(y, s)
    ensures Sorted([y] + s)
  {
    var r := [y] + s;
    forall i, j | 0 <= i < j < |r| ensures AtMost(r[i], r[j]) {
      if i > 0 { assert r[i] == s[i - 1] && r[j] == s[j - 1]; }
      else { assert r[j] == s[j - 1]; }
    }
  }

  /** `x` placed before the first element it does not exceed. */
  function Insert(x: string, s: seq<string>): (r: seq<string>)
    requires Sorted(s)
    ensures Sorted(r)
    ensures multiset(r) == multiset(s) + multiset{x}
  {
    if s == [] then [x]
    else if AtMost(x, s[0]) then
      assert LowerBound(x, s) by {
        forall j | 0 < j < |s| ensures AtMost(x, s[j]) { AtMostTransitive(x, s[0], s[j]); }
      }
      SortedCons(x, s);
      [x] + s
    else
      var rest := Insert(x, s[1..]);
      BelowTotal(x, s[0]);
      assert LowerBound(s[0], s[1..] + [x]);
      assert multiset(rest) == multiset(s[1..] + [x]);
      LowerBoundOfElements(s[0], s[1..] + [x], rest);
      SortedCons(s[0], rest);
      assert s == [s[0]] + s[1..];
      [s[0]] + rest
  }

  /** The specification of sorting: insertion sort. */
  function Sort(s: seq<string>): (r: seq<string>)
    ensures Sorted(r)
    ensures multiset(r) == multiset(s)
  {
    if s == [] then []
    else
      assert s == [s[0]] + s[1..];
      Insert(s[0], Sort(s[1..]))
  }

  /** The head of a sorted list is at most each of its elements. */
  lemma SortedHeadIsLeast(s: seq<string>, x: string)
    requires Sorted(s) && x in multiset(s)
    ensures AtMost(s[0], x)
  {
    var k :| 0 <= k < |s| && s[k] == x;
    if k > 0 { assert AtMost(s[0], s[k]); }
  }

  /** Dropping the head of a sorted list leaves a sorted list, whose
      elements are those of the list less the head. */
  lemma SortedTail(s: seq<string>)
    requires Sorted(s) && s != []
    ensures Sorted(s[1..])
    ensures multiset(s[1..]) == multiset(s) - multiset{s[0]}
  {
    assert s == [s[0]] + s[1..];
  }

  /** A sorted permutation is unique: whatever algorithm sorts a list, stable
      or not, produces the same list. */
  lemma {:induction false} SortedUnique(s: seq<string>, t: seq<string>)
    requires Sorted(s) && Sorted(t)
    requires multiset(s) == multiset(t)
    ensures s == t
    decreases |s|
  {
    if s == [] {
      assert |multiset(t)| == 0;
    } else {
      assert s[0] in multiset(t);
      assert t != [];
      assert t[0] in multiset(s);
      SortedHeadIsLeast(t, s[0]);
      SortedHeadIsLeast(s, t[0]);
      AtMostAntisymmetric(s[0], t[0]);
      SortedTail(s);
      SortedTail(t);
      SortedUnique(s[1..], t[1..]);
      assert s == [s[0]] + s[1..] && t == [t[0]] + t[1..];
    }
  }

  /** `dedup`: every run of equal neighbours reduced to its first element. */
  function Dedup(s: seq<string>): (r: seq<string>)
    ensures |r| <= |s|
    ensures |s| > 0 ==> |r| > 0 && r[|r| - 1] == s[|s| - 1]
  {
    if |s| <= 1 then s
    else if s[|s| - 1] == s[|s| - 2] then Dedup(s[..|s| - 1])
    else Dedup(s[..|s| - 1]) + [s[|s| - 1]]
  }

  /** `dedup` drops only repeats: the result has the same elements. */
  lemma {:induction false} DedupElements(s: seq<string>)
    ensures forall x :: x in Dedup(s) <==> x in s
    decreases |s|
  {
    if |s| > 1 {
      var init := s[..|s| - 1];
      DedupElements(init);
      assert s == init + [s[|s| - 1]];
    }
  }

  /** No two neighbours of `dedup`'s result are equal. */
  lemma {:induction false} DedupNoEqualNeighbours(s: seq<string>)
    ensures forall k :: 0 <= k < |Dedup(s)| - 1 ==> Dedup(s)[k] != Dedup(s)[k + 1]
    decreases |s|
  {
    if |s| > 1 {
      var init := s[..|s| - 1];
      DedupNoEqualNeighbours(init);
      var d := Dedup(init);
      if s[|s| - 1] != s[|s| - 2] {
        assert d[|d| - 1] == s[|s| - 2];
        var r := d + [s[|s| - 1]];
        forall k | 0 <= k < |r| - 1 ensures r[k] != r[k + 1] {
          if k < |d| - 1 { assert r[k] == d[k] && r[k + 1] == d[k + 1]; }
        }
      }
    }
  }

  /** A list without equal neighbours is left as it is by `dedup`. */
  lemma {:induction false} DedupKeepsDistinctNeighbours(s: seq<string>)
    requires forall k :: 0 <= k < |s| - 1 ==> s[k] != s[k + 1]
    ensures Dedup(s) == s
    decreases |s|
  {
    if |s| > 1 {
      var init := s[..|s| - 1];
      assert forall k :: 0 <= k < |init| ==> init[k] == s[k];
      DedupKeepsDistinctNeighbours(init);
      assert s == init + [s[|s| - 1]];
    }
  }

  /** Deduplicating twice is deduplicating once. */
  lemma DedupIdempotent(s: seq<string>)
    ensures Dedup(Dedup(s)) == Dedup(s)
  {
    DedupNoEqualNeighbours(s);
    DedupKeepsDistinctNeighbours(Dedup(s));
  }

  /** On a sorted list `dedup` leaves a strictly increasing one. */
  lemma {:induction false} DedupStrictlyIncreasing(s: seq<string>)
    requires Sorted(s)
    ensures StrictlyIncreasing(Dedup(s))
    decreases |s|
  {
    if |s| > 1 {
      var init := s[..|s| - 1];
      assert Sorted(init);
      DedupStrictlyIncreasing(init);
      var d := Dedup(init);
      if s[|s| - 1] != s[|s| - 2] {
        var r := d + [s[|s| - 1]];
        assert AtMost(s[|s| - 2], s[|s| - 1]);
        assert Below(d[|d| - 1], s[|s| - 1]);
        forall i, j | 0 <= i < j < |r| ensures Below(r[i], r[j]) {
          if j == |r| - 1 && i < |d| - 1 {
            BelowTransitive(r[i], d[|d| - 1], s[|s| - 1]);
          }
        }
      }
    }
  }

  /** Two strictly increasing lists with the same elements are equal: the
      result of sorting and deduplicating depends only on the set of
      elements, not on their order or repetition in the input. */
  lemma {:induction false} StrictlyIncreasingUnique(s: seq<string>, t: seq<string>)
    requires StrictlyIncreasing(s) && StrictlyIncreasing(t)
    requires forall x :: x in s <==> x in t
    ensures s == t
    decreases |s|
  {
    assert t != [] ==> t[0] in s;
    if s != [] {
      assert s[0] in t && t != [];
      assert t[0] in s;
      var k :| 0 <= k < |t| && t[k] == s[0];
      var m :| 0 <= m < |s| && s[m] == t[0];
      if s[0] != t[0] {
        assert k > 0 && m > 0;
        assert Below(t[0], s[0]) && Below(s[0], t[0]);
        BelowAsymmetric(t[0], s[0]);
      }
      forall x ensures x in s[1..] <==> x in t[1..] {
        if x in s[1..] {
          var i :| 0 <= i < |s[1..]| && s[1..][i] == x;
          assert Below(s[0], s[i + 1]);
          BelowAsymmetric(s[0], x);
          assert x in t;
        }
        if x in t[1..] {
          var i :| 0 <= i < |t[1..]| && t[1..][i] == x;
          assert Below(t[0], t[i + 1]);
          BelowAsymmetric(t[0], x);
          assert x in s;
        }
        assert x in s <==> x == s[0] || x in s[1..] by { assert s == [s[0]] + s[1..]; }
        assert x in t <==> x == t[0] || x in t[1..] by { assert t == [t[0]] + t[1..]; }
      }
      StrictlyIncreasingUnique(s[1..], t[1..]);
      assert s == [s[0]] + s[1..] && t == [t[0]] + t[1..];
    }
  }

  /** One step of the sort: `a[i]` moves down into the sorted prefix
      `a[..i]` by swaps, leaving `a[..i + 1]` sorted. */
  method SiftDown(a: array<string>, i: nat)
    requires i < a.Length
    requires forall k, l :: 0 <= k < l < i ==> AtMost(a[k], a[l])
    modifies a
    ensures forall k, l :: 0 <= k < l <= i ==> AtMost(a[k], a[l])
    ensures multiset(a[..i + 1]) == multiset(old(a[..i + 1]))
    ensures a[i + 1..] == old(a[i + 1..])
    ensures multiset(a[..]) == multiset(old(a[..]))
  {
    var j := i;
    while j > 0 && Below(a[j], a[j - 1])
      invariant 0 <= j <= i
      invariant forall k, l :: 0 <= k < l <= i && k != j && l != j ==> AtMost(a[k], a[l])
      invariant forall l :: j < l <= i ==> Below(a[j], a[l])
      invariant multiset(a[..i + 1]) == multiset(old(a[..i + 1]))
      invariant a[i + 1..] == old(a[i + 1..])
    {
      a[j - 1], a[j] := a[j], a[j - 1];
      j := j - 1;
    }
    forall k | 0 <= k < j ensures AtMost(a[k], a[j]) {
      BelowTotal(a[j], a[j - 1]);
      if k < j - 1 { AtMostTransitive(a[k], a[j - 1], a[j]); }
    }
    assert a[..] == a[..i + 1] + a[i + 1..];
    assert old(a[..]) == old(a[..i + 1]) + old(a[i + 1..]);
  }

  /** `sort_unstable` on the vector's buffer: insertion sort by swaps. */
  method SortInPlace(a: array<string>)
    modifies a
    ensures a[..] == Sort(old(a[..]))
  {
    var i := 0;
    while i < a.Length
      invariant 0 <= i <= a.Length
      invariant forall k, l :: 0 <= k < l < i ==> AtMost(a[k], a[l])
      invariant multiset(a[..]) == multiset(old(a[..]))
    {
      SiftDown(a, i);
      i := i + 1;
    }
    SortedUnique(a[..], Sort(old(a[..])));
  }

  /** Extending the input by one element extends `Dedup` by that element
      unless it repeats its predecessor. */
  lemma DedupStep(s: seq<string>, r: nat)
    requires 1 <= r < |s|
    ensures Dedup(s[..r + 1])
         == if s[r] == s[r - 1] then Dedup(s[..r]) else Dedup(s[..r]) + [s[r]]
  {
    assert s[..r + 1][..r] == s[..r];
  }

  /** `dedup` on the vector's buffer: the retained prefix is returned as its
      new length. */
  method DedupInPlace(a: array<string>) returns (len: nat)
    modifies a
    ensures len <= a.Length
    ensures a[..len] == Dedup(old(a[..]))
  {
    if a.Length == 0 { return 0; }
    ghost var s := a[..];
    var w, r := 1, 1;
    assert s[..1] == [s[0]];
    while r < a.Length
      invariant 1 <= w <= r <= a.Length
      invariant a[..w] == Dedup(s[..r])
      invariant forall k :: r <= k < a.Length ==> a[k] == s[k]
    {
      DedupStep(s, r);
      assert a[w - 1] == s[r - 1];
      if a[r] != a[w - 1] {
        a[w] := a[r];
        assert a[..w + 1] == a[..w] + [a[w]];
        w := w + 1;
      }
      r := r + 1;
    }
    assert s[..r] == s;
    return w;
  }
}
