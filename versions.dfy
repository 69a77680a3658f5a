/** `package_versions.sort(key=lambda x: x[0])`: Python's stable sort of the
    fetched version links by their anchor text (the artifact file name). */
module VersionSort {
  import opened StrOrder
  import opened Links

  /** Nondecreasing by anchor text under Python's string order. */
  ghost predicate SortedByText(s: seq<Link>) {
    forall i, j :: 0 <= i < j < |s| ==> Le(s[i].text, s[j].text)
  }

  /** The entries of `s` whose text is `f`, in their order in `s`. A sort is
      stable when it leaves every such run as it was. */
  function WithText(s: seq<Link>, f: string): seq<Link>
    decreases |s|
  {
    if s == [] then []
    else WithText(s[..|s| - 1], f) + (if s[|s| - 1].text == f then [s[|s| - 1]] else [])
  }

  /** `t` and `u` list the entries of each text in the same order. */
  ghost predicate SameRuns(t: seq<Link>, u: seq<Link>) {
    forall f :: WithText(t, f) == WithText(u, f)
  }

  /** One step of a stable insertion sort: scanning from the right, `x` goes
      after the last entry whose text is not greater than its own. In a
      sorted list this is the place CPython's binary insertion finds. */
  function Insert(s: seq<Link>, x: Link): (r: seq<Link>)
    ensures |r| == |s| + 1
    decreases |s|
  {
    if s == [] then [x]
    else if Le(s[|s| - 1].text, x.text) then s + [x]
    else Insert(s[..|s| - 1], x) + [s[|s| - 1]]
  }

  /** The list after the sort: the entries inserted one at a time, in order. */
  function SortByText(s: seq<Link>): (r: seq<Link>)
    ensures |r| == |s|
    decreases |s|
  {
    if s == [] then [] else Insert(SortByText(s[..|s| - 1]), s[|s| - 1])
  }

  lemma {:induction false} InsertPermutes(s: seq<Link>, x: Link)
    ensures multiset(Insert(s, x)) == multiset(s) + multiset{x}
    decreases |s|
  {
    if s != [] && !Le(s[|s| - 1].text, x.text) {
      var s' := s[..|s| - 1];
      InsertPermutes(s', x);
      SplitLast(s);
    }
  }

  /** The sort's result is a permutation of its input. */
  lemma {:induction false} SortByTextPermutes(s: seq<Link>)
    ensures multiset(SortByText(s)) == multiset(s)
    decreases |s|
  {
    if s != [] {
      var s', x := s[..|s| - 1], s[|s| - 1];
      assert SortByText(s) == Insert(SortByText(s'), x);
      SortByTextPermutes(s');
      InsertPermutes(SortByText(s'), x);
      SplitLast(s);
      assert multiset(s) == multiset(s') + multiset{x};
    }
  }

  lemma SplitLast(s: seq<Link>)
    requires s != []
    ensures s == s[..|s| - 1] + [s[|s| - 1]]
  {
  }

  lemma {:induction false} WithTextAppend(a: seq<Link>, b: seq<Link>, f: string)
    ensures WithText(a + b, f) == WithText(a, f) + WithText(b, f)
    decreases |b|
  {
    if b == [] {
      assert a + b == a;
    } else {
      var b' := b[..|b| - 1];
      assert (a + b)[..|a + b| - 1] == a + b';
      WithTextAppend(a, b', f);
    }
  }

  lemma {:induction false} InsertSorted(s: seq<Link>, x: Link)
    requires SortedByText(s)
    ensures SortedByText(Insert(s, x))
    decreases |s|
  {
    if s == [] {
    } else {
      var n := |s|;
      var last := s[n - 1];
      if Le(last.text, x.text) {
        var r := s + [x];
        forall i, j | 0 <= i < j < |r|
          ensures Le(r[i].text, r[j].text)
        {
          if j == n && i < n - 1 {
            LeTransitive(s[i].text, last.text, x.text);
          }
        }
      } else {
        LeTotal(last.text, x.text);
        var s' := s[..n - 1];
        var t := Insert(s', x);
        InsertSorted(s', x);
        InsertPermutes(s', x);
        var r := t + [last];
        forall i, j | 0 <= i < j < |r|
          ensures Le(r[i].text, r[j].text)
        {
          if j == |t| {
            var y := t[i];
            assert y in multiset(t);
            if y != x {
              assert y in multiset(s');
              var k :| 0 <= k < |s'| && s'[k] == y;
              assert s[k] == y;
            }
          }
        }
      }
    }
  }

  /** The sort's result is in order. */
  lemma {:induction false} SortByTextSorted(s: seq<Link>)
    ensures SortedByText(SortByText(s))
    decreases |s|
  {
    if s != [] {
      SortByTextSorted(s[..|s| - 1]);
      InsertSorted(SortByText(s[..|s| - 1]), s[|s| - 1]);
    }
  }

  lemma WithTextSingle(y: Link, f: string)
    ensures WithText([y], f) == if y.text == f then [y] else []
  {
    assert [y][..0] == [];
  }

  lemma {:induction false} InsertWithText(s: seq<Link>, x: Link, f: string)
    ensures WithText(Insert(s, x), f) == WithText(s, f) + WithText([x], f)
    decreases |s|
  {
    if s == [] {
      assert [] + WithText([x], f) == WithText([x], f);
    } else {
      var n := |s|;
      var last, s' := s[n - 1], s[..n - 1];
      SplitLast(s);
      WithTextAppend(s', [last], f);
      if Le(last.text, x.text) {
        WithTextAppend(s, [x], f);
      } else {
        LeReflexive(x.text);
        InsertWithText(s', x, f);
        WithTextAppend(Insert(s', x), [last], f);
        WithTextSingle(x, f);
        WithTextSingle(last, f);
      }
    }
  }

  /** The sort is stable: the entries sharing a text keep their relative order. */
  lemma {:induction false} SortByTextStable(s: seq<Link>, f: string)
    ensures WithText(SortByText(s), f) == WithText(s, f)
    decreases |s|
  {
    if s != [] {
      var s' := s[..|s| - 1];
      SortByTextStable(s', f);
      InsertWithText(SortByText(s'), s[|s| - 1], f);
      SplitLast(s);
      WithTextAppend(s', [s[|s| - 1]], f);
    }
  }

  /** The last entry of a run is the last entry of `s` with that text. */
  lemma {:induction false} LastOfRun(s: seq<Link>, f: string) returns (k: nat)
    requires WithText(s, f) != []
    ensures k < |s| && s[k].text == f
    ensures s[k] == WithText(s, f)[|WithText(s, f)| - 1]
    ensures forall j :: k < j < |s| ==> s[j].text != f
    decreases |s|
  {
    var n := |s|;
    if s[n - 1].text == f {
      k := n - 1;
    } else {
      k := LastOfRun(s[..n - 1], f);
    }
  }

  lemma SortedPrefix(s: seq<Link>, n: nat)
    requires SortedByText(s) && n <= |s|
    ensures SortedByText(s[..n])
  {
  }

  lemma AppendCancelLast(p: seq<Link>, q: seq<Link>, a: Link, b: Link)
    requires p + [a] == q + [b]
    ensures p == q && a == b
  {
    assert |p| == |q|;
    assert (p + [a])[|p|] == a;
    assert p == (p + [a])[..|p|];
    assert q == (q + [b])[..|q|];
  }

  /** In a sorted list every text that occurs is at most the last one. */
  lemma RunBelowLast(s: seq<Link>, f: string)
    requires SortedByText(s) && WithText(s, f) != []
    ensures Le(f, s[|s| - 1].text)
  {
    var k := LastOfRun(s, f);
    if k == |s| - 1 {
      LeReflexive(f);
    }
  }

  lemma LastRunNonempty(s: seq<Link>)
    ensures s != [] ==> WithText(s, s[|s| - 1].text) != []
  {
  }

  lemma NoRunsEmpty(t: seq<Link>, u: seq<Link>)
    requires SameRuns(t, u)
    requires t == []
    ensures u == []
  {
    if u != [] {
      // the run of the last entry's text is nonempty in `u` and empty in `t`
      LastRunNonempty(u);
      assert false;
    }
  }

  /** Two sorted lists with the same runs end in the same entry, and what
      precedes it again has the same runs. */
  lemma SameRunsLast(t: seq<Link>, u: seq<Link>)
    requires SortedByText(t) && SortedByText(u) && t != [] && u != []
    requires SameRuns(t, u)
    ensures t[|t| - 1] == u[|u| - 1]
    ensures SameRuns(t[..|t| - 1], u[..|u| - 1])
  {
    var a, b := t[|t| - 1], u[|u| - 1];
    var t', u' := t[..|t| - 1], u[..|u| - 1];
    assert WithText(t, a.text) == WithText(t', a.text) + [a];
    assert WithText(u, b.text) == WithText(u', b.text) + [b];
    RunBelowLast(t, b.text);
    RunBelowLast(u, a.text);
    LeAntisymmetric(a.text, b.text);
    AppendCancelLast(WithText(t', a.text), WithText(u', a.text), a, b);
    forall f
      ensures WithText(t', f) == WithText(u', f)
    {
      assert WithText(t, f) == WithText(u, f);
      assert WithText(t, f) == WithText(t', f) + (if a.text == f then [a] else []);
      assert WithText(u, f) == WithText(u', f) + (if b.text == f then [b] else []);
      if f == a.text {
        AppendCancelLast(WithText(t', f), WithText(u', f), a, b);
      } else {
        assert WithText(t', f) + [] == WithText(t', f);
        assert WithText(u', f) + [] == WithText(u', f);
      }
    }
  }

  /** Two sorted lists with the same runs are the same list. */
  lemma {:induction false} SortedSameRunsEqual(t: seq<Link>, u: seq<Link>)
    requires SortedByText(t) && SortedByText(u)
    requires SameRuns(t, u)
    ensures t == u
    decreases |t|
  {
    if t == [] {
      NoRunsEmpty(t, u);
    } else if u == [] {
      NoRunsEmpty(u, t);
    } else {
      SameRunsLast(t, u);
      SortedPrefix(t, |t| - 1);
      SortedPrefix(u, |u| - 1);
      SortedSameRunsEqual(t[..|t| - 1], u[..|u| - 1]);
      assert t == t[..|t| - 1] + [t[|t| - 1]];
      assert u == u[..|u| - 1] + [u[|u| - 1]];
    }
  }

  /** Stable sorting is determined: any sorted arrangement of `s` that keeps
      every run of equal texts in order is the one `SortByText` gives. */
  lemma StableSortIsUnique(s: seq<Link>, t: seq<Link>)
    requires SortedByText(t)
    requires SameRuns(t, s)
    ensures t == SortByText(s)
  {
    SortByTextSorted(s);
    forall f
      ensures WithText(t, f) == WithText(SortByText(s), f)
    {
      SortByTextStable(s, f);
    }
    SortedSameRunsEqual(t, SortByText(s));
  }

  /** Where `x` lands in a sorted list: after the entries not greater than it. */
  lemma {:induction false} InsertAt(s: seq<Link>, x: Link, j: nat)
    requires j <= |s|
    requires j == 0 || Le(s[j - 1].text, x.text)
    requires forall k :: j <= k < |s| ==> !Le(s[k].text, x.text)
    ensures Insert(s, x) == s[..j] + [x] + s[j..]
    decreases |s|
  {
    if j == |s| {
      assert s[..j] == s && s[j..] == [];
    } else {
      var n := |s|;
      var s' := s[..n - 1];
      assert !Le(s[n - 1].text, x.text);
      assert Insert(s, x) == Insert(s', x) + [s[n - 1]];
      InsertAt(s', x, j);
      assert s'[..j] == s[..j];
      assert s'[j..] + [s[n - 1]] == s[j..];
      assert Insert(s, x) == s[..j] + [x] + s'[j..] + [s[n - 1]];
    }
  }

  /** The list an insertion step leaves, stated entry by entry, is `Insert`'s. */
  lemma InsertedAt(s: seq<Link>, x: Link, j: nat, r: seq<Link>)
    requires j <= |s| && |r| == |s| + 1
    requires j == 0 || Le(s[j - 1].text, x.text)
    requires forall k :: j <= k < |s| ==> !Le(s[k].text, x.text)
    requires forall k :: 0 <= k < j ==> r[k] == s[k]
    requires r[j] == x
    requires forall k :: j < k < |r| ==> r[k] == s[k - 1]
    ensures r == Insert(s, x)
  {
    InsertAt(s, x, j);
    assert r == s[..j] + [x] + s[j..];
  }

  /** Where `x` belongs in the list `s`: after the last entry whose text is
      not greater than its own, searching from the right. CPython's binary
      insertion sort finds the same place in a sorted list by binary search. */
  method InsertionPoint(s: seq<Link>, x: Link) returns (j: nat)
    ensures j <= |s|
    ensures j == 0 || Le(s[j - 1].text, x.text)
    ensures forall k :: j <= k < |s| ==> !Le(s[k].text, x.text)
    ensures SortedByText(s) ==> forall k :: 0 <= k < j ==> Le(s[k].text, x.text)
  {
    j := |s|;
    while j > 0 && !Le(s[j - 1].text, x.text)
      invariant j <= |s|
      invariant forall k :: j <= k < |s| ==> !Le(s[k].text, x.text)
    {
      j := j - 1;
    }
    if SortedByText(s) {
      forall k | 0 <= k < j
        ensures Le(s[k].text, x.text)
      {
        if k < j - 1 {
          LeTransitive(s[k].text, s[j - 1].text, x.text);
        }
      }
    }
  }

  /** Moves `a[j..i]` one place right, to `a[j + 1..i + 1]`, overwriting `a[i]`. */
  method ShiftRight(a: array<Link>, j: nat, i: nat)
    requires j <= i < a.Length
    modifies a
    ensures forall m :: 0 <= m <= j ==> a[m] == old(a[m])
    ensures forall m :: j < m <= i ==> a[m] == old(a[m - 1])
    ensures forall m :: i < m < a.Length ==> a[m] == old(a[m])
  {
    var k := i;
    while k > j
      invariant j <= k <= i
      invariant forall m :: 0 <= m <= k ==> a[m] == old(a[m])
      invariant forall m :: k < m <= i ==> a[m] == old(a[m - 1])
      invariant forall m :: i < m < a.Length ==> a[m] == old(a[m])
    {
      a[k] := a[k - 1];
      k := k - 1;
    }
  }

  /** One insertion step on the list object: the entry at `i` moves to its
      insertion point among the entries before it, and the greater ones shift
      right by one. */
  method InsertStep(a: array<Link>, i: nat)
    requires i < a.Length
    modifies a
    ensures a[..i + 1] == Insert(old(a[..i]), old(a[i]))
    ensures a[i + 1..] == old(a[i + 1..])
  {
    var prefix, x := a[..i], a[i];
    var j := InsertionPoint(prefix, x);
    ShiftRight(a, j, i);
    a[j] := x;
    InsertedAt(prefix, x, j, a[..i + 1]);
  }

  /** The in-place sort on the list object: insertion sort, one step per entry. */
  method SortInPlace(a: array<Link>)
    modifies a
    ensures a[..] == SortByText(old(a[..]))
    ensures SortedByText(a[..]) && multiset(a[..]) == multiset(old(a[..]))
    ensures SameRuns(a[..], old(a[..]))
  {
    ghost var s := a[..];
    var i := 0;
    while i < a.Length
      invariant 0 <= i <= a.Length
      invariant a[..i] == SortByText(s[..i])
      invariant a[i..] == s[i..]
    {
      assert s[..i + 1][..i] == s[..i];
      InsertStep(a, i);
      i := i + 1;
    }
    assert s[..a.Length] == s;
    assert a[..] == a[..a.Length];
    SortByTextSorted(s);
    SortByTextPermutes(s);
    forall f
      ensures WithText(a[..], f) == WithText(s, f)
    {
      SortByTextStable(s, f);
    }
  }
}
