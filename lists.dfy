/** Python list operations the ingestion scripts rely on, stated over Dafny sequences. */
module Lists {

  datatype Option<+T> = None | Some(value: T)

  /** `[x for x in s if p(x)]`: the elements of `s` that satisfy `p`, in their order in `s`. */
  function Filter<T>(s: seq<T>, p: T -> bool): (r: seq<T>)
    ensures |r| <= |s|
    ensures forall i :: 0 <= i < |r| ==> r[i] in s && p(r[i])
    ensures forall i :: 0 <= i < |s| && p(s[i]) ==> s[i] in r
  {
    if s == [] then []
    else
      var init, last := s[..|s| - 1], s[|s| - 1];
      assert s == init + [last];
      Filter(init, p) + (if p(last) then [last] else [])
  }

  /** `a` is obtained from `b` by deleting elements, the rest keeping their relative order. */
  ghost predicate IsSubsequence<T>(a: seq<T>, b: seq<T>)
    decreases |b|
  {
    if a == [] then true
    else if b == [] then false
    else
      (a[|a| - 1] == b[|b| - 1] && IsSubsequence(a[..|a| - 1], b[..|b| - 1]))
      || IsSubsequence(a, b[..|b| - 1])
  }

  /** No value occurs twice (the names `os.listdir` returns are distinct). */
  ghost predicate NoDuplicates<T>(s: seq<T>) {
    forall i, j :: 0 <= i < j < |s| ==> s[i] != s[j]
  }

  /** Python's `list.remove(x)`: drops the FIRST occurrence of `x`. The call sites only ever pass an
      element of the list, so the `ValueError` of an absent `x` cannot arise. */
  function RemoveFirst<T(==)>(s: seq<T>, x: T): (r: seq<T>)
    requires x in s
    ensures |r| == |s| - 1
  {
    if s[0] == x then
      assert s == [s[0]] + s[1..];
      s[1..]
    else
      assert s == [s[0]] + s[1..];
      [s[0]] + RemoveFirst(s[1..], x)
  }

  /** When the first occurrence of `x` is at `j`, `list.remove(x)` removes exactly position `j`. */
  lemma {:induction false} RemoveFirstAt<T>(s: seq<T>, x: T, j: nat)
    requires j < |s| && s[j] == x
    requires forall k :: 0 <= k < j ==> s[k] != x
    ensures RemoveFirst(s, x) == s[..j] + s[j + 1..]
  {
    if j == 0 {
      assert s[..0] + s[1..] == s[1..];
    } else {
      var tail := s[1..];
      forall k | 0 <= k < j - 1
        ensures tail[k] != x
      {
        assert tail[k] == s[k + 1];
      }
      RemoveFirstAt(tail, x, j - 1);
      calc {
        RemoveFirst(s, x);
        [s[0]] + RemoveFirst(tail, x);
        [s[0]] + (tail[..j - 1] + tail[j..]);
        { assert tail[..j - 1] == s[1..j]; assert tail[j..] == s[j + 1..]; }
        [s[0]] + (s[1..j] + s[j + 1..]);
        ([s[0]] + s[1..j]) + s[j + 1..];
        { assert [s[0]] + s[1..j] == s[..j]; }
        s[..j] + s[j + 1..];
      }
    }
  }

  lemma {:induction false} FilterConcat<T>(a: seq<T>, b: seq<T>, p: T -> bool)
    ensures Filter(a + b, p) == Filter(a, p) + Filter(b, p)
    decreases |b|
  {
    if b == [] {
      assert a + b == a;
    } else {
      var init, last := b[..|b| - 1], b[|b| - 1];
      assert (a + b)[..|a + b| - 1] == a + init;
      FilterConcat(a, init, p);
    }
  }

  /** Dropping one element that `p` rejects leaves the filtered list unchanged. */
  lemma FilterSkipsRejected<T>(s: seq<T>, j: nat, p: T -> bool)
    requires j < |s| && !p(s[j])
    ensures Filter(s[..j] + s[j + 1..], p) == Filter(s, p)
  {
    var before, y, after := s[..j], s[j], s[j + 1..];
    calc {
      Filter(s, p);
      { SplitAround(s, j); }
      Filter((before + [y]) + after, p);
      { FilterConcat(before + [y], after, p); }
      Filter(before + [y], p) + Filter(after, p);
      { FilterSnoc(before, y, p); }
      Filter(before, p) + Filter(after, p);
      { FilterConcat(before, after, p); }
      Filter(before + after, p);
    }
  }

  /** A list is its part before `j`, its element at `j` and its part after `j`. */
  lemma SplitAround<T>(s: seq<T>, j: nat)
    requires j < |s|
    ensures s == (s[..j] + [s[j]]) + s[j + 1..]
  {
  }

  /** Filtering extends along the list one element at a time (what an append loop relies on). */
  lemma FilterSnoc<T>(s: seq<T>, x: T, p: T -> bool)
    ensures Filter(s + [x], p) == Filter(s, p) + (if p(x) then [x] else [])
  {
    assert (s + [x])[..|s + [x]| - 1] == s;
  }

  /** Filtering a prefix one element longer (what a `for` loop over the list relies on). */
  lemma FilterPrefixStep<T>(s: seq<T>, i: nat, p: T -> bool)
    requires i < |s|
    ensures Filter(s[..i + 1], p) == Filter(s[..i], p) + (if p(s[i]) then [s[i]] else [])
  {
    assert s[..i + 1][..i] == s[..i];
  }

  /** A list every element of which passes `p` is its own filtering. */
  lemma {:induction false} FilterKeepsAll<T>(s: seq<T>, p: T -> bool)
    requires forall k :: 0 <= k < |s| ==> p(s[k])
    ensures Filter(s, p) == s
  {
    if s != [] {
      FilterKeepsAll(s[..|s| - 1], p);
      assert s == s[..|s| - 1] + [s[|s| - 1]];
    }
  }

  /** A list no element of which passes `p` filters to nothing. */
  lemma {:induction false} FilterKeepsNone<T>(s: seq<T>, p: T -> bool)
    requires forall k :: 0 <= k < |s| ==> !p(s[k])
    ensures Filter(s, p) == []
  {
    if s != [] {
      FilterKeepsNone(s[..|s| - 1], p);
    }
  }

  /** Filtering keeps the order of the kept elements. */
  lemma {:induction false} FilterIsSubsequence<T>(s: seq<T>, p: T -> bool)
    ensures IsSubsequence(Filter(s, p), s)
    decreases |s|
  {
    if s != [] {
      var init, last := s[..|s| - 1], s[|s| - 1];
      FilterIsSubsequence(init, p);
      var r := Filter(s, p);
      if p(last) {
        assert r[..|r| - 1] == Filter(init, p);
      } else {
        assert r == Filter(init, p);
        SubsequenceOfPrefix(r, init, last);
      }
    }
  }

  lemma SubsequenceOfPrefix<T>(a: seq<T>, b: seq<T>, x: T)
    requires IsSubsequence(a, b)
    ensures IsSubsequence(a, b + [x])
  {
    assert (b + [x])[..|b + [x]| - 1] == b;
  }

  lemma {:induction false} SubsequenceTransitive<T>(a: seq<T>, b: seq<T>, c: seq<T>)
    requires IsSubsequence(a, b) && IsSubsequence(b, c)
    ensures IsSubsequence(a, c)
    decreases |c|
  {
    if a != [] {
      var b', c' := b[..|b| - 1], c[..|c| - 1];
      if IsSubsequence(b, c') {
        SubsequenceTransitive(a, b, c');
        assert c' + [c[|c| - 1]] == c;
        SubsequenceOfPrefix(a, c', c[|c| - 1]);
      } else if a[|a| - 1] == b[|b| - 1] && IsSubsequence(a[..|a| - 1], b') {
        SubsequenceTransitive(a[..|a| - 1], b', c');
      } else {
        SubsequenceTransitive(a, b', c');
      }
    }
  }

  /** Filtering keeps every occurrence of a kept value and none of a dropped one. */
  lemma {:induction false} FilterCount<T>(s: seq<T>, p: T -> bool, x: T)
    ensures multiset(Filter(s, p))[x] == if p(x) then multiset(s)[x] else 0
    decreases |s|
  {
    if s != [] {
      var init, last := s[..|s| - 1], s[|s| - 1];
      assert s == init + [last];
      FilterCount(init, p, x);
    }
  }

  /** Filtering with two predicates one after the other is filtering with their conjunction. */
  lemma {:induction false} FilterFilter<T>(s: seq<T>, p: T -> bool, q: T -> bool, pq: T -> bool)
    requires forall x :: pq(x) == (p(x) && q(x))
    ensures Filter(Filter(s, p), q) == Filter(s, pq)
    decreases |s|
  {
    if s != [] {
      var init, last := s[..|s| - 1], s[|s| - 1];
      FilterFilter(init, p, q, pq);
      assert Filter(s, pq) == Filter(init, pq) + (if pq(last) then [last] else []);
      if p(last) {
        assert Filter(s, p) == Filter(init, p) + [last];
        FilterSnoc(Filter(init, p), last, q);
      } else {
        assert Filter(s, p) == Filter(init, p);
      }
    }
  }

  /** In a list without repeats, each value occurs at most once. */
  lemma {:induction false} NoDuplicatesCount<T>(s: seq<T>, x: T)
    requires NoDuplicates(s)
    ensures multiset(s)[x] <= 1
    decreases |s|
  {
    if s != [] {
      var init, last := s[..|s| - 1], s[|s| - 1];
      assert s == init + [last];
      NoDuplicatesCount(init, x);
      if last == x {
        assert x !in init;
      }
    }
  }
}
