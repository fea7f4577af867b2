/** Sequence helpers shared by the reconciler: order-preserving filtering,
    subsequences, first-match search, single-occurrence removal and counting. */
module Seqs {
  import opened Wrappers

  /** The distinct elements of a list (Python's `set(lst)`). */
  function Elems<T(!new)>(s: seq<T>): (r: set<T>)
    ensures forall x :: x in r <==> x in s
  {
    set x | x in s
  }

  /** `a` can be obtained from `b` by deleting elements, keeping the order of the rest. */
  predicate IsSubsequence<T(==)>(a: seq<T>, b: seq<T>)
    decreases |b|
  {
    if |a| == 0 then true
    else if |b| == 0 then false
    else (a[0] == b[0] && IsSubsequence(a[1..], b[1..])) || IsSubsequence(a, b[1..])
  }

  /** Every sequence is a subsequence of itself. */
  lemma {:induction false} SubsequenceReflexive<T>(s: seq<T>)
    ensures IsSubsequence(s, s)
  {
    if |s| > 0 {
      SubsequenceReflexive(s[1..]);
    }
  }

  /** Deleting elements twice is deleting elements once. */
  lemma {:induction false} SubsequenceTransitive<T>(a: seq<T>, b: seq<T>, c: seq<T>)
    requires IsSubsequence(a, b) && IsSubsequence(b, c)
    ensures IsSubsequence(a, c)
    decreases |c|
  {
    if |a| > 0 {
      if IsSubsequence(b, c[1..]) {
        SubsequenceTransitive(a, b, c[1..]);
      } else if a[0] == b[0] && IsSubsequence(a[1..], b[1..]) {
        SubsequenceTransitive(a[1..], b[1..], c[1..]);
      } else {
        SubsequenceTransitive(a, b[1..], c[1..]);
      }
    }
  }

  /** Deleting elements never adds one: every element of a subsequence is in the original. */
  lemma {:induction false} SubsequenceMembers<T>(a: seq<T>, b: seq<T>, x: T)
    requires IsSubsequence(a, b) && x in a
    ensures x in b
    decreases |b|
  {
    if a[0] == b[0] && IsSubsequence(a[1..], b[1..]) {
      if x != a[0] {
        assert x in a[1..];
        SubsequenceMembers(a[1..], b[1..], x);
      }
    } else {
      SubsequenceMembers(a, b[1..], x);
    }
  }

  /** Position `i` of the tail is position `i + 1` of the list. */
  lemma TailIndices<T>(s: seq<T>)
    requires |s| > 0
    ensures forall i :: 1 <= i < |s| ==> s[i] == s[1..][i - 1]
  {
  }

  /** The elements of `s` that satisfy `keep`, in their original order; this is
      the shape of every `for slot in slots: if ...: out.append(slot)` loop. */
  function Filter<T(==,!new)>(s: seq<T>, keep: T -> bool): (r: seq<T>)
    ensures forall i :: 0 <= i < |r| ==> keep(r[i])
    ensures forall x :: multiset(r)[x] == if keep(x) then multiset(s)[x] else 0
    ensures IsSubsequence(r, s)
  {
    if |s| == 0 then []
    else
      var rest := Filter(s[1..], keep);
      assert s == [s[0]] + s[1..];
      if keep(s[0]) then
        var r := [s[0]] + rest;
        assert r[1..] == rest;
        r
      else rest
  }

  /** Filtering a list with a known head: the head is kept exactly when it passes. */
  lemma FilterCons<T(!new)>(x: T, rest: seq<T>, keep: T -> bool)
    ensures Filter([x] + rest, keep) == if keep(x) then [x] + Filter(rest, keep) else Filter(rest, keep)
  {
    assert ([x] + rest)[1..] == rest;
  }

  /** Filtering with a weaker predicate keeps everything a stronger one keeps, in the same order. */
  lemma {:induction false} FilterMonotone<T(!new)>(s: seq<T>, p: T -> bool, q: T -> bool)
    requires forall i :: 0 <= i < |s| && p(s[i]) ==> q(s[i])
    ensures IsSubsequence(Filter(s, p), Filter(s, q))
    decreases |s|
  {
    if |s| > 0 {
      FilterMonotone(s[1..], p, q);
      var fp, fq := Filter(s[1..], p), Filter(s[1..], q);
      if p(s[0]) {
        assert Filter(s, p) == [s[0]] + fp;
        assert Filter(s, q) == [s[0]] + fq;
        assert ([s[0]] + fp)[1..] == fp;
        assert ([s[0]] + fq)[1..] == fq;
      } else if q(s[0]) {
        assert Filter(s, p) == fp;
        assert Filter(s, q) == [s[0]] + fq;
        assert ([s[0]] + fq)[1..] == fq;
      } else {
        assert Filter(s, p) == fp;
        assert Filter(s, q) == fq;
      }
    }
  }

  /** Two predicates that agree on every element of `s` filter it identically. */
  lemma {:induction false} FilterExtensional<T(!new)>(s: seq<T>, p: T -> bool, q: T -> bool)
    requires forall i :: 0 <= i < |s| ==> p(s[i]) == q(s[i])
    ensures Filter(s, p) == Filter(s, q)
    decreases |s|
  {
    if |s| > 0 {
      FilterExtensional(s[1..], p, q);
    }
  }

  /** The index of the first element satisfying `p` (Python's `next(x for x in s if p(x), None)`). */
  function FindFirst<T>(s: seq<T>, p: T -> bool): (r: Option<nat>)
    ensures r.Some? ==> r.value < |s| && p(s[r.value])
    ensures r.Some? ==> forall k :: 0 <= k < r.value ==> !p(s[k])
    ensures r.None? ==> forall k :: 0 <= k < |s| ==> !p(s[k])
  {
    if |s| == 0 then None
    else if p(s[0]) then Some(0)
    else
      match FindFirst(s[1..], p)
      case None => None
      case Some(k) => Some(k + 1)
  }

  /** Python's `list.remove(x)` guarded by `x in list`: drops the first occurrence of `x`, if any. */
  function RemoveFirst<T(==)>(s: seq<T>, x: T): (r: seq<T>)
    ensures multiset(r) == multiset(s) - multiset{x}
    ensures IsSubsequence(r, s)
    ensures x !in s ==> r == s
  {
    if |s| == 0 then s
    else
      assert s == [s[0]] + s[1..];
      if s[0] == x then
        SubsequenceReflexive(s[1..]);
        s[1..]
      else
        var r := [s[0]] + RemoveFirst(s[1..], x);
        assert r[1..] == RemoveFirst(s[1..], x);
        r
  }

  /** The occurrence `RemoveFirst` drops is the first one: everything before it and after it stays. */
  lemma {:induction false} RemoveFirstAt<T>(s: seq<T>, x: T, i: nat)
    requires i < |s| && s[i] == x && x !in s[..i]
    ensures RemoveFirst(s, x) == s[..i] + s[i+1..]
  {
    if i > 0 {
      assert s[0] != x by {
        assert s[0] == s[..i][0];
      }
      assert x !in s[1..][..i-1] by {
        assert s[1..][..i-1] == s[1..i];
      }
      RemoveFirstAt(s[1..], x, i - 1);
      RemoveFirstPastHead(s, x);
      SplitAfterHead(s, i);
    }
  }

  /** Removing an element other than the head keeps the head in front. */
  lemma RemoveFirstPastHead<T>(s: seq<T>, x: T)
    requires |s| > 0 && s[0] != x
    ensures RemoveFirst(s, x) == [s[0]] + RemoveFirst(s[1..], x)
  {
  }

  /** Cutting position `i` out of a list is the head followed by the tail with position `i - 1` cut out. */
  lemma SplitAfterHead<T>(s: seq<T>, i: nat)
    requires 0 < i < |s|
    ensures [s[0]] + (s[1..][..i-1] + s[1..][i..]) == s[..i] + s[i+1..]
  {
    assert [s[0]] + s[1..][..i-1] == s[..i];
    assert s[1..][i..] == s[i+1..];
  }

  /** The number of `i < m` with `ok(i)`, counted one index at a time. */
  function CountBelow(m: nat, ok: nat -> bool): nat
  {
    if m == 0 then 0 else CountBelow(m - 1, ok) + (if ok(m - 1) then 1 else 0)
  }

  /** The indices below `m` where `ok` holds. */
  function IndicesBelow(m: nat, ok: nat -> bool): set<nat>
  {
    set i: nat | i < m && ok(i)
  }

  /** Counting index by index gives the size of the set of indices counted. */
  lemma {:induction false} CountBelowIsCardinality(m: nat, ok: nat -> bool)
    ensures CountBelow(m, ok) == |IndicesBelow(m, ok)|
  {
    if m > 0 {
      CountBelowIsCardinality(m - 1, ok);
      var prev := IndicesBelow(m - 1, ok);
      if ok(m - 1) {
        assert IndicesBelow(m, ok) == prev + {m - 1};
      } else {
        assert IndicesBelow(m, ok) == prev;
      }
    } else {
      assert IndicesBelow(m, ok) == {};
    }
  }

  /** The size of a subset never exceeds the size of the set. */
  lemma {:induction false} SubsetCardinality<T>(a: set<T>, b: set<T>)
    requires a <= b
    ensures |a| <= |b|
    ensures |a| == |b| ==> a == b
    decreases |b|
  {
    if b != {} {
      var x :| x in b;
      SubsetCardinality(a - {x}, b - {x});
      if x in a {
        assert a == (a - {x}) + {x};
      } else {
        assert a - {x} == a;
      }
    }
  }
}
