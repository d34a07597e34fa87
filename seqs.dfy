/** Sequence operations the app borrows from JavaScript's Array:
    `filter`, and the "no identifier twice" property of a favorites list. */
module Seqs {

  /** `s.filter(keep)`: the elements of `s` that `keep` accepts, in their
      original order. */
  function Filter<T(!new)>(s: seq<T>, keep: T -> bool): (r: seq<T>)
    ensures |r| <= |s|
    ensures forall x :: x in r <==> x in s && keep(x)
    decreases |s|
  {
    if s == [] then []
    else
      var rest := Filter(s[1..], keep);
      if keep(s[0]) then [s[0]] + rest else rest
  }

  /** Multiplicity: `Filter` keeps every copy of an accepted element and no
      copy of a rejected one. */
  lemma {:induction false} FilterCounts<T(!new)>(s: seq<T>, keep: T -> bool, x: T)
    ensures multiset(Filter(s, keep))[x] == if keep(x) then multiset(s)[x] else 0
  {
    if s != [] {
      FilterCounts(s[1..], keep, x);
      assert s == [s[0]] + s[1..];
    }
  }

  /** The positions `i` in `lo..|s|` whose element `keep` accepts, in
      ascending order: an index-level description of what `Filter` keeps. */
  function KeptIndicesFrom<T>(s: seq<T>, keep: T -> bool, lo: nat): (idx: seq<nat>)
    requires lo <= |s|
    ensures forall k :: 0 <= k < |idx| ==> lo <= idx[k] < |s| && keep(s[idx[k]])
    ensures forall k, l :: 0 <= k < l < |idx| ==> idx[k] < idx[l]
    decreases |s| - lo
  {
    if lo == |s| then []
    else
      var rest := KeptIndicesFrom(s, keep, lo + 1);
      if keep(s[lo]) then [lo] + rest else rest
  }

  /** Every accepted position from `lo` on is listed. */
  lemma {:induction false} KeptIndicesCover<T>(s: seq<T>, keep: T -> bool, lo: nat, i: nat)
    requires lo <= i < |s| && keep(s[i])
    ensures i in KeptIndicesFrom(s, keep, lo)
    decreases |s| - lo
  {
    if lo < i {
      KeptIndicesCover(s, keep, lo + 1, i);
    }
  }

  lemma {:induction false} FilterSelectsFrom<T(!new)>(s: seq<T>, keep: T -> bool, lo: nat)
    requires lo <= |s|
    ensures var r, idx := Filter(s[lo..], keep), KeptIndicesFrom(s, keep, lo);
      |r| == |idx| && forall k :: 0 <= k < |r| ==> r[k] == s[idx[k]]
    decreases |s| - lo
  {
    if lo < |s| {
      FilterSelectsFrom(s, keep, lo + 1);
      var t := s[lo..];
      assert t[0] == s[lo] && t[1..] == s[lo + 1..];
      var rest, restIdx := Filter(s[lo + 1..], keep), KeptIndicesFrom(s, keep, lo + 1);
      var r, idx := Filter(t, keep), KeptIndicesFrom(s, keep, lo);
      if keep(s[lo]) {
        assert r == [s[lo]] + rest && idx == [lo] + restIdx;
        forall k | 0 <= k < |r| ensures r[k] == s[idx[k]] {
          if k > 0 { assert r[k] == rest[k - 1] && idx[k] == restIdx[k - 1]; }
        }
      } else {
        assert r == rest && idx == restIdx;
      }
    } else {
      assert s[lo..] == [];
    }
  }

  /** Order: the result of `Filter` is the elements of `s` read at the
      strictly increasing positions `KeptIndicesFrom(s, keep, 0)` — nothing
      added, nothing reordered. */
  lemma FilterSelectsKeptIndices<T(!new)>(s: seq<T>, keep: T -> bool)
    ensures var r, idx := Filter(s, keep), KeptIndicesFrom(s, keep, 0);
      && |r| == |idx|
      && (forall k :: 0 <= k < |r| ==> r[k] == s[idx[k]])
  {
    FilterSelectsFrom(s, keep, 0);
    assert s[0..] == s;
  }

  /** The selected positions are exactly those whose element `keep` accepts:
      no accepted element is skipped. */
  lemma KeptIndicesExact<T>(s: seq<T>, keep: T -> bool)
    ensures forall i :: 0 <= i < |s| ==> (keep(s[i]) <==> i in KeptIndicesFrom(s, keep, 0))
  {
    forall i | 0 <= i < |s| && keep(s[i]) ensures i in KeptIndicesFrom(s, keep, 0) {
      KeptIndicesCover(s, keep, 0, i);
    }
  }

  /** Filtering distributes over concatenation. */
  lemma {:induction false} FilterConcat<T(!new)>(a: seq<T>, b: seq<T>, keep: T -> bool)
    ensures Filter(a + b, keep) == Filter(a, keep) + Filter(b, keep)
  {
    if a == [] {
      assert a + b == b;
    } else {
      assert (a + b)[0] == a[0];
      assert (a + b)[1..] == a[1..] + b;
      FilterConcat(a[1..], b, keep);
    }
  }

  /** When `keep` accepts every element, `Filter` returns its input unchanged. */
  lemma {:induction false} FilterKeepsAll<T(!new)>(s: seq<T>, keep: T -> bool)
    requires forall x :: x in s ==> keep(x)
    ensures Filter(s, keep) == s
  {
    if s != [] {
      FilterKeepsAll(s[1..], keep);
    }
  }

  /** Two predicates that agree on the elements of `s` filter it alike. */
  lemma {:induction false} FilterAgreeing<T(!new)>(s: seq<T>, p: T -> bool, q: T -> bool)
    requires forall x :: x in s ==> p(x) == q(x)
    ensures Filter(s, p) == Filter(s, q)
  {
    if s != [] {
      FilterAgreeing(s[1..], p, q);
    }
  }

  /** Filtering by a weaker predicate first and then by a stronger one is the
      same as filtering by the stronger one alone. */
  lemma {:induction false} FilterRefine<T(!new)>(s: seq<T>, strong: T -> bool, weak: T -> bool)
    requires forall x :: strong(x) ==> weak(x)
    ensures Filter(Filter(s, weak), strong) == Filter(s, strong)
  {
    if s != [] {
      FilterRefine(s[1..], strong, weak);
      if weak(s[0]) {
        assert ([s[0]] + Filter(s[1..], weak))[1..] == Filter(s[1..], weak);
      }
    }
  }

  /** No element occurs twice. */
  predicate NoDuplicates<T(==)>(s: seq<T>) {
    forall i, j :: 0 <= i < j < |s| ==> s[i] != s[j]
  }

  /** Filtering never introduces a duplicate. */
  lemma {:induction false} FilterKeepsNoDuplicates<T(!new)>(s: seq<T>, keep: T -> bool)
    requires NoDuplicates(s)
    ensures NoDuplicates(Filter(s, keep))
  {
    if s != [] {
      assert NoDuplicates(s[1..]) by {
        forall i, j | 0 <= i < j < |s[1..]| ensures s[1..][i] != s[1..][j] {
          assert s[1..][i] == s[i + 1] && s[1..][j] == s[j + 1];
        }
      }
      FilterKeepsNoDuplicates(s[1..], keep);
      var rest := Filter(s[1..], keep);
      assert s[0] !in s[1..] by {
        forall j | 0 <= j < |s[1..]| ensures s[1..][j] != s[0] {
          assert s[1..][j] == s[j + 1];
        }
      }
      if keep(s[0]) {
        var r := [s[0]] + rest;
        forall i, j | 0 <= i < j < |r| ensures r[i] != r[j] {
          if i == 0 {
            assert r[j] == rest[j - 1];
          } else {
            assert r[i] == rest[i - 1] && r[j] == rest[j - 1];
          }
        }
      }
    }
  }

  /** Appending an element that is absent keeps a list duplicate-free. */
  lemma AppendFreshKeepsNoDuplicates<T>(s: seq<T>, x: T)
    requires NoDuplicates(s) && x !in s
    ensures NoDuplicates(s + [x])
  {
  }
}
