/** Order-preserving filtering, the shape of a loop that acts on some of
    the items it visits and skips the others: over a sequence (`Filter`)
    and over the indices `0 .. n - 1` (`Indices`, `Gather`). */
module Filtering {

  /** The items of `s` that `keep` accepts, in their order. */
  function Filter<T>(s: seq<T>, keep: T -> bool): (r: seq<T>)
    ensures |r| <= |s|
  {
    if s == [] then [] else (if keep(s[0]) then [s[0]] else []) + Filter(s[1..], keep)
  }

  /** An item survives exactly when it is in `s` and `keep` accepts it. */
  lemma {:induction false} FilterMembers<T>(s: seq<T>, keep: T -> bool, x: T)
    ensures x in Filter(s, keep) <==> x in s && keep(x)
    decreases |s|
  {
    if s != [] {
      FilterMembers(s[1..], keep, x);
      assert s == [s[0]] + s[1..];
    }
  }

  /** Filtering distributes over concatenation. */
  lemma {:induction false} FilterAppend<T>(a: seq<T>, b: seq<T>, keep: T -> bool)
    ensures Filter(a + b, keep) == Filter(a, keep) + Filter(b, keep)
    decreases |a|
  {
    if a != [] {
      var c := a + b;
      assert c[0] == a[0] && c[1..] == a[1..] + b;
      FilterAppend(a[1..], b, keep);
    } else {
      assert a + b == b;
    }
  }

  /** When `keep` accepts every item, filtering changes nothing. */
  lemma {:induction false} FilterKeepsAccepted<T>(s: seq<T>, keep: T -> bool)
    requires forall k :: 0 <= k < |s| ==> keep(s[k])
    ensures Filter(s, keep) == s
    decreases |s|
  {
    if s != [] {
      assert forall k :: 0 <= k < |s| - 1 ==> s[1..][k] == s[k + 1];
      FilterKeepsAccepted(s[1..], keep);
      assert s == [s[0]] + s[1..];
    }
  }

  /** A suffix whose items `keep` all accepts is kept whole. */
  lemma FilterKeepsAcceptedSuffix<T>(s: seq<T>, keep: T -> bool, r: nat)
    requires r <= |s|
    requires forall k :: r <= k < |s| ==> keep(s[k])
    ensures Filter(s[r..], keep) == s[r..]
  {
    var part := s[r..];
    assert forall k :: 0 <= k < |part| ==> part[k] == s[r + k];
    FilterKeepsAccepted(part, keep);
  }

  /** When `keep` rejects exactly the item at position `r`, the filter
      removes that position and nothing else. */
  lemma FilterDropsOne<T>(s: seq<T>, keep: T -> bool, r: nat)
    requires r < |s| && !keep(s[r])
    requires forall k :: 0 <= k < r ==> keep(s[k])
    requires forall k :: r < k < |s| ==> keep(s[k])
    ensures Filter(s, keep) == s[..r] + s[r + 1..]
  {
    var before, mid := s[..r], s[r..];
    assert s == before + mid;
    FilterAppend(before, mid, keep);
    assert Filter(mid, keep) == Filter(mid[1..], keep);
    assert mid[1..] == s[r + 1..];
    FilterKeepsAccepted(before, keep);
    FilterKeepsAcceptedSuffix(s, keep, r + 1);
  }

  // ---------------------------------------------------------------------
  // Loops over indices

  predicate Increasing(xs: seq<nat>) {
    forall a, b :: 0 <= a < b < |xs| ==> xs[a] < xs[b]
  }

  /** The indices below `n` that `keep` accepts, in ascending order. */
  function Indices(n: nat, keep: nat -> bool): (r: seq<nat>)
    ensures forall k :: 0 <= k < |r| ==> r[k] < n && keep(r[k])
  {
    if n == 0 then [] else Indices(n - 1, keep) + (if keep(n - 1) then [n - 1] else [])
  }

  /** The loop `for i in 0 .. n - 1: if keep(i) then emit build(i)`. */
  function Gather<T>(n: nat, keep: nat -> bool, build: nat -> T): seq<T> {
    if n == 0 then [] else Gather(n - 1, keep, build) + (if keep(n - 1) then [build(n - 1)] else [])
  }

  /** The loop emits one item per accepted index, built from that index. */
  lemma {:induction false} GatherFollowsIndices<T>(n: nat, keep: nat -> bool, build: nat -> T)
    ensures |Gather(n, keep, build)| == |Indices(n, keep)|
    ensures forall k :: 0 <= k < |Indices(n, keep)| ==>
      Gather(n, keep, build)[k] == build(Indices(n, keep)[k])
  {
    if n > 0 {
      GatherFollowsIndices(n - 1, keep, build);
      var prev, prevRows := Gather(n - 1, keep, build), Indices(n - 1, keep);
      if keep(n - 1) {
        var cur, rows := prev + [build(n - 1)], prevRows + [n - 1];
        forall k | 0 <= k < |rows|
          ensures cur[k] == build(rows[k])
        {
          if k < |prevRows| {
            assert cur[k] == prev[k] && rows[k] == prevRows[k];
          }
        }
      }
    }
  }

  /** The accepted indices come in ascending order. */
  lemma {:induction false} IndicesIncrease(n: nat, keep: nat -> bool)
    ensures Increasing(Indices(n, keep))
  {
    if n > 0 {
      IndicesIncrease(n - 1, keep);
      var prevRows := Indices(n - 1, keep);
      if keep(n - 1) {
        var rows := prevRows + [n - 1];
        forall a, b | 0 <= a < b < |rows|
          ensures rows[a] < rows[b]
        {
          assert rows[a] == prevRows[a];
          if b < |prevRows| {
            assert rows[b] == prevRows[b];
          }
        }
      }
    }
  }

  /** Every accepted index below `n` is listed. */
  lemma {:induction false} IndicesComplete(n: nat, keep: nat -> bool, i: nat)
    requires i < n && keep(i)
    ensures i in Indices(n, keep)
  {
    var prevRows := Indices(n - 1, keep);
    if i < n - 1 {
      IndicesComplete(n - 1, keep, i);
      var j :| 0 <= j < |prevRows| && prevRows[j] == i;
      assert Indices(n, keep)[j] == i;
    } else {
      assert Indices(n, keep) == prevRows + [n - 1];
    }
  }

  /** A strictly increasing sequence of values below `m` has at most `m`
      elements. */
  lemma {:induction false} IncreasingBelowIsShort(xs: seq<nat>, m: nat)
    requires Increasing(xs)
    requires forall k :: 0 <= k < |xs| ==> xs[k] < m
    ensures |xs| <= m
  {
    if xs != [] {
      var last := xs[|xs| - 1];
      var front := xs[..|xs| - 1];
      assert Increasing(front);
      assert forall k :: 0 <= k < |front| ==> front[k] < last;
      IncreasingBelowIsShort(front, last);
    }
  }
}
