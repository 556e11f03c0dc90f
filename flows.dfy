/** The two Kotlin flow operators the favourites pipeline is built from,
    modelled on the sequence of values a flow delivers. */
module Flows {

  /** No two neighbouring values are equal. */
  ghost predicate NoAdjacentRepeats<T>(xs: seq<T>) {
    forall i :: 0 <= i < |xs| - 1 ==> xs[i] != xs[i + 1]
  }

  /** The run `xs[i]` belongs to, counting from 0: how many times the value
      changed between neighbours up to position `i`. */
  ghost function RunIndex<T>(xs: seq<T>, i: nat): nat
    requires i < |xs|
  {
    if i == 0 then 0 else RunIndex(xs, i - 1) + (if xs[i - 1] != xs[i] then 1 else 0)
  }

  /** Position `i` of `xs` has its value at position `RunIndex(xs, i)` of `r`. */
  ghost predicate RunAt<T>(xs: seq<T>, r: seq<T>, i: nat)
    requires i < |xs|
  {
    RunIndex(xs, i) < |r| && r[RunIndex(xs, i)] == xs[i]
  }

  /** `r` holds one value per run of equal neighbours in `xs`, in order: the
      value of position `i` of `xs` is at position `RunIndex(xs, i)` of `r`,
      and `r` has exactly as many values as `xs` has runs. */
  ghost predicate RunsOf<T>(xs: seq<T>, r: seq<T>) {
    && (xs != [] ==> |r| == RunIndex(xs, |xs| - 1) + 1)
    && (xs == [] ==> r == [])
    && (forall i :: 0 <= i < |xs| ==> RunAt(xs, r, i))
  }

  /** Run indices do not depend on what follows. */
  lemma {:induction false} RunIndexPrefix<T>(xs: seq<T>, m: nat, i: nat)
    requires i < m <= |xs|
    ensures RunIndex(xs[..m], i) == RunIndex(xs, i)
  {
    if i > 0 {
      RunIndexPrefix(xs, m, i - 1);
      assert xs[..m][i - 1] == xs[i - 1] && xs[..m][i] == xs[i];
    }
  }

  /** A position before the last keeps its place in the runs of the prefix. */
  lemma RunsOfSnocAt<T>(xs: seq<T>, init: seq<T>, r: seq<T>, i: nat)
    requires |xs| > 1 && RunsOf(xs[..|xs| - 1], init)
    requires r == init || r == init + [xs[|xs| - 1]]
    requires i < |xs| - 1
    ensures RunAt(xs, r, i)
  {
    var p := xs[..|xs| - 1];
    RunIndexPrefix(xs, |xs| - 1, i);
    assert p[i] == xs[i];
    assert RunAt(p, init, i);
  }

  /** The last position's run, and the number of runs, after one more value. */
  lemma RunsOfSnocLast<T>(xs: seq<T>, init: seq<T>, r: seq<T>)
    requires |xs| > 1 && RunsOf(xs[..|xs| - 1], init)
    requires r == if xs[|xs| - 1] == xs[|xs| - 2] then init else init + [xs[|xs| - 1]]
    ensures |r| == RunIndex(xs, |xs| - 1) + 1
    ensures r[RunIndex(xs, |xs| - 1)] == xs[|xs| - 1]
  {
    var n := |xs|;
    var p := xs[..n - 1];
    RunIndexPrefix(xs, n - 1, n - 2);
    var m := RunIndex(p, n - 2);
    assert p[n - 2] == xs[n - 2];
    assert RunAt(p, init, n - 2);
    assert |init| == m + 1 && init[m] == xs[n - 2];
    if xs[n - 1] == xs[n - 2] {
      assert RunIndex(xs, n - 1) == m;
    } else {
      assert RunIndex(xs, n - 1) == m + 1;
      assert r[m + 1] == xs[n - 1];
    }
  }

  /** One more upstream value: the runs of the prefix, then either the same
      last run or a new one holding that value. */
  lemma RunsOfSnoc<T>(xs: seq<T>, init: seq<T>, r: seq<T>)
    requires |xs| > 1 && RunsOf(xs[..|xs| - 1], init)
    requires r == if xs[|xs| - 1] == xs[|xs| - 2] then init else init + [xs[|xs| - 1]]
    ensures RunsOf(xs, r)
  {
    RunsOfSnocLast(xs, init, r);
    forall i | 0 <= i < |xs| ensures RunAt(xs, r, i) {
      if i < |xs| - 1 {
        RunsOfSnocAt(xs, init, r, i);
      }
    }
  }

  /** `distinctUntilChanged()`: an upstream value is passed on exactly when it
      differs from the upstream value before it; `DistinctUntilChangedRuns`
      states this in full. */
  function DistinctUntilChanged<T(==)>(xs: seq<T>): (r: seq<T>)
    ensures |r| <= |xs|
    ensures (r == []) == (xs == [])
    ensures xs != [] ==> r[0] == xs[0] && r[|r| - 1] == xs[|xs| - 1]
    ensures NoAdjacentRepeats(r)
    ensures forall x :: x in r ==> x in xs
  {
    if |xs| <= 1 then xs
    else
      var init := DistinctUntilChanged(xs[..|xs| - 1]);
      if xs[|xs| - 1] == xs[|xs| - 2] then init else init + [xs[|xs| - 1]]
  }

  /** The output holds exactly one value per run of equal neighbours, in order. */
  lemma {:induction false} DistinctUntilChangedRuns<T>(xs: seq<T>)
    ensures RunsOf(xs, DistinctUntilChanged(xs))
  {
    if |xs| > 1 {
      DistinctUntilChangedRuns(xs[..|xs| - 1]);
      RunsOfSnoc(xs, DistinctUntilChanged(xs[..|xs| - 1]), DistinctUntilChanged(xs));
    }
  }

  /** Each run index up to the last one is taken by some position. */
  lemma {:induction false} RunIndexCovers<T>(xs: seq<T>, n: nat, k: nat)
    requires n < |xs| && k <= RunIndex(xs, n)
    ensures exists i :: 0 <= i <= n && RunIndex(xs, i) == k
  {
    if k < RunIndex(xs, n) {
      RunIndexCovers(xs, n - 1, k);
    }
  }

  /** The runs of a flow determine its distinct-until-changed output: any
      sequence with one value per run, in order, is that output. */
  lemma RunsOfUnique<T>(xs: seq<T>, r1: seq<T>, r2: seq<T>)
    requires RunsOf(xs, r1) && RunsOf(xs, r2)
    ensures r1 == r2
  {
    if xs != [] {
      forall k | 0 <= k < |r1| ensures r1[k] == r2[k] {
        RunIndexCovers(xs, |xs| - 1, k);
        var i :| 0 <= i <= |xs| - 1 && RunIndex(xs, i) == k;
        assert RunAt(xs, r1, i) && RunAt(xs, r2, i);
      }
    }
  }

  /** In any sequence of runs, a change between neighbours shows up as neighbours. */
  lemma RunsOfPassesChanges<T>(xs: seq<T>, r: seq<T>, i: nat) returns (k: nat)
    requires RunsOf(xs, r) && 0 < i < |xs| && xs[i - 1] != xs[i]
    ensures 0 < k < |r| && r[k - 1] == xs[i - 1] && r[k] == xs[i]
  {
    var j := RunIndex(xs, i - 1);
    k := RunIndex(xs, i);
    assert k == j + 1;
    assert RunAt(xs, r, i - 1) && RunAt(xs, r, i);
  }

  /** Nothing but a repeat is dropped: every change between neighbouring
      upstream values reaches the output as neighbouring values. */
  lemma DistinctUntilChangedPassesChanges<T>(xs: seq<T>, i: nat)
    requires 0 < i < |xs| && xs[i - 1] != xs[i]
    ensures exists k ::
              && 0 < k < |DistinctUntilChanged(xs)|
              && DistinctUntilChanged(xs)[k - 1] == xs[i - 1]
              && DistinctUntilChanged(xs)[k] == xs[i]
  {
    var r := DistinctUntilChanged(xs);
    DistinctUntilChangedRuns(xs);
    var k := RunsOfPassesChanges(xs, r, i);
    assert 0 < k < |r| && r[k - 1] == xs[i - 1] && r[k] == xs[i];
  }

  /** Appending a value: the output grows by that value exactly when it differs
      from the last one. */
  lemma DistinctUntilChangedSnoc<T>(xs: seq<T>, y: T)
    requires xs != []
    ensures DistinctUntilChanged(xs + [y]) ==
      if y == xs[|xs| - 1] then DistinctUntilChanged(xs) else DistinctUntilChanged(xs) + [y]
  {
    assert (xs + [y])[..|xs|] == xs;
  }

  /** Dropping repeats before a leading value changes nothing once the repeats
      after it are dropped too: `distinctUntilChanged` ahead of `stateIn` is redundant. */
  lemma {:induction false} DistinctUntilChangedAbsorbed<T>(a: T, ys: seq<T>)
    ensures DistinctUntilChanged([a] + DistinctUntilChanged(ys)) == DistinctUntilChanged([a] + ys)
    decreases |ys|
  {
    if |ys| > 1 {
      var n := |ys|;
      var y, p := ys[n - 1], ys[..n - 1];
      assert ys == p + [y];
      assert [a] + ys == ([a] + p) + [y];
      DistinctUntilChangedAbsorbed(a, p);
      var dp := DistinctUntilChanged(p);
      var before := DistinctUntilChanged([a] + p);
      assert DistinctUntilChanged([a] + dp) == before;
      DistinctUntilChangedSnoc(p, y);
      DistinctUntilChangedSnoc([a] + p, y);
      assert ([a] + p)[n - 1] == p[n - 2];
      if y == p[n - 2] {
        assert DistinctUntilChanged(ys) == dp;
        assert DistinctUntilChanged([a] + ys) == before;
      } else {
        assert DistinctUntilChanged(ys) == dp + [y];
        assert DistinctUntilChanged([a] + ys) == before + [y];
        AbsorbedNewRun(a, dp, y, before);
      }
    }
  }

  /** A value that starts a new run after `[a] + dp` is appended to its output. */
  lemma AbsorbedNewRun<T>(a: T, dp: seq<T>, y: T, before: seq<T>)
    requires dp != [] && y != dp[|dp| - 1]
    requires DistinctUntilChanged([a] + dp) == before
    ensures DistinctUntilChanged([a] + (dp + [y])) == before + [y]
  {
    assert [a] + (dp + [y]) == ([a] + dp) + [y];
    assert ([a] + dp)[|dp|] == dp[|dp| - 1];
    DistinctUntilChangedSnoc([a] + dp, y);
  }


  /** A flow that never repeats a value consecutively passes through unchanged. */
  lemma {:induction false} DistinctUntilChangedKeeps<T>(xs: seq<T>)
    requires NoAdjacentRepeats(xs)
    ensures DistinctUntilChanged(xs) == xs
  {
    if |xs| > 1 {
      var p := xs[..|xs| - 1];
      assert NoAdjacentRepeats(p) by {
        forall i | 0 <= i < |p| - 1 ensures p[i] != p[i + 1] { assert p[i] == xs[i] && p[i + 1] == xs[i + 1]; }
      }
      DistinctUntilChangedKeeps(p);
      assert xs[|xs| - 2] != xs[|xs| - 1];
      assert p + [xs[|xs| - 1]] == xs;
    }
  }

  /** Applying the operator twice is the same as applying it once. */
  lemma DistinctUntilChangedIdempotent<T>(xs: seq<T>)
    ensures DistinctUntilChanged(DistinctUntilChanged(xs)) == DistinctUntilChanged(xs)
  {
    DistinctUntilChangedKeeps(DistinctUntilChanged(xs));
  }

  /** `stateIn(scope, started, initial)`: the values a state flow holds. It starts
      at `initial` and, because a state flow conflates a value equal to its
      current one, takes on each upstream value that differs from its current value. */
  function StateIn<T(==)>(initial: T, upstream: seq<T>): (r: seq<T>)
    ensures RunsOf([initial] + upstream, r)
    ensures r != [] && r[0] == initial
    ensures r[|r| - 1] == if upstream == [] then initial else upstream[|upstream| - 1]
    ensures NoAdjacentRepeats(r)
    ensures forall x :: x in r ==> x == initial || x in upstream
  {
    DistinctUntilChangedRuns([initial] + upstream);
    DistinctUntilChanged([initial] + upstream)
  }
}
