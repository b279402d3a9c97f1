/** The arithmetic of a round (calculateResult in server.js): the target is the
    average of the submissions times 0.8, the closest players (all ties) win,
    and the first player farthest from the target is eliminated.

    The target 0.8 * sum / n is compared exactly: every distance |x - target| is
    multiplied by 5 * n > 0, which turns it into the integer |5 * n * x - 4 * sum|
    and keeps every `<`, `==` and `>` between distances as it is
    (DistIsScaledDistance, DistOrderMatchesTarget). */
module Resolver {
  import opened Seqs

  function Abs(x: int): nat
  {
    if x < 0 then -x else x
  }

  /** The sum of the submissions, folded left to right as `reduce` does. */
  function Sum(xs: seq<int>): int
  {
    if |xs| == 0 then 0 else Sum(xs[..|xs| - 1]) + xs[|xs| - 1]
  }

  /** Distance of submission i from the target, scaled by 5 * n. */
  function Dist(xs: seq<int>, i: int): nat
    requires 0 <= i < |xs|
  {
    Abs(5 * |xs| * xs[i] - 4 * Sum(xs))
  }

  /** The target as the source computes it: the average times 0.8, here in exact reals. */
  function Target(xs: seq<int>): real
    requires |xs| > 0
  {
    (Sum(xs) as real / |xs| as real) * 0.8
  }

  function RealAbs(x: real): real
  {
    if x < 0.0 then -x else x
  }

  /** The scaled distance is exactly 5 * n times the distance to the real target. */
  lemma DistIsScaledDistance(xs: seq<int>, i: int)
    requires 0 <= i < |xs|
    ensures Dist(xs, i) as real == 5.0 * |xs| as real * RealAbs(xs[i] as real - Target(xs))
  {
    AbsAsReal(|xs|, Sum(xs), xs[i]);
    RealScaled(|xs| as real, Sum(xs) as real, xs[i] as real);
  }

  /** 5 * n times the target is 4 times the sum. */
  lemma ScaledTarget(n: real, s: real)
    requires n > 0.0
    ensures 5.0 * n * ((s / n) * 0.8) == 4.0 * s
  {
    assert n * (s / n) == s;
  }

  /** The integer the model compares, read as a real. */
  lemma ScaledDifference(n: int, x: int, s: int)
    ensures (5 * n * x - 4 * s) as real == 5.0 * n as real * x as real - 4.0 * s as real
  {
    assert (n * x) as real == n as real * x as real;
  }

  lemma RealAbsScale(f: real, y: real)
    requires f > 0.0
    ensures RealAbs(f * y) == f * RealAbs(y)
  {
    if y < 0.0 {
      assert f * y < 0.0;
      assert f * -y == -(f * y);
    } else {
      assert f * y >= 0.0;
    }
  }

  /** Comparing scaled distances decides every comparison of real distances the
      same way, so the exact model takes the same branches as the source's loops. */
  lemma DistOrderMatchesTarget(xs: seq<int>, i: int, j: int)
    requires 0 <= i < |xs| && 0 <= j < |xs|
    ensures Dist(xs, i) < Dist(xs, j) <==>
            RealAbs(xs[i] as real - Target(xs)) < RealAbs(xs[j] as real - Target(xs))
    ensures Dist(xs, i) == Dist(xs, j) <==>
            RealAbs(xs[i] as real - Target(xs)) == RealAbs(xs[j] as real - Target(xs))
  {
    ScaledComparison(|xs|, Sum(xs), xs[i], xs[j]);
  }

  /** The same fact for a count n, a sum s and two submissions x and y. */
  lemma ScaledComparison(n: nat, s: int, x: int, y: int)
    requires n > 0
    ensures Abs(5 * n * x - 4 * s) < Abs(5 * n * y - 4 * s) <==>
            RealAbs(x as real - (s as real / n as real) * 0.8) < RealAbs(y as real - (s as real / n as real) * 0.8)
    ensures Abs(5 * n * x - 4 * s) == Abs(5 * n * y - 4 * s) <==>
            RealAbs(x as real - (s as real / n as real) * 0.8) == RealAbs(y as real - (s as real / n as real) * 0.8)
  {
    AbsAsReal(n, s, x);
    AbsAsReal(n, s, y);
    RealComparison(n as real, s as real, x as real, y as real);
  }

  /** The integer distance read as a real. */
  lemma AbsAsReal(n: int, s: int, x: int)
    ensures Abs(5 * n * x - 4 * s) as real == RealAbs(5.0 * n as real * x as real - 4.0 * s as real)
  {
    ScaledDifference(n, x, s);
  }

  /** In the reals, |5nx - 4s| and |5ny - 4s| are ordered as |x - 0.8 s / n| and |y - 0.8 s / n|. */
  lemma RealComparison(n: real, s: real, x: real, y: real)
    requires n > 0.0
    ensures RealAbs(5.0 * n * x - 4.0 * s) < RealAbs(5.0 * n * y - 4.0 * s) <==>
            RealAbs(x - (s / n) * 0.8) < RealAbs(y - (s / n) * 0.8)
    ensures RealAbs(5.0 * n * x - 4.0 * s) == RealAbs(5.0 * n * y - 4.0 * s) <==>
            RealAbs(x - (s / n) * 0.8) == RealAbs(y - (s / n) * 0.8)
  {
    var a, b := RealAbs(x - (s / n) * 0.8), RealAbs(y - (s / n) * 0.8);
    assert RealAbs(5.0 * n * x - 4.0 * s) == 5.0 * n * a by { RealScaled(n, s, x); }
    assert RealAbs(5.0 * n * y - 4.0 * s) == 5.0 * n * b by { RealScaled(n, s, y); }
    ScalingKeepsOrder(5.0 * n, a, b);
  }

  /** In the reals, |5nx - 4s| is 5n times |x - 0.8 s / n|. */
  lemma RealScaled(n: real, s: real, x: real)
    requires n > 0.0
    ensures RealAbs(5.0 * n * x - 4.0 * s) == 5.0 * n * RealAbs(x - (s / n) * 0.8)
  {
    var f := 5.0 * n;
    var t := (s / n) * 0.8;
    ScaledTarget(n, s);
    assert 5.0 * n * x - 4.0 * s == f * (x - t);
    RealAbsScale(f, x - t);
  }

  lemma ScalingKeepsOrder(f: real, a: real, b: real)
    requires f > 0.0
    ensures f * a < f * b <==> a < b
    ensures f * a == f * b <==> a == b
  {
    if a < b { assert f * (b - a) > 0.0; }
    if b < a { assert f * (a - b) > 0.0; }
  }

  /** The smallest distance among the first k submissions (minDiff after the
      first loop has seen k of them). */
  function MinDistUpTo(xs: seq<int>, k: int): nat
    requires 0 < k <= |xs|
  {
    if k == 1 then Dist(xs, 0)
    else
      var m := MinDistUpTo(xs, k - 1);
      if Dist(xs, k - 1) < m then Dist(xs, k - 1) else m
  }

  /** MinDistUpTo is attained by some index below k and no index below k is closer. */
  lemma {:induction false} MinDistUpToIsMinimum(xs: seq<int>, k: int)
    requires 0 < k <= |xs|
    ensures exists i :: 0 <= i < k && Dist(xs, i) == MinDistUpTo(xs, k)
    ensures forall j :: 0 <= j < k ==> MinDistUpTo(xs, k) <= Dist(xs, j)
  {
    if k == 1 {
      assert Dist(xs, 0) == MinDistUpTo(xs, 1);
    } else {
      MinDistUpToIsMinimum(xs, k - 1);
      var m := MinDistUpTo(xs, k - 1);
      if Dist(xs, k - 1) < m {
        assert Dist(xs, k - 1) == MinDistUpTo(xs, k);
      } else {
        var i :| 0 <= i < k - 1 && Dist(xs, i) == m;
        assert Dist(xs, i) == MinDistUpTo(xs, k);
      }
    }
  }

  function IndicesAt(xs: seq<int>, k: int, d: nat): seq<nat>
    requires 0 <= k <= |xs|
  {
    if k == 0 then []
    else IndicesAt(xs, k - 1, d) + (if Dist(xs, k - 1) == d then [k - 1] else [])
  }

  /** Every index IndicesAt lists lies below k and is at distance d. */
  lemma {:induction false} IndicesAtSound(xs: seq<int>, k: int, d: nat)
    requires 0 <= k <= |xs|
    ensures forall t :: 0 <= t < |IndicesAt(xs, k, d)| ==>
      IndicesAt(xs, k, d)[t] < k && Dist(xs, IndicesAt(xs, k, d)[t]) == d
  {
    if k > 0 {
      IndicesAtSound(xs, k - 1, d);
      var p := IndicesAt(xs, k - 1, d);
      var r := IndicesAt(xs, k, d);
      forall t | 0 <= t < |r| ensures r[t] < k && Dist(xs, r[t]) == d {
        if t < |p| { assert r[t] == p[t]; }
      }
    }
  }

  /** Every index below k at distance d is listed. */
  lemma {:induction false} IndicesAtComplete(xs: seq<int>, k: int, d: nat)
    requires 0 <= k <= |xs|
    ensures forall i :: 0 <= i < k && Dist(xs, i) == d ==> i in IndicesAt(xs, k, d)
  {
    if k > 0 {
      IndicesAtComplete(xs, k - 1, d);
      var p := IndicesAt(xs, k - 1, d);
      assert forall i :: i in p ==> i in IndicesAt(xs, k, d);
    }
  }

  /** The listed indices ascend. */
  lemma {:induction false} IndicesAtIncreasing(xs: seq<int>, k: int, d: nat)
    requires 0 <= k <= |xs|
    ensures Increasing(IndicesAt(xs, k, d))
  {
    if k > 0 {
      IndicesAtIncreasing(xs, k - 1, d);
      IndicesAtSound(xs, k - 1, d);
      var p := IndicesAt(xs, k - 1, d);
      var r := IndicesAt(xs, k, d);
      forall a, b | 0 <= a < b < |r| ensures r[a] < r[b] {
        assert r[a] == p[a];
        if b < |p| { assert r[b] == p[b]; }
      }
    }
  }

  lemma {:induction false} IndicesAtNone(xs: seq<int>, k: int, d: nat)
    requires 0 <= k <= |xs|
    requires forall j :: 0 <= j < k ==> d < Dist(xs, j)
    ensures IndicesAt(xs, k, d) == []
  {
    if k > 0 { IndicesAtNone(xs, k - 1, d); }
  }

  /** The first index below k at the largest distance (eliminatedIndex after the
      second loop has seen k submissions). */
  function FirstMaxUpTo(xs: seq<int>, k: int): (e: nat)
    requires 0 < k <= |xs|
    ensures e < k
  {
    if k == 1 then 0
    else
      var e := FirstMaxUpTo(xs, k - 1);
      if Dist(xs, k - 1) > Dist(xs, e) then k - 1 else e
  }

  /** FirstMaxUpTo is below k, no index below k is farther, and every earlier index is strictly closer. */
  lemma {:induction false} FirstMaxUpToIsFirstMaximum(xs: seq<int>, k: int)
    requires 0 < k <= |xs|
    ensures forall j :: 0 <= j < k ==> Dist(xs, j) <= Dist(xs, FirstMaxUpTo(xs, k))
    ensures forall j :: 0 <= j < FirstMaxUpTo(xs, k) ==> Dist(xs, j) < Dist(xs, FirstMaxUpTo(xs, k))
  {
    if k > 1 { FirstMaxUpToIsFirstMaximum(xs, k - 1); }
  }

  /** What a round yields: the sum, the smallest scaled distance, every index at
      that distance, the eliminated index and the final winners. */
  datatype Outcome = Outcome(sum: int, minDiff: nat, closest: seq<nat>, eliminated: nat, winners: seq<nat>)

  /** A round over a non-empty list of submissions. */
  function Resolve(xs: seq<int>): (o: Outcome)
    requires |xs| > 0
    ensures o.sum == Sum(xs) && o.eliminated < |xs|
    ensures forall i :: i in o.winners <==> i in o.closest && i != o.eliminated
    ensures |o.winners| <= |o.closest|
  {
    var d := MinDistUpTo(xs, |xs|);
    var closest := IndicesAt(xs, |xs|, d);
    var e := FirstMaxUpTo(xs, |xs|);
    Outcome(Sum(xs), d, closest, e, Remove(closest, e))
  }

  /** The closest players: all at the minimum distance, every other player
      strictly farther, listed in ascending order, never empty. */
  lemma ClosestCorrect(xs: seq<int>)
    requires |xs| > 0
    ensures var o := Resolve(xs);
      && (forall t :: 0 <= t < |o.closest| ==> o.closest[t] < |xs| && Dist(xs, o.closest[t]) == o.minDiff)
      && (forall i :: 0 <= i < |xs| ==> o.minDiff <= Dist(xs, i))
      && (forall i :: 0 <= i < |xs| && i !in o.closest ==> o.minDiff < Dist(xs, i))
      && |o.closest| > 0 && Increasing(o.closest)
  {
    var d := MinDistUpTo(xs, |xs|);
    var c := IndicesAt(xs, |xs|, d);
    assert Resolve(xs).minDiff == d && Resolve(xs).closest == c;
    MinDistUpToIsMinimum(xs, |xs|);
    IndicesAtSound(xs, |xs|, d);
    IndicesAtComplete(xs, |xs|, d);
    IndicesAtIncreasing(xs, |xs|, d);
    var i :| 0 <= i < |xs| && Dist(xs, i) == d;
    assert i in c;
  }

  /** The eliminated player is at the largest distance and no earlier player is as far. */
  lemma EliminatedCorrect(xs: seq<int>)
    requires |xs| > 0
    ensures var o := Resolve(xs);
      && o.eliminated < |xs|
      && (forall j :: 0 <= j < |xs| ==> Dist(xs, j) <= Dist(xs, o.eliminated))
      && (forall j :: 0 <= j < o.eliminated ==> Dist(xs, j) < Dist(xs, o.eliminated))
  {
    FirstMaxUpToIsFirstMaximum(xs, |xs|);
  }

  /** The final winners are the closest players minus the eliminated one, ascending. */
  lemma WinnersCorrect(xs: seq<int>)
    requires |xs| > 0
    ensures var o := Resolve(xs);
      && (forall i :: i in o.winners <==> i in o.closest && i != o.eliminated)
      && Increasing(o.winners)
  {
    var o := Resolve(xs);
    ClosestCorrect(xs);
    IncreasingRemove(o.closest, o.eliminated);
  }

  /** Every winner and the eliminated index are positions of the submissions,
      and the winners ascend. */
  lemma WinnersInRange(xs: seq<int>)
    requires |xs| > 0
    ensures var o := Resolve(xs);
      && (forall t :: 0 <= t < |o.winners| ==> o.winners[t] < |xs|)
      && Increasing(o.winners)
      && o.eliminated < |xs|
  {
    var o := Resolve(xs);
    ClosestCorrect(xs);
    WinnersCorrect(xs);
    forall t | 0 <= t < |o.winners| ensures o.winners[t] < |xs| {
      assert o.winners[t] in o.winners;
      var u :| 0 <= u < |o.closest| && o.closest[u] == o.winners[t];
    }
  }

  lemma {:induction false} IncreasingRemove(s: seq<nat>, x: nat)
    requires Increasing(s)
    ensures Increasing(Remove(s, x))
  {
    if s != [] {
      var rest := s[1..];
      assert Increasing(rest);
      IncreasingRemove(rest, x);
      if s[0] != x {
        var tail := Remove(rest, x);
        assert forall k :: 0 <= k < |rest| ==> s[0] < rest[k] by {
          forall k | 0 <= k < |rest| ensures s[0] < rest[k] {
            assert rest[k] == s[k + 1];
          }
        }
        AboveRemove(rest, x, s[0]);
        PrependIncreasing(s[0], tail);
        assert Remove(s, x) == [s[0]] + tail;
      }
    }
  }

  /** Removing elements keeps every remaining one above a bound. */
  lemma {:induction false} AboveRemove(s: seq<nat>, x: nat, v: nat)
    requires forall k :: 0 <= k < |s| ==> v < s[k]
    ensures forall k :: 0 <= k < |Remove(s, x)| ==> v < Remove(s, x)[k]
  {
    if s != [] {
      AboveRemove(s[1..], x, v);
      if s[0] != x {
        var tail := Remove(s[1..], x);
        assert Remove(s, x) == [s[0]] + tail;
      }
    }
  }

  lemma PrependIncreasing(v: nat, s: seq<nat>)
    requires Increasing(s) && forall k :: 0 <= k < |s| ==> v < s[k]
    ensures Increasing([v] + s)
  {
    var r := [v] + s;
    forall a, b | 0 <= a < b < |r| ensures r[a] < r[b] {
      assert r[b] == s[b - 1];
      if a > 0 { assert r[a] == s[a - 1]; }
    }
  }

  /** A player is among the closest exactly when no other player is closer. */
  lemma ClosestAreMinimal(xs: seq<int>, i: int)
    requires 0 <= i < |xs|
    ensures i in Resolve(xs).closest <==> forall j :: 0 <= j < |xs| ==> Dist(xs, i) <= Dist(xs, j)
  {
    var o := Resolve(xs);
    ClosestCorrect(xs);
    if i in o.closest {
      var t :| 0 <= t < |o.closest| && o.closest[t] == i;
    } else {
      var w := o.closest[0];
      assert Dist(xs, w) == o.minDiff < Dist(xs, i);
    }
  }

  /** With one player, index 0 is both the closest and the eliminated player, so no one wins. */
  lemma SoloRoundHasNoWinner(x: int)
    ensures Resolve([x]).closest == [0]
    ensures Resolve([x]).eliminated == 0
    ensures Resolve([x]).winners == []
  {
    var xs := [x];
    assert IndicesAt(xs, 1, Dist(xs, 0)) == [] + [0];
    assert Remove([0], 0) == [];
  }

  /** Submissions 10, 50 and 90: the target is 40, the distances 30, 10 and 50,
      so index 1 wins and index 2 is eliminated. */
  lemma ThreePlayerScenario()
    ensures Resolve([10, 50, 90]).winners == [1]
    ensures Resolve([10, 50, 90]).eliminated == 2
  {
    var xs := [10, 50, 90];
    assert Sum(xs) == 150 by {
      assert xs[..2] == [10, 50];
      assert [10, 50][..1] == [10];
      assert [10][..0] == [];
    }
    assert Dist(xs, 0) == 450 && Dist(xs, 1) == 150 && Dist(xs, 2) == 750;
    assert MinDistUpTo(xs, 3) == 150;
    assert IndicesAt(xs, 1, 150) == [];
    assert IndicesAt(xs, 2, 150) == [1];
    assert IndicesAt(xs, 3, 150) == [1];
    assert FirstMaxUpTo(xs, 2) == 0;
    assert FirstMaxUpTo(xs, 3) == 2;
    assert Remove([1], 2) == [1];
  }

  /** The two loops of calculateResult (minDiff/winnerIndices, then
      maxDiff/eliminatedIndex) and the final filter, proved to compute Resolve. */
  method ResolveRound(xs: seq<int>) returns (o: Outcome)
    requires |xs| > 0
    ensures o == Resolve(xs)
  {
    var n := |xs|;
    var sum := Sum(xs);

    var minDiff := Dist(xs, 0);
    var winnerIndices: seq<nat> := [0];
    var i := 1;
    while i < n
      invariant 1 <= i <= n
      invariant minDiff == MinDistUpTo(xs, i)
      invariant winnerIndices == IndicesAt(xs, i, minDiff)
    {
      var diff := Dist(xs, i);
      if diff < minDiff {
        MinDistUpToIsMinimum(xs, i);
        IndicesAtNone(xs, i, diff);
        minDiff := diff;
        winnerIndices := [i];
      } else if diff == minDiff {
        winnerIndices := winnerIndices + [i];
      }
      i := i + 1;
    }

    var maxDiff := Dist(xs, 0);
    var eliminatedIndex: nat := 0;
    i := 1;
    while i < n
      invariant 1 <= i <= n
      invariant eliminatedIndex == FirstMaxUpTo(xs, i)
      invariant maxDiff == Dist(xs, eliminatedIndex)
    {
      var diff := Dist(xs, i);
      if diff > maxDiff {
        maxDiff := diff;
        eliminatedIndex := i;
      }
      i := i + 1;
    }

    var finalWinnerIndices := Remove(winnerIndices, eliminatedIndex);
    o := Outcome(sum, minDiff, winnerIndices, eliminatedIndex, finalWinnerIndices);
  }
}
