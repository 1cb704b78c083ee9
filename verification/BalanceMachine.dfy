/** src/api/scheduler_ea_pedf_rv64.cc: what the load balancer looks for, and what its decisions add up to. */
module BalanceMachine {

  /** A thread with its activity, the core it is on, and the cores it must not move to. */
  datatype Thread = Thread(activity: real, cpu: nat, locked: seq<bool>)

  /** Core 0 handles the timer; the cores that count start at 1. */
  datatype Problem = Problem(loads: seq<real>, threads: seq<Thread>, threshold: real)

  predicate Fit(p: Problem) {
    && |p.loads| > 1
    && forall k :: 0 <= k < |p.threads| ==> p.threads[k].cpu < |p.loads| && |p.threads[k].locked| == |p.loads|
  }

  function Total(loads: seq<real>, n: nat): real
    requires 1 <= n <= |loads|
  {
    if n == 1 then 0.0 else Total(loads, n - 1) + loads[n - 1]
  }

  function Spread(loads: seq<real>, mean: real, n: nat): (v: real)
    requires 1 <= n <= |loads|
    ensures v >= 0.0
  {
    if n == 1 then 0.0 else Spread(loads, mean, n - 1) + Square(mean - loads[n - 1])
  }

  function Square(x: real): (y: real)
    ensures y >= 0.0
  {
    Times(x, x)
  }

  function Times(x: real, y: real): real {
    x * y
  }

  /** The sum of the squared distances from the mean: never negative. */
  function Variance(loads: seq<real>): (v: real)
    requires |loads| > 1
    ensures v >= 0.0
  {
    Spread(loads, Mean(loads), |loads|)
  }

  function Mean(loads: seq<real>): real
    requires |loads| > 1
  {
    Total(loads, |loads|) / (|loads| - 1) as real
  }

  // ---------------------------------------------------------------------
  // What the variance means
  // ---------------------------------------------------------------------

  /** The sum of the squares of the counting cores below n. */
  function Squares(loads: seq<real>, n: nat): real
    requires 1 <= n <= |loads|
  {
    if n == 1 then 0.0 else Squares(loads, n - 1) + Square(loads[n - 1])
  }

  /** The squared distances of k numbers from c, by their sum t and the sum q of their squares. */
  function Distances(q: real, t: real, k: real, c: real): real {
    q - 2.0 * (c * t) + k * Square(c)
  }

  lemma {:induction false} SpreadIs(loads: seq<real>, c: real, n: nat)
    requires 1 <= n <= |loads|
    ensures Spread(loads, c, n) == Distances(Squares(loads, n), Total(loads, n), (n - 1) as real, c)
  {
    hide Square, Distances;
    if n == 1 {
      NoDistance(c);
    } else {
      SpreadIs(loads, c, n - 1);
      OneMore(Squares(loads, n - 1), Total(loads, n - 1), (n - 2) as real, c, loads[n - 1]);
      assert (n - 1) as real == (n - 2) as real + 1.0;
    }
  }

  lemma NoDistance(c: real)
    ensures Distances(0.0, 0.0, 0.0, c) == 0.0
  {
  }

  lemma OneMore(q: real, t: real, k: real, c: real, x: real)
    ensures Distances(q, t, k, c) + Square(c - x) == Distances(q + Square(x), t + x, k + 1.0, c)
  {
    assert (c - x) * (c - x) == c * c - c * x - (x * c - x * x);
    assert c * (t + x) == c * t + c * x;
    assert (k + 1.0) * Square(c) == k * Square(c) + Square(c);
  }

  lemma MeanIs(loads: seq<real>)
    requires |loads| > 1
    ensures (|loads| - 1) as real * Mean(loads) == Total(loads, |loads|)
  {
  }

  /** The squared distances from any c add up to the variance and n - 1 times the squared distance of c from the mean:
      the variance is the least such sum, and the mean the only place where it is reached. */
  lemma VarianceLeast(loads: seq<real>, c: real)
    requires |loads| > 1
    ensures Spread(loads, c, |loads|) == Variance(loads) + (|loads| - 1) as real * Square(c - Mean(loads))
    ensures Spread(loads, c, |loads|) >= Variance(loads)
    ensures Spread(loads, c, |loads|) == Variance(loads) <==> c == Mean(loads)
  {
    hide Square, Distances, Total, Spread, Squares, Mean;
    var n, mean := (|loads| - 1) as real, Mean(loads);
    MeanIs(loads);
    SpreadIs(loads, c, |loads|);
    SpreadIs(loads, mean, |loads|);
    Shift(Squares(loads, |loads|), Total(loads, |loads|), n, mean, c);
    Weighted(n, c - mean);
  }

  lemma Shift(q: real, t: real, n: real, mean: real, c: real)
    requires n * mean == t
    ensures Distances(q, t, n, c) == Distances(q, t, n, mean) + n * Square(c - mean)
  {
    var d := c - mean;
    assert c * c == d * d + 2.0 * (d * mean) + mean * mean by {
      assert (d + mean) * (d + mean) == d * d + d * mean + (mean * d + mean * mean);
    }
    assert n * (c * c) == n * (d * d) + 2.0 * (n * (d * mean)) + n * (mean * mean);
    assert c * (n * mean) == n * (d * mean) + n * (mean * mean);
    assert mean * (n * mean) == n * (mean * mean);
  }

  lemma SquareZero(x: real)
    ensures Square(x) == 0.0 <==> x == 0.0
  {
    if x > 0.0 {
      SquareAbove(x);
    } else if x < 0.0 {
      SquareAbove(0.0 - x);
      OtherSide(x);
    }
  }

  lemma SquareAbove(x: real)
    requires x > 0.0
    ensures Square(x) > 0.0
  {
    TimesAbove(x, x);
  }

  lemma TimesAbove(x: real, y: real)
    requires x > 0.0 && y > 0.0
    ensures Times(x, y) > 0.0
  {
  }

  lemma OtherSide(x: real)
    ensures Square(0.0 - x) == Square(x)
  {
  }

  lemma Weighted(n: real, d: real)
    requires n > 0.0
    ensures n * Square(d) >= 0.0 && (n * Square(d) == 0.0 <==> d == 0.0)
  {
    SquareZero(d);
    Positive(n, Square(d));
  }

  lemma Positive(n: real, x: real)
    requires n > 0.0 && x >= 0.0
    ensures n * x >= 0.0 && (n * x == 0.0 <==> x == 0.0)
  {
  }

  /** The variance is the sum of the squares less the squared sum over the number of counting cores. */
  lemma VarianceIs(loads: seq<real>)
    requires |loads| > 1
    ensures Variance(loads)
         == Squares(loads, |loads|) - Square(Total(loads, |loads|)) / (|loads| - 1) as real
  {
    hide Square, Distances, Total, Spread, Squares, Mean;
    MeanIs(loads);
    SpreadIs(loads, Mean(loads), |loads|);
    AtMean(Squares(loads, |loads|), Total(loads, |loads|), (|loads| - 1) as real, Mean(loads));
  }

  lemma AtMean(q: real, t: real, n: real, mean: real)
    requires n > 0.0 && n * mean == t
    ensures Distances(q, t, n, mean) == q - Square(t) / n
  {
    assert n * (mean * mean) == mean * t;
    assert t * t == n * (mean * t);
    assert t * t / n == mean * t;
  }

  /** It is zero exactly when all counting cores are equally loaded. */
  lemma VarianceZero(loads: seq<real>)
    requires |loads| > 1
    ensures Variance(loads) == 0.0 <==> forall i, j :: 1 <= i < |loads| && 1 <= j < |loads| ==> loads[i] == loads[j]
  {
    hide Spread, Total, Square, Mean;
    SpreadZero(loads, Mean(loads), |loads|);
    if forall i, j :: 1 <= i < |loads| && 1 <= j < |loads| ==> loads[i] == loads[j] {
      SpreadZero(loads, loads[1], |loads|);
      VarianceLeast(loads, loads[1]);
    }
  }

  lemma {:induction false} SpreadZero(loads: seq<real>, c: real, n: nat)
    requires 1 <= n <= |loads|
    ensures Spread(loads, c, n) == 0.0 <==> forall i :: 1 <= i < n ==> loads[i] == c
  {
    hide Square;
    if n > 1 {
      SpreadZero(loads, c, n - 1);
      SquareZero(c - loads[n - 1]);
    }
  }

  /** What the first n items put on a core. */
  function LoadOn(cpus: seq<nat>, xs: seq<real>, cpu: nat, n: nat): real
    requires |cpus| == |xs| && n <= |xs|
  {
    if n == 0 then 0.0 else LoadOn(cpus, xs, cpu, n - 1) + (if cpus[n - 1] == cpu then xs[n - 1] else 0.0)
  }

  lemma LoadOnNext(cpus: seq<nat>, xs: seq<real>, n: nat)
    requires |cpus| == |xs| && n < |xs|
    ensures forall cpu: nat ::
      LoadOn(cpus, xs, cpu, n + 1) == LoadOn(cpus, xs, cpu, n) + (if cpus[n] == cpu then xs[n] else 0.0)
  {
  }

  /** A core carries nothing where no item is on it. */
  lemma {:induction false} LoadOnNone(cpus: seq<nat>, xs: seq<real>, cpu: nat, n: nat)
    requires |cpus| == |xs| && n <= |xs| && forall k :: 0 <= k < n ==> cpus[k] != cpu
    ensures LoadOn(cpus, xs, cpu, n) == 0.0
  {
    if n > 0 {
      LoadOnNone(cpus, xs, cpu, n - 1);
    }
  }

  /** What the first n items put on the counting cores below m. */
  function LoadBelow(cpus: seq<nat>, xs: seq<real>, m: nat, n: nat): real
    requires |cpus| == |xs| && n <= |xs|
  {
    if n == 0 then 0.0
    else LoadBelow(cpus, xs, m, n - 1) + (if 1 <= cpus[n - 1] < m then xs[n - 1] else 0.0)
  }

  /** The counting cores together carry each item on one of them once. */
  lemma {:induction false} LoadsAddUp(cpus: seq<nat>, xs: seq<real>, loads: seq<real>, m: nat)
    requires |cpus| == |xs| && 1 <= m <= |loads|
    requires forall cpu :: 1 <= cpu < m ==> loads[cpu] == LoadOn(cpus, xs, cpu, |xs|)
    ensures Total(loads, m) == LoadBelow(cpus, xs, m, |xs|)
  {
    hide LoadOn, LoadBelow;
    if m == 1 {
      NothingBelow(cpus, xs, |xs|);
    } else {
      LoadsAddUp(cpus, xs, loads, m - 1);
      OneMoreBelow(cpus, xs, m - 1, |xs|);
    }
  }

  lemma {:induction false} NothingBelow(cpus: seq<nat>, xs: seq<real>, n: nat)
    requires |cpus| == |xs| && n <= |xs|
    ensures LoadBelow(cpus, xs, 1, n) == 0.0
  {
    if n > 0 {
      NothingBelow(cpus, xs, n - 1);
    }
  }

  lemma {:induction false} OneMoreBelow(cpus: seq<nat>, xs: seq<real>, m: nat, n: nat)
    requires |cpus| == |xs| && n <= |xs| && m >= 1
    ensures LoadBelow(cpus, xs, m + 1, n) == LoadBelow(cpus, xs, m, n) + LoadOn(cpus, xs, m, n)
  {
    if n > 0 {
      OneMoreBelow(cpus, xs, m, n - 1);
    }
  }

  // ---------------------------------------------------------------------
  // The moves
  // ---------------------------------------------------------------------

  /** A migration of thread a to core b, or a swap of threads a and b, that no lock forbids. */
  predicate Eligible(p: Problem, swap: bool, a: nat, b: nat)
    requires Fit(p)
  {
    if swap then
      && a < b < |p.threads| && p.threads[a].cpu != p.threads[b].cpu
      && !p.threads[a].locked[p.threads[b].cpu] && !p.threads[b].locked[p.threads[a].cpu]
    else
      && a < |p.threads| && 1 <= b < |p.loads| && b != p.threads[a].cpu && !p.threads[a].locked[b]
  }

  /** The loads after thread a left for core b, or after a and b changed places. */
  function Moved(p: Problem, swap: bool, a: nat, b: nat): (loads: seq<real>)
    requires Fit(p) && Eligible(p, swap, a, b)
    ensures |loads| == |p.loads|
  {
    var x := p.threads[a];
    var there := if swap then p.threads[b].cpu else b;
    var back := if swap then p.threads[b].activity else 0.0;
    p.loads[x.cpu := p.loads[x.cpu] - x.activity + back][there := p.loads[there] - back + x.activity]
  }

  lemma {:induction false} LoadOnUpdate(cpus: seq<nat>, xs: seq<real>, cpu: nat, n: nat, k: nat, c: nat)
    requires |cpus| == |xs| && n <= |xs| && k < |xs|
    ensures LoadOn(cpus[k := c], xs, cpu, n)
         == LoadOn(cpus, xs, cpu, n)
            + (if k < n && c == cpu then xs[k] else 0.0) - (if k < n && cpus[k] == cpu then xs[k] else 0.0)
  {
    if n > 0 {
      LoadOnUpdate(cpus, xs, cpu, n - 1, k, c);
    }
  }

  function Cpus(p: Problem): (cpus: seq<nat>)
    ensures |cpus| == |p.threads|
  {
    seq(|p.threads|, k requires 0 <= k < |p.threads| => p.threads[k].cpu)
  }

  function Activities(p: Problem): (xs: seq<real>)
    ensures |xs| == |p.threads|
  {
    seq(|p.threads|, k requires 0 <= k < |p.threads| => p.threads[k].activity)
  }

  /** The cores of the threads after the move. */
  function NewCpus(p: Problem, swap: bool, a: nat, b: nat): (cpus: seq<nat>)
    requires Fit(p) && Eligible(p, swap, a, b)
    ensures |cpus| == |p.threads|
  {
    if swap then Cpus(p)[a := p.threads[b].cpu][b := p.threads[a].cpu] else Cpus(p)[a := b]
  }

  /** The loads tried are those of the threads on their new cores. */
  lemma MovedLoads(p: Problem, swap: bool, a: nat, b: nat, cpu: nat)
    requires Fit(p) && Eligible(p, swap, a, b) && cpu < |p.loads|
    requires p.loads[cpu] == LoadOn(Cpus(p), Activities(p), cpu, |p.threads|)
    ensures Moved(p, swap, a, b)[cpu] == LoadOn(NewCpus(p, swap, a, b), Activities(p), cpu, |p.threads|)
  {
    hide LoadOn;
    var n := |p.threads|;
    if swap {
      LoadOnUpdate(Cpus(p), Activities(p), cpu, n, a, p.threads[b].cpu);
      LoadOnUpdate(Cpus(p)[a := p.threads[b].cpu], Activities(p), cpu, n, b, p.threads[a].cpu);
    } else {
      LoadOnUpdate(Cpus(p), Activities(p), cpu, n, a, b);
    }
  }

  function Score(p: Problem, swap: bool, a: nat, b: nat): (v: real)
    requires Fit(p) && Eligible(p, swap, a, b)
    ensures v >= 0.0
  {
    Variance(Moved(p, swap, a, b))
  }

  /** The move lowers the variance by more than the threshold asks. */
  predicate Qualifies(p: Problem, swap: bool, a: nat, b: nat)
    requires Fit(p)
  {
    && Eligible(p, swap, a, b)
    && Score(p, swap, a, b) < Variance(p.loads)
    && Score(p, swap, a, b) < Variance(p.loads) * (1.0 - p.threshold)
  }

  datatype Choice = None | Some(a: nat, b: nat)

  predicate Before(a: nat, b: nat, a': nat, b': nat) {
    a < a' || (a == a' && b < b')
  }

  /** c is the first of the least-variance moves in front of (a, b), if one of them qualifies. */
  ghost predicate BestUpTo(p: Problem, swap: bool, a: nat, b: nat, c: Choice)
    requires Fit(p)
  {
    match c
    case None => forall x: nat, y: nat :: Before(x, y, a, b) ==> !Qualifies(p, swap, x, y)
    case Some(i, j) =>
      && Before(i, j, a, b) && Qualifies(p, swap, i, j)
      && (forall x: nat, y: nat :: Before(x, y, a, b) && Eligible(p, swap, x, y) ==>
            Score(p, swap, i, j) <= Score(p, swap, x, y)
            && (Before(x, y, i, j) ==> Score(p, swap, i, j) < Score(p, swap, x, y)))
  }

  function BestScore(p: Problem, swap: bool, c: Choice): real
    requires Fit(p) && (c.Some? ==> Eligible(p, swap, c.a, c.b))
  {
    if c.Some? then Score(p, swap, c.a, c.b) else Variance(p.loads)
  }

  /** A move looked at: it replaces the best so far exactly when it beats it and the threshold. */
  lemma Look(p: Problem, swap: bool, a: nat, b: nat, c: Choice)
    requires Fit(p) && BestUpTo(p, swap, a, b, c) && Eligible(p, swap, a, b)
    ensures var better := Score(p, swap, a, b) < BestScore(p, swap, c)
        && Score(p, swap, a, b) < Variance(p.loads) * (1.0 - p.threshold);
      BestUpTo(p, swap, a, b + 1, if better then Some(a, b) else c)
  {
    hide Score, Eligible, Variance;
    var score, limit := Score(p, swap, a, b), Variance(p.loads) * (1.0 - p.threshold);
    if score < BestScore(p, swap, c) && score < limit {
      forall x: nat, y: nat | Before(x, y, a, b + 1) && Eligible(p, swap, x, y)
        ensures score <= Score(p, swap, x, y) && (Before(x, y, a, b) ==> score < Score(p, swap, x, y))
      {
        if Before(x, y, a, b) {
          Beaten(p, swap, a, b, c, x, y);
        }
      }
    } else {
      forall x: nat, y: nat | Before(x, y, a, b + 1) && !Before(x, y, a, b)
        ensures x == a && y == b
      {
      }
    }
  }

  lemma Beaten(p: Problem, swap: bool, a: nat, b: nat, c: Choice, x: nat, y: nat)
    requires Fit(p) && BestUpTo(p, swap, a, b, c) && Before(x, y, a, b) && Eligible(p, swap, x, y)
    ensures c.None? && Score(p, swap, x, y) < Variance(p.loads) ==>
      Score(p, swap, x, y) >= Variance(p.loads) * (1.0 - p.threshold)
    ensures c.Some? ==> Eligible(p, swap, c.a, c.b) && Score(p, swap, c.a, c.b) <= Score(p, swap, x, y)
  {
    hide Score, Variance;
    assert c.None? ==> !Qualifies(p, swap, x, y);
  }

  /** A move that is not eligible changes nothing. */
  lemma Skip(p: Problem, swap: bool, a: nat, b: nat, c: Choice)
    requires Fit(p) && BestUpTo(p, swap, a, b, c) && !Eligible(p, swap, a, b)
    ensures BestUpTo(p, swap, a, b + 1, c)
  {
    hide Score, Eligible, Variance;
    if c.None? {
      forall x: nat, y: nat | Before(x, y, a, b + 1)
        ensures !Qualifies(p, swap, x, y)
      {
        assert Before(x, y, a, b) || (x == a && y == b);
      }
    } else {
      forall x: nat, y: nat | Before(x, y, a, b + 1) && Eligible(p, swap, x, y)
        ensures Before(x, y, a, b)
      {
      }
    }
  }

  /** At the end of a row the next one starts. */
  lemma RowEnds(p: Problem, swap: bool, a: nat, b: nat, c: Choice)
    requires Fit(p) && BestUpTo(p, swap, a, b, c)
    requires b >= if swap then |p.threads| else |p.loads|
    ensures BestUpTo(p, swap, a + 1, 0, c)
  {
    hide Score, Variance;
    forall x: nat, y: nat | Before(x, y, a + 1, 0) && Eligible(p, swap, x, y)
      ensures Before(x, y, a, b)
    {
    }
  }

  /** A whole search: the first least-variance move, if any qualifies. */
  ghost predicate Best(p: Problem, swap: bool, c: Choice)
    requires Fit(p)
  {
    match c
    case None => forall x: nat, y: nat :: !Qualifies(p, swap, x, y)
    case Some(i, j) =>
      && Qualifies(p, swap, i, j)
      && (forall x: nat, y: nat :: Eligible(p, swap, x, y) ==>
            Score(p, swap, i, j) <= Score(p, swap, x, y)
            && (Before(x, y, i, j) ==> Score(p, swap, i, j) < Score(p, swap, x, y)))
  }

  lemma SearchEnds(p: Problem, swap: bool, c: Choice)
    requires Fit(p) && BestUpTo(p, swap, |p.threads|, 0, c)
    ensures Best(p, swap, c)
  {
    hide Score;
    assert forall x: nat, y: nat :: Eligible(p, swap, x, y) ==> Before(x, y, |p.threads|, 0);
  }

  /** What the search for a single migration promises of each one it was free to choose, in plain terms. */
  lemma MigrationLeast(p: Problem, c: Choice, a: nat, b: nat)
    requires Fit(p) && Best(p, false, c) && a < |p.threads| && 1 <= b < |p.loads|
    requires p.threads[a].cpu != b && !p.threads[a].locked[b]
    ensures var t := p.threads[a];
      var score := Variance(p.loads[t.cpu := p.loads[t.cpu] - t.activity][b := p.loads[b] + t.activity]);
      && (c.None? ==> score >= Variance(p.loads) || score >= Variance(p.loads) * (1.0 - p.threshold))
      && (c.Some? ==>
            && Eligible(p, false, c.a, c.b) && Score(p, false, c.a, c.b) <= score
            && Score(p, false, c.a, c.b) < Variance(p.loads)
            && Score(p, false, c.a, c.b) < Variance(p.loads) * (1.0 - p.threshold))
  {
    hide Variance;
    var t := p.threads[a];
    assert Eligible(p, false, a, b);
    assert Moved(p, false, a, b) == p.loads[t.cpu := p.loads[t.cpu] - t.activity][b := p.loads[b] + t.activity];
    assert c.None? ==> !Qualifies(p, false, a, b);
  }

  /** And the search for a swap. */
  lemma SwapLeast(p: Problem, c: Choice, a: nat, b: nat)
    requires Fit(p) && Best(p, true, c) && a < b < |p.threads| && p.threads[a].cpu != p.threads[b].cpu
    requires !p.threads[a].locked[p.threads[b].cpu] && !p.threads[b].locked[p.threads[a].cpu]
    ensures var s, t := p.threads[a], p.threads[b];
      var score := Variance(p.loads[s.cpu := p.loads[s.cpu] - s.activity + t.activity]
                                   [t.cpu := p.loads[t.cpu] - t.activity + s.activity]);
      && (c.None? ==> score >= Variance(p.loads) || score >= Variance(p.loads) * (1.0 - p.threshold))
      && (c.Some? ==>
            && Eligible(p, true, c.a, c.b) && Score(p, true, c.a, c.b) <= score
            && Score(p, true, c.a, c.b) < Variance(p.loads)
            && Score(p, true, c.a, c.b) < Variance(p.loads) * (1.0 - p.threshold))
  {
    hide Variance;
    var s, t := p.threads[a], p.threads[b];
    assert Eligible(p, true, a, b);
    var left := p.loads[s.cpu := p.loads[s.cpu] - s.activity + t.activity];
    assert Moved(p, true, a, b) == left[t.cpu := p.loads[t.cpu] - t.activity + s.activity];
    assert c.None? ==> !Qualifies(p, true, a, b);
  }

  /** At a threshold of one or more no move can qualify: a variance is never negative. */
  lemma NothingQualifies(p: Problem, swap: bool, a: nat, b: nat)
    requires Fit(p) && p.threshold >= 1.0
    ensures !Qualifies(p, swap, a, b)
  {
    NotBelow(Variance(p.loads), p.threshold);
  }

  lemma NotBelow(v: real, t: real)
    requires v >= 0.0 && t >= 1.0
    ensures v * (1.0 - t) <= 0.0
  {
  }

  // ---------------------------------------------------------------------
  // Commitments and revocations
  // ---------------------------------------------------------------------

  const START: real := 0.05
  const STEP: real := 0.15

  datatype Swapped = Alone | With(thread: nat)

  /** A committed migration; the thread swapped with it, if any, goes the other way. */
  datatype Move = Move(thread: nat, from: nat, to: nat, swapped: Swapped)

  datatype Last = NoMove | Pending(move: Move)

  /** The threshold, the revocations so far, the migration that may still be revoked, and the locks set. */
  datatype Books = Books(threshold: real, revocations: nat, last: Last, locks: set<(nat, nat)>)

  /** Whether the balancer cools down, and for how many more hyperperiods at the beginning. */
  datatype Cooling = Cooling(on: bool, counter: nat)

  /** One hyperperiod of cooldown. */
  function Cooled(c: Cooling): Cooling {
    if c.counter > 0 then Cooling(c.on, c.counter - 1) else Cooling(false, 0)
  }

  function Hyperperiods(c: Cooling, n: nat): Cooling
    decreases n
  {
    if n == 0 then c else Hyperperiods(Cooled(c), n - 1)
  }

  /** From a counter of k the cooldown takes exactly k + 1 hyperperiods. */
  lemma {:induction false} CooldownLasts(k: nat, n: nat)
    ensures Hyperperiods(Cooling(true, k), n).on <==> n <= k
    decreases n
  {
    if n > 0 {
      if k > 0 {
        CooldownLasts(k - 1, n - 1);
      } else {
        StaysCool(n - 1);
      }
    }
  }

  lemma {:induction false} StaysCool(n: nat)
    ensures !Hyperperiods(Cooling(false, 0), n).on
  {
    if n > 0 {
      StaysCool(n - 1);
    }
  }

  /** What one call of the balancer finds: nothing to do, a reason to revoke, or a problem with the outcome of the
      searches. */
  datatype Event = Idle | Revoking | Balancing(p: Problem, single: Choice, swap: Choice)

  ghost predicate LocksAre(threads: seq<Thread>, locks: set<(nat, nat)>) {
    forall k, cpu :: 0 <= k < |threads| && 0 <= cpu < |threads[k].locked| ==>
      (threads[k].locked[cpu] <==> (k, cpu) in locks)
  }

  ghost predicate Allowed(s: Books, e: Event) {
    e.Balancing? ==>
      && Fit(e.p) && e.p.threshold == s.threshold && LocksAre(e.p.threads, s.locks)
      && Best(e.p, false, e.single) && (e.single.None? ==> Best(e.p, true, e.swap))
  }

  /** The locks a revocation sets: against going there again. */
  function NewLocks(m: Move): set<(nat, nat)> {
    {(m.thread, m.to)} + (if m.swapped.With? then {(m.swapped.thread, m.from)} else {})
  }

  function Revoked(s: Books): Books {
    if s.last.Pending? then
      Books(s.threshold + STEP, s.revocations + 1, NoMove, s.locks + NewLocks(s.last.move))
    else s
  }

  /** The outcomes of the searches are moves that no lock forbids. */
  ghost predicate Settled(p: Problem, single: Choice, swap: Choice) {
    && Fit(p) && (single.Some? ==> Eligible(p, false, single.a, single.b))
    && (single.None? && swap.Some? ==> Eligible(p, true, swap.a, swap.b))
  }

  /** The migration committed: a swap only where no single migration qualifies. */
  ghost function Committed(p: Problem, single: Choice, swap: Choice): Last
    requires Settled(p, single, swap)
  {
    if single.Some? then Pending(Move(single.a, p.threads[single.a].cpu, single.b, Alone))
    else if swap.Some? then Pending(Move(swap.a, p.threads[swap.a].cpu, p.threads[swap.b].cpu, With(swap.b)))
    else NoMove
  }

  ghost function After(s: Books, e: Event): Books
    requires Allowed(s, e)
  {
    match e
    case Idle => s
    case Revoking => Revoked(s)
    case Balancing(_, _, _) =>
      var c := Committed(e.p, e.single, e.swap);
      if c.Pending? then s.(last := c) else s
  }

  ghost predicate Inv(s: Books) {
    && s.threshold == START + STEP * s.revocations as real
    && s.revocations <= 7
    && (s.last.Pending? ==> s.threshold < 1.0 && NewLocks(s.last.move) !! s.locks)
  }

  lemma AfterInv(s: Books, e: Event)
    requires Inv(s) && Allowed(s, e)
    ensures Inv(After(s, e))
  {
    match e
    case Idle =>
    case Revoking =>
      if s.last.Pending? {
        AtMostSix(s.revocations);
      }
    case Balancing(_, _, _) => CommitFresh(s, e);
  }

  lemma PendingInv(s: Books, m: Move)
    requires Inv(s) && s.threshold < 1.0 && NewLocks(m) !! s.locks
    ensures Inv(s.(last := Pending(m)))
  {
  }

  lemma AtMostSix(n: nat)
    requires START + STEP * n as real < 1.0
    ensures n <= 6 && START + STEP * n as real + STEP == START + STEP * (n + 1) as real
  {
  }

  /** Only below the threshold of one can anything be committed, and only where no lock is set. */
  lemma CommitFresh(s: Books, e: Event)
    requires Allowed(s, e) && e.Balancing?
    ensures var c := Committed(e.p, e.single, e.swap);
      c.Pending? ==> s.threshold < 1.0 && NewLocks(c.move) !! s.locks
  {
    hide Best;
    BestQualifies(e.p, false, e.single);
    if e.single.Some? {
      if s.threshold >= 1.0 {
        NothingQualifies(e.p, false, e.single.a, e.single.b);
      }
    } else {
      BestQualifies(e.p, true, e.swap);
      if e.swap.Some? && s.threshold >= 1.0 {
        NothingQualifies(e.p, true, e.swap.a, e.swap.b);
      }
    }
  }

  lemma BestQualifies(p: Problem, swap: bool, c: Choice)
    requires Fit(p) && Best(p, swap, c)
    ensures c.Some? ==> Qualifies(p, swap, c.a, c.b)
  {
  }

  ghost predicate History(s: Books, es: seq<Event>)
    decreases es
  {
    es == [] || (Allowed(s, es[0]) && History(After(s, es[0]), es[1..]))
  }

  ghost function Run(s: Books, es: seq<Event>): Books
    requires History(s, es)
    decreases es
  {
    if es == [] then s else Run(After(s, es[0]), es[1..])
  }

  lemma {:induction false} RunInv(s: Books, es: seq<Event>)
    requires Inv(s) && History(s, es)
    ensures Inv(Run(s, es))
    decreases es
  {
    if es != [] {
      hide Inv, After;
      AfterInv(s, es[0]);
      RunInv(After(s, es[0]), es[1..]);
    }
  }

  /** At most seven revocations ever happen, whatever the activities, the loads and the triggers. */
  lemma AtMostSevenRevocations(es: seq<Event>)
    requires History(Books(START, 0, NoMove, {}), es)
    ensures Run(Books(START, 0, NoMove, {}), es).revocations <= 7
  {
    RunInv(Books(START, 0, NoMove, {}), es);
  }

  /** A revocation that undoes a migration sets locks none of which was set before. */
  lemma RevocationLocks(s: Books)
    requires Inv(s) && s.last.Pending?
    ensures Revoked(s).locks == s.locks + NewLocks(s.last.move) && s.locks !! NewLocks(s.last.move)
    ensures forall k: nat, cpu: nat :: (k, cpu) in Revoked(s).locks <==>
      || (k, cpu) in s.locks
      || (k == s.last.move.thread && cpu == s.last.move.to)
      || (s.last.move.swapped == With(k) && cpu == s.last.move.from)
    ensures |Revoked(s).locks| > |s.locks|
  {
    var m := s.last.move;
    assert (m.thread, m.to) in NewLocks(m);
    assert |s.locks + {(m.thread, m.to)}| == |s.locks| + 1;
    Larger(s.locks + {(m.thread, m.to)}, Revoked(s).locks);
  }

  lemma {:induction false} Larger<T>(a: set<T>, b: set<T>)
    requires a <= b
    ensures |a| <= |b|
  {
    assert b == a + (b - a);
  }
}
