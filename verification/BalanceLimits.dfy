/** The bound on the revocations is reached. */
module BalanceLimits {
  import opened BalanceMachine

  /** Core 1 has seven threads and core 2 has five, each of activity 1; the first n must not go to core 2. */
  function Twelve(n: nat, threshold: real): (p: Problem)
    ensures |p.threads| == 12 && |p.loads| == 3 && p.threshold == threshold
  {
    Problem([0.0, 7.0, 5.0],
            seq(12, k => Thread(1.0, if k < 7 then 1 else 2, [false, false, k < n])),
            threshold)
  }

  function LocksOf(n: nat): set<(nat, nat)> {
    if n == 0 then {} else LocksOf(n - 1) + {(n - 1, 2)}
  }

  /** Moving one thread from core 1 to core 2 leaves six on each. */
  lemma MoveScore(n: nat, t: real, a: nat)
    requires n <= a < 7
    ensures Fit(Twelve(n, t)) && Eligible(Twelve(n, t), false, a, 2)
    ensures Score(Twelve(n, t), false, a, 2) == 0.0 && Variance(Twelve(n, t).loads) == 2.0
  {
    var p := Twelve(n, t);
    assert Moved(p, false, a, 2) == [0.0, 6.0, 6.0];
    VarianceOfTwo(6.0, 6.0);
    VarianceOfTwo(7.0, 5.0);
  }

  lemma FirstMay(n: nat, t: real)
    requires n < 7
    ensures Fit(Twelve(n, t))
    ensures forall x, y :: Eligible(Twelve(n, t), false, x, y) ==> !Before(x, y, n, 2)
  {
  }

  lemma VarianceOfTwo(x: real, y: real)
    ensures Variance([0.0, x, y]) == (x - y) * (x - y) / 2.0
  {
    var s := [0.0, x, y];
    assert Total(s, 3) == Total(s, 2) + y == x + y;
    var m := Mean(s);
    assert m == (x + y) / 2.0;
    assert Spread(s, m, 3) == Spread(s, m, 2) + Square(m - y) == Square(m - x) + Square(m - y);
  }

  /** The search finds the first thread that may go, if that one evens the load out. */
  lemma FirstGoes(p: Problem, n: nat)
    requires Fit(p) && p.threshold < 1.0 && Eligible(p, false, n, 2)
    requires Score(p, false, n, 2) == 0.0 && Variance(p.loads) == 2.0
    requires forall x, y :: Eligible(p, false, x, y) ==> !Before(x, y, n, 2)
    ensures Best(p, false, Some(n, 2))
  {
    Below(p.threshold);
    hide Score, Variance, Eligible;
  }

  lemma Below(t: real)
    requires t < 1.0
    ensures 0.0 < 2.0 * (1.0 - t)
  {
  }

  lemma {:induction false} InLocks(n: nat, k: nat, cpu: nat)
    ensures (k, cpu) in LocksOf(n) <==> k < n && cpu == 2
  {
    if n > 0 {
      InLocks(n - 1, k, cpu);
    }
  }

  lemma LocksFit(n: nat, t: real)
    requires n <= 7
    ensures LocksAre(Twelve(n, t).threads, LocksOf(n))
  {
    hide LocksOf;
    var ths := Twelve(n, t).threads;
    forall k, cpu | 0 <= k < |ths| && 0 <= cpu < |ths[k].locked|
      ensures ths[k].locked[cpu] <==> (k, cpu) in LocksOf(n)
    {
      InLocks(n, k, cpu);
    }
  }

  /** The books after n migrations have been committed and revoked. */
  function BooksAt(n: nat): Books {
    Books(0.05 + 0.15 * n as real, n, NoMove, LocksOf(n))
  }

  /** Committing to a migration of thread n, and revoking it. */
  lemma OneRound(p: Problem, n: nat)
    requires Fit(p) && p.threshold == BooksAt(n).threshold && LocksAre(p.threads, LocksOf(n))
    requires Best(p, false, Some(n, 2))
    ensures var e := Balancing(p, Some(n, 2), None);
      Allowed(BooksAt(n), e) && After(After(BooksAt(n), e), Revoking) == BooksAt(n + 1)
  {
    hide Best, LocksOf, LocksAre;
    NextLock(n);
  }

  lemma NextLock(n: nat)
    ensures LocksOf(n + 1) == LocksOf(n) + {(n, 2)}
  {
  }

  /** There is a history that leads from one state of the books to another. */
  ghost predicate Leads(s: Books, t: Books) {
    exists es :: History(s, es) && Run(s, es) == t
  }

  /** n migrations, each revoked again. */
  lemma {:induction false} RoundsRun(from: nat, n: nat)
    requires from + n <= 7
    ensures Leads(BooksAt(from), BooksAt(from + n))
    decreases n
  {
    hide Allowed, After, History, Run, Best, LocksAre, LocksOf, Eligible, Score, Variance;
    if n == 0 {
      NoEvents(BooksAt(from));
    } else {
      var p := Twelve(from, BooksAt(from).threshold);
      MoveScore(from, p.threshold, from);
      FirstMay(from, p.threshold);
      FirstGoes(p, from);
      LocksFit(from, p.threshold);
      OneRound(p, from);
      RoundsRun(from + 1, n - 1);
      var rest :| History(BooksAt(from + 1), rest) && Run(BooksAt(from + 1), rest) == BooksAt(from + n);
      TwoEvents(BooksAt(from), Balancing(p, Some(from, 2), None), rest);
    }
  }

  lemma NoEvents(s: Books)
    ensures History(s, []) && Run(s, []) == s
  {
  }

  lemma TwoEvents(s: Books, e: Event, rest: seq<Event>)
    requires Allowed(s, e) && History(After(After(s, e), Revoking), rest)
    ensures History(s, [e] + ([Revoking] + rest))
    ensures Run(s, [e] + ([Revoking] + rest)) == Run(After(After(s, e), Revoking), rest)
  {
    OneEvent(After(s, e), Revoking, rest);
    hide *;
    OneEvent(s, e, [Revoking] + rest);
  }

  lemma OneEvent(s: Books, e: Event, rest: seq<Event>)
    requires Allowed(s, e) && History(After(s, e), rest)
    ensures History(s, [e] + rest) && Run(s, [e] + rest) == Run(After(s, e), rest)
  {
    hide Allowed, After;
    assert ([e] + rest)[1..] == rest;
  }

  /** Seven revocations do happen, and leave the threshold at 1.1. */
  lemma SevenReached()
    ensures exists t: Books :: t.revocations == 7 && t.threshold == 1.1 && Leads(Books(START, 0, NoMove, {}), t)
  {
    RoundsRun(0, 7);
    hide Leads;
    assert BooksAt(0) == Books(START, 0, NoMove, {});
    assert BooksAt(7).revocations == 7 && BooksAt(7).threshold == 1.1;
  }
}
