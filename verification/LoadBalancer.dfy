/** src/api/scheduler_ea_pedf_rv64.cc: activity_variance, the searches of balance_load, and its bookkeeping. */
module LoadBalancers {
  import opened BalanceMachine

  /** The scheduling criterion of a monitored thread. */
  class Criterion {
    var activity: real
    var queue: nat
    var target: nat  // the core it was last told to migrate to
    var utilization: real
    var prediction: real  // of its utilization at the next lower frequency
    const locked: array<bool>

    constructor (queue: nat, cpus: nat)
      ensures this.queue == target == queue && activity == utilization == prediction == 0.0
      ensures fresh(locked) && locked.Length == cpus
      ensures forall cpu :: 0 <= cpu < cpus ==> !locked[cpu]
    {
      activity, utilization, prediction := 0.0, 0.0, 0.0;
      this.queue := queue;
      target := queue;
      locked := new bool[cpus](_ => false);
    }
  }

  const MARGIN: real := 0.05  // kept free on every core
  const MAX_LEVEL: nat := 3  // of the clock frequency

  class LoadBalancer {
    const activityCpu: array<real>
    const coreUtilization: array<real>
    const predictedUtilization: array<real>
    const threads: seq<Criterion>
    var threshold: real
    var lastFrom: nat
    var lastTo: nat
    var lastMigrated: Criterion?
    var lastSwapped: Criterion?
    var level: nat
    var preLevel: nat
    var revoke: bool
    var balanced: bool
    var decreased: bool
    var onCooldown: bool
    var initialCooldown: nat
    ghost var books: Books

    /** Every thread is a criterion of its own, on a core, with a lock for every core. */
    ghost predicate Formed()
      reads threads`queue
    {
      && activityCpu.Length == coreUtilization.Length == predictedUtilization.Length > 1
      && activityCpu != coreUtilization && activityCpu != predictedUtilization
      && coreUtilization != predictedUtilization
      && (forall k :: 0 <= k < |threads| ==>
            threads[k].queue < activityCpu.Length && threads[k].locked.Length == activityCpu.Length)
      && (forall k, l :: 0 <= k < l < |threads| ==>
            threads[k] != threads[l] && threads[k].locked != threads[l].locked)
    }

    ghost predicate Locked(locks: set<(nat, nat)>)
      reads set c | c in threads :: c.locked
    {
      forall k, cpu :: 0 <= k < |threads| && 0 <= cpu < threads[k].locked.Length ==>
        (threads[k].locked[cpu] <==> (k, cpu) in locks)
    }

    /** The fields of the last migration describe the one in the books. */
    ghost predicate Remembers()
      reads this
    {
      match books.last
      case NoMove => lastMigrated == null
      case Pending(m) =>
        && m.thread < |threads| && lastMigrated == threads[m.thread]
        && lastFrom == m.from < activityCpu.Length && lastTo == m.to < activityCpu.Length
        && match m.swapped
           case Alone => lastSwapped == null
           case With(t) => t < |threads| && t != m.thread && lastSwapped == threads[t]
    }

    ghost predicate Valid()
      reads this, threads, set c | c in threads :: c.locked
    {
      Formed() && Locked(books.locks) && Remembers() && Inv(books) && threshold == books.threshold
    }

    /** No migration yet, and no lock. */
    constructor (cpus: nat, threads: seq<Criterion>)
      requires cpus > 1
      requires forall k :: 0 <= k < |threads| ==>
        && threads[k].queue < cpus && threads[k].locked.Length == cpus
        && forall cpu :: 0 <= cpu < cpus ==> !threads[k].locked[cpu]
      requires forall k, l :: 0 <= k < l < |threads| ==>
        threads[k] != threads[l] && threads[k].locked != threads[l].locked
      ensures Valid() && books == Books(START, 0, NoMove, {}) && this.threads == threads
      ensures fresh(activityCpu) && fresh(coreUtilization) && fresh(predictedUtilization)
      ensures level == preLevel == MAX_LEVEL && !revoke && !balanced && !decreased && onCooldown && initialCooldown == 5
    {
      activityCpu := new real[cpus](_ => 0.0);
      coreUtilization := new real[cpus](_ => 0.0);
      predictedUtilization := new real[cpus](_ => 0.0);
      this.threads := threads;
      threshold := START;
      lastFrom, lastTo, lastMigrated, lastSwapped := 0, 0, null, null;
      level, preLevel := MAX_LEVEL, MAX_LEVEL;
      revoke, balanced, decreased, onCooldown, initialCooldown := false, false, false, true, 5;
      books := Books(START, 0, NoMove, {});
    }

    /** activity_variance. */
    method ActivityVariance() returns (variance: real)
      requires activityCpu.Length > 1
      ensures variance == Variance(activityCpu[..])
    {
      ghost var loads := activityCpu[..];
      var n := activityCpu.Length;
      var average := 0.0;
      for cpu := 1 to n
        invariant average == Total(loads, cpu)
      {
        average := average + activityCpu[cpu];
      }
      average := average / (n - 1) as real;
      variance := 0.0;
      for cpu := 1 to n
        invariant variance == Spread(loads, average, cpu)
      {
        variance := variance + (average - activityCpu[cpu]) * (average - activityCpu[cpu]);
      }
    }

    /** The threads as they stand. */
    ghost predicate Stand(ths: seq<Thread>)
      reads threads, set c | c in threads :: c.locked
    {
      && |ths| == |threads|
      && forall k :: 0 <= k < |ths| ==>
           ths[k] == Thread(threads[k].activity, threads[k].queue, threads[k].locked[..])
    }

    /** Try thread a on core b, and put everything back. */
    method TryMigration(a: nat, b: nat, ghost p: Problem, ghost away: seq<real>) returns (score: real)
      requires Fit(p) && Stand(p.threads) && Eligible(p, false, a, b) && activityCpu.Length == |p.loads|
      requires away == p.loads[threads[a].queue := p.loads[threads[a].queue] - threads[a].activity]
      requires activityCpu[..] == away
      modifies activityCpu
      ensures score == Score(p, false, a, b) && activityCpu[..] == away
    {
      hide Variance;
      activityCpu[b] := activityCpu[b] + threads[a].activity;
      assert activityCpu[..] == Moved(p, false, a, b);
      score := ActivityVariance();
      activityCpu[b] := activityCpu[b] - threads[a].activity;
      assert activityCpu[..] == away;
    }

    /** The best-so-far variables describe choice c. */
    ghost predicate Holding(p: Problem, swap: bool, c: Choice, best: real, from: nat, to: nat,
        candidate: Criterion?, swapped: Criterion?)
      requires Fit(p)
      reads threads
    {
      match c
      case None => best == Variance(p.loads) && candidate == null && swapped == null
      case Some(a, b) =>
        && |threads| == |p.threads|
        && Eligible(p, swap, a, b) && best == Score(p, swap, a, b)
        && candidate == threads[a] && from == threads[a].queue
        && (if swap then swapped == threads[b] && to == threads[b].queue else swapped == null && to == b)
    }

    /** The single migrations: the first of the least variance that qualifies, with every load put back. */
    method SearchMigrations(original: real, threshold: real, ghost p: Problem)
      returns (best: real, from: nat, to: nat, candidate: Criterion?, ghost c: Choice)
      requires Fit(p) && Stand(p.threads) && activityCpu[..] == p.loads
      requires original == Variance(p.loads) && threshold == p.threshold
      modifies activityCpu
      ensures activityCpu[..] == p.loads && Stand(p.threads)
      ensures Best(p, false, c) && Holding(p, false, c, best, from, to, candidate, null)
    {
      hide Variance, Best, Score;
      best, from, to, candidate := original, 0, 0, null;
      c := None;
      for a := 0 to |threads|
        invariant activityCpu[..] == p.loads && Stand(p.threads)
        invariant BestUpTo(p, false, a, 0, c) && Holding(p, false, c, best, from, to, candidate, null)
      {
        best, from, to, candidate, c := SearchTargets(a, original, threshold, p, best, from, to, candidate, c);
      }
      SearchEnds(p, false, c);
    }

    /** The targets of thread a. */
    method SearchTargets(a: nat, original: real, threshold: real, ghost p: Problem,
        best0: real, from0: nat, to0: nat, candidate0: Criterion?, ghost c0: Choice)
      returns (best: real, from: nat, to: nat, candidate: Criterion?, ghost c: Choice)
      requires Fit(p) && Stand(p.threads) && activityCpu[..] == p.loads && a < |threads|
      requires original == Variance(p.loads) && threshold == p.threshold
      requires BestUpTo(p, false, a, 0, c0) && Holding(p, false, c0, best0, from0, to0, candidate0, null)
      modifies activityCpu
      ensures activityCpu[..] == p.loads && Stand(p.threads)
      ensures BestUpTo(p, false, a + 1, 0, c) && Holding(p, false, c, best, from, to, candidate, null)
    {
      hide Variance, Moved, BestUpTo, Score;
      best, from, to, candidate := best0, from0, to0, candidate0;
      c := c0;
      var criterion := threads[a];
      var current := criterion.queue;
      activityCpu[current] := activityCpu[current] - criterion.activity;
      ghost var away := p.loads[current := p.loads[current] - criterion.activity];
      assert activityCpu[..] == away;
      Skip(p, false, a, 0, c);
      for target := 1 to activityCpu.Length
        invariant activityCpu[..] == away
        invariant BestUpTo(p, false, a, target, c) && Holding(p, false, c, best, from, to, candidate, null)
      {
        if target == current || criterion.locked[target] {
          Skip(p, false, a, target, c);
          continue;
        }
        var score := TryMigration(a, target, p, away);
        Look(p, false, a, target, c);
        if score < best && score < original * (1.0 - threshold) {
          best, from, to, candidate := score, current, target, criterion;
          c := Some(a, target);
        }
      }
      activityCpu[current] := activityCpu[current] + criterion.activity;
      assert activityCpu[..] == p.loads;
      RowEnds(p, false, a, activityCpu.Length, c);
    }

    /** Try swapping threads a and b, with a taken off its core already, and put everything back. */
    method TrySwap(a: nat, b: nat, ghost p: Problem, ghost away: seq<real>) returns (score: real)
      requires Fit(p) && Stand(p.threads) && Eligible(p, true, a, b) && activityCpu.Length == |p.loads|
      requires away == p.loads[threads[a].queue := p.loads[threads[a].queue] - threads[a].activity]
      requires activityCpu[..] == away
      modifies activityCpu
      ensures score == Score(p, true, a, b) && activityCpu[..] == away
    {
      hide Variance;
      var x, y := threads[a], threads[b];
      activityCpu[y.queue] := activityCpu[y.queue] - y.activity;
      activityCpu[y.queue] := activityCpu[y.queue] + x.activity;
      activityCpu[x.queue] := activityCpu[x.queue] + y.activity;
      assert activityCpu[..] == Moved(p, true, a, b);
      score := ActivityVariance();
      activityCpu[y.queue] := activityCpu[y.queue] - x.activity;
      activityCpu[x.queue] := activityCpu[x.queue] - y.activity;
      activityCpu[y.queue] := activityCpu[y.queue] + y.activity;
      assert activityCpu[..] == away;
    }

    /** The swaps: the first of the least variance that qualifies, with every load put back. */
    method SearchSwaps(original: real, threshold: real, ghost p: Problem)
      returns (best: real, from: nat, to: nat, candidate: Criterion?, swapped: Criterion?, ghost c: Choice)
      requires Fit(p) && Stand(p.threads) && activityCpu[..] == p.loads
      requires original == Variance(p.loads) && threshold == p.threshold
      modifies activityCpu
      ensures activityCpu[..] == p.loads && Stand(p.threads)
      ensures Best(p, true, c) && Holding(p, true, c, best, from, to, candidate, swapped)
    {
      hide Variance, Best, Score;
      best, from, to, candidate, swapped := original, 0, 0, null, null;
      c := None;
      for a := 0 to |threads|
        invariant activityCpu[..] == p.loads && Stand(p.threads)
        invariant BestUpTo(p, true, a, 0, c) && Holding(p, true, c, best, from, to, candidate, swapped)
      {
        best, from, to, candidate, swapped, c :=
          SearchPartners(a, original, threshold, p, best, from, to, candidate, swapped, c);
      }
      SearchEnds(p, true, c);
    }

    /** The threads after a that it may change places with. */
    method SearchPartners(a: nat, original: real, threshold: real, ghost p: Problem,
        best0: real, from0: nat, to0: nat, candidate0: Criterion?, swapped0: Criterion?, ghost c0: Choice)
      returns (best: real, from: nat, to: nat, candidate: Criterion?, swapped: Criterion?, ghost c: Choice)
      requires Fit(p) && Stand(p.threads) && activityCpu[..] == p.loads && a < |threads|
      requires original == Variance(p.loads) && threshold == p.threshold
      requires BestUpTo(p, true, a, 0, c0) && Holding(p, true, c0, best0, from0, to0, candidate0, swapped0)
      modifies activityCpu
      ensures activityCpu[..] == p.loads && Stand(p.threads)
      ensures BestUpTo(p, true, a + 1, 0, c) && Holding(p, true, c, best, from, to, candidate, swapped)
    {
      hide Variance, Moved, BestUpTo, Score;
      best, from, to, candidate, swapped := best0, from0, to0, candidate0, swapped0;
      c := c0;
      var criterion := threads[a];
      var cpu := criterion.queue;
      activityCpu[cpu] := activityCpu[cpu] - criterion.activity;
      ghost var away := p.loads[cpu := p.loads[cpu] - criterion.activity];
      assert activityCpu[..] == away;
      SkipTo(p, a, a + 1, c);
      for b := a + 1 to |threads|
        invariant activityCpu[..] == away
        invariant BestUpTo(p, true, a, b, c) && Holding(p, true, c, best, from, to, candidate, swapped)
      {
        var other := threads[b];
        if cpu == other.queue {
          Skip(p, true, a, b, c);
          continue;
        }
        if criterion.locked[other.queue] || other.locked[cpu] {
          Skip(p, true, a, b, c);
          continue;
        }
        var score := TrySwap(a, b, p, away);
        Look(p, true, a, b, c);
        if score < best && score < original * (1.0 - threshold) {
          best, from, to, candidate, swapped := score, cpu, other.queue, criterion, other;
          c := Some(a, b);
        }
      }
      activityCpu[cpu] := activityCpu[cpu] + criterion.activity;
      assert activityCpu[..] == p.loads;
      RowEnds(p, true, a, |threads|, c);
    }

    ghost function Snapshot(): (ths: seq<Thread>)
      requires Formed()
      reads threads, set c | c in threads :: c.locked
      ensures Stand(ths)
    {
      seq(|threads|, k requires 0 <= k < |threads| reads threads, set c | c in threads :: c.locked =>
        Thread(threads[k].activity, threads[k].queue, threads[k].locked[..]))
    }

    ghost function Queues(): (qs: seq<nat>)
      reads threads
      ensures |qs| == |threads| && forall k :: 0 <= k < |qs| ==> qs[k] == threads[k].queue
    {
      seq(|threads|, k requires 0 <= k < |threads| reads threads => threads[k].queue)
    }

    ghost function Activities(): (xs: seq<real>)
      reads threads
      ensures |xs| == |threads| && forall k :: 0 <= k < |xs| ==> xs[k] == threads[k].activity
    {
      seq(|threads|, k requires 0 <= k < |threads| reads threads => threads[k].activity)
    }

    ghost function Targets(): (ts: seq<nat>)
      reads threads
      ensures |ts| == |threads| && forall k :: 0 <= k < |ts| ==> ts[k] == threads[k].target
    {
      seq(|threads|, k requires 0 <= k < |threads| reads threads => threads[k].target)
    }

    /** The activities of the threads, summed up core by core. */
    method Accumulate()
      requires Formed()
      modifies activityCpu
      ensures forall cpu :: 1 <= cpu < activityCpu.Length ==>
        activityCpu[cpu] == LoadOn(Queues(), Activities(), cpu, |threads|)
    {
      ghost var qs, xs := Queues(), Activities();
      for cpu := 1 to activityCpu.Length
        invariant forall c :: 1 <= c < cpu ==> activityCpu[c] == 0.0
      {
        activityCpu[cpu] := 0.0;
      }
      for k := 0 to |threads|
        invariant forall cpu :: 1 <= cpu < activityCpu.Length ==> activityCpu[cpu] == LoadOn(qs, xs, cpu, k)
      {
        var cpu := threads[k].queue;
        activityCpu[cpu] := activityCpu[cpu] + threads[k].activity;
      }
    }

    /** prepare_migration(target) for thread k. */
    method Tell(c: Criterion, target: nat, ghost k: nat)
      requires Formed() && k < |threads| && c == threads[k]
      modifies c`target
      ensures c.target == target && Targets() == old(Targets())[k := target]
    {
      OneEach();
      hide Formed;
      c.target := target;
    }

    /** Thread k must not go to a core again, and is told to go to another. */
    method Forbid(c: Criterion, cpu: nat, target: nat, ghost k: nat, ghost locks: set<(nat, nat)>)
      requires Formed() && Locked(locks) && k < |threads| && c == threads[k] && cpu < activityCpu.Length
      modifies c`target, c.locked
      ensures Formed() && Locked(locks + {(k, cpu)}) && c.target == target
      ensures Targets() == old(Targets())[k := target]
    {
      c.locked[cpu] := true;
      Tell(c, target, k);
    }

    /** Send the threads of the last migration back, with the cores they leave locked. */
    method SendBack()
      requires Formed() && Locked(books.locks) && Remembers() && books.last.Pending? && lastMigrated != null
      modifies threads`target, set c | c in threads :: c.locked
      ensures Formed() && Locked(books.locks + NewLocks(books.last.move))
      ensures lastMigrated.target == lastFrom && (lastSwapped != null ==> lastSwapped.target == lastTo)
      ensures var m := books.last.move; Told(old(Targets()), Targets(), m.thread, m.from, m.swapped, m.to)
    {
      OneEach();
      hide Formed, Locked;
      ghost var m, locks, ts := books.last.move, books.locks, Targets();
      ToldIs(ts, m.thread, m.from, m.swapped, m.to);
      hide Told;
      Forbid(lastMigrated, lastTo, lastFrom, m.thread, locks);
      if lastSwapped != null {
        Forbid(lastSwapped, lastFrom, lastTo, m.swapped.thread, locks + {(m.thread, m.to)});
        assert locks + {(m.thread, m.to)} + {(m.swapped.thread, m.from)} == locks + NewLocks(m);
      } else {
        assert locks + {(m.thread, m.to)} == locks + NewLocks(m);
      }
    }

    lemma ToldIs(ts: seq<nat>, k: nat, cpu: nat, swapped: Swapped, other: nat)
      requires k < |ts| && (swapped.With? ==> swapped.thread < |ts| && swapped.thread != k)
      ensures Told(ts, if swapped.With? then ts[k := cpu][swapped.thread := other] else ts[k := cpu],
                   k, cpu, swapped, other)
    {
    }

    /** Undo the last migration, lock the cores left, and ask for more the next time. */
    method Revoke()
      requires Valid()
      modifies this, threads`target, set c | c in threads :: c.locked
      ensures Valid() && books == Revoked(old(books)) && !revoke
      ensures old(lastMigrated) != null ==> old(lastMigrated).target == old(lastFrom)
      ensures old(lastMigrated) != null && old(lastSwapped) != null ==> old(lastSwapped).target == old(lastTo)
      ensures if old(books.last).Pending? then
          && level == MAX_LEVEL && onCooldown
          && Told(old(Targets()), Targets(), old(books.last.move.thread), old(books.last.move.from),
                  old(books.last.move.swapped), old(books.last.move.to))
        else level == old(level) && onCooldown == old(onCooldown) && Targets() == old(Targets())
      ensures balanced == old(balanced) && preLevel == old(preLevel)
      ensures decreased == old(decreased) && initialCooldown == old(initialCooldown)
    {
      hide Formed, Locked, BalanceMachine.Inv, NewLocks, Told, LoadBalancer.Targets;
      if lastMigrated != null {
        BooksFacts();
        SendBack();
        threshold := threshold + STEP;
        books := Revoked(books);
        Forget();
      }
      revoke := false;
    }

    method Forget()
      modifies `lastFrom, `lastTo, `lastMigrated, `lastSwapped, `onCooldown, `level
      ensures lastMigrated == null && lastSwapped == null && lastFrom == lastTo == 0
      ensures onCooldown && level == MAX_LEVEL
    {
      lastFrom, lastTo, lastMigrated, lastSwapped := 0, 0, null, null;
      onCooldown := true;
      level := MAX_LEVEL;
    }

    /** Thread k is told to go to a core, the one swapped with it to the other, and nobody else is told anything. */
    ghost predicate Told(ts: seq<nat>, ts': seq<nat>, k: nat, cpu: nat, swapped: Swapped, other: nat) {
      && |ts'| == |ts|
      && forall i :: 0 <= i < |ts| ==>
           ts'[i] == if i == k then cpu else if swapped == With(i) then other else ts[i]
    }

    lemma OneEach()
      requires Formed()
      ensures forall k, l :: 0 <= k < l < |threads| ==> threads[k] != threads[l]
    {
    }

    lemma BooksFacts()
      requires Valid() && books.last.Pending?
      ensures BalanceMachine.Inv(Revoked(books)) && threshold + STEP == Revoked(books).threshold
    {
      AfterInv(books, Revoking);
    }

    /** Tell the threads to move. */
    method Send(candidate: Criterion, swapped: Criterion?, from: nat, to: nat, ghost m: Move)
      requires Formed() && Locked(books.locks) && m.thread < |threads| && candidate == threads[m.thread]
      requires match m.swapped
               case Alone => swapped == null
               case With(t) => t < |threads| && t != m.thread && swapped == threads[t]
      modifies threads`target
      ensures Formed() && Locked(books.locks)
      ensures candidate.target == to && (swapped != null ==> swapped.target == from)
      ensures Told(old(Targets()), Targets(), m.thread, to, m.swapped, from)
    {
      OneEach();
      hide Formed, Locked;
      ToldIs(Targets(), m.thread, to, m.swapped, from);
      hide Told;
      Tell(candidate, to, m.thread);
      if swapped != null {
        Tell(swapped, from, m.swapped.thread);
      }
    }

    /** Tell the threads to move, and remember the move. */
    method Commit(candidate: Criterion, swapped: Criterion?, from: nat, to: nat, ghost m: Move)
      requires Valid() && threshold < 1.0 && NewLocks(m) !! books.locks
      requires m.thread < |threads| && candidate == threads[m.thread]
      requires from == m.from < activityCpu.Length && to == m.to < activityCpu.Length
      requires match m.swapped
               case Alone => swapped == null
               case With(t) => t < |threads| && t != m.thread && swapped == threads[t]
      modifies this, threads`target
      ensures Valid() && books == old(books).(last := Pending(m)) && balanced == old(balanced)
      ensures candidate.target == to && (swapped != null ==> swapped.target == from)
      ensures Told(old(Targets()), Targets(), m.thread, m.to, m.swapped, m.from)
      ensures preLevel == old(level) && level == MAX_LEVEL && onCooldown && revoke == old(revoke)
      ensures decreased == old(decreased) && initialCooldown == old(initialCooldown)
    {
      hide Formed, Locked, BalanceMachine.Inv, NewLocks, Told, LoadBalancer.Targets;
      PendingInv(books, m);
      Send(candidate, swapped, from, to, m);
      Remember(candidate, swapped, from, to);
      books := books.(last := Pending(m));
    }

    method Remember(candidate: Criterion, swapped: Criterion?, from: nat, to: nat)
      modifies `lastFrom, `lastTo, `lastMigrated, `lastSwapped, `onCooldown, `preLevel, `level
      ensures lastFrom == from && lastTo == to && lastMigrated == candidate && lastSwapped == swapped
      ensures onCooldown && preLevel == old(level) && level == MAX_LEVEL
    {
      lastFrom, lastTo, lastMigrated, lastSwapped := from, to, candidate, swapped;
      onCooldown := true;
      preLevel := level;
      level := MAX_LEVEL;
    }

    /** The search of balance_load: single migrations first, swaps only where none of them qualifies. */
    method Search(ghost p: Problem)
      returns (best: real, from: nat, to: nat, candidate: Criterion?, swapped: Criterion?,
               ghost single: Choice, ghost swap: Choice)
      requires Fit(p) && Stand(p.threads) && activityCpu[..] == p.loads && threshold == p.threshold
      modifies activityCpu
      ensures activityCpu[..] == p.loads && Stand(p.threads)
      ensures Best(p, false, single) && (single.None? ==> Best(p, true, swap))
      ensures Holding(p, single.None?, if single.Some? then single else swap, best, from, to, candidate, swapped)
    {
      hide Variance, Best, Holding;
      var original := ActivityVariance();
      best, from, to, candidate, single := SearchMigrations(original, threshold, p);
      swapped, swap := null, None;
      HoldingNull(p, false, single, best, from, to, candidate, null);
      if candidate == null {
        best, from, to, candidate, swapped, swap := SearchSwaps(original, threshold, p);
      }
    }

    lemma HoldingNull(p: Problem, swap: bool, c: Choice, best: real, from: nat, to: nat,
        candidate: Criterion?, swapped: Criterion?)
      requires Fit(p) && Holding(p, swap, c, best, from, to, candidate, swapped)
      ensures candidate == null <==> c.None?
    {
    }

    /** What the variables found say about the move to commit. */
    lemma Found(p: Problem, single: Choice, swap: Choice, best: real, from: nat, to: nat,
        candidate: Criterion?, swapped: Criterion?)
      requires Valid() && Fit(p) && Stand(p.threads)
      requires p.threshold == threshold && activityCpu.Length == |p.loads|
      requires Best(p, false, single) && (single.None? ==> Best(p, true, swap))
      requires Holding(p, single.None?, if single.Some? then single else swap, best, from, to, candidate, swapped)
      ensures Allowed(books, Balancing(p, single, swap)) && Settled(p, single, swap)
      ensures var c := Committed(p, single, swap);
        && (candidate == null <==> c.NoMove?)
        && (c.Pending? ==>
              && threshold < 1.0 && NewLocks(c.move) !! books.locks
              && c.move.thread < |threads| && candidate == threads[c.move.thread]
              && from == c.move.from < activityCpu.Length && to == c.move.to < activityCpu.Length
              && match c.move.swapped
                 case Alone => swapped == null
                 case With(t) => t < |threads| && t != c.move.thread && swapped == threads[t])
    {
      hide Variance, Best, Score, NewLocks, BalanceMachine.Inv;
      assert LocksAre(p.threads, books.locks);
      CommitFresh(books, Balancing(p, single, swap));
    }

    /** Sum the activities up, search, and commit to what was found; with nothing found the load is balanced. */
    method Rebalance() returns (ghost p: Problem, ghost single: Choice, ghost swap: Choice)
      requires Valid()
      modifies this, activityCpu, threads`target
      ensures Valid() && Allowed(old(books), Balancing(p, single, swap))
      ensures books == After(old(books), Balancing(p, single, swap))
      ensures p.loads == activityCpu[..] && p.threads == old(Snapshot())
      ensures forall cpu :: 1 <= cpu < activityCpu.Length ==>
        activityCpu[cpu] == LoadOn(old(Queues()), old(Activities()), cpu, |threads|)
      ensures Settled(p, single, swap)
      ensures if Committed(p, single, swap).Pending? then
          var m := Committed(p, single, swap).move;
          && balanced == old(balanced) && preLevel == old(level) && level == MAX_LEVEL && onCooldown
          && Told(old(Targets()), Targets(), m.thread, m.to, m.swapped, m.from)
        else
          && balanced && preLevel == old(preLevel) && level == old(level) && onCooldown == old(onCooldown)
          && Targets() == old(Targets())
      ensures revoke == old(revoke) && decreased == old(decreased) && initialCooldown == old(initialCooldown)
    {
      hide Variance, Best, Holding, BalanceMachine.Inv, NewLocks, Locked, Committed, Settled, Told;
      Accumulate();
      p := Problem(activityCpu[..], Snapshot(), threshold);
      var best, from, to, candidate, swapped;
      best, from, to, candidate, swapped, single, swap := Search(p);
      Found(p, single, swap, best, from, to, candidate, swapped);
      if candidate != null {
        Commit(candidate, swapped, from, to, Committed(p, single, swap).move);
      } else {
        balanced := true;
      }
    }

    /** What a commitment tells the threads, by the outcome of the searches. */
    lemma ToldOf(p: Problem, single: Choice, swap: Choice, ts: seq<nat>, ts': seq<nat>)
      requires Settled(p, single, swap) && Committed(p, single, swap).Pending? && |ts| == |p.threads|
      requires var m := Committed(p, single, swap).move; Told(ts, ts', m.thread, m.to, m.swapped, m.from)
      ensures single.Some? ==> single.a < |ts'| && ts'[single.a] == single.b
      ensures single.None? && swap.Some? ==>
        && swap.a < |ts'| && ts'[swap.a] == p.threads[swap.b].cpu
        && swap.b < |ts'| && ts'[swap.b] == p.threads[swap.a].cpu
    {
    }

    lemma SettledFits(p: Problem, single: Choice, swap: Choice)
      requires Settled(p, single, swap)
      ensures single.Some? ==>
        && single.a < |p.threads|
        && Committed(p, single, swap) == Pending(Move(single.a, p.threads[single.a].cpu, single.b, Alone))
      ensures single.None? && swap.Some? ==>
        && swap.a < |p.threads| && swap.b < |p.threads|
        && Committed(p, single, swap)
           == Pending(Move(swap.a, p.threads[swap.a].cpu, p.threads[swap.b].cpu, With(swap.b)))
    {
    }

    /** balance_load, once a hyperperiod. */
    method BalanceLoad() returns (ghost e: Event)
      requires Valid()
      modifies this, activityCpu, threads`target, set c | c in threads :: c.locked
      ensures Valid() && Allowed(old(books), e) && books == After(old(books), e)
      ensures e.Revoking? <==> old(revoke) || old(level) > old(preLevel)
      ensures e.Balancing? <==> !e.Revoking? && !old(balanced)
      ensures e.Balancing? ==> e.p.loads == activityCpu[..] && e.p.threads == old(Snapshot())
      ensures e.Balancing? ==> Settled(e.p, e.single, e.swap)
      ensures e.Balancing? ==> forall cpu :: 1 <= cpu < activityCpu.Length ==>
        activityCpu[cpu] == LoadOn(old(Queues()), old(Activities()), cpu, |threads|)
      ensures Outcome(e, old(level), old(preLevel), old(balanced), old(onCooldown), old(books.last),
                      old(Targets()), Targets())
      ensures e.Balancing? && e.single.Some? ==> threads[e.single.a].target == e.single.b
      ensures e.Balancing? && e.single.None? && e.swap.Some? ==>
        && threads[e.swap.a].target == old(threads[e.swap.b].queue)
        && threads[e.swap.b].target == old(threads[e.swap.a].queue)
      ensures e.Balancing? && e.single.Some? ==>
        && lastMigrated == threads[e.single.a] && lastSwapped == null
        && lastFrom == old(threads[e.single.a].queue) && lastTo == e.single.b
      ensures e.Balancing? && e.single.None? && e.swap.Some? ==>
        && lastMigrated == threads[e.swap.a] && lastSwapped == threads[e.swap.b]
        && lastFrom == old(threads[e.swap.a].queue) && lastTo == old(threads[e.swap.b].queue)
      ensures revoke == (old(revoke) && !e.Revoking?)
      ensures decreased == old(decreased) && initialCooldown == old(initialCooldown)
    {
      hide Variance, Best, Holding, BalanceMachine.Inv, NewLocks, Locked, Committed, Settled, Told;
      if revoke || level > preLevel {
        Revoke();
        e := Revoking;
      } else if balanced {
        e := Idle;
      } else {
        ghost var p, single, swap := Rebalance();
        e := Balancing(p, single, swap);
        if Committed(p, single, swap).Pending? {
          ToldOf(p, single, swap, old(Targets()), Targets());
        }
        SettledFits(p, single, swap);
      }
    }

    /** What a call leaves of the level, the cooldown, the flag and the targets, given what they were. After a
        revocation of a migration and after a commitment the level is the highest and the cooldown starts; with nothing
        left to gain the load is balanced; otherwise all is as it was. */
    ghost predicate Outcome(e: Event, level0: nat, preLevel0: nat, balanced0: bool, onCooldown0: bool, last: Last,
        ts: seq<nat>, ts': seq<nat>)
      requires e.Balancing? ==> Settled(e.p, e.single, e.swap)
      reads this
    {
      match e
      case Idle =>
        level == level0 && preLevel == preLevel0 && balanced == balanced0 && onCooldown == onCooldown0 && ts' == ts
      case Revoking =>
        && preLevel == preLevel0 && balanced == balanced0
        && if last.Pending? then
             && level == MAX_LEVEL && onCooldown
             && Told(ts, ts', last.move.thread, last.move.from, last.move.swapped, last.move.to)
           else level == level0 && onCooldown == onCooldown0 && ts' == ts
      case Balancing(p, single, swap) =>
        var c := Committed(p, single, swap);
        if c.Pending? then
          && level == MAX_LEVEL && onCooldown && preLevel == level0 && balanced == balanced0
          && Told(ts, ts', c.move.thread, c.move.to, c.move.swapped, c.move.from)
        else level == level0 && preLevel == preLevel0 && balanced && onCooldown == onCooldown0 && ts' == ts
    }

    ghost function Utilizations(): (xs: seq<real>)
      reads threads
      ensures |xs| == |threads| && forall k :: 0 <= k < |xs| ==> xs[k] == threads[k].utilization
    {
      seq(|threads|, k requires 0 <= k < |threads| reads threads => threads[k].utilization)
    }

    ghost function Predictions(): (xs: seq<real>)
      reads threads
      ensures |xs| == |threads| && forall k :: 0 <= k < |xs| ==> xs[k] == threads[k].prediction
    {
      seq(|threads|, k requires 0 <= k < |threads| reads threads => threads[k].prediction)
    }

    /** Sum up, core by core, what the threads use now and what they would use at the next lower frequency. */
    method SumUp()
      requires Formed()
      modifies coreUtilization, predictedUtilization
      ensures forall cpu :: 1 <= cpu < coreUtilization.Length ==>
        && coreUtilization[cpu] == LoadOn(Queues(), Utilizations(), cpu, |threads|)
        && predictedUtilization[cpu] == LoadOn(Queues(), Predictions(), cpu, |threads|)
    {
      ghost var qs, us, xs := Queues(), Utilizations(), Predictions();
      assert forall cpu: nat :: LoadOn(qs, us, cpu, 0) == LoadOn(qs, xs, cpu, 0) == 0.0;
      hide LoadOn;
      for cpu := 1 to coreUtilization.Length
        invariant forall c :: 1 <= c < cpu ==> coreUtilization[c] == predictedUtilization[c] == 0.0
      {
        predictedUtilization[cpu] := 0.0;
        coreUtilization[cpu] := 0.0;
      }
      for k := 0 to |threads|
        invariant forall cpu :: 1 <= cpu < coreUtilization.Length ==>
          coreUtilization[cpu] == LoadOn(qs, us, cpu, k) && predictedUtilization[cpu] == LoadOn(qs, xs, cpu, k)
      {
        LoadOnNext(qs, us, k);
        LoadOnNext(qs, xs, k);
        var cpu := threads[k].queue;
        coreUtilization[cpu] := coreUtilization[cpu] + threads[k].utilization;
        predictedUtilization[cpu] := predictedUtilization[cpu] + threads[k].prediction;
      }
    }

    /** Every core keeps the margin free. */
    ghost predicate Slack(xs: seq<real>)
      requires |xs| == |threads|
      reads threads
    {
      forall cpu :: 1 <= cpu < activityCpu.Length ==> LoadOn(Queues(), xs, cpu, |threads|) < 1.0 - MARGIN
    }

    /** predict: one core short of the margin now sends all to the highest frequency; otherwise the frequency goes
        down a level exactly when every core votes that it would keep the margin there. */
    method Predict()
      requires Formed()
      modifies coreUtilization, predictedUtilization, `level, `decreased, `onCooldown, `balanced
      ensures !Slack(Utilizations()) ==> level == MAX_LEVEL && onCooldown && !balanced && !decreased
      ensures Slack(Utilizations()) && Slack(Predictions()) ==>
        && level == (if old(level) > 0 then old(level) - 1 else 0) && (decreased <==> old(level) > 0)
        && (balanced <==> old(balanced) || level == 0) && (onCooldown <==> old(onCooldown) || decreased)
      ensures Slack(Utilizations()) && !Slack(Predictions()) ==>
        level == old(level) && !decreased && balanced == old(balanced) && onCooldown == old(onCooldown)
      ensures forall cpu :: 1 <= cpu < activityCpu.Length ==>
        && (LoadOn(Queues(), Utilizations(), cpu, |threads|) >= 0.95 ==> level == MAX_LEVEL && onCooldown && !balanced)
        && (LoadOn(Queues(), Predictions(), cpu, |threads|) >= 0.95 ==>
              !decreased && (level == old(level) || level == MAX_LEVEL))
    {
      hide LoadOn;
      SumUp();
      decreased := false;
      for cpu := 1 to coreUtilization.Length
        invariant level == old(level) && onCooldown == old(onCooldown) && balanced == old(balanced)
        invariant forall c :: 1 <= c < cpu ==> coreUtilization[c] < 1.0 - MARGIN
      {
        if coreUtilization[cpu] < 1.0 - MARGIN {
          continue;
        }
        level := MAX_LEVEL;
        onCooldown := true;
        balanced := false;
        return;
      }
      var result := true;
      for cpu := 1 to predictedUtilization.Length
        invariant result && forall c :: 1 <= c < cpu ==> predictedUtilization[c] < 1.0 - MARGIN
      {
        result := predictedUtilization[cpu] < 1.0 - MARGIN;
        if !result {
          break;
        }
      }
      if result {
        if level > 0 {
          level := level - 1;
          decreased := true;
          onCooldown := true;
        }
        if level == 0 {
          balanced := true;
        }
      }
    }

    /** handle_deadline_misses, where a miss was seen. */
    method DeadlineMissed()
      requires Valid()
      modifies `level, `onCooldown, `balanced, `revoke
      ensures level == MAX_LEVEL && onCooldown && !balanced && revoke
      ensures Valid() && books == old(books)
    {
      hide Formed, Locked, BalanceMachine.Inv;
      level := MAX_LEVEL;
      onCooldown := true;
      balanced := false;
      revoke := true;
    }

    /** Every core votes for the next lower frequency, none is short of the margin, and there is a lower one. */
    ghost predicate GoesDown()
      reads this, threads
    {
      Slack(Utilizations()) && Slack(Predictions()) && level > 0
    }

    /** The end of a hyperperiod: predict and, unless the frequency went down, balance; or cool down. */
    method Hyperperiod() returns (ghost e: Event)
      requires Valid()
      modifies this, activityCpu, coreUtilization, predictedUtilization
      modifies threads`target, set c | c in threads :: c.locked
      ensures Valid() && Allowed(old(books), e) && books == After(old(books), e)
      ensures old(onCooldown) ==>
        && e == Idle && (!onCooldown <==> old(initialCooldown) == 0)
        && initialCooldown == (if old(initialCooldown) > 0 then old(initialCooldown) - 1 else 0)
        && Cooling(onCooldown, initialCooldown) == Cooled(Cooling(true, old(initialCooldown)))
        && level == old(level) && preLevel == old(preLevel) && balanced == old(balanced) && revoke == old(revoke)
        && decreased == old(decreased) && Targets() == old(Targets())
      ensures !old(onCooldown) ==> initialCooldown == old(initialCooldown) && decreased == old(GoesDown())
      ensures !old(onCooldown) && old(GoesDown()) ==>
        && e == Idle && level == old(level) - 1 && onCooldown && (balanced <==> old(balanced) || level == 0)
        && preLevel == old(preLevel) && revoke == old(revoke) && Targets() == old(Targets())
      ensures !old(onCooldown) && !old(GoesDown()) ==>
        var slack := old(Slack(Utilizations()));
        var level0 := if slack then old(level) else MAX_LEVEL;
        var balanced0 := slack && (old(balanced) || old(Slack(Predictions())));
        && (e.Revoking? <==> old(revoke) || level0 > old(preLevel))
        && (e.Balancing? <==> !e.Revoking? && !balanced0)
        && (e.Balancing? ==>
              && e.p.loads == activityCpu[..] && e.p.threads == old(Snapshot()) && Settled(e.p, e.single, e.swap))
        && Outcome(e, level0, old(preLevel), balanced0, !slack, old(books.last), old(Targets()), Targets())
        && revoke == (old(revoke) && !e.Revoking?)
    {
      hide Formed, Locked, BalanceMachine.Inv, Slack, Told, Committed, Settled, LoadBalancer.Outcome;
      e := Idle;
      if !onCooldown {
        Predict();
        if !decreased {
          e := BalanceLoad();
        }
      } else if initialCooldown > 0 {
        initialCooldown := initialCooldown - 1;
      } else {
        onCooldown := false;
      }
    }
  }

  /** No thread changes places with itself or with one in front of it. */
  lemma {:induction false} SkipTo(p: Problem, a: nat, b: nat, c: Choice)
    requires Fit(p) && BestUpTo(p, true, a, 0, c) && b <= a + 1
    ensures BestUpTo(p, true, a, b, c)
  {
    hide BestUpTo;
    if b > 0 {
      SkipTo(p, a, b - 1, c);
      Skip(p, true, a, b - 1, c);
    }
  }
}
