/** include/architecture/cpu.h: smp_barrier as a state machine of atomic steps under sequential consistency. */
module BarrierMachine {

  /** Where a core is: outside, about to read i, about to increment ready[j], waiting on ready[j]; core 0 then
      toggles i and clears ready[j]. */
  datatype Pc = Out | Read | Inc(j: nat) | Spin(j: nat) | Toggle(j: nat) | Reset(j: nat)

  /** A core with the calls it has entered and left. */
  datatype Core = Core(pc: Pc, entered: nat, left: nat) {
    /** The increments this core has done. */
    function Arrivals(): nat {
      if pc.Spin? || pc.Toggle? || pc.Reset? then left + 1 else left
    }
  }

  datatype State = State(ready: seq<int>, i: nat, cores: seq<Core>)

  ghost predicate Shaped(s: State) {
    && |s.ready| == 2 && s.i < 2 && |s.cores| > 1
    && forall c :: 0 <= c < |s.cores| ==> ShapedPc(s.cores[c].pc)
  }

  ghost predicate ShapedPc(pc: Pc) {
    (pc.Inc? || pc.Spin? || pc.Toggle? || pc.Reset?) ==> pc.j < 2
  }

  /** The next atomic step of core c; a wait that is not over leaves everything as it is. */
  function Next(s: State, c: nat): State
    requires |s.ready| == 2 && c < |s.cores|
    requires (s.cores[c].pc.Inc? || s.cores[c].pc.Spin? || s.cores[c].pc.Reset?) ==> s.cores[c].pc.j < 2
  {
    var me := s.cores[c];
    match me.pc
    case Out => s.(cores := s.cores[c := Core(Read, me.entered + 1, me.left)])
    case Read => s.(cores := s.cores[c := me.(pc := Inc(s.i))])
    case Inc(j) => s.(ready := s.ready[j := s.ready[j] + 1], cores := s.cores[c := me.(pc := Spin(j))])
    case Spin(j) =>
      if c == 0 then
        if s.ready[j] < |s.cores| then s else s.(cores := s.cores[c := me.(pc := Toggle(j))])
      else
        if s.ready[j] != 0 then s else s.(cores := s.cores[c := Core(Out, me.entered, me.left + 1)])
    case Toggle(j) => s.(i := if s.i == 0 then 1 else 0, cores := s.cores[c := me.(pc := Reset(j))])
    case Reset(j) => s.(ready := s.ready[j := 0], cores := s.cores[c := Core(Out, me.entered, me.left + 1)])
  }

  function Start(n: nat): State {
    State([0, 0], 0, seq(n, _ => Core(Out, 0, 0)))
  }

  // ---------------------------------------------------------------------
  // Counting arrivals
  // ---------------------------------------------------------------------

  /** How many cores have done more than r increments. */
  ghost function Arrived(cores: seq<Core>, r: nat): (n: nat)
    ensures n <= |cores|
  {
    if cores == [] then 0 else (if cores[0].Arrivals() > r then 1 else 0) + Arrived(cores[1..], r)
  }

  lemma {:induction false} ArrivedUpdate(cores: seq<Core>, c: nat, me: Core, r: nat)
    requires c < |cores|
    ensures Arrived(cores[c := me], r)
         == Arrived(cores, r) + (if me.Arrivals() > r then 1 else 0) - (if cores[c].Arrivals() > r then 1 else 0)
  {
    var cs := cores[c := me];
    if c == 0 {
      assert cs[1..] == cores[1..];
    } else {
      assert cs[1..] == cores[1..][c - 1 := me];
      ArrivedUpdate(cores[1..], c - 1, me, r);
    }
  }

  lemma {:induction false} ArrivedAll(cores: seq<Core>, r: nat)
    ensures Arrived(cores, r) == |cores| <==> forall c :: 0 <= c < |cores| ==> cores[c].Arrivals() > r
    ensures Arrived(cores, r) == 0 <==> forall c :: 0 <= c < |cores| ==> cores[c].Arrivals() <= r
  {
    if cores != [] {
      ArrivedAll(cores[1..], r);
      assert forall c :: 0 < c < |cores| ==> cores[c] == cores[1..][c - 1];
      assert forall c :: 0 <= c < |cores| - 1 ==> cores[1..][c] == cores[c + 1];
    }
  }

  // ---------------------------------------------------------------------
  // The invariant, in terms of the rounds core 0 has completed
  // ---------------------------------------------------------------------

  /** The rounds completed: the resets core 0 has done. */
  ghost function Rounds(s: State): nat
    requires |s.cores| > 0
  {
    s.cores[0].left
  }

  /** Core c, when r rounds are complete. */
  ghost predicate CoreInv(me: Core, c: nat, r: nat) {
    && me.entered == me.left + (if me.pc.Out? then 0 else 1)
    && me.left <= r <= me.Arrivals() <= r + 1
    && (me.pc.Inc? || me.pc.Spin? || me.pc.Toggle? || me.pc.Reset? ==> me.pc.j == me.left % 2)
    && (c != 0 ==> !me.pc.Toggle? && !me.pc.Reset?)
  }

  ghost predicate Inv(s: State) {
    && Shaped(s)
    && (forall c :: 0 <= c < |s.cores| ==> CoreInv(s.cores[c], c, Rounds(s)))
    && s.i == (Rounds(s) + (if s.cores[0].pc.Reset? then 1 else 0)) % 2
    && s.ready[Rounds(s) % 2] == Arrived(s.cores, Rounds(s))
    && s.ready[(Rounds(s) + 1) % 2] == 0
    && (s.cores[0].pc.Toggle? || s.cores[0].pc.Reset? ==> Arrived(s.cores, Rounds(s)) == |s.cores|)
  }

  lemma StartInv(n: nat)
    requires n > 1
    ensures Inv(Start(n))
  {
    ArrivedAll(Start(n).cores, 0);
  }

  /** Where core c stands in the round: a core that is outside or about to arrive has left all rounds so far, and
      one that waits for a finished round reads a cleared counter. */
  lemma Standing(s: State, c: nat)
    requires Inv(s) && c < |s.cores|
    ensures var r, me := Rounds(s), s.cores[c];
      && CoreInv(me, c, r)
      && (me.pc.Out? || me.pc.Read? || me.pc.Inc? ==>
            me.left == r && s.i == r % 2 && Arrived(s.cores, r) < |s.cores|
            && !s.cores[0].pc.Toggle? && !s.cores[0].pc.Reset?)
      && (me.pc.Spin? && c != 0 ==> (s.ready[me.pc.j] == 0 <==> me.left < r))
      && (me.pc.Spin? && c == 0 ==> s.ready[me.pc.j] == Arrived(s.cores, r))
  {
    ArrivedAll(s.cores, Rounds(s));
  }

  lemma NextShaped(s: State, c: nat)
    requires Inv(s) && c < |s.cores|
    ensures Shaped(Next(s, c)) && |Next(s, c).cores| == |s.cores|
    ensures forall d :: 0 <= d < |s.cores| && d != c ==> Next(s, c).cores[d] == s.cores[d]
  {
  }

  /** Every step of every core keeps the invariant. */
  lemma NextInv(s: State, c: nat)
    requires Inv(s) && c < |s.cores|
    ensures Inv(Next(s, c)) && |Next(s, c).cores| == |s.cores|
  {
    if s.cores[c].pc.Reset? {
      RoundEnds(s);
    } else {
      RoundGoesOn(s, c);
    }
  }

  lemma RoundGoesOn(s: State, c: nat)
    requires Inv(s) && c < |s.cores| && !s.cores[c].pc.Reset?
    ensures Inv(Next(s, c)) && Rounds(Next(s, c)) == Rounds(s)
  {
    hide Arrived, Inv;
    InvFacts(s);
    var r, t := Rounds(s), Next(s, c);
    ArrivedAll(s.cores, r);
    Standing(s, c);
    NextShaped(s, c);
    ArrivedUpdate(s.cores, c, t.cores[c], r);
    assert Rounds(t) == r;
    assert CoreInv(t.cores[c], c, r);
    InvFrom(t, r);
  }

  lemma RoundEnds(s: State)
    requires Inv(s) && s.cores[0].pc.Reset?
    ensures Inv(Next(s, 0)) && Rounds(Next(s, 0)) == Rounds(s) + 1
  {
    hide Arrived, Inv;
    InvFacts(s);
    var r, t := Rounds(s), Next(s, 0);
    ArrivedAll(s.cores, r);
    Standing(s, 0);
    NextShaped(s, 0);
    ArrivedAll(t.cores, r + 1);
    InvFrom(t, r + 1);
  }

  lemma CanStep(s: State, c: nat)
    requires Inv(s) && c < |s.cores|
    ensures |s.ready| == 2
    ensures s.cores[c].pc.Inc? || s.cores[c].pc.Spin? || s.cores[c].pc.Toggle? || s.cores[c].pc.Reset? ==>
      s.cores[c].pc.j < 2
  {
    InvFacts(s);
  }

  lemma InvFacts(s: State)
    requires Inv(s)
    ensures Shaped(s) && |s.cores| > 1
    ensures forall c :: 0 <= c < |s.cores| ==> CoreInv(s.cores[c], c, Rounds(s))
    ensures s.i == (Rounds(s) + (if s.cores[0].pc.Reset? then 1 else 0)) % 2
    ensures s.ready[Rounds(s) % 2] == Arrived(s.cores, Rounds(s)) && s.ready[(Rounds(s) + 1) % 2] == 0
    ensures s.cores[0].pc.Toggle? || s.cores[0].pc.Reset? ==> Arrived(s.cores, Rounds(s)) == |s.cores|
  {
  }

  lemma InvFrom(s: State, r: nat)
    requires Shaped(s) && |s.cores| > 1 && Rounds(s) == r
    requires forall c :: 0 <= c < |s.cores| ==> CoreInv(s.cores[c], c, r)
    requires s.i == (r + (if s.cores[0].pc.Reset? then 1 else 0)) % 2
    requires s.ready[r % 2] == Arrived(s.cores, r) && s.ready[(r + 1) % 2] == 0
    requires s.cores[0].pc.Toggle? || s.cores[0].pc.Reset? ==> Arrived(s.cores, r) == |s.cores|
    ensures Inv(s)
  {
  }

  // ---------------------------------------------------------------------
  // Every run
  // ---------------------------------------------------------------------

  /** The cores take steps in the order given. */
  ghost function Run(s: State, steps: seq<nat>): (t: State)
    requires Inv(s) && forall k :: 0 <= k < |steps| ==> steps[k] < |s.cores|
    ensures Inv(t) && |t.cores| == |s.cores|
    decreases |steps|
  {
    if steps == [] then s else
      NextInv(s, steps[0]);
      Run(Next(s, steps[0]), steps[1..])
  }

  /** The cores start outside and take steps in the order given. */
  ghost function RunFrom(n: nat, steps: seq<nat>): (t: State)
    requires n > 1 && forall k :: 0 <= k < |steps| ==> steps[k] < n
    ensures Inv(t) && |t.cores| == n
  {
    StartInv(n);
    Run(Start(n), steps)
  }

  /** No core leaves its n-th call before every core has entered its n-th call, and no core is ever more than one
      round ahead of another. */
  lemma NobodyLeavesEarly(s: State, c: nat, d: nat)
    requires Inv(s) && c < |s.cores| && d < |s.cores|
    ensures s.cores[c].left <= s.cores[d].entered
    ensures s.cores[c].entered <= s.cores[d].entered + 1 && s.cores[c].left <= s.cores[d].left + 1
  {
    assert CoreInv(s.cores[c], c, Rounds(s)) && CoreInv(s.cores[d], d, Rounds(s));
  }

  lemma SafeInEveryRun(n: nat, steps: seq<nat>, c: nat, d: nat)
    requires n > 1 && c < n && d < n && forall k :: 0 <= k < |steps| ==> steps[k] < n
    ensures var s := RunFrom(n, steps);
      && s.cores[c].left <= s.cores[d].entered
      && s.cores[c].entered <= s.cores[d].entered + 1 && s.cores[c].left <= s.cores[d].left + 1
  {
    hide Inv;
    NobodyLeavesEarly(RunFrom(n, steps), c, d);
  }

  /** A core about to increment finds on its counter exactly the cores that arrived in its round before it: the
      first finds 0. */
  lemma CounterCountsRound(s: State, c: nat)
    requires Inv(s) && c < |s.cores| && s.cores[c].pc.Inc?
    ensures s.ready[s.cores[c].pc.j] == Arrived(s.cores, s.cores[c].left)
    ensures (forall d :: 0 <= d < |s.cores| ==> s.cores[d].Arrivals() <= s.cores[c].left) ==>
      s.ready[s.cores[c].pc.j] == 0
  {
    Standing(s, c);
    ArrivedAll(s.cores, Rounds(s));
  }

  /** Core c has a step to take now, rather than a wait. */
  ghost predicate Enabled(s: State, c: nat)
    requires Inv(s) && c < |s.cores|
  {
    Next(s, c) != s
  }

  /** With no core outside, some core has a step to take: nobody waits for ever on a caller. */
  lemma NoDeadlock(s: State)
    requires Inv(s) && forall c :: 0 <= c < |s.cores| ==> !s.cores[c].pc.Out?
    ensures exists c :: 0 <= c < |s.cores| && Enabled(s, c)
  {
    var r := Rounds(s);
    ArrivedAll(s.cores, r);
    if !s.cores[0].pc.Spin? {
      assert Enabled(s, 0);
    } else if c :| 0 <= c < |s.cores| && s.cores[c].Arrivals() <= r {
      Standing(s, c);
      Standing(s, 0);
      assert Enabled(s, c);
    } else {
      Standing(s, 0);
      assert Enabled(s, 0);
    }
  }

  // ---------------------------------------------------------------------
  // Rounds follow work
  // ---------------------------------------------------------------------

  function Phase(pc: Pc): nat {
    match pc
    case Out => 0
    case Read => 1
    case Inc(_) => 2
    case Spin(_) => 3
    case Toggle(_) => 4
    case Reset(_) => 5
  }

  /** The steps core c has taken: core 0 takes six a round, the others four. */
  ghost function WorkOf(me: Core, c: nat): nat {
    (if c == 0 then 6 else 4) * me.left + Phase(me.pc)
  }

  ghost function Work(cores: seq<Core>): nat {
    if cores == [] then 0 else Work(cores[..|cores| - 1]) + WorkOf(cores[|cores| - 1], |cores| - 1)
  }

  lemma {:induction false} WorkUpdate(cores: seq<Core>, c: nat, me: Core)
    requires c < |cores|
    ensures Work(cores[c := me]) == Work(cores) + WorkOf(me, c) - WorkOf(cores[c], c)
  {
    var n, cs := |cores| - 1, cores[c := me];
    if c == n {
      assert cs[..n] == cores[..n];
    } else {
      assert cs[..n] == cores[..n][c := me];
      WorkUpdate(cores[..n], c, me);
    }
  }

  /** A step that is not a wait is one unit of work. */
  lemma StepsWork(s: State, c: nat)
    requires Inv(s) && c < |s.cores|
    ensures Work(Next(s, c).cores) == Work(s.cores) + (if Enabled(s, c) then 1 else 0)
  {
    NextShaped(s, c);
    var t := Next(s, c);
    assert CoreInv(s.cores[c], c, Rounds(s));
    WorkUpdate(s.cores, c, t.cores[c]);
    assert t.cores == s.cores[c := t.cores[c]];
    assert Enabled(s, c) <==> t.cores[c] != s.cores[c];
  }

  lemma CoreWork(me: Core, c: nat, r: nat)
    requires CoreInv(me, c, r) && (c == 0 ==> me.left == r)
    ensures if c == 0 then 6 * r <= WorkOf(me, c) <= 6 * r + 5 else 4 * r - 1 <= WorkOf(me, c) <= 4 * r + 3
  {
  }

  /** The work of r rounds of n cores. */
  function RoundWork(n: nat, r: nat): nat {
    (4 * n + 2) * r
  }

  lemma OneCoreMore(n: nat, r: nat)
    ensures RoundWork(n + 1, r) == RoundWork(n, r) + 4 * r && RoundWork(1, r) == 6 * r
  {
  }

  lemma {:induction false} WorkBounds(cores: seq<Core>, r: nat)
    requires forall c :: 0 <= c < |cores| ==> CoreInv(cores[c], c, r)
    requires cores != [] && cores[0].left == r
    ensures RoundWork(|cores|, r) - (|cores| - 1) <= Work(cores) <= RoundWork(|cores|, r) + 3 * |cores| + 2
  {
    hide CoreInv, WorkOf, RoundWork;
    var n := |cores| - 1;
    CoreWork(cores[n], n, r);
    OneCoreMore(n, r);
    if n == 0 {
      assert Work(cores[..0]) == 0;
    } else {
      WorkBounds(cores[..n], r);
    }
  }

  /** Work and completed rounds determine each other up to a constant: as long as some core takes steps, rounds
      complete, one for every 4N + 2 steps. */
  lemma RoundsFollowWork(s: State)
    requires Inv(s)
    ensures var n, r := |s.cores|, Rounds(s);
      RoundWork(n, r) - (n - 1) <= Work(s.cores) <= RoundWork(n, r) + 3 * n + 2
  {
    WorkBounds(s.cores, Rounds(s));
  }
}
