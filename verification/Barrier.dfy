/** include/architecture/cpu.h: smp_barrier over its shared counters. */
module Barriers {
  import opened BarrierMachine

  /** The static variables of the barrier, and where each core is in it. */
  class Barrier {
    const ready: array<int>
    var i: nat
    const cores: array<Core>

    ghost function State(): State
      reads this, ready, cores
    {
      BarrierMachine.State(ready[..], i, cores[..])
    }

    ghost predicate Valid()
      reads this, ready, cores
    {
      Inv(State())
    }

    constructor (n: nat)
      requires n > 1
      ensures Valid() && State() == Start(n) && fresh(ready) && fresh(cores)
    {
      ready := new int[2](_ => 0);
      i := 0;
      cores := new Core[n](_ => Core(Out, 0, 0));
      new;
      StartInv(n);
      assert State() == Start(n);
    }

    /** Core c takes one atomic step. */
    method Step(c: nat)
      requires Valid() && c < cores.Length
      modifies `i, ready, cores
      ensures Valid() && State() == Next(old(State()), c)
    {
      hide Inv;
      NextInv(State(), c);
      CanStep(State(), c);
      var me := cores[c];
      match me.pc
      case Out =>
        cores[c] := Core(Read, me.entered + 1, me.left);
      case Read =>
        cores[c] := me.(pc := Inc(i));
      case Inc(j) =>
        ready[j] := ready[j] + 1;
        cores[c] := me.(pc := Spin(j));
      case Spin(j) =>
        if c == 0 {
          if ready[j] >= cores.Length {
            cores[c] := me.(pc := Toggle(j));
          }
        } else if ready[j] == 0 {
          cores[c] := Core(Out, me.entered, me.left + 1);
        }
      case Toggle(j) =>
        i := if i == 0 then 1 else 0;
        cores[c] := me.(pc := Reset(j));
      case Reset(j) =>
        ready[j] := 0;
        cores[c] := Core(Out, me.entered, me.left + 1);
    }
  }
}
