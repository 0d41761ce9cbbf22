/** The lock of the mutex back end is handed over, and calls made under it can be finished. */
module MutexCompletion {
  import opened Words
  import opened AtomicSpec
  import opened Labels
  import opened MutexMachine

  /** How many steps a thread at `pc` needs to finish its body. */
  function StepsLeft(pc: Pc): nat {
    match pc
    case Start(op) => if op.Add? then 3 else if op.Fas? || op.Cas? then 2 else 1
    case AddRead(_, _) => 2
    case Done(_, _) => 0
    case _ => 1
  }

  lemma ReachedNext(x0: Uint32, run: seq<Label>, l: Label)
    ensures Reached(true, x0, run + [l]) == match Reached(true, x0, run)
                                            case None => None
                                            case Some(s) => Advance(true, s, l)
  {
    assert (run + [l])[..|run|] == run;
  }

  /** What a thread at `pc` leaves in the word and replies when it finishes. */
  function Outcome(cell: Uint32, pc: Pc): (Uint32, Pc)
    decreases StepsLeft(pc)
  {
    match ThreadStep(cell, pc)
    case None => (cell, pc)
    case Some((x, next)) => Outcome(x, next)
  }

  lemma {:induction false} RunsToDone(x0: Uint32, run: seq<Label>, t: Thread) returns (longer: seq<Label>)
    requires IsRun(true, x0, run) && t in Reached(true, x0, run).value.pcs
    ensures var s := Reached(true, x0, run).value; var (x, pc) := Outcome(s.cell, s.pcs[t]);
      && longer == run + Steps(t, StepsLeft(s.pcs[t]))
      && Reached(true, x0, longer) == Some(s.(cell := x, pcs := s.pcs[t := pc])) && pc.Done?
    decreases StepsLeft(Reached(true, x0, run).value.pcs[t])
  {
    var s := Reached(true, x0, run).value;
    var n := StepsLeft(s.pcs[t]);
    if s.pcs[t].Done? {
      longer := run;
      assert s.pcs[t := s.pcs[t]] == s.pcs;
    } else {
      ReachedNext(x0, run, Run(t));
      var next := Reached(true, x0, run + [Run(t)]).value;
      longer := RunsToDone(x0, run + [Run(t)], t);
      var (x, pc) := Outcome(s.cell, s.pcs[t]);
      assert Outcome(next.cell, next.pcs[t]) == (x, pc);
      assert next.pcs[t := pc] == s.pcs[t := pc];
      assert [Run(t)] + Steps(t, n - 1) == Steps(t, n);
      assert longer == run + ([Run(t)] + Steps(t, n - 1));
    }
  }

  /** In every reachable state, an owner outside a call can release the lock, and then any thread can
      take it. */
  lemma LockIsHandedOver(x0: Uint32, run: seq<Label>, t: Thread, u: Thread)
    requires IsRun(true, x0, run)
    requires var s := Reached(true, x0, run).value; s.owner == Some(t) && t !in s.pcs
    ensures Reached(true, x0, run + [Release(t)]) == Some(Reached(true, x0, run).value.(owner := None))
    ensures Reached(true, x0, run + [Release(t), Acquire(u)]) == Some(Reached(true, x0, run).value.(owner := Some(u)))
  {
    MachineRefinesSpec(x0, run);
    var s := Reached(true, x0, run).value;
    assert u !in s.pcs;
    ReachedNext(x0, run, Release(t));
    ReachedNext(x0, run + [Release(t)], Acquire(u));
    assert run + [Release(t), Acquire(u)] == run + [Release(t)] + [Acquire(u)];
  }

  /** No deadlock: in every reachable state in which a thread is inside a call, that thread alone can
      finish within three steps, return and release the lock. */
  lemma LockCanBeFreed(x0: Uint32, run: seq<Label>, t: Thread) returns (n: nat, r: Reply)
    requires IsRun(true, x0, run) && t in Reached(true, x0, run).value.pcs
    ensures n <= 3
    ensures var longer := run + Steps(t, n) + [Yield(t, r)] + [Release(t)];
      && IsRun(true, x0, longer)
      && Reached(true, x0, longer).value.owner == None && Reached(true, x0, longer).value.pcs == map[]
  {
    MachineRefinesSpec(x0, run);
    var s := Reached(true, x0, run).value;
    n := StepsLeft(s.pcs[t]);
    var longer := RunsToDone(x0, run, t);
    r := Outcome(s.cell, s.pcs[t]).1.reply;
    ReachedNext(x0, longer, Yield(t, r));
    ReachedNext(x0, longer + [Yield(t, r)], Release(t));
    assert Reached(true, x0, longer + [Yield(t, r)]).value.pcs == map[];
  }

  /** Whenever the lock is free, every thread can take it, make any call, finish it and give the lock
      back, and the call has exactly the effect and the reply of the header's contract. */
  lemma WholeLockedCall(x0: Uint32, run: seq<Label>, t: Thread, op: Op) returns (n: nat, r: Reply)
    requires IsRun(true, x0, run) && Reached(true, x0, run).value.owner == None
    ensures n == if op.Add? then 3 else if op.Fas? || op.Cas? then 2 else 1
    ensures var longer := run + [Acquire(t)] + [Invoke(t, op)] + Steps(t, n) + [Yield(t, r)] + [Release(t)];
      && IsRun(true, x0, longer)
      && var x, s' := Reached(true, x0, run).value.cell, Reached(true, x0, longer).value;
         && s'.owner == None && s'.pcs == map[]
         && (op.Add? ==> r == Value(x) && s'.cell == (x + op.what) % TWO_32)
         && (op.Fas? ==> r == Value(x) && s'.cell == op.what)
         && (op.Cas? && x == op.old_ ==> r == Verdict(true, x) && s'.cell == op.new_)
         && (op.Cas? && x != op.old_ ==> r == Verdict(false, x) && s'.cell == x)
         && (op.Load? ==> r == Value(x) && s'.cell == x)
         && (op.Store? ==> r == Nothing && s'.cell == op.what)
  {
    MachineRefinesSpec(x0, run);
    var s := Reached(true, x0, run).value;
    assert s.pcs == map[];
    ReachedNext(x0, run, Acquire(t));
    ReachedNext(x0, run + [Acquire(t)], Invoke(t, op));
    var called := run + [Acquire(t)] + [Invoke(t, op)];
    var longer := RunsToDone(x0, called, t);
    var (x, pc) := Outcome(s.cell, Start(op));
    n, r := StepsLeft(Start(op)), pc.reply;
    OutcomeOfStart(s.cell, op);
    ReachedNext(x0, longer, Yield(t, r));
    ReachedNext(x0, longer + [Yield(t, r)], Release(t));
  }

  lemma OutcomeOfStart(x: Uint32, op: Op)
    ensures Outcome(x, Start(op)) == (Apply(op, x).0, Done(op, Apply(op, x).1))
  {
    match op
    case Add(v) =>
      assert Outcome(x, AddWrite(v, x, x)) == (Add32(x, v), Done(op, Value(x)));
      assert Outcome(x, AddRead(v, x)) == Outcome(x, AddWrite(v, x, x));
    case Fas(v) =>
      assert Outcome(x, FasWrite(v, x)) == (v, Done(op, Value(x)));
    case Cas(o, n) =>
      assert Outcome(x, CasWrite(o, n)) == (n, Done(op, Verdict(true, o)));
      assert Outcome(x, CasReread(o, n)) == (x, Done(op, Verdict(false, x)));
    case _ =>
  }
}
