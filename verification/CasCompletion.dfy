/** Calls on the derived atomics can always be finished: a thread left alone returns within a fixed
    number of steps, and a call that nobody interrupts does what the header says it does. */
module CasCompletion {
  import opened Words
  import opened AtomicSpec
  import opened Labels
  import opened CasMachine

  /** How many steps a thread at `pc` needs to return if nobody else moves. */
  function StepsLeft(b: BackEnd, cell: Uint32, pc: Pc): nat {
    match pc
    case Entry(op) => if Primitive(b, op) then 1 else 3
    case Loop(op, tmp) => if !Retries(op) || tmp == cell then 2 else 4
    case Compared(op, tmp, sav) => if !Retries(op) || sav == tmp then 1 else if sav == cell then 3 else 5
    case Exit(_, _) => 0
  }

  lemma ReachedNext(b: BackEnd, x0: Uint32, run: seq<Label>, l: Label)
    ensures Reached(b, x0, run + [l]) == match Reached(b, x0, run)
                                         case None => None
                                         case Some(s) => Advance(b, s, l)
  {
    assert (run + [l])[..|run|] == run;
  }

  lemma {:induction false} RunsToExit(b: BackEnd, x0: Uint32, run: seq<Label>, t: Thread)
    returns (longer: seq<Label>, x: Uint32, pc: Pc)
    requires IsRun(b, x0, run) && t in Reached(b, x0, run).value.pcs
    ensures var s := Reached(b, x0, run).value;
      && longer == run + Steps(t, StepsLeft(b, s.cell, s.pcs[t]))
      && Reached(b, x0, longer) == Some(Machine(x, s.pcs[t := pc])) && pc.Exit?
    decreases var s := Reached(b, x0, run).value; StepsLeft(b, s.cell, s.pcs[t])
  {
    var s := Reached(b, x0, run).value;
    if s.pcs[t].Exit? {
      longer, x, pc := run, s.cell, s.pcs[t];
      assert s.pcs[t := pc] == s.pcs;
    } else {
      var n := StepsLeft(b, s.cell, s.pcs[t]);
      ReachedNext(b, x0, run, Run(t));
      longer, x, pc := RunsToExit(b, x0, run + [Run(t)], t);
      assert Reached(b, x0, run + [Run(t)]).value.pcs[t := pc] == s.pcs[t := pc];
      assert [Run(t)] + Steps(t, n - 1) == Steps(t, n);
      assert longer == run + ([Run(t)] + Steps(t, n - 1));
    }
  }

  /** From any reachable state, a thread inside a call that runs alone returns after at most five
      steps, whatever the others did to the word before. */
  lemma FinishesAlone(b: BackEnd, x0: Uint32, run: seq<Label>, t: Thread)
    returns (n: nat, r: Reply)
    requires IsRun(b, x0, run) && t in Reached(b, x0, run).value.pcs
    ensures n <= 5 && IsRun(b, x0, run + Steps(t, n) + [Yield(t, r)])
    ensures Reached(b, x0, run + Steps(t, n) + [Yield(t, r)]).value.pcs == Reached(b, x0, run).value.pcs - {t}
  {
    var s := Reached(b, x0, run).value;
    n := StepsLeft(b, s.cell, s.pcs[t]);
    var longer, x, pc := RunsToExit(b, x0, run, t);
    r := pc.reply;
    ReachedNext(b, x0, longer, Yield(t, r));
  }

  /** A whole call by a thread that nobody interrupts takes one step where the operation is a primitive
      and three where it is derived, and has exactly the effect and the reply of the header's contract. */
  lemma WholeCall(b: BackEnd, x0: Uint32, run: seq<Label>, t: Thread, op: Op)
    returns (n: nat, r: Reply)
    requires IsRun(b, x0, run) && t !in Reached(b, x0, run).value.pcs
    ensures n == if Primitive(b, op) then 1 else 3
    ensures var longer := run + [Invoke(t, op)] + Steps(t, n) + [Yield(t, r)];
      && IsRun(b, x0, longer)
      && var s, s' := Reached(b, x0, run).value, Reached(b, x0, longer).value;
         && s'.pcs == s.pcs
         && (op.Add? ==> r == Value(s.cell) && s'.cell == (s.cell + op.what) % TWO_32)
         && (op.Fas? ==> r == Value(s.cell) && s'.cell == op.what)
         && (op.Cas? && s.cell == op.old_ ==> r == Verdict(true, s.cell) && s'.cell == op.new_)
         && (op.Cas? && s.cell != op.old_ ==> r == Verdict(false, s.cell) && s'.cell == s.cell)
         && (op.Load? ==> r == Value(s.cell) && s'.cell == s.cell)
         && (op.Store? ==> r == Nothing && s'.cell == op.what)
  {
    var s, called := Reached(b, x0, run).value, run + [Invoke(t, op)];
    n := StepsLeft(b, s.cell, Entry(op));
    ReachedNext(b, x0, run, Invoke(t, op));
    var longer, x, pc := RunsToExit(b, x0, called, t);
    EffectAlone(b, x0, called, t, op, s.cell, n);
    r := pc.reply;
    ReachedNext(b, x0, longer, Yield(t, r));
    assert s.pcs[t := Entry(op)][t := pc] - {t} == s.pcs;
  }

  lemma EffectAlone(b: BackEnd, x0: Uint32, run: seq<Label>, t: Thread, op: Op, x: Uint32, n: nat)
    requires IsRun(b, x0, run)
    requires var s := Reached(b, x0, run).value; t in s.pcs && s.pcs[t] == Entry(op) && s.cell == x
    requires n == StepsLeft(b, x, Entry(op))
    ensures IsRun(b, x0, run + Steps(t, n))
    ensures var s' := Reached(b, x0, run + Steps(t, n)).value;
      && t in s'.pcs && s'.pcs[t] == Exit(op, Apply(op, x).1) && s'.cell == Apply(op, x).0
  {
    ReachedNext(b, x0, run, Run(t));
    if n == 1 {
      assert Steps(t, n) == [Run(t)];
    } else {
      ReachedNext(b, x0, run + [Run(t)], Run(t));
      ReachedNext(b, x0, run + [Run(t)] + [Run(t)], Run(t));
      assert run + Steps(t, n) == run + [Run(t)] + [Run(t)] + [Run(t)];
    }
  }
}
