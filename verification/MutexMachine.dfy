/** The mutex back end of include/atomic/rwlock.h: bodies of several plain accesses, which are
    atomic only because their callers take a lock around them.  One step is one plain access. */
module MutexMachine {
  import opened Words
  import opened AtomicSpec
  import opened Labels

  /** The next access of a thread inside a body. */
  datatype Pc =
    | Start(op: Op)
    | AddRead(what: Uint32, sav: Uint32)                  // about to read in  *a+= v
    | AddWrite(what: Uint32, sav: Uint32, cur: Uint32)    // about to write in *a+= v
    | FasWrite(what: Uint32, sav: Uint32)
    | CasWrite(old_: Uint32, new_: Uint32)                // the comparison held
    | CasReread(old_: Uint32, new_: Uint32)               // it did not: about to copy *a to *cmp
    | Done(op: Op, reply: Reply)

  datatype Machine = Machine(cell: Uint32, owner: Option<Thread>, pcs: map<Thread, Pc>)

  function ThreadStep(cell: Uint32, pc: Pc): Option<(Uint32, Pc)> {
    match pc
    case Start(op) =>
      (match op
       case Add(v) => Some((cell, AddRead(v, cell)))
       case Fas(v) => Some((cell, FasWrite(v, cell)))
       case Cas(o, n) => Some((cell, if cell == o then CasWrite(o, n) else CasReread(o, n)))
       case Load => Some((cell, Done(op, Value(cell))))
       case Store(v) => Some((v, Done(op, Nothing))))
    case AddRead(v, sav) => Some((cell, AddWrite(v, sav, cell)))
    case AddWrite(v, sav, cur) => Some((Add32(cur, v), Done(Add(v), Value(sav))))
    case FasWrite(v, sav) => Some((v, Done(Fas(v), Value(sav))))
    case CasWrite(o, n) => Some((n, Done(Cas(o, n), Verdict(true, o))))
    case CasReread(o, n) => Some((cell, Done(Cas(o, n), Verdict(false, cell))))
    case Done(_, _) => None
  }

  /** With `locked`, callers follow the header's rule that calls are made under the lock, be it one
      lock for each call or one for a whole block of calls. */
  function Advance(locked: bool, s: Machine, l: Label): Option<Machine> {
    match l
    case Acquire(t) =>
      if s.owner == None && t !in s.pcs then Some(s.(owner := Some(t))) else None
    case Release(t) =>
      if s.owner == Some(t) && t !in s.pcs then Some(s.(owner := None)) else None
    case Invoke(t, op) =>
      if t !in s.pcs && (locked ==> s.owner == Some(t)) then Some(s.(pcs := s.pcs[t := Start(op)])) else None
    case Run(t) =>
      if t !in s.pcs then None
      else
        (match ThreadStep(s.cell, s.pcs[t])
         case None => None
         case Some((x, pc)) => Some(s.(cell := x, pcs := s.pcs[t := pc])))
    case Yield(t, r) =>
      if t in s.pcs && s.pcs[t].Done? && s.pcs[t].reply == r then Some(s.(pcs := s.pcs - {t})) else None
  }

  function Reached(locked: bool, x0: Uint32, run: seq<Label>): Option<Machine> {
    if run == [] then Some(Machine(x0, None, map[]))
    else
      match Reached(locked, x0, run[..|run| - 1])
      case None => None
      case Some(s) => Advance(locked, s, run[|run| - 1])
  }

  predicate IsRun(locked: bool, x0: Uint32, run: seq<Label>) {
    Reached(locked, x0, run).Some?
  }

  function AbsPc(pc: Pc): Phase {
    match pc
    case Start(op) => Pending(op)
    case AddRead(v, _) => Pending(Add(v))
    case AddWrite(v, _, _) => Pending(Add(v))
    case FasWrite(v, _) => Pending(Fas(v))
    case CasWrite(o, n) => Pending(Cas(o, n))
    case CasReread(o, n) => Pending(Cas(o, n))
    case Done(op, r) => Committed(op, r)
  }

  function Abs(s: Machine): State {
    State(s.cell, map t | t in s.pcs :: AbsPc(s.pcs[t]))
  }

  /** The last access of a body is the one at which the call takes effect. */
  predicate CommitStep(s: Machine, l: Label) {
    l.Run? && l.thread in s.pcs &&
    match s.pcs[l.thread]
    case Start(op) => op.Load? || op.Store?
    case AddRead(_, _) => false
    case _ => true
  }

  function SpecRun(x0: Uint32, run: seq<Label>): seq<Event>
    requires IsRun(true, x0, run)
  {
    if run == [] then []
    else
      SpecRun(x0, run[..|run| - 1]) +
      Events(run[|run| - 1], CommitStep(Reached(true, x0, run[..|run| - 1]).value, run[|run| - 1]))
  }

  /** What a thread has read is still what the word holds. */
  ghost predicate Fresh(cell: Uint32, pc: Pc) {
    match pc
    case AddRead(_, sav) => sav == cell
    case AddWrite(_, sav, cur) => sav == cur == cell
    case FasWrite(_, sav) => sav == cell
    case CasWrite(o, _) => o == cell
    case CasReread(o, _) => o != cell
    case _ => true
  }

  ghost predicate Inv(s: Machine) {
    && (forall t :: t in s.pcs ==> s.owner == Some(t))
    && (forall t :: t in s.pcs ==> Fresh(s.cell, s.pcs[t]))
  }

  lemma StepRefines(s: Machine, l: Label)
    requires Inv(s) && Advance(true, s, l).Some?
    ensures Inv(Advance(true, s, l).value)
    ensures var s', es := Advance(true, s, l).value, Events(l, CommitStep(s, l));
      if es == [] then Abs(s') == Abs(s) else Step(Abs(s), es[0]) == Some(Abs(s'))
  {
    var s' := Advance(true, s, l).value;
    var t := l.thread;
    match l
    case Acquire(_) =>
    case Release(_) =>
    case Invoke(_, op) =>
      assert Abs(s').phase == Abs(s).phase[t := Pending(op)];
    case Run(_) =>
      assert Abs(s').phase == Abs(s).phase[t := AbsPc(s'.pcs[t])];
      if !CommitStep(s, l) {
        assert Abs(s').phase == Abs(s).phase;
      }
    case Yield(_, _) =>
      assert Abs(s').phase == Abs(s).phase - {t};
  }

  /** Under the lock, the multi-step bodies refine the same atomic object as the swap loops do. */
  lemma {:induction false} MachineRefinesSpec(x0: Uint32, run: seq<Label>)
    requires IsRun(true, x0, run)
    ensures Inv(Reached(true, x0, run).value)
    ensures Exec(x0, SpecRun(x0, run)) == Some(Abs(Reached(true, x0, run).value))
    ensures History(SpecRun(x0, run)) == Visible(run)
  {
    if run == [] {
      assert Abs(Machine(x0, None, map[])).phase == map[];
    } else {
      var n := |run| - 1;
      MachineRefinesSpec(x0, run[..n]);
      var s := Reached(true, x0, run[..n]).value;
      StepRefines(s, run[n]);
      AppendEvents(x0, SpecRun(x0, run[..n]), run[n], CommitStep(s, run[n]));
    }
  }

  lemma LockedBodiesAreLinearizable(x0: Uint32, run: seq<Label>)
    requires IsRun(true, x0, run)
    ensures Linearizable(x0, Visible(run), Reached(true, x0, run).value.cell)
  {
    MachineRefinesSpec(x0, run);
  }

  lemma LockedAddsLoseNothing(x0: Uint32, run: seq<Label>)
    requires IsRun(true, x0, run) && OnlyAddsAndLoads(Visible(run)) && InCall(Visible(run)) == {}
    ensures Reached(true, x0, run).value.cell == Total(x0, Visible(run))
  {
    MachineRefinesSpec(x0, run);
    RunAtRest(x0, SpecRun(x0, run), Visible(run), Reached(true, x0, run).value.cell);
  }

  /** Mutual exclusion in every run: only the thread that holds the lock is inside a body. */
  lemma MutualExclusion(x0: Uint32, run: seq<Label>, t: Thread, u: Thread)
    requires IsRun(true, x0, run)
    requires var s := Reached(true, x0, run).value; t in s.pcs && u in s.pcs
    ensures t == u && Reached(true, x0, run).value.owner == Some(t)
  {
    MachineRefinesSpec(x0, run);
  }

  /** A block of calls under one lock is atomic as a whole: until its owner releases the lock,
      nobody else takes any step. */
  lemma {:induction false} BlockIsAtomic(x0: Uint32, run: seq<Label>, i: nat, t: Thread)
    requires IsRun(true, x0, run) && i < |run| && run[i] == Acquire(t)
    requires forall m :: i < m < |run| ==> run[m] != Release(t)
    ensures Reached(true, x0, run).value.owner == Some(t)
    ensures forall m :: i < m < |run| ==> run[m].thread == t
  {
    var n := |run| - 1;
    if i < n {
      BlockIsAtomic(x0, run[..n], i, t);
      MachineRefinesSpec(x0, run[..n]);
      OnlyOwnerMoves(Reached(true, x0, run[..n]).value, run[n], t);
    }
  }

  lemma OnlyOwnerMoves(s: Machine, l: Label, t: Thread)
    requires Inv(s) && s.owner == Some(t) && Advance(true, s, l).Some? && l != Release(t)
    ensures l.thread == t && Advance(true, s, l).value.owner == Some(t)
  {
  }

  // ----- the lock is needed

  /** A run of threads 0 and 1 without a lock: the word, where each thread is, what was shown. */
  datatype View = View(cell: Uint32, a: Option<Pc>, b: Option<Pc>, shown: seq<Event>) {
    function At(t: Thread): Option<Pc> {
      if t == 0 then a else b
    }

    function Move(t: Thread, p: Option<Pc>): View {
      if t == 0 then this.(a := p) else this.(b := p)
    }
  }

  function Lookup(s: Machine, t: Thread): Option<Pc> {
    if t in s.pcs then Some(s.pcs[t]) else None
  }

  ghost predicate Looks(run: seq<Label>, v: View) {
    && IsRun(false, 0, run) && Visible(run) == v.shown
    && var s := Reached(false, 0, run).value;
       s.cell == v.cell && Lookup(s, 0) == v.a && Lookup(s, 1) == v.b
  }

  function Next(v: View, l: Label): Option<View> {
    match l
    case Invoke(t, op) =>
      if v.At(t) == None then Some(v.Move(t, Some(Start(op))).(shown := v.shown + [Call(t, op)])) else None
    case Yield(t, r) =>
      if v.At(t).Some? && v.At(t).value.Done? && v.At(t).value.reply == r
      then Some(v.Move(t, None).(shown := v.shown + [Return(t, r)])) else None
    case Run(t) =>
      if v.At(t) == None then None
      else
        (match ThreadStep(v.cell, v.At(t).value)
         case None => None
         case Some((x, pc)) => Some(v.Move(t, Some(pc)).(cell := x)))
    case _ => None
  }

  lemma Extend(run: seq<Label>, v: View, l: Label) returns (longer: seq<Label>)
    requires Looks(run, v) && l.thread < 2 && Next(v, l).Some?
    ensures longer == run + [l] && Looks(longer, Next(v, l).value)
  {
    longer := run + [l];
    assert longer[..|run|] == run;
  }

  const BOTH_CALLED := [Call(0, ONE_MORE), Call(1, ONE_MORE)]
  const BOTH_RETURNED := BOTH_CALLED + [Return(0, Value(0)), Return(1, Value(0))]

  lemma BothStart() returns (run: seq<Label>)
    ensures Looks(run, View(0, Some(AddRead(1, 0)), Some(Start(ONE_MORE)), BOTH_CALLED))
  {
    var none: seq<Event> := [];
    assert none + [Call(0, ONE_MORE)] == [Call(0, ONE_MORE)];
    assert [Call(0, ONE_MORE)] + [Call(1, ONE_MORE)] == BOTH_CALLED;
    run := Extend([], View(0, None, None, none), Invoke(0, ONE_MORE));
    run := Extend(run, View(0, Some(Start(ONE_MORE)), None, [Call(0, ONE_MORE)]), Invoke(1, ONE_MORE));
    run := Extend(run, View(0, Some(Start(ONE_MORE)), Some(Start(ONE_MORE)), BOTH_CALLED), Run(0));
  }

  lemma BothRead() returns (run: seq<Label>)
    ensures Looks(run, View(0, Some(AddWrite(1, 0, 0)), Some(AddWrite(1, 0, 0)), BOTH_CALLED))
  {
    run := BothStart();
    run := Extend(run, View(0, Some(AddRead(1, 0)), Some(Start(ONE_MORE)), BOTH_CALLED), Run(1));
    run := Extend(run, View(0, Some(AddRead(1, 0)), Some(AddRead(1, 0)), BOTH_CALLED), Run(0));
    run := Extend(run, View(0, Some(AddWrite(1, 0, 0)), Some(AddRead(1, 0)), BOTH_CALLED), Run(1));
  }

  lemma BothWrite() returns (run: seq<Label>)
    ensures Looks(run, View(1, None, None, BOTH_RETURNED))
  {
    var done := Some(Done(ONE_MORE, Value(0)));
    run := BothRead();
    run := Extend(run, View(0, Some(AddWrite(1, 0, 0)), Some(AddWrite(1, 0, 0)), BOTH_CALLED), Run(0));
    run := Extend(run, View(1, done, Some(AddWrite(1, 0, 0)), BOTH_CALLED), Run(1));
    run := Extend(run, View(1, done, done, BOTH_CALLED), Yield(0, Value(0)));
    run := Extend(run, View(1, None, done, BOTH_CALLED + [Return(0, Value(0))]), Yield(1, Value(0)));
    assert BOTH_CALLED + [Return(0, Value(0))] + [Return(1, Value(0))] == BOTH_RETURNED;
  }

  lemma TwoAddsAndNothingElse()
    ensures OnlyAddsAndLoads(BOTH_RETURNED) && InCall(BOTH_RETURNED) == {} && Requested(BOTH_RETURNED) == 2
  {
    var h := BOTH_RETURNED;
    assert h[..3][..2][..1][..0] == [];
    assert h[..3] == BOTH_CALLED + [Return(0, Value(0))] && h[..3][..2] == BOTH_CALLED;
    assert h[..3][..2][..1] == [Call(0, ONE_MORE)];
    assert InCall(h[..3][..2][..1]) == {0} && Requested(h[..3][..2][..1]) == 1;
    assert InCall(h[..3][..2]) == {0, 1} && Requested(h[..3][..2]) == 2;
  }

  /** Two unlocked additions of 1 that interleave lose one of them, and what the callers saw
      cannot be explained by any atomic behaviour. */
  lemma UnlockedAddsLoseAnUpdate() returns (run: seq<Label>)
    ensures IsRun(false, 0, run) && Reached(false, 0, run).value.cell == 1
    ensures InCall(Visible(run)) == {} && Requested(Visible(run)) == 2
    ensures !Linearizable(0, Visible(run), 1)
  {
    run := BothWrite();
    TwoAddsAndNothingElse();
    if Linearizable(0, Visible(run), 1) {
      NoUpdateLost(0, Visible(run), 1);
    }
  }
}
