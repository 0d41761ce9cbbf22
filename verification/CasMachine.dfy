/** The bodies that include/my_atomic.h derives from compare-and-swap, interleaved step by step
    over any number of threads.  One step is one access to the shared word or one local action. */
module CasMachine {
  import opened Words
  import opened AtomicSpec
  import opened Labels

  /** Which operations exist as one primitive, and which are derived: the generic derivation, the
      compiler's builtins (atomic/gcc_builtins.h) and Windows intrinsics (atomic/generic-msvc.h). */
  datatype BackEnd = CasOnly | GccBuiltins | MsvcIntrinsics

  predicate Primitive(b: BackEnd, op: Op) {
    match b
    case CasOnly => false
    case GccBuiltins => op.Add? || op.Load? || op.Store?
    case MsvcIntrinsics => op.Add? || op.Load?
  }

  /** Where a thread is inside a body; `tmp` is the local passed by address to compare-and-swap,
      `sav` what its primitive returned. */
  datatype Pc =
    | Entry(op: Op)
    | Loop(op: Op, tmp: Uint32)
    | Compared(op: Op, tmp: Uint32, sav: Uint32)
    | Exit(op: Op, reply: Reply)

  datatype Machine = Machine(cell: Uint32, pcs: map<Thread, Pc>)

  /** Add, fetch-and-store and store retry until the swap succeeds; load and a plain
      compare-and-swap try once. */
  predicate Retries(op: Op) {
    op.Add? || op.Fas? || op.Store?
  }

  /** The value a body asks compare-and-swap to store. */
  function Desired(op: Op, tmp: Uint32): Uint32 {
    match op
    case Add(v) => Add32(tmp, v)
    case Fas(v) => v
    case Store(v) => v
    case Cas(_, n) => n
    case Load => tmp
  }

  /** One step of a thread inside a body: new value of the word, new position. */
  function ThreadStep(b: BackEnd, cell: Uint32, pc: Pc): Option<(Uint32, Pc)> {
    match pc
    case Entry(op) =>
      if Primitive(b, op) then
        var (x, r) := Apply(op, cell);
        Some((x, Exit(op, r)))
      else
        Some((cell, Loop(op, match op case Cas(o, _) => o case Load => 0 case _ => cell)))
    case Loop(op, tmp) =>
      Some((if cell == tmp then Desired(op, tmp) else cell, Compared(op, tmp, cell)))
    case Compared(op, tmp, sav) =>
      var ret := sav == tmp;
      var cmp := if ret then tmp else sav;
      Some((cell,
            match op
            case Cas(_, _) => Exit(op, Verdict(ret, cmp))
            case Load => Exit(op, Value(cmp))
            case Store(_) => if ret then Exit(op, Nothing) else Loop(op, cmp)
            case _ => if ret then Exit(op, Value(cmp)) else Loop(op, cmp)))
    case Exit(_, _) => None
  }

  /** The lock macros around the calls are empty on these back ends (atomic/nolock.h). */
  function Advance(b: BackEnd, s: Machine, l: Label): Option<Machine> {
    match l
    case Acquire(_) => Some(s)
    case Release(_) => Some(s)
    case Invoke(t, op) =>
      if t in s.pcs then None else Some(s.(pcs := s.pcs[t := Entry(op)]))
    case Run(t) =>
      if t !in s.pcs then None
      else
        (match ThreadStep(b, s.cell, s.pcs[t])
         case None => None
         case Some((x, pc)) => Some(Machine(x, s.pcs[t := pc])))
    case Yield(t, r) =>
      if t in s.pcs && s.pcs[t].Exit? && s.pcs[t].reply == r then Some(s.(pcs := s.pcs - {t})) else None
  }

  function Reached(b: BackEnd, x0: Uint32, run: seq<Label>): Option<Machine> {
    if run == [] then Some(Machine(x0, map[]))
    else
      match Reached(b, x0, run[..|run| - 1])
      case None => None
      case Some(s) => Advance(b, s, run[|run| - 1])
  }

  predicate IsRun(b: BackEnd, x0: Uint32, run: seq<Label>) {
    Reached(b, x0, run).Some?
  }

  // ----- refinement of the atomic object

  /** What the atomic object knows of a thread: a call has committed as soon as its successful (or
      only) swap has been executed, even before the code looks at the outcome. */
  function AbsPc(pc: Pc): Phase {
    match pc
    case Entry(op) => Pending(op)
    case Loop(op, _) => Pending(op)
    case Compared(op, tmp, sav) =>
      (match op
       case Cas(_, _) => Committed(op, if sav == tmp then Verdict(true, tmp) else Verdict(false, sav))
       case Load => Committed(op, Value(sav))
       case Store(_) => if sav == tmp then Committed(op, Nothing) else Pending(op)
       case _ => if sav == tmp then Committed(op, Value(sav)) else Pending(op))
    case Exit(op, r) => Committed(op, r)
  }

  function Abs(s: Machine): State {
    State(s.cell, map t | t in s.pcs :: AbsPc(s.pcs[t]))
  }

  /** The step of a thread at `pc` is the one at which its call takes effect. */
  predicate Commits(b: BackEnd, cell: Uint32, pc: Pc) {
    match pc
    case Entry(op) => Primitive(b, op)
    case Loop(op, tmp) => Retries(op) ==> cell == tmp
    case _ => false
  }

  predicate CommitStep(b: BackEnd, s: Machine, l: Label) {
    l.Run? && l.thread in s.pcs && Commits(b, s.cell, s.pcs[l.thread])
  }

  /** The behaviour of the atomic object that a run of the machine stands for. */
  function SpecRun(b: BackEnd, x0: Uint32, run: seq<Label>): seq<Event>
    requires IsRun(b, x0, run)
  {
    if run == [] then []
    else
      SpecRun(b, x0, run[..|run| - 1]) +
      Events(run[|run| - 1], CommitStep(b, Reached(b, x0, run[..|run| - 1]).value, run[|run| - 1]))
  }

  /** A plain compare-and-swap compares with the caller's own old value. */
  ghost predicate PcOk(pc: Pc) {
    (pc.Loop? || pc.Compared?) && pc.op.Cas? ==> pc.tmp == pc.op.old_
  }

  ghost predicate Inv(s: Machine) {
    forall t :: t in s.pcs ==> PcOk(s.pcs[t])
  }

  lemma StepRefines(b: BackEnd, s: Machine, l: Label)
    requires Inv(s) && Advance(b, s, l).Some?
    ensures Inv(Advance(b, s, l).value)
    ensures var s' := Advance(b, s, l).value;
      var es := Events(l, CommitStep(b, s, l));
      if es == [] then Abs(s') == Abs(s) else Step(Abs(s), es[0]) == Some(Abs(s'))
  {
    var s' := Advance(b, s, l).value;
    var t := l.thread;
    match l
    case Acquire(_) =>
    case Release(_) =>
    case Invoke(_, op) =>
      assert Abs(s').phase == Abs(s).phase[t := Pending(op)];
    case Run(_) =>
      assert PcOk(s.pcs[t]);
      assert Abs(s').phase == Abs(s).phase[t := AbsPc(s'.pcs[t])];
      if !CommitStep(b, s, l) {
        assert Abs(s').phase == Abs(s).phase;
      }
    case Yield(_, _) =>
      assert Abs(s').phase == Abs(s).phase - {t};
  }

  /** Main result: whatever the interleaving, and however often a value recurs between a thread's
      read and its swap, the machine does what the atomic object could have done. */
  lemma {:induction false} MachineRefinesSpec(b: BackEnd, x0: Uint32, run: seq<Label>)
    requires IsRun(b, x0, run)
    ensures Inv(Reached(b, x0, run).value)
    ensures Exec(x0, SpecRun(b, x0, run)) == Some(Abs(Reached(b, x0, run).value))
    ensures History(SpecRun(b, x0, run)) == Visible(run)
  {
    if run == [] {
      assert Abs(Machine(x0, map[])).phase == map[];
    } else {
      var n := |run| - 1;
      MachineRefinesSpec(b, x0, run[..n]);
      var s := Reached(b, x0, run[..n]).value;
      StepRefines(b, s, run[n]);
      AppendEvents(x0, SpecRun(b, x0, run[..n]), run[n], CommitStep(b, s, run[n]));
    }
  }

  lemma CasLoopsAreLinearizable(b: BackEnd, x0: Uint32, run: seq<Label>)
    requires IsRun(b, x0, run)
    ensures Linearizable(x0, Visible(run), Reached(b, x0, run).value.cell)
  {
    MachineRefinesSpec(b, x0, run);
  }

  /** In particular no update is lost: once every call has returned, a word that was only added to
      and loaded holds its first value plus everything requested. */
  lemma CasAddsLoseNothing(b: BackEnd, x0: Uint32, run: seq<Label>)
    requires IsRun(b, x0, run) && OnlyAddsAndLoads(Visible(run)) && InCall(Visible(run)) == {}
    ensures Reached(b, x0, run).value.cell == Total(x0, Visible(run))
  {
    MachineRefinesSpec(b, x0, run);
    RunAtRest(x0, SpecRun(b, x0, run), Visible(run), Reached(b, x0, run).value.cell);
  }

  // ----- progress

  /** The step is a compare-and-swap on the shared word. */
  predicate AttemptStep(s: Machine, l: Label) {
    l.Run? && l.thread in s.pcs && s.pcs[l.thread].Loop?
  }

  function Calls(run: seq<Label>): nat {
    if run == [] then 0
    else Calls(run[..|run| - 1]) + if run[|run| - 1].Invoke? then 1 else 0
  }

  function CommitCount(b: BackEnd, x0: Uint32, run: seq<Label>): nat
    requires IsRun(b, x0, run)
  {
    if run == [] then 0
    else
      var front := run[..|run| - 1];
      CommitCount(b, x0, front) +
      if CommitStep(b, Reached(b, x0, front).value, run[|run| - 1]) then 1 else 0
  }

  function Attempts(b: BackEnd, x0: Uint32, run: seq<Label>): nat
    requires IsRun(b, x0, run)
  {
    if run == [] then 0
    else
      var front := run[..|run| - 1];
      Attempts(b, x0, front) +
      if AttemptStep(Reached(b, x0, front).value, run[|run| - 1]) then 1 else 0
  }

  ghost function PendingThreads(s: Machine): set<Thread> {
    set t | t in s.pcs && AbsPc(s.pcs[t]).Pending?
  }

  /** A retrying thread whose last look at the word is out of date. */
  ghost predicate IsStale(cell: Uint32, pc: Pc) {
    match pc
    case Loop(op, tmp) => Retries(op) && tmp != cell
    case Compared(op, tmp, sav) => Retries(op) && sav != tmp && sav != cell
    case _ => false
  }

  ghost function StaleThreads(s: Machine): set<Thread> {
    set t | t in s.pcs && IsStale(s.cell, s.pcs[t])
  }

  /** k + (k-1) + ... over `m` commits. */
  ghost function Budget(k: nat, m: nat): int {
    if m == 0 then 0 else Budget(k, m - 1) + (k - (m - 1))
  }

  lemma {:induction false} BudgetOfMoreCalls(k: nat, m: nat)
    ensures Budget(k + 1, m) == Budget(k, m) + m
  {
    if m != 0 {
      BudgetOfMoreCalls(k, m - 1);
    }
  }

  lemma {:induction false} BudgetFormula(k: nat, m: nat)
    ensures 2 * Budget(k, m) == 2 * k * m - m * (m - 1)
  {
    if m != 0 {
      BudgetFormula(k, m - 1);
    }
  }

  lemma BudgetIsTriangular(k: nat, m: nat)
    requires m <= k
    ensures 2 * Budget(k, m) <= k * (k + 1)
  {
    BudgetFormula(k, m);
    var p := k - m;
    assert k * (k + 1) - (2 * k * m - m * (m - 1)) == p * (p + 1) by {
      assert k == m + p;
    }
  }

  /** How one step moves the two sets the bound is about. */
  lemma StepMovesSets(b: BackEnd, s: Machine, l: Label)
    requires Advance(b, s, l).Some?
    ensures SetsMove(PendingThreads(s), PendingThreads(Advance(b, s, l).value),
                     StaleThreads(s), StaleThreads(Advance(b, s, l).value),
                     l.thread, l.Invoke?, CommitStep(b, s, l), AttemptStep(s, l))
  {
    var s' := Advance(b, s, l).value;
    forall t | t != l.thread ensures t in s'.pcs <==> t in s.pcs { }
  }

  /** A call adds its thread to the pending ones (`p`), a commit removes it, and a failed attempt
      brings its thread up to date (`q`: the stale ones). */
  ghost predicate SetsMove(p: set<Thread>, p': set<Thread>, q: set<Thread>, q': set<Thread>, t: Thread,
                           invoke: bool, commit: bool, attempt: bool) {
    && q' <= p'
    && (invoke ==> !commit && !attempt && t !in p && p' == p + {t} && q' == q)
    && (commit ==> t in p && p' == p - {t})
    && (!invoke && !commit ==> p' == p)
    && (attempt && !commit ==> t in q && q' == q - {t})
    && (!attempt && !commit ==> q' == q)
  }

  /** Retry progress: a swap fails only because some other call has committed since the thread
      last looked, so k calls cost at most k(k+1)/2 swaps altogether, in every schedule. */
  lemma {:induction false} AttemptsAreBounded(b: BackEnd, x0: Uint32, run: seq<Label>)
    requires IsRun(b, x0, run)
    ensures var k := Calls(run); 2 * Attempts(b, x0, run) <= k * (k + 1)
  {
    AttemptsWithinBudget(b, x0, run);
    BudgetIsTriangular(Calls(run), CommitCount(b, x0, run));
  }

  lemma {:induction false} CallsAreCounted(run: seq<Label>)
    ensures Calls(run) == |set j: nat | j < |run| && run[j].Invoke?|
  {
    var all := set j: nat | j < |run| && run[j].Invoke?;
    if run != [] {
      var n := |run| - 1;
      CallsAreCounted(run[..n]);
      var before := set j: nat | j < n && run[..n][j].Invoke?;
      assert all == if run[n].Invoke? then before + {n} else before;
    }
  }

  /** The attempts of the bound are the steps by which a thread inside a loop executes
      compare-and-swap. */
  lemma {:induction false} AttemptsAreCounted(b: BackEnd, x0: Uint32, run: seq<Label>)
    requires IsRun(b, x0, run)
    ensures Attempts(b, x0, run) == |set j: nat | j < |run| && SwapsAt(b, x0, run, j)|
    ensures forall j: nat :: j < |run| ==>
              (SwapsAt(b, x0, run, j) <==>
               && run[j].Run? && IsRun(b, x0, run[..j])
               && run[j].thread in Reached(b, x0, run[..j]).value.pcs
               && Reached(b, x0, run[..j]).value.pcs[run[j].thread].Loop?)
  {
    var all := set j: nat | j < |run| && SwapsAt(b, x0, run, j);
    if run != [] {
      var n := |run| - 1;
      var front := run[..n];
      AttemptsAreCounted(b, x0, front);
      var before := set j: nat | j < n && SwapsAt(b, x0, front, j);
      forall j: nat | j < n ensures SwapsAt(b, x0, run, j) == SwapsAt(b, x0, front, j) {
        assert front[..j] == run[..j];
      }
      var swaps := SwapsAt(b, x0, run, n);
      assert swaps == AttemptStep(Reached(b, x0, front).value, run[n]);
      AddsLast(before, all, n, swaps);
    }
  }

  lemma AddsLast(before: set<nat>, all: set<nat>, n: nat, added: bool)
    requires forall j: nat :: j in before ==> j < n
    requires forall j: nat :: j in all <==> j in before || (j == n && added)
    ensures |all| == |before| + if added then 1 else 0
  {
    assert all == if added then before + {n} else before;
  }

  /** At `j` a thread is in a loop and executes compare-and-swap. */
  predicate SwapsAt(b: BackEnd, x0: Uint32, run: seq<Label>, j: nat)
    requires j < |run|
  {
    && run[j].Run? && IsRun(b, x0, run[..j])
    && var s, t := Reached(b, x0, run[..j]).value, run[j].thread;
       t in s.pcs && s.pcs[t].Loop?
  }

  /** `k` calls and `m` commits so far: the pending threads are those of the other calls, and every
      attempt beyond the budget has still a stale thread to show for it. */
  ghost predicate WithinBudget(p: set<Thread>, q: set<Thread>, k: nat, m: nat, attempts: nat) {
    |p| + m == k && attempts + |q| <= Budget(k, m)
  }

  lemma {:induction false} AttemptsWithinBudget(b: BackEnd, x0: Uint32, run: seq<Label>)
    requires IsRun(b, x0, run)
    ensures var s := Reached(b, x0, run).value;
      WithinBudget(PendingThreads(s), StaleThreads(s), Calls(run), CommitCount(b, x0, run), Attempts(b, x0, run))
  {
    if run == [] {
      NobodyAtFirst(x0);
    } else {
      var n := |run| - 1;
      AttemptsWithinBudget(b, x0, run[..n]);
      var s, l := Reached(b, x0, run[..n]).value, run[n];
      StepWithinBudget(b, s, l, Reached(b, x0, run).value, CommitStep(b, s, l), AttemptStep(s, l),
                       Calls(run[..n]), CommitCount(b, x0, run[..n]), Attempts(b, x0, run[..n]));
    }
  }

  lemma StepWithinBudget(b: BackEnd, s: Machine, l: Label, s': Machine, commit: bool, attempt: bool,
                         k: nat, m: nat, attempts: nat)
    requires Advance(b, s, l) == Some(s') && commit == CommitStep(b, s, l) && attempt == AttemptStep(s, l)
    requires WithinBudget(PendingThreads(s), StaleThreads(s), k, m, attempts)
    ensures WithinBudget(PendingThreads(s'), StaleThreads(s'), k + (if l.Invoke? then 1 else 0),
                         m + (if commit then 1 else 0), attempts + (if attempt then 1 else 0))
  {
    StepMovesSets(b, s, l);
    CountStep(PendingThreads(s), PendingThreads(s'), StaleThreads(s), StaleThreads(s'), l.thread,
              l.Invoke?, commit, attempt, k, m, attempts);
  }

  lemma NobodyAtFirst(x0: Uint32)
    ensures WithinBudget(PendingThreads(Machine(x0, map[])), StaleThreads(Machine(x0, map[])), 0, 0, 0)
  {
    assert PendingThreads(Machine(x0, map[])) == {} == StaleThreads(Machine(x0, map[]));
  }

  lemma CountStep(p: set<Thread>, p': set<Thread>, q: set<Thread>, q': set<Thread>, t: Thread,
                  invoke: bool, commit: bool, attempt: bool, k: nat, m: nat, attempts: nat)
    requires WithinBudget(p, q, k, m, attempts)
    requires SetsMove(p, p', q, q', t, invoke, commit, attempt)
    ensures WithinBudget(p', q', k + (if invoke then 1 else 0), m + (if commit then 1 else 0),
                         attempts + (if attempt then 1 else 0))
  {
    SubsetIsSmaller(q', p');
    BudgetOfMoreCalls(k, m);
  }

  lemma SubsetIsSmaller<T>(a: set<T>, b: set<T>)
    requires a <= b
    ensures |a| <= |b|
  {
    assert b == a + (b - a);
  }

  // ----- what a failed attempt means

  /** The step reads the word on behalf of a retrying call: the plain read before the loop, or an
      attempt. */
  predicate LookStep(b: BackEnd, s: Machine, l: Label) {
    && l.Run? && l.thread in s.pcs && Retries(s.pcs[l.thread].op)
    && (s.pcs[l.thread].Loop? || (s.pcs[l.thread].Entry? && !Primitive(b, s.pcs[l.thread].op)))
  }

  predicate LooksAt(b: BackEnd, x0: Uint32, run: seq<Label>, j: nat, t: Thread)
    requires j < |run|
  {
    run[j].thread == t && IsRun(b, x0, run[..j]) && LookStep(b, Reached(b, x0, run[..j]).value, run[j])
  }

  predicate CommitsAt(b: BackEnd, x0: Uint32, run: seq<Label>, j: nat)
    requires j < |run|
  {
    IsRun(b, x0, run[..j]) && CommitStep(b, Reached(b, x0, run[..j]).value, run[j])
  }

  /** At `j` thread `t` looks at what its last swap returned, not at the word. */
  predicate OnlyInspectsAt(b: BackEnd, x0: Uint32, run: seq<Label>, j: nat, t: Thread)
    requires j < |run|
  {
    IsRun(b, x0, run[..j]) && t in Reached(b, x0, run[..j]).value.pcs && Reached(b, x0, run[..j]).value.pcs[t].Compared?
  }

  lemma SameInPrefix(b: BackEnd, x0: Uint32, run: seq<Label>, m: nat, j: nat, t: Thread)
    requires j < m <= |run|
    ensures LooksAt(b, x0, run[..m], j, t) == LooksAt(b, x0, run, j, t)
    ensures CommitsAt(b, x0, run[..m], j) == CommitsAt(b, x0, run, j)
    ensures OnlyInspectsAt(b, x0, run[..m], j, t) == OnlyInspectsAt(b, x0, run, j, t)
  {
    assert run[..m][..j] == run[..j];
  }

  /** A retrying thread that knows what the word holds: it is about to attempt its swap, or has just
      failed and has not yet copied what it saw into `tmp`. */
  ghost predicate UpToDate(cell: Uint32, pc: Pc) {
    match pc
    case Loop(op, tmp) => Retries(op) && tmp == cell
    case Compared(op, tmp, sav) => Retries(op) && sav != tmp && sav == cell
    case _ => false
  }

  /** A thread in the loop of a call that has not committed. */
  ghost predicate Retrying(s: Machine, t: Thread) {
    t in s.pcs && (UpToDate(s.cell, s.pcs[t]) || IsStale(s.cell, s.pcs[t]))
  }

  lemma StepKeepsUpToDate(b: BackEnd, s: Machine, l: Label, t: Thread)
    requires t in s.pcs && UpToDate(s.cell, s.pcs[t]) && Advance(b, s, l).Some?
    requires if l.thread == t then !LookStep(b, s, l) else !CommitStep(b, s, l)
    ensures var s' := Advance(b, s, l).value; t in s'.pcs && UpToDate(s'.cell, s'.pcs[t])
  {
  }

  /** Until it attempts again, a thread stays up to date as long as no other thread commits. */
  lemma {:induction false} StaysUpToDate(b: BackEnd, x0: Uint32, run: seq<Label>, n: nat, t: Thread)
    requires IsRun(b, x0, run) && n <= |run| && IsRun(b, x0, run[..n])
    requires var s := Reached(b, x0, run[..n]).value; t in s.pcs && UpToDate(s.cell, s.pcs[t])
    requires forall j :: n <= j < |run| ==> !LooksAt(b, x0, run, j, t)
    requires forall j :: n <= j < |run| && run[j].thread != t ==> !CommitsAt(b, x0, run, j)
    ensures var s := Reached(b, x0, run).value; t in s.pcs && UpToDate(s.cell, s.pcs[t])
  {
    if n == |run| {
      assert run[..n] == run;
    } else {
      var m := |run| - 1;
      var front := run[..m];
      assert front[..n] == run[..n];
      forall j | n <= j < m
        ensures !LooksAt(b, x0, front, j, t) && (run[j].thread != t ==> !CommitsAt(b, x0, front, j))
      {
        SameInPrefix(b, x0, run, m, j, t);
      }
      StaysUpToDate(b, x0, front, n, t);
      assert !LooksAt(b, x0, run, m, t) && (run[m].thread != t ==> !CommitsAt(b, x0, run, m));
      StepKeepsUpToDate(b, Reached(b, x0, front).value, run[m], t);
    }
  }

  /** A thread in its loop has looked at the word, and knew it right after its last look. */
  lemma {:induction false} LastLook(b: BackEnd, x0: Uint32, run: seq<Label>, t: Thread) returns (n: nat)
    requires IsRun(b, x0, run) && Retrying(Reached(b, x0, run).value, t)
    ensures n < |run| && LooksAt(b, x0, run, n, t)
    ensures forall j :: n < j < |run| ==> !LooksAt(b, x0, run, j, t)
    ensures forall j :: n < j < |run| && run[j] == Run(t) ==> OnlyInspectsAt(b, x0, run, j, t)
    ensures IsRun(b, x0, run[..n + 1])
    ensures var s := Reached(b, x0, run[..n + 1]).value; t in s.pcs && UpToDate(s.cell, s.pcs[t])
  {
    var m := |run| - 1;
    var front := run[..m];
    if LooksAt(b, x0, run, m, t) {
      n := m;
      assert run[..n + 1] == run;
    } else {
      n := LastLook(b, x0, front, t);
      assert front[..n + 1] == run[..n + 1];
      forall j | n < j < m
        ensures !LooksAt(b, x0, run, j, t) && (run[j] == Run(t) ==> OnlyInspectsAt(b, x0, run, j, t))
      {
        SameInPrefix(b, x0, run, m, j, t);
        assert front[j] == run[j];
      }
      SameInPrefix(b, x0, run, m, n, t);
    }
  }

  /** Whenever a retrying thread is about to fail, another thread has committed since its last look:
      its plain read if this is the first attempt, its previous attempt otherwise. */
  lemma FailureMeansSomeoneElseCommitted(b: BackEnd, x0: Uint32, run: seq<Label>, t: Thread) returns (n: nat, i: nat)
    requires IsRun(b, x0, run)
    requires var s := Reached(b, x0, run).value;
      t in s.pcs && s.pcs[t].Loop? && Retries(s.pcs[t].op) && s.pcs[t].tmp != s.cell
    ensures n < i < |run| && LooksAt(b, x0, run, n, t)
    ensures forall j :: n < j < |run| ==> !LooksAt(b, x0, run, j, t)
    ensures IsRun(b, x0, run[..n]) && run[n] == Run(t)
    ensures var s := Reached(b, x0, run[..n]).value; t in s.pcs && (s.pcs[t].Entry? || s.pcs[t].Loop?)
    ensures forall j :: n < j < |run| && run[j] == Run(t) ==> OnlyInspectsAt(b, x0, run, j, t)
    ensures run[i].thread != t && CommitsAt(b, x0, run, i)
  {
    n := LastLook(b, x0, run, t);
    if forall j :: n + 1 <= j < |run| && run[j].thread != t ==> !CommitsAt(b, x0, run, j) {
      StaysUpToDate(b, x0, run, n + 1, t);
      assert false;
    }
    i :| n + 1 <= i < |run| && run[i].thread != t && CommitsAt(b, x0, run, i);
  }
}
