/** The contract that include/my_atomic.h states for its five operations on one 32-bit word, as an
    abstract object shared by any number of threads: a call is pending until it commits, a commit
    applies the whole operation at one instant, and only then can the call return.  A back end is
    linearizable when everything its callers can see is also a behaviour of this object. */
module AtomicSpec {
  import opened Words

  type Thread = nat

  datatype Op =
    | Add(what: Uint32)
    | Fas(what: Uint32)
    | Cas(old_: Uint32, new_: Uint32)
    | Load
    | Store(what: Uint32)

  /** What a call gives back: the old value, the verdict of a compare-and-swap with the value left
      in its `old` argument, or nothing. */
  datatype Reply = Value(value: Uint32) | Verdict(swapped: bool, seen: Uint32) | Nothing

  /** The whole effect of one operation on the word: its new value and the reply. */
  function Apply(op: Op, x: Uint32): (Uint32, Reply) {
    match op
    case Add(v) => (Add32(x, v), Value(x))
    case Fas(v) => (v, Value(x))
    case Cas(o, n) => if x == o then (n, Verdict(true, o)) else (x, Verdict(false, x))
    case Load => (x, Value(x))
    case Store(v) => (v, Nothing)
  }

  datatype Phase = Pending(op: Op) | Committed(op: Op, reply: Reply)

  /** Threads outside any call are absent from `phase`. */
  datatype State = State(cell: Uint32, phase: map<Thread, Phase>)

  datatype Event = Call(thread: Thread, op: Op) | Commit(thread: Thread) | Return(thread: Thread, reply: Reply)

  datatype Option<+T> = None | Some(value: T)

  function Step(s: State, e: Event): Option<State> {
    match e
    case Call(t, op) =>
      if t in s.phase then None else Some(s.(phase := s.phase[t := Pending(op)]))
    case Commit(t) =>
      if t in s.phase && s.phase[t].Pending? then
        var op := s.phase[t].op;
        var (x, r) := Apply(op, s.cell);
        Some(State(x, s.phase[t := Committed(op, r)]))
      else None
    case Return(t, r) =>
      if t in s.phase && s.phase[t].Committed? && s.phase[t].reply == r then
        Some(s.(phase := s.phase - {t}))
      else None
  }

  /** The state after a sequence of events, if every one of them was possible. */
  function Exec(x0: Uint32, run: seq<Event>): Option<State> {
    if run == [] then Some(State(x0, map[]))
    else
      match Exec(x0, run[..|run| - 1])
      case None => None
      case Some(s) => Step(s, run[|run| - 1])
  }

  predicate Possible(x0: Uint32, run: seq<Event>) {
    Exec(x0, run).Some?
  }

  /** What callers see of a run: calls and returns, not commits. */
  function History(run: seq<Event>): seq<Event> {
    if run == [] then []
    else
      var last := run[|run| - 1];
      History(run[..|run| - 1]) + if last.Commit? then [] else [last]
  }

  lemma OneMoreEvent(x0: Uint32, run: seq<Event>, e: Event)
    ensures Exec(x0, run + [e]) == match Exec(x0, run) case None => None case Some(s) => Step(s, e)
    ensures History(run + [e]) == if e.Commit? then History(run) else History(run) + [e]
  {
    assert (run + [e])[..|run|] == run;
  }

  /** A history is linearizable, ending with `x` in the word, if the abstract object can show it. */
  ghost predicate Linearizable(x0: Uint32, history: seq<Event>, x: Uint32) {
    exists run :: Possible(x0, run) && History(run) == history && Exec(x0, run).value.cell == x
  }

  /** The operations of a run in the order in which they committed, with their replies. */
  datatype LogEntry = LogEntry(thread: Thread, op: Op, reply: Reply)

  function Log(x0: Uint32, run: seq<Event>): seq<LogEntry>
    requires Possible(x0, run)
  {
    if run == [] then []
    else
      var s := Exec(x0, run[..|run| - 1]).value;
      var last := run[|run| - 1];
      Log(x0, run[..|run| - 1]) +
      if last.Commit? then
        var op := s.phase[last.thread].op;
        [LogEntry(last.thread, op, Apply(op, s.cell).1)]
      else []
  }

  /** Running the operations one after another, with nobody else around. */
  function Sequential(x0: Uint32, ops: seq<Op>): (Uint32, seq<Reply>) {
    if ops == [] then (x0, [])
    else
      var (x, rs) := Sequential(x0, ops[..|ops| - 1]);
      var (y, r) := Apply(ops[|ops| - 1], x);
      (y, rs + [r])
  }

  function Ops(log: seq<LogEntry>): seq<Op> {
    seq(|log|, i requires 0 <= i < |log| => log[i].op)
  }

  function Replies(log: seq<LogEntry>): seq<Reply> {
    seq(|log|, i requires 0 <= i < |log| => log[i].reply)
  }

  /** Every concurrent run is equivalent to running its operations one after another in commit
      order: same final value, same replies. */
  lemma {:induction false} CommitOrderExplainsRun(x0: Uint32, run: seq<Event>)
    requires Possible(x0, run)
    ensures Sequential(x0, Ops(Log(x0, run))) == (Exec(x0, run).value.cell, Replies(Log(x0, run)))
  {
    if run == [] {
      assert Ops([]) == [] && Replies([]) == [];
    } else {
      var front, last := run[..|run| - 1], run[|run| - 1];
      CommitOrderExplainsRun(x0, front);
      if last.Commit? {
        var before, log := Log(x0, front), Log(x0, run);
        assert Ops(log)[..|log| - 1] == Ops(before);
        assert Replies(log) == Replies(before) + [log[|log| - 1].reply];
      } else {
        assert Log(x0, run) == Log(x0, front);
      }
    }
  }

  // ----- real-time order

  /** Thread `t` does nothing visible to this object strictly between positions `i` and `j`. */
  ghost predicate Quiet(run: seq<Event>, t: Thread, i: int, j: int) {
    forall k :: 0 <= k < |run| && i < k < j ==> run[k].thread != t
  }

  /** The commit at `c` is the one commit of the call at `i`, and replies what the operation
      gives on the value of the word at that instant. */
  ghost predicate CommitsCall(x0: Uint32, run: seq<Event>, t: Thread, i: nat, c: nat, op: Op, r: Reply) {
    && i < c < |run| && run[i] == Call(t, op) && run[c] == Commit(t)
    && Quiet(run, t, i, c)
    && Exec(x0, run[..c]).Some? && r == Apply(op, Exec(x0, run[..c]).value.cell).1
  }

  ghost predicate Explained(x0: Uint32, run: seq<Event>, t: Thread, p: Phase) {
    match p
    case Pending(op) =>
      exists i: nat :: i < |run| && run[i] == Call(t, op) && Quiet(run, t, i, |run|)
    case Committed(op, r) =>
      exists i: nat, c: nat :: CommitsCall(x0, run, t, i, c, op, r) && Quiet(run, t, c, |run|)
  }

  lemma {:induction false} PhasesAreExplained(x0: Uint32, run: seq<Event>, t: Thread)
    requires Possible(x0, run) && t in Exec(x0, run).value.phase
    ensures Explained(x0, run, t, Exec(x0, run).value.phase[t])
  {
    var n := |run| - 1;
    var front, last := run[..n], run[n];
    var s := Exec(x0, front).value;
    if last.thread == t {
      if last.Commit? {
        PhasesAreExplained(x0, front, t);
        var op := s.phase[t].op;
        var i: nat :| i < n && front[i] == Call(t, op) && Quiet(front, t, i, n);
        assert forall k | i < k < n :: front[k] == run[k];
        assert CommitsCall(x0, run, t, i, n, op, Apply(op, s.cell).1);
        assert Quiet(run, t, n, |run|);
      } else {
        assert run[n] == last && Quiet(run, t, n, |run|);
      }
    } else {
      PhasesAreExplained(x0, front, t);
      ExplainedLater(x0, front, last, t, s.phase[t]);
      assert front + [last] == run;
    }
  }

  lemma ExplainedLater(x0: Uint32, front: seq<Event>, last: Event, t: Thread, p: Phase)
    requires Explained(x0, front, t, p) && last.thread != t
    ensures Explained(x0, front + [last], t, p)
  {
    var n, run := |front|, front + [last];
    match p
    case Pending(op) =>
      var i: nat :| i < n && front[i] == Call(t, op) && Quiet(front, t, i, n);
      assert run[i] == Call(t, op) && Quiet(run, t, i, |run|);
    case Committed(op, r) =>
      var i: nat, c: nat :| CommitsCall(x0, front, t, i, c, op, r) && Quiet(front, t, c, n);
      assert run[..c] == front[..c];
      assert CommitsCall(x0, run, t, i, c, op, r) && Quiet(run, t, c, |run|);
  }

  /** Real-time order: whenever a call returns, it committed exactly once, after it was made and
      before it returned, and its reply is the operation's result on the value at that instant. */
  lemma ReturnsCommittedInside(x0: Uint32, run: seq<Event>, j: nat)
    requires Possible(x0, run) && j < |run| && run[j].Return?
    ensures exists i: nat, c: nat, op ::
      c < j && CommitsCall(x0, run, run[j].thread, i, c, op, run[j].reply) && Quiet(run, run[j].thread, c, j)
  {
    PrefixPossible(x0, run, j + 1);
    var front, t := run[..j], run[j].thread;
    assert run[..j + 1][..j] == front;
    var s := Exec(x0, front).value;
    PhasesAreExplained(x0, front, t);
    var op, r := s.phase[t].op, run[j].reply;
    var i: nat, c: nat :| CommitsCall(x0, front, t, i, c, op, r) && Quiet(front, t, c, j);
    assert front[..c] == run[..c];
    assert forall k | 0 <= k < j :: front[k] == run[k];
    assert CommitsCall(x0, run, t, i, c, op, r) && Quiet(run, t, c, j);
  }

  lemma {:induction false} PrefixPossible(x0: Uint32, run: seq<Event>, n: nat)
    requires Possible(x0, run) && n <= |run|
    ensures Possible(x0, run[..n])
  {
    if n == |run| {
      assert run[..n] == run;
    } else {
      PrefixPossible(x0, run[..|run| - 1], n);
      assert run[..|run| - 1][..n] == run[..n];
    }
  }

  // ----- what the contract implies for whole programs

  /** Threads that have called and not yet returned. */
  function InCall(history: seq<Event>): set<Thread> {
    if history == [] then {}
    else
      var before, last := InCall(history[..|history| - 1]), history[|history| - 1];
      match last
      case Call(t, _) => before + {t}
      case Return(t, _) => before - {t}
      case Commit(_) => before
  }

  predicate OnlyAddsAndLoads(history: seq<Event>) {
    forall i :: 0 <= i < |history| && history[i].Call? ==> history[i].op.Add? || history[i].op.Load?
  }

  /** Everything that callers asked to be added. */
  function Requested(history: seq<Event>): nat {
    if history == [] then 0
    else
      var last := history[|history| - 1];
      Requested(history[..|history| - 1]) + if last.Call? && last.op.Add? then last.op.what else 0
  }

  /** The first value and everything requested, modulo 2^32. */
  function Total(x0: Uint32, history: seq<Event>): Uint32 {
    (x0 + Requested(history)) % TWO_32
  }

  /** What thread `t` has still to add. */
  function Owes(phase: map<Thread, Phase>, t: Thread): nat {
    if t in phase && phase[t].Pending? && phase[t].op.Add? then phase[t].op.what else 0
  }

  /** What pending calls of threads below `n` have still to add. */
  function Outstanding(phase: map<Thread, Phase>, n: nat): nat {
    if n == 0 then 0 else Outstanding(phase, n - 1) + Owes(phase, n - 1)
  }

  lemma {:induction false} OutstandingChangesAt(p: map<Thread, Phase>, q: map<Thread, Phase>, t: Thread, n: nat)
    requires forall u :: u != t ==> (u in p <==> u in q) && (u in p && u in q ==> p[u] == q[u])
    ensures Outstanding(q, n) - Outstanding(p, n) == if t < n then Owes(q, t) - Owes(p, t) else 0
  {
    if n != 0 {
      OutstandingChangesAt(p, q, t, n - 1);
    }
  }

  predicate ThreadsBelow(run: seq<Event>, n: nat) {
    forall i :: 0 <= i < |run| ==> run[i].thread < n
  }

  predicate OnlyAddsPending(phase: map<Thread, Phase>) {
    forall t :: t in phase ==> phase[t].op.Add? || phase[t].op.Load?
  }

  lemma StepBalances(s: State, e: Event, n: nat)
    requires Step(s, e).Some? && e.thread < n && OnlyAddsPending(s.phase)
    requires e.Call? ==> e.op.Add? || e.op.Load?
    ensures var s' := Step(s, e).value;
      && OnlyAddsPending(s'.phase)
      && (s'.cell + Outstanding(s'.phase, n)) % TWO_32
         == (s.cell + Outstanding(s.phase, n) + if e.Call? && e.op.Add? then e.op.what else 0) % TWO_32
  {
    var s' := Step(s, e).value;
    OutstandingChangesAt(s.phase, s'.phase, e.thread, n);
    var cell, owed, owed' := s.cell, Outstanding(s.phase, n), Outstanding(s'.phase, n);
    if e.Commit? && s.phase[e.thread].op.Add? {
      var v := s.phase[e.thread].op.what;
      assert s'.cell == (cell + v) % TWO_32 && owed' == owed - v;
      WrapsOnce(cell + v, owed - v);
    } else {
      assert s'.cell == cell;
    }
  }

  lemma SameRemainder(x: int, y: int, d: int)
    requires x % TWO_32 == y % TWO_32
    ensures (x + d) % TWO_32 == (y + d) % TWO_32
  {
  }

  lemma WrapsOnce(x: int, y: int)
    ensures (x % TWO_32 + y) % TWO_32 == (x + y) % TWO_32
  {
  }

  /** At every moment the word holds its first value plus all that was requested, except for what
      pending calls have still to add. */
  lemma {:induction false} AddsBalance(x0: Uint32, run: seq<Event>, n: nat)
    requires Possible(x0, run) && OnlyAddsAndLoads(run) && ThreadsBelow(run, n)
    ensures var s := Exec(x0, run).value;
      && (s.cell + Outstanding(s.phase, n)) % TWO_32 == (x0 + Requested(run)) % TWO_32
      && OnlyAddsPending(s.phase)
  {
    if run == [] {
      NothingOutstanding(n);
    } else {
      var front, last := run[..|run| - 1], run[|run| - 1];
      AddsBalance(x0, front, n);
      var s := Exec(x0, front).value;
      StepBalances(s, last, n);
      SameRemainder(s.cell + Outstanding(s.phase, n), x0 + Requested(front), Requested(run) - Requested(front));
    }
  }

  lemma {:induction false} NothingOutstanding(n: nat)
    ensures Outstanding(map[], n) == 0
  {
    if n != 0 {
      NothingOutstanding(n - 1);
    }
  }

  /** What a history shows agrees with the run behind it. */
  lemma {:induction false} HistoryTellsAll(x0: Uint32, run: seq<Event>)
    requires Possible(x0, run)
    ensures InCall(History(run)) == Exec(x0, run).value.phase.Keys
    ensures Requested(History(run)) == Requested(run)
    ensures OnlyAddsAndLoads(History(run)) ==> OnlyAddsAndLoads(run)
  {
    if run != [] {
      var front, last := run[..|run| - 1], run[|run| - 1];
      HistoryTellsAll(x0, front);
      if last.Commit? {
        assert History(run) == History(front);
      } else {
        var h := History(run);
        assert h[..|h| - 1] == History(front) && h[|h| - 1] == last;
        assert forall i | 0 <= i < |h| - 1 :: History(front)[i] == h[i];
      }
    }
  }

  lemma {:induction false} SomeBoundOnThreads(run: seq<Event>) returns (n: nat)
    ensures ThreadsBelow(run, n)
  {
    if run == [] {
      n := 0;
    } else {
      var last := run[|run| - 1].thread;
      n := SomeBoundOnThreads(run[..|run| - 1]);
      n := if n <= last then last + 1 else n;
    }
  }

  /** No update is lost: once every call has returned, a word that was only added to holds its
      first value plus everything that was requested, modulo 2^32. */
  lemma NoUpdateLost(x0: Uint32, history: seq<Event>, x: Uint32)
    requires Linearizable(x0, history, x) && OnlyAddsAndLoads(history) && InCall(history) == {}
    ensures x == (x0 + Requested(history)) % TWO_32
  {
    var run :| Possible(x0, run) && History(run) == history && Exec(x0, run).value.cell == x;
    RunAtRest(x0, run, history, x);
  }

  lemma RunAtRest(x0: Uint32, run: seq<Event>, history: seq<Event>, x: Uint32)
    requires Possible(x0, run) && History(run) == history && Exec(x0, run).value.cell == x
    requires OnlyAddsAndLoads(history) && InCall(history) == {}
    ensures x == Total(x0, history)
  {
    HistoryTellsAll(x0, run);
    var n := SomeBoundOnThreads(run);
    AddsBalance(x0, run, n);
    NothingOutstanding(n);
    assert Exec(x0, run).value.phase == map[];
  }

  predicate OnlySwapsAndLoads(ops: seq<Op>) {
    forall i :: 0 <= i < |ops| ==> ops[i].Fas? || ops[i].Load?
  }

  function Stored(ops: seq<Op>): multiset<Uint32> {
    if ops == [] then multiset{}
    else
      var last := ops[|ops| - 1];
      Stored(ops[..|ops| - 1]) + if last.Fas? then multiset{last.what} else multiset{}
  }

  function Fetched(ops: seq<Op>, replies: seq<Reply>): multiset<Uint32>
    requires |ops| == |replies|
  {
    if ops == [] then multiset{}
    else
      var n := |ops| - 1;
      Fetched(ops[..n], replies[..n]) +
      if ops[n].Fas? && replies[n].Value? then multiset{replies[n].value} else multiset{}
  }

  lemma {:induction false} OneReplyEach(x0: Uint32, ops: seq<Op>)
    ensures |Sequential(x0, ops).1| == |ops|
  {
    if ops != [] {
      OneReplyEach(x0, ops[..|ops| - 1]);
    }
  }

  /** A word only ever swapped hands out every value put into it exactly once: what was fetched,
      and what is left in the word, is what was stored and what was there at first. */
  lemma {:induction false} SwapsConserve(x0: Uint32, ops: seq<Op>)
    requires OnlySwapsAndLoads(ops)
    ensures var (x, rs) := Sequential(x0, ops);
      |rs| == |ops| && multiset{x} + Fetched(ops, rs) == multiset{x0} + Stored(ops)
  {
    if ops != [] {
      var n := |ops| - 1;
      SwapsConserve(x0, ops[..n]);
      var (x, rs) := Sequential(x0, ops[..n]);
      var all := rs + [Value(x)];
      assert Sequential(x0, ops).1 == all && all[..n] == rs && all[n] == Value(x);
      assert Fetched(ops, all) == Fetched(ops[..n], rs) + if ops[n].Fas? then multiset{x} else multiset{};
      var before, stored := Fetched(ops[..n], rs), Stored(ops[..n]);
      if ops[n].Fas? {
        var v := ops[n].what;
        assert Sequential(x0, ops).0 == v;
        calc {
          multiset{v} + (before + multiset{x});
          multiset{v} + (multiset{x} + before);
          multiset{x0} + (stored + multiset{v});
        }
      } else {
        assert Sequential(x0, ops).0 == x;
        assert Stored(ops) == stored && Fetched(ops, all) == before;
      }
    }
  }

  /** So in every concurrent run in which only swaps and loads have committed. */
  lemma SwapRunsConserve(x0: Uint32, run: seq<Event>)
    requires Possible(x0, run) && OnlySwapsAndLoads(Ops(Log(x0, run)))
    ensures var ops, replies := Ops(Log(x0, run)), Replies(Log(x0, run));
      multiset{Exec(x0, run).value.cell} + Fetched(ops, replies) == multiset{x0} + Stored(ops)
  {
    CommitOrderExplainsRun(x0, run);
    SwapsConserve(x0, Ops(Log(x0, run)));
  }
}
