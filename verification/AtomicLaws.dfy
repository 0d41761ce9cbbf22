/** What the contract of include/my_atomic.h means for callers, said of calls and replies alone: each
    operation sees what the last one to write left behind. */
module AtomicLaws {
  import opened Words
  import opened AtomicSpec

  /** The state after the first `n` events. */
  ghost function At(x0: Uint32, run: seq<Event>, n: nat): (s: State)
    requires Possible(x0, run) && n <= |run|
    ensures Exec(x0, run[..n]) == Some(s)
  {
    PrefixPossible(x0, run, n);
    Exec(x0, run[..n]).value
  }

  lemma NextState(x0: Uint32, run: seq<Event>, n: nat)
    requires Possible(x0, run) && n < |run|
    ensures Step(At(x0, run, n), run[n]) == Some(At(x0, run, n + 1))
  {
    PrefixPossible(x0, run, n + 1);
    assert run[..n + 1] == run[..n] + [run[n]];
    OneMoreEvent(x0, run[..n], run[n]);
  }

  /** The call of `op` that thread `t` makes at `i` commits at `c`. */
  ghost predicate Commits(run: seq<Event>, t: Thread, op: Op, i: nat, c: nat) {
    i < c < |run| && run[i] == Call(t, op) && run[c] == Commit(t) && Quiet(run, t, i, c)
  }

  /** And it returns `r` at `j`. */
  ghost predicate Serves(run: seq<Event>, t: Thread, op: Op, i: nat, c: nat, j: nat, r: Reply) {
    Commits(run, t, op, i, c) && c < j < |run| && run[j] == Return(t, r) && Quiet(run, t, c, j)
  }

  lemma {:induction false} PhaseStays(x0: Uint32, run: seq<Event>, t: Thread, m: nat, n: nat)
    requires Possible(x0, run) && m <= n <= |run|
    requires forall k :: m <= k < n ==> run[k].thread != t
    requires t in At(x0, run, m).phase
    ensures t in At(x0, run, n).phase && At(x0, run, n).phase[t] == At(x0, run, m).phase[t]
    decreases n
  {
    if m < n {
      PhaseStays(x0, run, t, m, n - 1);
      NextState(x0, run, n - 1);
    }
  }

  /** Between a call and its commit the call is pending. */
  lemma PendingAtCommit(x0: Uint32, run: seq<Event>, t: Thread, op: Op, i: nat, c: nat)
    requires Possible(x0, run) && Commits(run, t, op, i, c)
    ensures var s, s' := At(x0, run, c), At(x0, run, c + 1);
      && t in s.phase && s.phase[t] == Pending(op)
      && s' == State(Apply(op, s.cell).0, s.phase[t := Committed(op, Apply(op, s.cell).1)])
  {
    NextState(x0, run, i);
    PhaseStays(x0, run, t, i + 1, c);
    NextState(x0, run, c);
  }

  lemma ReplyIsFromCommit(x0: Uint32, run: seq<Event>, t: Thread, op: Op, i: nat, c: nat, j: nat, r: Reply)
    requires Possible(x0, run) && Serves(run, t, op, i, c, j, r)
    ensures r == Apply(op, At(x0, run, c).cell).1
  {
    PendingAtCommit(x0, run, t, op, i, c);
    PhaseStays(x0, run, t, c + 1, j);
    NextState(x0, run, j);
  }

  /** The operation of the commit at `k` is a load. */
  ghost predicate CommitsLoad(x0: Uint32, run: seq<Event>, k: nat)
    requires Possible(x0, run) && k < |run|
  {
    var s, t := At(x0, run, k), run[k].thread;
    run[k].Commit? && t in s.phase && s.phase[t].Pending? && s.phase[t].op.Load?
  }

  /** From `m` to `n` nothing commits but loads. */
  ghost predicate OnlyLoadsCommit(x0: Uint32, run: seq<Event>, m: nat, n: nat)
    requires Possible(x0, run) && m <= n <= |run|
  {
    forall k :: m <= k < n && run[k].Commit? ==> CommitsLoad(x0, run, k)
  }

  lemma {:induction false} WordStays(x0: Uint32, run: seq<Event>, m: nat, n: nat)
    requires Possible(x0, run) && m <= n <= |run| && OnlyLoadsCommit(x0, run, m, n)
    ensures At(x0, run, n).cell == At(x0, run, m).cell
    decreases n
  {
    if m < n {
      WordStays(x0, run, m, n - 1);
      NextState(x0, run, n - 1);
    }
  }

  /** The reply `r` to `op` tells that the word held `v`. */
  ghost predicate Tells(op: Op, r: Reply, v: Uint32) {
    match op
    case Cas(o, _) => r == Verdict(v == o, v)
    case Store(_) => r == Nothing
    case _ => r == Value(v)
  }

  /** Last writer: what a call stored is what every later load, add or fetch-and-store returns and what
      every later compare-and-swap compares with, however many threads run, if only loads have
      committed in between. */
  lemma LastWriterIsSeen(x0: Uint32, run: seq<Event>, t: Thread, op: Op, i: nat, c: nat,
                         u: Thread, op': Op, i': nat, c': nat, j': nat, r': Reply)
    requires Possible(x0, run) && Commits(run, t, op, i, c) && Serves(run, u, op', i', c', j', r')
    requires c < c' && OnlyLoadsCommit(x0, run, c + 1, c') && (op.Store? || op.Fas?)
    ensures op'.Load? || op'.Add? || op'.Fas? ==> r' == Value(op.what)
    ensures op'.Cas? ==> r' == Verdict(op'.old_ == op.what, op.what)
  {
    PendingAtCommit(x0, run, t, op, i, c);
    WordStays(x0, run, c + 1, c');
    ReplyIsFromCommit(x0, run, u, op', i', c', j', r');
  }

  /** The word itself holds what was last stored. */
  lemma LastWriterIsLeft(x0: Uint32, run: seq<Event>, t: Thread, op: Op, i: nat, c: nat)
    requires Possible(x0, run) && Commits(run, t, op, i, c)
    requires OnlyLoadsCommit(x0, run, c + 1, |run|) && (op.Store? || op.Fas?)
    ensures Exec(x0, run).value.cell == op.what
  {
    PendingAtCommit(x0, run, t, op, i, c);
    WordStays(x0, run, c + 1, |run|);
    assert run[..|run|] == run;
  }

  /** Each reply fits the one before: from what one call got and the next one got, with only loads
      committing in between, the second saw the first one's effect and nothing else. */
  lemma NextReplyFits(x0: Uint32, run: seq<Event>, t: Thread, op: Op, i: nat, c: nat, j: nat, r: Reply,
                      u: Thread, op': Op, i': nat, c': nat, j': nat, r': Reply)
    requires Possible(x0, run) && Serves(run, t, op, i, c, j, r) && Serves(run, u, op', i', c', j', r')
    requires c < c' && OnlyLoadsCommit(x0, run, c + 1, c')
    ensures op.Add? ==> r.Value? && Tells(op', r', (r.value + op.what) % TWO_32)
    ensures op.Fas? ==> r.Value? && Tells(op', r', op.what)
    ensures op.Cas? ==> r.Verdict? && r.swapped == (r.seen == op.old_)
                        && Tells(op', r', if r.swapped then op.new_ else r.seen)
    ensures op.Load? ==> r.Value? && Tells(op', r', r.value)
    ensures op.Store? ==> Tells(op', r', op.what)
  {
    PendingAtCommit(x0, run, t, op, i, c);
    ReplyIsFromCommit(x0, run, t, op, i, c, j, r);
    WordStays(x0, run, c + 1, c');
    ReplyIsFromCommit(x0, run, u, op', i', c', j', r');
  }

  /** And the first reply tells the initial value. */
  lemma FirstReplyFits(x0: Uint32, run: seq<Event>, t: Thread, op: Op, i: nat, c: nat, j: nat, r: Reply)
    requires Possible(x0, run) && Serves(run, t, op, i, c, j, r) && OnlyLoadsCommit(x0, run, 0, c)
    ensures Tells(op, r, x0)
  {
    WordStays(x0, run, 0, c);
    ReplyIsFromCommit(x0, run, t, op, i, c, j, r);
  }

  // ----- the log

  /** The log has one entry for each commit, loads included, in the order of the commits. */
  lemma {:induction false} LogHasEveryCommit(x0: Uint32, run: seq<Event>)
    requires Possible(x0, run)
    ensures |Log(x0, run)| == |set k: nat | k < |run| && run[k].Commit?|
  {
    var all := set k: nat | k < |run| && run[k].Commit?;
    if run != [] {
      var n := |run| - 1;
      LogHasEveryCommit(x0, run[..n]);
      var before := set k: nat | k < n && run[..n][k].Commit?;
      assert all == if run[n].Commit? then before + {n} else before;
    }
  }

  lemma {:induction false} LogGrows(x0: Uint32, run: seq<Event>, n: nat)
    requires Possible(x0, run) && n <= |run|
    ensures Possible(x0, run[..n]) && Log(x0, run[..n]) <= Log(x0, run)
  {
    PrefixPossible(x0, run, n);
    if n == |run| {
      assert run[..n] == run;
    } else {
      LogGrows(x0, run[..|run| - 1], n);
      assert run[..|run| - 1][..n] == run[..n];
    }
  }

  /** The entry of a call that returned names its thread and its operation, and holds the reply that the
      caller got. */
  lemma LogHoldsReplies(x0: Uint32, run: seq<Event>, t: Thread, op: Op, i: nat, c: nat, j: nat, r: Reply)
    requires Possible(x0, run) && Serves(run, t, op, i, c, j, r)
    ensures Possible(x0, run[..c])
    ensures var k := |Log(x0, run[..c])|; k < |Log(x0, run)| && Log(x0, run)[k] == LogEntry(t, op, r)
  {
    LogGrows(x0, run, c);
    LogGrows(x0, run, c + 1);
    PendingAtCommit(x0, run, t, op, i, c);
    ReplyIsFromCommit(x0, run, t, op, i, c, j, r);
    assert run[..c + 1][..c] == run[..c];
  }
}
