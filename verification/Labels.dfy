/** What the two step machines have in common: the steps threads take, and which of them callers
    and the atomic object see. */
module Labels {
  import opened Words
  import opened AtomicSpec

  /** A thread takes or drops the lock, makes a call, runs one step inside it, or returns. */
  datatype Label =
    | Acquire(thread: Thread)
    | Release(thread: Thread)
    | Invoke(thread: Thread, op: Op)
    | Run(thread: Thread)
    | Yield(thread: Thread, reply: Reply)

  /** The addition that the example schedules use. */
  const ONE_MORE := Add(1)

  /** `n` steps of one thread. */
  function Steps(t: Thread, n: nat): seq<Label> {
    seq(n, _ => Run(t))
  }

  /** What callers see of a step. */
  function Shown(l: Label): seq<Event> {
    match l
    case Invoke(t, op) => [Call(t, op)]
    case Yield(t, r) => [Return(t, r)]
    case _ => []
  }

  /** What callers see of a run. */
  function Visible(run: seq<Label>): seq<Event> {
    if run == [] then [] else Visible(run[..|run| - 1]) + Shown(run[|run| - 1])
  }

  /** What the atomic object does at a step, which may be the one at which a call takes effect. */
  function Events(l: Label, commits: bool): seq<Event> {
    if l.Run? && commits then [Commit(l.thread)] else Shown(l)
  }

  lemma AppendEvents(x0: Uint32, before: seq<Event>, l: Label, commits: bool)
    ensures var es := Events(l, commits);
      && History(before + es) == History(before) + Shown(l)
      && (es == [] ==> before + es == before)
      && (es != [] ==> Exec(x0, before + es) == match Exec(x0, before)
                                                case None => None
                                                case Some(s) => Step(s, es[0]))
  {
    var es := Events(l, commits);
    if es == [] {
      assert before + es == before && History(before) + Shown(l) == History(before);
    } else {
      assert before + es == before + [es[0]];
      OneMoreEvent(x0, before, es[0]);
      if l.Run? {
        assert History(before) + Shown(l) == History(before);
      }
    }
  }
}
