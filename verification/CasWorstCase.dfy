/** The bound on compare-and-swap attempts is exact: for every number of calls there is a schedule
    that needs k(k+1)/2 of them. */
module CasWorstCase {
  import opened Words
  import opened AtomicSpec
  import opened Labels
  import opened CasMachine

  predicate OnlyAddsOne(run: seq<Label>) {
    forall i :: 0 <= i < |run| && run[i].Invoke? ==> run[i].op == ONE_MORE
  }

  /** A run of additions of 1, with the state it reaches and what it has cost. */
  ghost predicate Costs(run: seq<Label>, s: Machine, calls: nat, attempts: nat) {
    && Reached(CasOnly, 0, run) == Some(s) && OnlyAddsOne(run)
    && Calls(run) == calls && Attempts(CasOnly, 0, run) == attempts
  }

  lemma AnotherStep(run: seq<Label>, s: Machine, calls: nat, attempts: nat, l: Label)
    returns (longer: seq<Label>, s': Machine)
    requires Costs(run, s, calls, attempts) && Advance(CasOnly, s, l).Some?
    requires l.Invoke? ==> l.op == ONE_MORE
    ensures s' == Advance(CasOnly, s, l).value
    ensures Costs(longer, s', calls + (if l.Invoke? then 1 else 0), attempts + (if AttemptStep(s, l) then 1 else 0))
  {
    longer, s' := run + [l], Advance(CasOnly, s, l).value;
    assert longer[..|run|] == run;
  }

  /** Exactly the threads from `j` up to `k` are inside a call, those below `i` up to date and the
      others holding the outdated value `old_`. */
  ghost predicate Herd(s: Machine, j: nat, i: nat, k: nat, old_: Uint32) {
    && (forall t :: t in s.pcs <==> j <= t < k)
    && (forall t :: j <= t < k ==> s.pcs[t] == Loop(ONE_MORE, if t < i then s.cell else old_))
  }

  /** All threads call and read before any of them swaps. */
  lemma {:induction false} AllRead(k: nat) returns (run: seq<Label>, s: Machine)
    ensures Costs(run, s, k, 0) && Herd(s, 0, k, k, 0)
  {
    if k == 0 {
      run, s := [], Machine(0, map[]);
    } else {
      run, s := AllRead(k - 1);
      run, s := AnotherStep(run, s, k - 1, 0, Invoke(k - 1, ONE_MORE));
      run, s := AnotherStep(run, s, k, 0, Run(k - 1));
    }
  }

  /** Thread `j` wins its swap and returns; everyone else is now out of date. */
  lemma Winner(run: seq<Label>, s: Machine, j: nat, k: nat, calls: nat, attempts: nat)
    returns (run': seq<Label>, s': Machine)
    requires Costs(run, s, calls, attempts) && Herd(s, j, k, k, 0) && j < k
    ensures Costs(run', s', calls, attempts + 1) && Herd(s', j + 1, j + 1, k, s.cell) && s'.cell != s.cell
  {
    run', s' := AnotherStep(run, s, calls, attempts, Run(j));
    run', s' := AnotherStep(run', s', calls, attempts + 1, Run(j));
    run', s' := AnotherStep(run', s', calls, attempts + 1, Yield(j, Value(s.cell)));
  }

  /** Each of the others tries once in vain. */
  lemma {:induction false} Losers(run: seq<Label>, s: Machine, j: nat, i: nat, k: nat, old_: Uint32,
                                  calls: nat, attempts: nat)
    returns (run': seq<Label>, s': Machine)
    requires Costs(run, s, calls, attempts) && Herd(s, j, i, k, old_) && old_ != s.cell && j <= i <= k
    ensures Costs(run', s', calls, attempts + (k - i)) && Herd(s', j, k, k, 0)
    decreases k - i
  {
    if i == k {
      run', s' := run, s;
    } else {
      run', s' := AnotherStep(run, s, calls, attempts, Run(i));
      run', s' := AnotherStep(run', s', calls, attempts + 1, Run(i));
      run', s' := Losers(run', s', j, i + 1, k, old_, calls, attempts + 1);
    }
  }

  /** n(n+1), twice the n-th triangular number. */
  function TwiceTriangle(n: nat): nat {
    n * (n + 1)
  }

  /** Rounds until nobody is left: k - j attempts in the round of thread `j`. */
  lemma {:induction false} Rounds(run: seq<Label>, s: Machine, j: nat, k: nat, calls: nat, attempts: nat)
    returns (run': seq<Label>, s': Machine, attempts': nat)
    requires Costs(run, s, calls, attempts) && Herd(s, j, k, k, 0) && j <= k
    ensures Costs(run', s', calls, attempts') && s'.pcs == map[]
    ensures 2 * attempts' == 2 * attempts + TwiceTriangle(k - j)
    decreases k - j
  {
    if j == k {
      run', s', attempts' := run, s, attempts;
    } else {
      var run1, s1 := Winner(run, s, j, k, calls, attempts);
      var run2, s2 := Losers(run1, s1, j + 1, j + 1, k, s.cell, calls, attempts + 1);
      run', s', attempts' := Rounds(run2, s2, j + 1, k, calls, attempts + (k - j));
      NextTriangle(k - j);
    }
  }

  lemma NextTriangle(n: nat)
    requires n > 0
    ensures TwiceTriangle(n) == TwiceTriangle(n - 1) + 2 * n
  {
  }

  /** For every k, k additions that have all returned and made k(k+1)/2 attempts. */
  lemma BoundIsReached(k: nat) returns (run: seq<Label>)
    ensures IsRun(CasOnly, 0, run) && OnlyAddsOne(run) && Reached(CasOnly, 0, run).value.pcs == map[]
    ensures Calls(run) == k && 2 * Attempts(CasOnly, 0, run) == k * (k + 1)
  {
    var start, s := AllRead(k);
    var attempts: nat;
    run, s, attempts := Rounds(start, s, 0, k, k, 0);
  }
}
