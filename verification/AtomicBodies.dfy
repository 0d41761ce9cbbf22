/** The bodies of include/my_atomic.h and its back ends line by line, as one thread runs them. */
module AtomicBodies {
  import opened Words
  import opened AtomicSpec

  /** A word of memory. */
  class Cell {
    var value: Uint32

    constructor (value: Uint32)
      ensures this.value == value
    {
      this.value := value;
    }
  }

  /** The shared word.  Before each access of this thread the next batch of `others` takes place:
      the values other threads store meanwhile, any number of them.  `mine` records, for each
      atomic access of this thread, the value it found and the value it left. */
  class SharedWord {
    var value: Uint32
    var others: seq<seq<Uint32>>
    ghost var mine: seq<(Uint32, Uint32)>

    method Interfere()
      modifies `value, `others
      ensures others == if old(others) == [] then [] else old(others)[1..]
      ensures old(others) == [] ==> value == old(value)
    {
      if others != [] {
        if others[0] != [] {
          value := others[0][|others[0]| - 1];
        }
        others := others[1..];
      }
    }

    /** A plain read of the word. */
    method Read() returns (x: Uint32)
      modifies `value, `others
      ensures x == value
      ensures |others| <= |old(others)|
    {
      Interfere();
      x := value;
    }

    /** The processor's value-returning compare-and-swap. */
    method CompareAndSwap(expected: Uint32, desired: Uint32) returns (found: Uint32)
      modifies this
      ensures value == if found == expected then desired else found
      ensures mine == old(mine) + [(found, value)]
      ensures if old(others) == [] then others == [] && found == old(value) else |others| < |old(others)|
    {
      Interfere();
      found := value;
      if found == expected {
        value := desired;
      }
      mine := mine + [(found, value)];
    }
  }

  /** The last atomic access of this thread did to the word what `op` does at one instant, and
      gave the caller the same reply. */
  ghost predicate TookEffect(a: SharedWord, op: Op, reply: Reply)
    reads a
  {
    |a.mine| > 0 && var (found, left) := a.mine[|a.mine| - 1];
    a.value == left && Apply(op, found) == (left, reply)
  }

  /** This thread has accessed the word exactly once since. */
  twostate predicate OneAccess(a: SharedWord)
    reads a
  {
    |a.mine| == |old(a.mine)| + 1 && old(a.mine) <= a.mine
  }

  /** This thread has touched the word since, but every access before the last left it alone. */
  twostate predicate OnlyLastWrites(a: SharedWord)
    reads a
  {
    && |old(a.mine)| < |a.mine| && old(a.mine) <= a.mine
    && forall i :: |old(a.mine)| <= i < |a.mine| - 1 ==> a.mine[i].0 == a.mine[i].1
  }

  /** A failed attempt has used up some interference, or there is none left and `tmp` is current. */
  twostate predicate Progress(a: SharedWord, tmp: Cell)
    reads a, tmp
  {
    |a.others| < |old(a.others)| || (a.others == [] == old(a.others) && tmp.value == a.value)
  }

  /** `make_atomic_cas_body` over the compiler's builtin. */
  method GccCas(a: SharedWord, cmp: Cell, set_: Uint32) returns (ret: bool)
    modifies a, cmp
    ensures OneAccess(a)
    ensures TookEffect(a, Cas(old(cmp.value), set_), Verdict(ret, cmp.value))
    ensures var (found, left) := a.mine[|a.mine| - 1];
      && ret == (found == old(cmp.value)) && cmp.value == found
      && a.value == left == if ret then set_ else found
    ensures ret || Progress(a, cmp)
    ensures old(a.others) == [] && old(cmp.value) == old(a.value) ==> ret
    ensures |a.others| <= |old(a.others)|
  {
    var sav := a.CompareAndSwap(cmp.value, set_);
    ret := sav == cmp.value;
    if !ret {
      cmp.value := sav;
    }
  }

  /** `make_atomic_cas_body` over the Windows intrinsic. */
  method MsvcCas(a: SharedWord, cmp: Cell, set_: Uint32) returns (ret: bool)
    modifies a, cmp
    ensures OneAccess(a)
    ensures TookEffect(a, Cas(old(cmp.value), set_), Verdict(ret, cmp.value))
    ensures var (found, left) := a.mine[|a.mine| - 1];
      && ret == (found == old(cmp.value)) && cmp.value == found
      && a.value == left == if ret then set_ else found
  {
    var initialCmp := cmp.value;
    var initialA := a.CompareAndSwap(initialCmp, set_);
    ret := initialA == initialCmp;
    if !ret {
      cmp.value := initialA;
    }
  }

  /** The Windows load: a swap of 0 for 0. */
  method MsvcLoad(a: SharedWord) returns (ret: Uint32)
    modifies a
    ensures OneAccess(a) && TookEffect(a, Load, Value(ret))
    ensures a.mine[|a.mine| - 1] == (ret, ret) && a.value == ret
  {
    ret := 0;
    ret := a.CompareAndSwap(ret, ret);
  }

  /** `make_atomic_add_body`: retry until the swap succeeds. */
  method AddBody(a: SharedWord, v: Uint32) returns (r: Uint32)
    modifies a
    ensures OnlyLastWrites(a) && TookEffect(a, Add(v), Value(r))
    ensures a.mine[|a.mine| - 1] == (r, a.value) && a.value == (r + v) % TWO_32
  {
    var x := a.Read();
    var tmp := new Cell(x);
    var ok := GccCas(a, tmp, Add32(tmp.value, v));
    while !ok
      invariant OnlyLastWrites(a) && a.mine[|a.mine| - 1].1 == a.value
      invariant if ok then TookEffect(a, Add(v), Value(tmp.value)) else a.mine[|a.mine| - 1].0 == a.value
      invariant fresh(tmp)
      decreases !ok, |a.others|, if tmp.value == a.value then 0 else 1
    {
      ok := GccCas(a, tmp, Add32(tmp.value, v));
    }
    r := tmp.value;
  }

  /** `make_atomic_fas_body`. */
  method FasBody(a: SharedWord, v: Uint32) returns (r: Uint32)
    modifies a
    ensures OnlyLastWrites(a) && TookEffect(a, Fas(v), Value(r))
    ensures a.mine[|a.mine| - 1] == (r, v) && a.value == v
  {
    var x := a.Read();
    var tmp := new Cell(x);
    var ok := GccCas(a, tmp, v);
    while !ok
      invariant OnlyLastWrites(a) && a.mine[|a.mine| - 1].1 == a.value
      invariant if ok then TookEffect(a, Fas(v), Value(tmp.value)) else a.mine[|a.mine| - 1].0 == a.value
      invariant fresh(tmp)
      decreases !ok, |a.others|, if tmp.value == a.value then 0 else 1
    {
      ok := GccCas(a, tmp, v);
    }
    r := tmp.value;
  }

  /** `make_atomic_load_body`: whatever it finds, a swap of 0 for 0 leaves it and reports it. */
  method LoadBody(a: SharedWord) returns (r: Uint32)
    modifies a
    ensures OneAccess(a) && TookEffect(a, Load, Value(r))
    ensures a.mine[|a.mine| - 1] == (r, r) && a.value == r
  {
    var ret := new Cell(0);
    var _ := GccCas(a, ret, ret.value);
    r := ret.value;
  }

  /** `make_atomic_store_body`. */
  method StoreBody(a: SharedWord, v: Uint32)
    modifies a
    ensures OnlyLastWrites(a) && TookEffect(a, Store(v), Nothing)
    ensures a.mine[|a.mine| - 1].1 == v && a.value == v
  {
    var _ := FasBody(a, v);
  }

  // ----- the bodies of atomic/rwlock.h, run under the lock

  method LockedAdd(a: Cell, v: Uint32) returns (r: Uint32)
    modifies a
    ensures (a.value, Value(r)) == Apply(Add(v), old(a.value))
    ensures r == old(a.value) && a.value == (old(a.value) + v) % TWO_32
  {
    var sav := a.value;
    a.value := Add32(a.value, v);
    r := sav;
  }

  method LockedFas(a: Cell, v: Uint32) returns (r: Uint32)
    modifies a
    ensures (a.value, Value(r)) == Apply(Fas(v), old(a.value))
    ensures r == old(a.value) && a.value == v
  {
    var sav := a.value;
    a.value := v;
    r := sav;
  }

  method LockedCas(a: Cell, cmp: Cell, set_: Uint32) returns (ret: bool)
    requires a != cmp
    modifies a, cmp
    ensures (a.value, Verdict(ret, cmp.value)) == Apply(Cas(old(cmp.value), set_), old(a.value))
    ensures ret == (old(a.value) == old(cmp.value)) && cmp.value == old(a.value)
    ensures a.value == if ret then set_ else old(a.value)
  {
    ret := a.value == cmp.value;
    if ret {
      a.value := set_;
    } else {
      cmp.value := a.value;
    }
  }

  method LockedLoad(a: Cell) returns (ret: Uint32)
    ensures (a.value, Value(ret)) == Apply(Load, old(a.value))
    ensures ret == a.value
  {
    ret := a.value;
  }

  method LockedStore(a: Cell, v: Uint32)
    modifies a
    ensures (a.value, Nothing) == Apply(Store(v), old(a.value))
    ensures a.value == v
  {
    a.value := v;
  }
}
