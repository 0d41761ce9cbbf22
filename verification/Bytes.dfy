/** Byte strings as numbers in base 256. */
module Bytes {
  import opened Words

  /** The number whose lowest byte comes first. */
  function FromLow(b: seq<Byte>): nat {
    if b == [] then 0 else b[0] + 256 * FromLow(b[1..])
  }

  /** The `n` lowest bytes of `x`, lowest first; for a negative number, of its two's complement. */
  function ToLow(x: int, n: nat): (b: seq<Byte>)
    ensures |b| == n
    decreases n
  {
    if n == 0 then [] else [x % 256] + ToLow(x / 256, n - 1)
  }

  function Reverse<T>(s: seq<T>): (r: seq<T>)
    ensures |r| == |s| && forall i :: 0 <= i < |s| ==> r[i] == s[|s| - 1 - i]
  {
    if s == [] then [] else Reverse(s[1..]) + [s[0]]
  }

  function Pow256(n: nat): (p: nat)
    ensures p > 0
  {
    if n == 0 then 1 else 256 * Pow256(n - 1)
  }

  lemma {:induction false} FromLowIsSmall(b: seq<Byte>)
    ensures FromLow(b) < Pow256(|b|)
  {
    if b != [] {
      FromLowIsSmall(b[1..]);
    }
  }

  /** Writing the bytes of a number and reading them back. */
  lemma {:induction false} ToLowOfFromLow(b: seq<Byte>)
    ensures ToLow(FromLow(b), |b|) == b
  {
    if b != [] {
      ToLowOfFromLow(b[1..]);
      LowestByte(b[0], FromLow(b[1..]));
    }
  }

  lemma LowestByte(d: Byte, r: nat)
    ensures (d + 256 * r) % 256 == d && (d + 256 * r) / 256 == r
  {
  }

  /** Reading back `n` bytes of a number gives it modulo 256^n. */
  lemma {:induction false} FromLowOfToLow(x: int, n: nat)
    ensures FromLow(ToLow(x, n)) == x % Pow256(n)
    decreases n
  {
    if n != 0 {
      var q, p := x / 256, Pow256(n - 1);
      FromLowOfToLow(q, n - 1);
      assert ToLow(x, n)[1..] == ToLow(q, n - 1);
      DivisionLaw(q, p);
      Regroup(x, p, q / p, q % p);
      RemainderIs(x, 256 * p, q / p, x % 256 + 256 * (q % p));
    }
  }

  lemma Regroup(x: int, p: nat, k: int, m: nat)
    requires x / 256 == p * k + m
    ensures x == 256 * p * k + (x % 256 + 256 * m)
  {
    assert 256 * p * k == 256 * (p * k);
  }

  lemma {:induction false} Pow256IsPow2(n: nat)
    ensures Pow256(n) == Pow2(8 * n)
  {
    if n != 0 {
      Pow256IsPow2(n - 1);
      Powers();
      Pow2Adds(8, 8 * (n - 1));
    }
  }

  lemma DivideTwice(x: int, p: nat)
    requires p > 0
    ensures x / 256 / p == x / (256 * p)
  {
    var q, m := x / 256 / p, x / 256 % p;
    DivisionLaw(x / 256, p);
    Regroup(x, p, q, m);
    RemainderIs(x, 256 * p, q, x % 256 + 256 * m);
    DivisionLaw(x, 256 * p);
    SameFactor(256 * p, x / (256 * p), q);
  }

  /** Byte `k` is the digit that counts 256^k. */
  lemma {:induction false} DigitOfToLow(x: int, n: nat, k: nat)
    requires k < n
    ensures ToLow(x, n)[k] == x / Pow256(k) % 256
    decreases k
  {
    if k != 0 {
      DigitOfToLow(x / 256, n - 1, k - 1);
      DivideTwice(x, Pow256(k - 1));
    }
  }

  lemma {:induction false} DigitOfFromLow(b: seq<Byte>, k: nat)
    requires k < |b|
    ensures FromLow(b) / Pow256(k) % 256 == b[k] && FromLow(b) < Pow256(|b|)
  {
    ToLowOfFromLow(b);
    DigitOfToLow(FromLow(b), |b|, k);
    FromLowIsSmall(b);
  }

  lemma FromLowInjective(a: seq<Byte>, b: seq<Byte>)
    requires |a| == |b| && FromLow(a) == FromLow(b)
    ensures a == b
  {
    ToLowOfFromLow(a);
    ToLowOfFromLow(b);
  }

  /** The number whose highest byte comes first. */
  function FromHigh(b: seq<Byte>): nat {
    FromLow(Reverse(b))
  }

  /** The `n` lowest bytes of `x`, highest first. */
  function ToHigh(x: int, n: nat): (b: seq<Byte>)
    ensures |b| == n
  {
    Reverse(ToLow(x, n))
  }

  /** The value of the `n`-byte two's complement pattern of `x`. */
  function Signed(x: int, n: nat): int {
    var m := x % Pow256(n);
    if 2 * m >= Pow256(n) then m - Pow256(n) else m
  }

  lemma SignedInRange(x: int, n: nat)
    requires 0 <= 2 * x + Pow256(n) && 2 * x < Pow256(n)
    ensures Signed(x, n) == x
  {
    if x >= 0 {
      RemainderIs(x, Pow256(n), 0, x);
    } else {
      RemainderIs(x, Pow256(n), -1, x + Pow256(n));
    }
  }

  lemma {:induction false} ReverseAppend<T>(s: seq<T>, x: T)
    ensures Reverse(s + [x]) == [x] + Reverse(s)
  {
    if s != [] {
      assert (s + [x])[1..] == s[1..] + [x];
      ReverseAppend(s[1..], x);
    } else {
      assert [x][1..] == [];
    }
  }

  lemma {:induction false} ReverseJoin<T>(a: seq<T>, b: seq<T>)
    ensures Reverse(a + b) == Reverse(b) + Reverse(a)
  {
    if b == [] {
      assert a + b == a;
    } else {
      var front, last := b[..|b| - 1], b[|b| - 1];
      assert b == front + [last] && a + b == (a + front) + [last];
      ReverseJoin(a, front);
      ReverseAppend(front, last);
      ReverseAppend(a + front, last);
    }
  }

  lemma ReverseTwice<T>(s: seq<T>)
    ensures Reverse(Reverse(s)) == s
  {
  }

  lemma {:induction false} FromLowJoin(a: seq<Byte>, b: seq<Byte>)
    ensures FromLow(a + b) == FromLow(a) + Pow256(|a|) * FromLow(b)
  {
    if a == [] {
      assert a + b == b;
    } else {
      assert (a + b)[1..] == a[1..] + b;
      FromLowJoin(a[1..], b);
      Scaled(Pow256(|a| - 1), FromLow(b));
    }
  }

  lemma Scaled(p: nat, x: nat)
    ensures 256 * p * x == 256 * (p * x)
  {
  }

  lemma FromHighJoin(a: seq<Byte>, b: seq<Byte>)
    ensures FromHigh(a + b) == FromHigh(b) + Pow256(|b|) * FromHigh(a)
  {
    ReverseJoin(a, b);
    FromLowJoin(Reverse(b), Reverse(a));
  }

  // ----- order

  /** Byte-by-byte comparison, as memcmp does it. */
  predicate LexBelow(a: seq<Byte>, b: seq<Byte>)
    requires |a| == |b|
  {
    a != [] && (a[0] < b[0] || (a[0] == b[0] && LexBelow(a[1..], b[1..])))
  }

  /** The first byte that differs decides. */
  lemma {:induction false} LexBelowMeans(a: seq<Byte>, b: seq<Byte>)
    requires |a| == |b|
    ensures LexBelow(a, b) <==> exists k :: 0 <= k < |a| && a[..k] == b[..k] && a[k] < b[k]
  {
    if a != [] && a[0] == b[0] {
      LexBelowMeans(a[1..], b[1..]);
      if k :| 0 <= k < |a| - 1 && a[1..][..k] == b[1..][..k] && a[1..][k] < b[1..][k] {
        assert a[..k + 1] == [a[0]] + a[1..][..k] == b[..k + 1];
      }
      if k :| 0 <= k < |a| && a[..k] == b[..k] && a[k] < b[k] {
        assert a[1..][..k - 1] == a[..k][1..] == b[..k][1..] == b[1..][..k - 1];
        assert a[1..][k - 1] < b[1..][k - 1];
      }
    } else if a != [] {
      assert a[..0] == b[..0];
      assert forall k :: 0 < k < |a| ==> a[..k][0] == a[0] && b[..k][0] == b[0];
    }
  }

  lemma {:induction false} LexBelowAppend(a: seq<Byte>, b: seq<Byte>, x: Byte, y: Byte)
    requires |a| == |b|
    ensures LexBelow(a + [x], b + [y]) <==> LexBelow(a, b) || (a == b && x < y)
  {
    if a != [] {
      assert (a + [x])[1..] == a[1..] + [x] && (b + [y])[1..] == b[1..] + [y];
      LexBelowAppend(a[1..], b[1..], x, y);
      assert a == [a[0]] + a[1..] && b == [b[0]] + b[1..];
    }
  }

  /** High-byte-first storage embeds the order of numbers in the order of byte strings. */
  lemma {:induction false} HighFirstKeepsOrder(x: nat, y: nat, n: nat)
    requires x < Pow256(n) && y < Pow256(n)
    ensures x < y <==> LexBelow(ToHigh(x, n), ToHigh(y, n))
    decreases n
  {
    if n != 0 {
      var q, r := x / 256, y / 256;
      HighFirstKeepsOrder(q, r, n - 1);
      ToHighInjective(q, r, n - 1);
      ToHighLast(x, n);
      ToHighLast(y, n);
      LexBelowAppend(ToHigh(q, n - 1), ToHigh(r, n - 1), x % 256, y % 256);
      LastDigitBreaksTies(x, y);
    }
  }

  lemma LastDigitBreaksTies(x: nat, y: nat)
    ensures x < y <==> x / 256 < y / 256 || (x / 256 == y / 256 && x % 256 < y % 256)
  {
  }

  lemma ToHighLast(x: int, n: nat)
    requires n > 0
    ensures ToHigh(x, n) == ToHigh(x / 256, n - 1) + [x % 256]
  {
    assert ToLow(x, n)[1..] == ToLow(x / 256, n - 1);
  }

  lemma ToHighInjective(x: nat, y: nat, n: nat)
    requires x < Pow256(n) && y < Pow256(n)
    ensures ToHigh(x, n) == ToHigh(y, n) <==> x == y
  {
    ReverseTwice(ToLow(x, n));
    ReverseTwice(ToLow(y, n));
    FromLowOfToLow(x, n);
    FromLowOfToLow(y, n);
    RemainderIs(x, Pow256(n), 0, x);
    RemainderIs(y, Pow256(n), 0, y);
  }
}
