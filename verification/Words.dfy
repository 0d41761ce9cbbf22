/** Machine integers as ranges of the integers, and the bitwise operators of C on them. */
module Words {
  type Byte = x: int | 0 <= x < 256
  type Uint16 = x: int | 0 <= x < 0x1_0000
  type Uint32 = x: int | 0 <= x < TWO_32
  type Uint64 = x: int | 0 <= x < TWO_64

  const TWO_32 := 0x1_0000_0000
  const TWO_64 := 0x1_0000_0000_0000_0000

  /** Addition of 32-bit words wraps round. */
  function Add32(x: Uint32, y: Uint32): Uint32 {
    (x + y) % TWO_32
  }

  function Pow2(n: nat): (p: nat)
    ensures p > 0
  {
    if n == 0 then 1 else 2 * Pow2(n - 1)
  }

  /** `x >> k`. */
  function Shr(x: nat, k: nat): nat {
    if k == 0 then x else Shr(x / 2, k - 1)
  }

  /** Bit `i` of `x`. */
  predicate Bit(x: nat, i: nat) {
    if i == 0 then x % 2 == 1 else Bit(x / 2, i - 1)
  }

  function Lsb(b: bool): nat {
    if b then 1 else 0
  }

  /** `x & y`. */
  function And(x: nat, y: nat): nat {
    if x == 0 || y == 0 then 0 else Lsb(x % 2 == 1 && y % 2 == 1) + 2 * And(x / 2, y / 2)
  }

  /** `x | y`. */
  function Or(x: nat, y: nat): nat
    decreases x + y
  {
    if x == 0 then y else if y == 0 then x else Lsb(x % 2 == 1 || y % 2 == 1) + 2 * Or(x / 2, y / 2)
  }

  /** `x ^ y`. */
  function Xor(x: nat, y: nat): nat
    decreases x + y
  {
    if x == 0 then y else if y == 0 then x else Lsb((x % 2 == 1) != (y % 2 == 1)) + 2 * Xor(x / 2, y / 2)
  }

  /** The low `m` bits of `x`. */
  function Low(x: nat, m: nat): nat {
    if m == 0 then 0 else x % 2 + 2 * Low(x / 2, m - 1)
  }

  lemma {:induction false} BitOfZero(i: nat)
    ensures !Bit(0, i)
  {
    if i != 0 {
      BitOfZero(i - 1);
    }
  }

  lemma {:induction false} BitOfAnd(x: nat, y: nat, i: nat)
    ensures Bit(And(x, y), i) <==> Bit(x, i) && Bit(y, i)
  {
    if x == 0 || y == 0 {
      BitOfZero(i);
    } else if i != 0 {
      BitOfAnd(x / 2, y / 2, i - 1);
    }
  }

  lemma {:induction false} BitOfOr(x: nat, y: nat, i: nat)
    ensures Bit(Or(x, y), i) <==> Bit(x, i) || Bit(y, i)
  {
    if x == 0 || y == 0 {
      BitOfZero(i);
    } else if i != 0 {
      BitOfOr(x / 2, y / 2, i - 1);
    }
  }

  lemma {:induction false} BitOfXor(x: nat, y: nat, i: nat)
    ensures Bit(Xor(x, y), i) <==> Bit(x, i) != Bit(y, i)
  {
    if x == 0 || y == 0 {
      BitOfZero(i);
    } else if i != 0 {
      BitOfXor(x / 2, y / 2, i - 1);
    }
  }

  lemma {:induction false} BitOfShr(x: nat, k: nat, i: nat)
    ensures Bit(Shr(x, k), i) <==> Bit(x, k + i)
  {
    if k != 0 {
      BitOfShr(x / 2, k - 1, i);
    }
  }

  lemma {:induction false} BitOfLow(x: nat, m: nat, i: nat)
    ensures Bit(Low(x, m), i) <==> i < m && Bit(x, i)
  {
    if m == 0 {
      BitOfZero(i);
    } else if i != 0 {
      BitOfLow(x / 2, m - 1, i - 1);
    }
  }

  lemma {:induction false} BitOfPow2(n: nat, i: nat)
    ensures Bit(Pow2(n), i) <==> i == n
    ensures Bit(Pow2(n) - 1, i) <==> i < n
  {
    if n == 0 {
      BitOfZero(i);
      if i != 0 {
        BitOfZero(i - 1);
      }
    } else if i != 0 {
      BitOfPow2(n - 1, i - 1);
    }
  }

  lemma {:induction false} HighBitsAreClear(x: nat, k: nat)
    ensures x < Pow2(k) ==> !Bit(x, k)
    ensures Pow2(k) <= x < Pow2(k + 1) ==> Bit(x, k)
  {
    if k != 0 {
      HighBitsAreClear(x / 2, k - 1);
    }
  }

  /** Numbers with the same bits are equal. */
  lemma {:induction false} BitsDetermine(x: nat, y: nat)
    requires forall i: nat :: Bit(x, i) <==> Bit(y, i)
    ensures x == y
    decreases x + y
  {
    if x != 0 || y != 0 {
      assert Bit(x, 0) <==> Bit(y, 0);
      forall i: nat ensures Bit(x / 2, i) <==> Bit(y / 2, i) {
        assert Bit(x, i + 1) <==> Bit(y, i + 1);
      }
      BitsDetermine(x / 2, y / 2);
    }
  }

  lemma Doubled(x: nat, y: nat)
    ensures x * (2 * y) == 2 * (x * y) == 2 * y * x
  {
  }

  lemma {:induction false} Pow2Adds(m: nat, n: nat)
    ensures Pow2(m + n) == Pow2(m) * Pow2(n)
  {
    if m != 0 {
      Pow2Adds(m - 1, n);
      Doubled(Pow2(n), Pow2(m - 1));
    }
  }

  lemma {:induction false} Pow2Monotone(m: nat, n: nat)
    requires m <= n
    ensures Pow2(m) <= Pow2(n)
  {
    if m < n {
      Pow2Monotone(m, n - 1);
    }
  }

  lemma {:induction false} LowIsSmall(x: nat, m: nat)
    ensures Low(x, m) < Pow2(m)
    ensures x < Pow2(m) ==> Low(x, m) == x
  {
    if m != 0 {
      LowIsSmall(x / 2, m - 1);
    }
  }

  lemma {:induction false} LowAndShr(x: nat, m: nat)
    ensures x == Low(x, m) + Pow2(m) * Shr(x, m)
  {
    if m != 0 {
      LowAndShr(x / 2, m - 1);
      assert Pow2(m) * Shr(x, m) == 2 * (Pow2(m - 1) * Shr(x / 2, m - 1));
    }
  }

  /** Masking with 2^m - 1 keeps the low bits. */
  lemma MaskIsLow(x: nat, m: nat)
    ensures And(x, Pow2(m) - 1) == Low(x, m)
  {
    forall i: nat ensures Bit(And(x, Pow2(m) - 1), i) <==> Bit(Low(x, m), i) {
      BitOfAnd(x, Pow2(m) - 1, i);
      BitOfPow2(m, i);
      BitOfLow(x, m, i);
    }
    BitsDetermine(And(x, Pow2(m) - 1), Low(x, m));
  }

  /** Or-ing numbers that share no bits adds them. */
  lemma {:induction false} OrDisjoint(a: nat, b: nat, m: nat)
    requires b < Pow2(m)
    ensures Or(a * Pow2(m), b) == a * Pow2(m) + b
  {
    if m != 0 && a != 0 && b != 0 {
      OrDisjoint(a, b / 2, m - 1);
      Doubled(a, Pow2(m - 1));
      OrDigit(a * Pow2(m - 1), b);
    }
  }

  lemma OrDigit(c: nat, b: nat)
    ensures Or(2 * c, b) == b % 2 + 2 * Or(c, b / 2)
  {
    if c == 0 || b == 0 {
    } else {
      assert (2 * c) / 2 == c;
    }
  }

  lemma {:induction false} OrIsSmall(x: nat, y: nat, n: nat)
    requires x < Pow2(n) && y < Pow2(n)
    ensures Or(x, y) < Pow2(n)
  {
    if x != 0 && y != 0 {
      OrIsSmall(x / 2, y / 2, n - 1);
    }
  }

  lemma {:induction false} XorIsSmall(x: nat, y: nat, n: nat)
    requires x < Pow2(n) && y < Pow2(n)
    ensures Xor(x, y) < Pow2(n)
  {
    if x != 0 && y != 0 {
      XorIsSmall(x / 2, y / 2, n - 1);
    }
  }

  lemma {:induction false} AndIsSmall(x: nat, y: nat)
    ensures And(x, y) <= x && And(x, y) <= y
  {
    if x != 0 && y != 0 {
      AndIsSmall(x / 2, y / 2);
    }
  }

  lemma Powers()
    ensures Pow2(8) == 256 && Pow2(16) == 0x1_0000 && Pow2(24) == 0x100_0000
    ensures Pow2(31) == 0x8000_0000 && Pow2(32) == TWO_32 && Pow2(64) == TWO_64
  {
    Pow2Adds(8, 8);
    Pow2Adds(8, 16);
    Pow2Adds(16, 16);
    Pow2Adds(32, 32);
    assert Pow2(8) == 256;
  }

  /** `a << 24 | b << 16 | c << 8 | d`. */
  function Joined(a: Byte, b: Byte, c: Byte, d: Byte): (r: Uint32)
    ensures r == a * 0x100_0000 + b * 0x1_0000 + c * 0x100 + d
  {
    JoinIsSum(a, b, c, d);
    Or(Or(Or(a * 0x100_0000, b * 0x1_0000), c * 0x100), d)
  }

  lemma OrShifted(a: nat, b: nat, m: nat, p: nat)
    requires (m == 8 && p == 0x100) || (m == 16 && p == 0x1_0000) || (m == 24 && p == 0x100_0000)
    requires b < p
    ensures Or(a * p, b) == a * p + b
  {
    Powers();
    OrDisjoint(a, b, m);
  }

  lemma JoinIsSum(a: Byte, b: Byte, c: Byte, d: Byte)
    ensures Or(Or(Or(a * 0x100_0000, b * 0x1_0000), c * 0x100), d) == a * 0x100_0000 + b * 0x1_0000 + c * 0x100 + d
  {
    OrShifted(a, b * 0x1_0000, 24, 0x100_0000);
    OrShifted(a * 0x100 + b, c * 0x100, 16, 0x1_0000);
    OrShifted(a * 0x1_0000 + b * 0x100 + c, d, 8, 0x100);
  }

  lemma AndWithOneBit(x: nat, k: nat)
    ensures And(x, Pow2(k)) == if Bit(x, k) then Pow2(k) else 0
  {
    var r := if Bit(x, k) then Pow2(k) else 0;
    forall j: nat ensures Bit(And(x, Pow2(k)), j) <==> Bit(r, j) {
      BitOfAnd(x, Pow2(k), j);
      BitOfPow2(k, j);
      BitOfZero(j);
    }
    BitsDetermine(And(x, Pow2(k)), r);
  }

  // ----- division

  lemma RemainderIs(x: int, d: nat, k: int, r: nat)
    requires x == d * k + r && r < d
    ensures x % d == r
  {
    var q, m := x / d, x % d;
    DivisionLaw(x, d);
    assert d * k - d * q == d * (k - q) && d * q - d * k == d * (q - k);
    if q != k {
      AtLeastOnce(d, if q < k then k - q else q - k);
    }
  }

  lemma DivisionLaw(x: int, d: nat)
    requires d > 0
    ensures x == d * (x / d) + x % d && x % d < d
  {
  }

  lemma AtLeastOnce(d: nat, j: nat)
    requires j > 0
    ensures d * j >= d
  {
    assert d * j == d + d * (j - 1);
  }

  lemma SameFactor(d: nat, p: int, q: int)
    requires d > 0 && d * p == d * q
    ensures p == q
  {
    assert d * (p - q) == d * p - d * q;
    if p != q {
      AtLeastOnce(d, if p < q then q - p else p - q);
    }
  }
}
