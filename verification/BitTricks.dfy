/** The bit functions of include/my_bit.h, and the order arithmetic they give a hash table that
    keeps its elements in the order of their reversed hash values. */
module BitTricks {
  import opened Words

  // ----- logarithm

  /** The position of the highest set bit. */
  function Log2(v: nat): nat {
    if v <= 1 then 0 else 1 + Log2(v / 2)
  }

  /** `my_bit_log2`. */
  method MyBitLog2(value: Uint64) returns (bit: nat)
    ensures bit == Log2(value)
  {
    var v := value;
    bit := 0;
    while v > 1
      invariant Log2(value) == bit + Log2(v) && v >= 0
    {
      v := v / 2;
      bit := bit + 1;
    }
  }

  /** Between two powers of two. */
  lemma {:induction false} Log2Brackets(v: nat)
    requires v > 0
    ensures Pow2(Log2(v)) <= v < Pow2(Log2(v) + 1)
  {
    if v > 1 {
      Log2Brackets(v / 2);
    }
  }

  lemma {:induction false} Log2Unique(v: nat, n: nat)
    requires Pow2(n) <= v < Pow2(n + 1)
    ensures Log2(v) == n
  {
    if n != 0 {
      Log2Unique(v / 2, n - 1);
    }
  }

  /** `x` is the smallest exponent with 2^x >= v. */
  ghost predicate SmallestExponent(v: nat, x: nat) {
    v <= Pow2(x) && forall y: nat :: y < x ==> Pow2(y) < v
  }

  ghost predicate IsPowerOfTwo(r: nat) {
    exists n: nat :: r == Pow2(n)
  }

  lemma {:induction false} Pow2Log(n: nat)
    ensures Log2(Pow2(n)) == n
  {
    Log2Unique(Pow2(n), n);
  }

  /** The comment on `my_bit_log2` promises the smallest X with 2^X >= value.  The loop computes
      the highest bit instead, which is the same only for 0 and for powers of two. */
  lemma Log2IsSmallestExponentIff(v: nat)
    ensures SmallestExponent(v, Log2(v)) <==> v == 0 || IsPowerOfTwo(v)
  {
    if v > 0 {
      Log2Brackets(v);
      if n: nat :| v == Pow2(n) {
        Pow2Log(n);
        forall y: nat | y < n ensures Pow2(y) < v {
          Pow2Monotone(y, n - 1);
        }
      }
    }
  }

  /** For example, 2^X >= 3 needs X = 2, and the loop gives 1. */
  lemma Log2OfThree()
    ensures Log2(3) == 1 && SmallestExponent(3, 2) && !SmallestExponent(3, Log2(3))
  {
    assert Pow2(1) == 2 && Pow2(2) == 4;
    forall y: nat | y < 2 ensures Pow2(y) < 3 {
      Pow2Monotone(y, 1);
    }
  }

  // ----- smearing

  /** Some bit of `v` among `i`, ..., `i + k - 1` is set. */
  predicate AnyBit(v: nat, i: nat, k: nat)
    decreases k
  {
    k > 0 && (Bit(v, i) || AnyBit(v, i + 1, k - 1))
  }

  lemma {:induction false} AnyBitSplits(v: nat, i: nat, j: nat, k: nat)
    ensures AnyBit(v, i, j + k) <==> AnyBit(v, i, j) || AnyBit(v, i + j, k)
    decreases j
  {
    if j != 0 {
      AnyBitSplits(v, i + 1, j - 1, k);
    }
  }

  /** Every bit of `w` says whether `v` has a bit set there or less than `k` places higher. */
  ghost predicate Smeared(v: nat, w: nat, k: nat) {
    forall i: nat :: Bit(w, i) <==> AnyBit(v, i, k)
  }

  lemma SmearStep(v: nat, w: nat, k: nat)
    requires Smeared(v, w, k)
    ensures Smeared(v, Or(w, Shr(w, k)), k + k)
  {
    forall i: nat ensures Bit(Or(w, Shr(w, k)), i) <==> AnyBit(v, i, k + k) {
      BitOfOr(w, Shr(w, k), i);
      BitOfShr(w, k, i);
      AnyBitSplits(v, i, k, k);
    }
  }

  lemma SmearStart(v: nat)
    ensures Smeared(v, v, 1)
  {
    forall i: nat ensures Bit(v, i) <==> AnyBit(v, i, 1) {
      assert !AnyBit(v, i + 1, 0);
    }
  }

  lemma {:induction false} TopBitIsSet(v: nat)
    requires v > 0
    ensures Bit(v, Log2(v))
  {
    if v > 1 {
      TopBitIsSet(v / 2);
    }
  }

  lemma {:induction false} AnyBitUpTo(v: nat, i: nat, k: nat)
    requires 0 < v < Pow2(i + k)
    ensures AnyBit(v, i, k) <==> i <= Log2(v)
    decreases k
  {
    Log2Brackets(v);
    if k == 0 {
      if i <= Log2(v) {
        Pow2Monotone(i, Log2(v));
      }
    } else {
      AnyBitUpTo(v, i + 1, k - 1);
      HighBitsAreClear(v, i);
      TopBitIsSet(v);
      if Log2(v) < i {
        Pow2Monotone(Log2(v) + 1, i);
      }
    }
  }

  /** Five steps fill everything below the highest bit of a 32-bit word. */
  lemma SmearedIsAllOnes(v: Uint32, w: nat)
    requires Smeared(v, w, 32)
    ensures w == if v == 0 then 0 else Pow2(Log2(v) + 1) - 1
  {
    var m := if v == 0 then 0 else Log2(v) + 1;
    Powers();
    forall i: nat ensures Bit(w, i) <==> Bit(Pow2(m) - 1, i) {
      BitOfPow2(m, i);
      if v == 0 {
        NoBitsOfZero(i, 32);
      } else {
        Pow2Monotone(32, i + 32);
        AnyBitUpTo(v, i, 32);
      }
    }
    BitsDetermine(w, Pow2(m) - 1);
  }

  lemma {:induction false} NoBitsOfZero(i: nat, k: nat)
    ensures !AnyBit(0, i, k)
    decreases k
  {
    if k != 0 {
      NoBitsOfZero(i + 1, k - 1);
      BitOfZero(i);
    }
  }

  /** The five assignments shared by rounding up and clearing. */
  method SmearDown(v: Uint32) returns (w: Uint32)
    ensures w == if v == 0 then 0 else Pow2(Log2(v) + 1) - 1
  {
    Powers();
    SmearStart(v);
    SmearStep(v, v, 1);
    var x := Or(v, Shr(v, 1));
    SmearStep(v, x, 2);
    x := Or(x, Shr(x, 2));
    SmearStep(v, x, 4);
    x := Or(x, Shr(x, 4));
    SmearStep(v, x, 8);
    x := Or(x, Shr(x, 8));
    SmearStep(v, x, 16);
    x := Or(x, Shr(x, 16));
    SmearedIsAllOnes(v, x);
    if v > 0 {
      Log2Below(v, 32);
      Pow2Monotone(Log2(v) + 1, 32);
    }
    w := x;
  }

  lemma Log2Below(v: nat, n: nat)
    requires 0 < v < Pow2(n)
    ensures Log2(v) < n
  {
    Log2Brackets(v);
    if n <= Log2(v) {
      Pow2Monotone(n, Log2(v));
    }
  }

  // ----- rounding up

  ghost predicate LeastPowerNotBelow(v: nat, r: nat) {
    && IsPowerOfTwo(r) && v <= r
    && forall n: nat :: v <= Pow2(n) ==> r <= Pow2(n)
  }

  /** `my_round_up_to_next_power`.  It gives the next power of two exactly where one fits; 0 and
      everything above 2^31 give 0. */
  method MyRoundUpToNextPower(v: Uint32) returns (r: Uint32)
    ensures LeastPowerNotBelow(v, r) <==> 1 <= v <= 0x8000_0000
    ensures v == 0 || v > 0x8000_0000 ==> r == 0
    ensures 1 <= v <= 0x8000_0000 ==> SmallestExponent(v, Log2(r))
  {
    var x: Uint32 := if v == 0 then TWO_32 - 1 else v - 1;
    var y := SmearDown(x);
    r := Add32(y, 1);
    if v == 0 || v > 0x8000_0000 {
      TopBitSet(x);
    } else {
      RoundedUp(v);
    }
  }

  lemma TopBitSet(x: Uint32)
    requires x >= 0x8000_0000
    ensures Pow2(Log2(x) + 1) == TWO_32
  {
    Powers();
    Log2Unique(x, 31);
  }

  /** One more than the smear of v - 1. */
  function RoundUp(v: nat): nat
    requires v > 0
  {
    if v == 1 then 1 else Pow2(Log2(v - 1) + 1)
  }

  lemma RoundedUp(v: Uint32)
    requires 1 <= v <= 0x8000_0000
    ensures LeastPowerNotBelow(v, RoundUp(v)) && SmallestExponent(v, Log2(RoundUp(v)))
    ensures RoundUp(v) <= 0x8000_0000
  {
    Powers();
    var n := if v == 1 then 0 else Log2(v - 1) + 1;
    assert RoundUp(v) == Pow2(n);
    if v > 1 {
      Log2Brackets(v - 1);
      Log2Below(v - 1, 31);
    }
    Pow2Monotone(n, 31);
    Pow2Log(n);
    forall y: nat | y < n ensures Pow2(y) < v {
      Pow2Monotone(y, n - 1);
    }
    forall m: nat | v <= Pow2(m) ensures Pow2(n) <= Pow2(m) {
      Pow2Monotone(n, if m < n then n else m);
    }
  }

  // ----- clearing the highest bit

  /** A non-zero number without its highest bit. */
  function WithoutTop(v: nat): (r: nat)
    ensures v > 0 ==> r < v
  {
    if v == 0 then 0 else Log2Brackets(v); v - Pow2(Log2(v))
  }

  /** `my_clear_highest_bit`. */
  method MyClearHighestBit(v: Uint32) returns (r: Uint32)
    ensures r == WithoutTop(v) == if v == 0 then 0 else v - Pow2(Log2(v))
  {
    var w: Uint32 := v / 2;
    w := SmearDown(w);
    AndIsSmall(v, w);
    MaskIsWithoutTop(v);
    r := And(v, w);
  }

  lemma MaskIsWithoutTop(v: nat)
    ensures And(v, if v < 2 then 0 else Pow2(Log2(v / 2) + 1) - 1) == WithoutTop(v)
  {
    if v >= 2 {
      var n := Log2(v);
      MaskIsLow(v, n);
      Log2Brackets(v);
      LowAndShr(v, n);
      LowIsSmall(v, n);
      QuotientIsOne(v, Low(v, n), Pow2(n), Shr(v, n));
    }
  }

  lemma QuotientIsOne(v: nat, l: nat, p: nat, q: nat)
    requires v == l + p * q && l < p <= v < 2 * p
    ensures q == 1
  {
    if q > 1 {
      Larger(p, q);
    }
  }

  lemma Larger(p: nat, q: nat)
    requires q > 1
    ensures p * q >= 2 * p
  {
    assert p * q == 2 * p + p * (q - 2);
  }

  // ----- counting bits

  function PopCount(v: nat): nat {
    if v == 0 then 0 else v % 2 + PopCount(v / 2)
  }

  /** The positions of the set bits among the lowest `n`. */
  function SetBits(v: nat, n: nat): set<nat> {
    set i: nat | i < n && Bit(v, i)
  }

  /** Adding up the digits counts the set bits. */
  lemma {:induction false} PopCountCounts(v: nat, n: nat)
    requires v < Pow2(n)
    ensures PopCount(v) == |SetBits(v, n)|
  {
    if n == 0 {
      assert SetBits(v, n) == {};
    } else {
      var half, high := SetBits(v / 2, n - 1), set i: nat | 0 < i < n && Bit(v, i);
      PopCountCounts(v / 2, n - 1);
      ShiftKeepsSize(half, high);
      assert SetBits(v, n) == if v % 2 == 1 then high + {0} else high;
    }
  }

  lemma {:induction false} ShiftKeepsSize(s: set<nat>, t: set<nat>)
    requires forall i: nat :: i in t <==> i > 0 && i - 1 in s
    ensures |t| == |s|
    decreases s
  {
    if i: nat :| i in s {
      assert i + 1 in t;
      ShiftKeepsSize(s - {i}, t - {i + 1});
    } else {
      assert t == {};
    }
  }

  lemma {:induction false} PopCountSplits(v: nat, m: nat, n: nat)
    ensures PopCount(Low(v, m + n)) == PopCount(Low(v, m)) + PopCount(Low(Shr(v, m), n))
    decreases m
  {
    if m != 0 {
      PopCountSplits(v / 2, m - 1, n);
      PopCountLow(v, m);
      PopCountLow(v, m + n);
    }
  }

  lemma PopCountLow(v: nat, m: nat)
    requires m > 0
    ensures PopCount(Low(v, m)) == v % 2 + PopCount(Low(v / 2, m - 1))
  {
    PopCountDigit(v % 2, Low(v / 2, m - 1));
  }

  lemma PopCountDigit(e: nat, y: nat)
    requires e < 2
    ensures PopCount(e + 2 * y) == e + PopCount(y)
  {
  }

  lemma {:induction false} PopCountAtMost(v: nat, n: nat)
    requires v < Pow2(n)
    ensures PopCount(v) <= n
  {
    if v != 0 {
      PopCountAtMost(v / 2, n - 1);
    }
  }

  /** The two external tables of 256 entries, and what they are supposed to hold. */
  datatype Tables = Tables(nbits: seq<Byte>, reverse: seq<Byte>) {
    ghost predicate Ok() {
      && |nbits| == |reverse| == 256
      && forall b: Byte :: nbits[b] == PopCount(b) && reverse[b] == Rev(b, 8)
    }
  }

  lemma TablesExist() returns (t: Tables)
    ensures t.Ok()
  {
    Powers();
    forall b: Byte ensures PopCount(b) < 256 && Rev(b, 8) < 256 {
      PopCountAtMost(b, 8);
      RevIsSmall(b, 8);
    }
    t := Tables(seq(256, b requires 0 <= b < 256 => PopCount(b)), seq(256, b requires 0 <= b < 256 => Rev(b, 8)));
  }

  /** `nbits[(uchar) v] + ... + nbits[(uchar) (v >> 24)]`. */
  function FourLookups(t: Tables, v: nat): (r: nat)
    requires t.Ok()
    ensures r == PopCount(Low(v, 32))
  {
    FourByteCounts(v);
    t.nbits[CastByte(v)] as int + t.nbits[CastByte(Shr(v, 8))] as int +
    t.nbits[CastByte(Shr(v, 16))] as int + t.nbits[CastByte(Shr(v, 24))] as int
  }

  /** `my_count_bits`: eight table lookups, added up in one byte. */
  function MyCountBits(t: Tables, v: Uint64): (r: Byte)
    requires t.Ok()
    ensures r == PopCount(v)
  {
    TwoHalves(v);
    CastByte(FourLookups(t, v) + FourLookups(t, Shr(v, 32)))
  }

  /** `(uchar) v`. */
  function CastByte(v: nat): (b: Byte)
    ensures b == Low(v, 8) && (v < 256 ==> b == v)
  {
    LowByte(v, 8);
    v % 256
  }

  lemma LowByte(v: nat, k: nat)
    requires k == 8
    ensures Low(v, k) == v % 256 && (v < 256 ==> Low(v, k) == v)
  {
    Powers();
    LowAndShr(v, k);
    LowIsSmall(v, k);
    RemainderIs(v, 256, Shr(v, k), Low(v, k));
  }

  lemma {:induction false} ShrShr(v: nat, j: nat, k: nat)
    ensures Shr(v, j + k) == Shr(Shr(v, j), k)
  {
    if j != 0 {
      ShrShr(v / 2, j - 1, k);
    }
  }

  lemma FourByteCounts(v: nat)
    ensures PopCount(Low(v, 32)) == PopCount(Low(v, 8)) + PopCount(Low(Shr(v, 8), 8))
                                    + PopCount(Low(Shr(v, 16), 8)) + PopCount(Low(Shr(v, 24), 8))
  {
    PopCountSplits(v, 8, 24);
    PopCountSplits(Shr(v, 8), 8, 16);
    PopCountSplits(Shr(v, 16), 8, 8);
    ShrShr(v, 8, 8);
    ShrShr(v, 16, 8);
  }

  lemma TwoHalves(v: Uint64)
    ensures PopCount(v) == PopCount(Low(v, 32)) + PopCount(Low(Shr(v, 32), 32)) && PopCount(v) <= 64
  {
    Powers();
    LowIsSmall(v, 64);
    PopCountSplits(v, 32, 32);
    PopCountAtMost(v, 64);
  }

  lemma {:induction false} ShrOfSmall(v: nat, n: nat)
    requires v < Pow2(n)
    ensures Shr(v, n) == 0
  {
    if n != 0 {
      ShrOfSmall(v / 2, n - 1);
    }
  }

  /** Clearing the highest bit again and again. */
  function Cleared(v: nat, n: nat): nat {
    if n == 0 then v else Cleared(WithoutTop(v), n - 1)
  }

  lemma {:induction false} ClearingDropsOneBit(v: nat)
    requires v > 0
    ensures PopCount(WithoutTop(v)) == PopCount(v) - 1
  {
    Log2Brackets(v);
    if v > 1 {
      ClearingDropsOneBit(v / 2);
      assert WithoutTop(v) / 2 == WithoutTop(v / 2) && WithoutTop(v) % 2 == v % 2;
    }
  }

  /** It takes exactly as many steps to reach 0 as there are bits. */
  lemma {:induction false} ClearingTakesPopCountSteps(v: nat, n: nat)
    ensures Cleared(v, n) == 0 <==> n >= PopCount(v)
  {
    if n == 0 {
      if v > 0 {
        HasSomeBit(v);
      }
    } else {
      ClearingTakesPopCountSteps(WithoutTop(v), n - 1);
      if v > 0 {
        ClearingDropsOneBit(v);
      }
    }
  }

  /** Said of the values themselves: if each is the one before without its highest bit, 0 is reached
      after as many steps as the first has bits, and not before. */
  lemma {:induction false} ClearingChainEnds(s: seq<nat>)
    requires |s| > 0 && forall k :: 0 < k < |s| ==> s[k] == WithoutTop(s[k - 1])
    ensures s[|s| - 1] == 0 <==> |s| > PopCount(s[0])
  {
    if |s| == 1 {
      ClearingTakesPopCountSteps(s[0], 0);
    } else {
      forall k | 0 < k < |s| - 1 ensures s[1..][k] == WithoutTop(s[1..][k - 1]) {
        assert s[k + 1] == WithoutTop(s[k]);
      }
      ClearingChainEnds(s[1..]);
      if s[0] > 0 {
        ClearingDropsOneBit(s[0]);
      }
    }
  }

  lemma {:induction false} HasSomeBit(v: nat)
    requires v > 0
    ensures PopCount(v) > 0
  {
    if v > 1 {
      HasSomeBit(v / 2);
    }
  }

  // ----- reversing

  /** The low `n` bits of `x` in the opposite order. */
  function Rev(x: nat, n: nat): nat {
    if n == 0 then 0 else (if x % 2 == 1 then Pow2(n - 1) else 0) + Rev(x / 2, n - 1)
  }

  lemma {:induction false} RevIsSmall(x: nat, n: nat)
    ensures Rev(x, n) < Pow2(n)
  {
    if n != 0 {
      RevIsSmall(x / 2, n - 1);
    }
  }

  lemma {:induction false} RevSplits(x: nat, m: nat, n: nat)
    ensures Rev(x, m + n) == Rev(Low(x, m), m) * Pow2(n) + Rev(Shr(x, m), n)
  {
    if m != 0 {
      RevSplits(x / 2, m - 1, n);
      Pow2Adds(m - 1, n);
      var low := Low(x / 2, m - 1);
      assert Low(x, m) == x % 2 + 2 * low;
      Distribute(Pow2(m - 1), Rev(low, m - 1), Pow2(n));
    }
  }

  lemma Distribute(b: nat, a: nat, q: nat)
    ensures (b + a) * q == b * q + a * q && q * (b + a) == q * b + q * a
  {
  }

  /** `my_reverse_bits`: four table lookups. */
  function MyReverseBits(t: Tables, key: Uint32): (r: nat)
    requires t.Ok()
    ensures r == Rev(key, 32)
  {
    ReverseByBytes(key);
    Joined(t.reverse[Masked(key)], t.reverse[Masked(Shr(key, 8))],
           t.reverse[Masked(Shr(key, 16))], t.reverse[TopByte(key)])
  }

  /** `x & 255`. */
  function Masked(x: nat): (b: Byte)
    ensures b == Low(x, 8)
  {
    Powers();
    MaskIsLow(x, 8);
    LowIsSmall(x, 8);
    And(x, 255)
  }

  /** `key >> 24`. */
  function TopByte(key: Uint32): (b: Byte)
    ensures b == Shr(key, 24) && b == Low(b, 8)
  {
    Powers();
    ShrShr(key, 24, 8);
    ShrOfSmall(key, 32);
    LowAndShr(Shr(key, 24), 8);
    LowIsSmall(Shr(key, 24), 8);
    Shr(key, 24)
  }

  lemma ReverseByBytes(key: Uint32)
    ensures Rev(key, 32) == Rev(Masked(key), 8) * 0x100_0000 + Rev(Masked(Shr(key, 8)), 8) * 0x1_0000
                            + Rev(Masked(Shr(key, 16)), 8) * 0x100 + Rev(TopByte(key), 8)
  {
    Powers();
    RevSplits(key, 8, 24);
    RevSplits(Shr(key, 8), 8, 16);
    RevSplits(Shr(key, 16), 8, 8);
    ShrShr(key, 8, 8);
    ShrShr(key, 16, 8);
  }

  /** Reversal sends bit n-1-i to bit i. */
  lemma {:induction false} BitOfRev(x: nat, n: nat, i: nat)
    requires i < n
    ensures Bit(Rev(x, n), i) <==> Bit(x, n - 1 - i)
  {
    var rest := Rev(x / 2, n - 1);
    RevIsSmall(x / 2, n - 1);
    if x % 2 == 1 {
      OrDisjoint(1, rest, n - 1);
      BitOfOr(Pow2(n - 1), rest, i);
      BitOfPow2(n - 1, i);
    }
    if i < n - 1 {
      BitOfRev(x / 2, n - 1, i);
    } else {
      HighBitsAreClear(rest, i);
    }
  }

  /** Reversing twice gives the number back. */
  lemma ReverseIsInvolution(x: Uint32)
    ensures Rev(Rev(x, 32), 32) == x
  {
    Powers();
    RevIsSmall(x, 32);
    RevIsSmall(Rev(x, 32), 32);
    forall i: nat ensures Bit(Rev(Rev(x, 32), 32), i) <==> Bit(x, i) {
      if i < 32 {
        BitOfRev(Rev(x, 32), 32, i);
        BitOfRev(x, 32, 31 - i);
      } else {
        Pow2Monotone(32, i);
        HighBitsAreClear(x, i);
        HighBitsAreClear(Rev(Rev(x, 32), 32), i);
      }
    }
    BitsDetermine(Rev(Rev(x, 32), 32), x);
  }

  // ----- split order

  /** Numbers below 2^h reverse to multiples of 2^(n-h). */
  lemma {:induction false} RevOfShort(c: nat, h: nat, n: nat)
    requires c < Pow2(h) && h <= n
    ensures Rev(c, n) == Pow2(n - h) * Rev(c, h)
  {
    if h == 0 {
      RevOfZero(n);
    } else {
      RevOfShort(c / 2, h - 1, n - 1);
      Pow2Adds(n - h, h - 1);
      Distribute(Pow2(h - 1), Rev(c / 2, h - 1), Pow2(n - h));
    }
  }

  lemma {:induction false} RevOfZero(n: nat)
    ensures Rev(0, n) == 0
  {
    if n != 0 {
      RevOfZero(n - 1);
    }
  }

  lemma {:induction false} RevOfTop(c: nat, h: nat, n: nat)
    requires c < Pow2(h) && h < n
    ensures Rev(Pow2(h) + c, n) == Rev(c, n) + Pow2(n - 1 - h)
  {
    if h == 0 {
      RevOfZero(n - 1);
    } else {
      RevOfTop(c / 2, h - 1, n - 1);
      assert (Pow2(h) + c) / 2 == Pow2(h - 1) + c / 2 && (Pow2(h) + c) % 2 == c % 2;
    }
  }

  /** Among numbers of `h` bits, `parent` has the greatest reverse not above that of 2^h + parent. */
  lemma ReversedNeighbours(parent: nat, c: nat, h: nat, n: nat)
    requires parent < Pow2(h) && c < Pow2(h) && h < n
    ensures Rev(parent, n) < Rev(Pow2(h) + parent, n)
    ensures Rev(c, n) <= Rev(Pow2(h) + parent, n) ==> Rev(c, n) <= Rev(parent, n)
  {
    RevOfTop(parent, h, n);
    RevOfShort(parent, h, n);
    RevOfShort(c, h, n);
    MultiplesApart(Pow2(n - h), Rev(parent, h), Rev(c, h));
  }

  /** Main result: bucket `b` without its highest bit is the immediate predecessor of `b` in split
      order among the buckets that existed when there were only 2^log2(b) of them.  That is where
      the table starts to insert the new bucket. */
  lemma ClearedIsSplitOrderPredecessor(b: Uint32, c: nat)
    requires b > 0 && c < Pow2(Log2(b))
    ensures WithoutTop(b) < Pow2(Log2(b))
    ensures Rev(WithoutTop(b), 32) < Rev(b, 32)
    ensures Rev(c, 32) <= Rev(b, 32) ==> Rev(c, 32) <= Rev(WithoutTop(b), 32)
  {
    Powers();
    SplitOrderPredecessor(b, c, 32);
  }

  lemma SplitOrderPredecessor(b: nat, c: nat, n: nat)
    requires 0 < b < Pow2(n) && c < Pow2(Log2(b))
    ensures WithoutTop(b) < Pow2(Log2(b))
    ensures Rev(WithoutTop(b), n) < Rev(b, n)
    ensures Rev(c, n) <= Rev(b, n) ==> Rev(c, n) <= Rev(WithoutTop(b), n)
  {
    Log2Brackets(b);
    Log2Below(b, n);
    ReversedNeighbours(WithoutTop(b), c, Log2(b), n);
  }

  lemma MultiplesApart(p: nat, q: nat, r: nat)
    ensures if r <= q then p * r <= p * q else p * r >= p * q + p
  {
    if r <= q {
      assert p * q == p * r + p * (q - r);
    } else {
      assert p * r == p * (q + 1) + p * (r - q - 1);
    }
  }
}
