/** Storing integers in byte buffers: high byte first (include/myisampack.h) and low byte first
    (include/my_global.h, in the portable form and in the form for 32-bit x86).  One member stands
    for the whole family of macros that differ only in the width `n`. */
module Codec {
  import opened Words
  import opened Bytes

  /** `(uchar) (x >> 8 * k)`. */
  function Uchar(x: int, k: nat): Byte
    decreases k
  {
    if k == 0 then x % 256 else Uchar(x / 256, k - 1)
  }

  lemma {:induction false} UcharIsByte(x: int, n: nat, k: nat)
    requires k < n
    ensures ToLow(x, n)[k] == Uchar(x, k)
    decreases k
  {
    if k != 0 {
      UcharIsByte(x / 256, n - 1, k - 1);
    }
  }

  /** Casting to 32 bits first changes none of the four low bytes. */
  lemma UcharOfCast(x: int, k: nat)
    requires k < 4
    ensures Uchar(x % TWO_32, k) == Uchar(x, k)
  {
    var m := 4;
    assert Pow256(m) == TWO_32;
    FromLowOfToLow(x, m);
    FromLowOfToLow(x % TWO_32, m);
    RemainderIs(x % TWO_32, TWO_32, 0, x % TWO_32);
    FromLowInjective(ToLow(x, m), ToLow(x % TWO_32, m));
    UcharIsByte(x, m, k);
    UcharIsByte(x % TWO_32, m, k);
  }

  lemma {:induction false} UcharOfHigh(x: int, k: nat)
    ensures Uchar(x / TWO_32, k) == Uchar(x, k + 4)
  {
    assert x / TWO_32 == x / 256 / 256 / 256 / 256;
    assert Uchar(x, k + 4) == Uchar(x / 256, k + 3) == Uchar(x / 256 / 256, k + 2);
    assert Uchar(x / 256 / 256, k + 2) == Uchar(x / 256 / 256 / 256, k + 1);
  }

  /** A buffer after `b` was written at `off`. */
  function Written(s: seq<Byte>, off: nat, b: seq<Byte>): (r: seq<Byte>)
    requires off + |b| <= |s|
    ensures |r| == |s| && r[..off] == s[..off] && r[off..off + |b|] == b && r[off + |b|..] == s[off + |b|..]
  {
    s[..off] + b + s[off + |b|..]
  }

  /** The digits of a number that lies in a buffer low byte first. */
  lemma LowDigitsAt(s: seq<Byte>, off: nat, a: int, n: nat)
    requires off + n <= |s| && s[off..off + n] == ToLow(a, n)
    ensures forall i: nat :: i < n ==> s[off + i] == a / Pow256(i) % 256
  {
    forall i: nat | i < n ensures s[off + i] == a / Pow256(i) % 256 {
      DigitOfToLow(a, n, i);
      assert s[off..off + n][i] == s[off + i];
    }
  }

  /** The same high byte first. */
  lemma HighDigits(s: seq<Byte>, off: nat, a: int, n: nat)
    requires off + n <= |s| && s[off..off + n] == ToHigh(a, n)
    ensures forall i: nat :: i < n ==> s[off + n - 1 - i] == a / Pow256(i) % 256
  {
    forall i: nat | i < n ensures s[off + n - 1 - i] == a / Pow256(i) % 256 {
      DigitOfToLow(a, n, i);
      assert s[off..off + n][n - 1 - i] == s[off + n - 1 - i];
    }
  }

  // ----- stores

  /** The lines that store the `k` low bytes of `x`, highest first. */
  method PutHigh(t: array<Byte>, off: nat, x: nat, k: nat)
    requires 1 <= k <= 4 && off + k <= t.Length
    modifies t
    ensures forall j :: off <= j < off + k ==> t[j] == Uchar(x, off + k - 1 - j)
    ensures forall i :: 0 <= i < t.Length && !(off <= i < off + k) ==> t[i] == old(t[i])
  {
    t[off + k - 1] := Uchar(x, 0);
    if k >= 2 {
      t[off + k - 2] := Uchar(x, 1);
    }
    if k >= 3 {
      t[off + k - 3] := Uchar(x, 2);
    }
    if k >= 4 {
      t[off + k - 4] := Uchar(x, 3);
    }
  }

  /** `mi_int2store` to `mi_int8store`: beyond four bytes, in two halves of up to 32 bits. */
  method MiIntStore(t: array<Byte>, off: nat, a: int, n: nat)
    requires 2 <= n <= 8 && off + n <= t.Length
    modifies t
    ensures t[..] == Written(old(t[..]), off, ToHigh(a, n))
    ensures t[off..off + n] == ToHigh(a, n)
    ensures forall i: nat :: i < n ==> t[off + n - 1 - i] == a / Pow256(i) % 256
    ensures forall i :: 0 <= i < t.Length && !(off <= i < off + n) ==> t[i] == old(t[i])
  {
    var defTemp := a % TWO_32;
    if n <= 4 {
      PutHigh(t, off, defTemp, n);
    } else {
      var defTemp2 := a / TWO_32 % TWO_32;
      PutHigh(t, off + n - 4, defTemp, 4);
      PutHigh(t, off, defTemp2, n - 4);
    }
    forall i | 0 <= i < n ensures t[off + i] == ToHigh(a, n)[i] {
      BytesOfHalves(a, n, n - 1 - i);
    }
    assert t[..] == Written(old(t[..]), off, ToHigh(a, n));
    HighDigits(t[..], off, a, n);
  }

  lemma BytesOfHalves(a: int, n: nat, k: nat)
    requires k < n <= 8
    ensures ToLow(a, n)[k] == if k < 4 then Uchar(a % TWO_32, k) else Uchar(a / TWO_32 % TWO_32, k - 4)
  {
    UcharIsByte(a, n, k);
    if k < 4 {
      UcharOfCast(a, k);
    } else {
      UcharOfCast(a / TWO_32, k - 4);
      UcharOfHigh(a, k - 4);
    }
  }

  /** The widths with a low-byte-first form. */
  predicate LowWidth(n: nat) {
    n == 2 || n == 3 || n == 4 || n == 5 || n == 6 || n == 8
  }

  /** The lines that store `k` bytes of `x`, lowest first. */
  method PutLow(t: array<Byte>, off: nat, x: int, k: nat)
    requires 2 <= k <= 6 && off + k <= t.Length
    modifies t
    ensures forall j :: off <= j < off + k ==> t[j] == Uchar(x, j - off)
    ensures forall i :: 0 <= i < t.Length && !(off <= i < off + k) ==> t[i] == old(t[i])
  {
    t[off] := Uchar(x, 0);
    t[off + 1] := Uchar(x, 1);
    if k >= 3 {
      t[off + 2] := Uchar(x, 2);
    }
    if k >= 4 {
      t[off + 3] := Uchar(x, 3);
    }
    if k >= 5 {
      t[off + 4] := Uchar(x, 4);
    }
    if k >= 6 {
      t[off + 5] := Uchar(x, 5);
    }
  }

  /** Portable `int2store` to `int8store`: the widest in two halves of 32 bits. */
  method IntStore(t: array<Byte>, off: nat, a: int, n: nat)
    requires LowWidth(n) && off + n <= t.Length
    modifies t
    ensures t[..] == Written(old(t[..]), off, ToLow(a, n))
    ensures t[off..off + n] == ToLow(a, n)
    ensures forall i: nat :: i < n ==> t[off + i] == a / Pow256(i) % 256
    ensures forall i :: 0 <= i < t.Length && !(off <= i < off + n) ==> t[i] == old(t[i])
  {
    if n == 8 {
      var defTemp, defTemp2 := a % TWO_32, a / TWO_32 % TWO_32;
      PutLow(t, off, defTemp, 4);
      PutLow(t, off + 4, defTemp2, 4);
    } else {
      PutLow(t, off, a, n);
    }
    forall i | 0 <= i < n ensures t[off + i] == ToLow(a, n)[i] {
      UcharIsByte(a, n, i);
      BytesOfHalves(a, n, i);
    }
    assert t[..] == Written(old(t[..]), off, ToLow(a, n));
    LowDigitsAt(t[..], off, a, n);
  }

  /** A store of a whole word of `n` bytes to little-endian memory. */
  method StoreWord(t: array<Byte>, off: nat, word: nat, n: nat)
    requires off + n <= t.Length && word < Pow256(n)
    modifies t
    ensures t[..] == Written(old(t[..]), off, ToLow(word, n))
    ensures t[off..off + n] == ToLow(word, n)
    ensures forall i: nat :: i < n ==> t[off + i] == word / Pow256(i) % 256
    ensures forall i :: 0 <= i < t.Length && !(off <= i < off + n) ==> t[i] == old(t[i])
  {
    var image := ToLow(word, n);
    forall k | 0 <= k < n {
      t[off + k] := image[k];
    }
    assert t[..] == Written(old(t[..]), off, image);
    LowDigitsAt(t[..], off, word, n);
  }

  /** The x86 `int2store` to `int8store`: one word access for 2, 4 and 8 bytes.  The contract is that
      of the portable form. */
  method FastIntStore(t: array<Byte>, off: nat, a: int, n: nat)
    requires LowWidth(n) && off + n <= t.Length
    modifies t
    ensures t[..] == Written(old(t[..]), off, ToLow(a, n))
    ensures t[off..off + n] == ToLow(a, n)
    ensures forall i: nat :: i < n ==> t[off + i] == a / Pow256(i) % 256
    ensures forall i :: 0 <= i < t.Length && !(off <= i < off + n) ==> t[i] == old(t[i])
  {
    if n == 2 || n == 4 || n == 8 {
      CastKeepsBytes(a, n);
      StoreWord(t, off, a % Pow256(n), n);
      LowDigitsAt(t[..], off, a, n);
    } else {
      IntStore(t, off, a, n);
    }
  }

  lemma CastKeepsBytes(a: int, n: nat)
    ensures ToLow(a % Pow256(n), n) == ToLow(a, n)
  {
    FromLowOfToLow(a, n);
    FromLowOfToLow(a % Pow256(n), n);
    RemainderIs(a % Pow256(n), Pow256(n), 0, a % Pow256(n));
    FromLowInjective(ToLow(a, n), ToLow(a % Pow256(n), n));
  }

  // ----- unsigned loads

  /** The byte `i` places from the start, or nothing. */
  function Digit(b: seq<Byte>, i: nat): nat {
    if i < |b| then b[i] else 0
  }

  /** Up to four bytes added up in 32 bits, lowest first. */
  function Sum32Low(b: seq<Byte>): (r: Uint32)
    requires 1 <= |b| <= 4
    ensures r == FromLow(b)
  {
    LowDigits(b);
    Digit(b, 0) + Digit(b, 1) * 0x100 + Digit(b, 2) * 0x1_0000 + Digit(b, 3) * 0x100_0000
  }

  lemma LowDigits(b: seq<Byte>)
    requires |b| <= 4
    ensures FromLow(b) == Digit(b, 0) + Digit(b, 1) * 0x100 + Digit(b, 2) * 0x1_0000 + Digit(b, 3) * 0x100_0000
    ensures FromLow(b) < TWO_32
  {
    if b != [] {
      LowDigits(b[1..]);
    }
  }

  /** The same with the highest byte first. */
  function Sum32High(b: seq<Byte>): (r: Uint32)
    requires 1 <= |b| <= 4
    ensures r == FromHigh(b)
  {
    Sum32Low(Reverse(b))
  }

  /** `mi_uint2korr` to `mi_uint8korr`: beyond four bytes, two 32-bit sums. */
  function MiUintKorr(b: seq<Byte>, n: nat): (r: nat)
    requires 2 <= n <= 8 && n <= |b|
    ensures r == FromHigh(b[..n])
  {
    if n <= 4 then Sum32High(b[..n])
    else
      FromHighJoin(b[..n - 4], b[n - 4..n]);
      assert b[..n - 4] + b[n - 4..n] == b[..n];
      FourDigits();
      Sum32High(b[n - 4..n]) + Sum32High(b[..n - 4]) * TWO_32
  }

  lemma FourDigits()
    ensures Pow256(4) == TWO_32
  {
  }

  /** Portable `uint2korr` to `uint8korr`. */
  function UintKorr(b: seq<Byte>, n: nat): (r: nat)
    requires LowWidth(n) && n <= |b|
    ensures r == FromLow(b[..n])
  {
    if n <= 4 then Sum32Low(b[..n])
    else
      FromLowJoin(b[..4], b[4..n]);
      assert b[..4] + b[4..n] == b[..n];
      FourDigits();
      Sum32Low(b[..4]) + Sum32Low(b[4..n]) * TWO_32
  }

  /** How many bytes the x86 form reads: `uint3korr` reads four. */
  function FastReads(n: nat): nat {
    if n == 3 then 4 else n
  }

  /** The x86 `uint2korr` to `uint8korr` on little-endian memory. */
  function FastUintKorr(b: seq<Byte>, n: nat): (r: nat)
    requires LowWidth(n) && FastReads(n) <= |b|
    ensures r == UintKorr(b, n)
  {
    if n == 3 then
      ThreeOfFour(b, 3);
      And(FromLow(b[..4]), 0xFF_FFFF)
    else if n == 2 || n == 4 || n == 8 then FromLow(b[..n])
    else UintKorr(b, n)
  }

  lemma ThreeOfFour(b: seq<Byte>, n: nat)
    requires n == 3 && |b| >= 4
    ensures And(FromLow(b[..4]), 0xFF_FFFF) == FromLow(b[..n])
  {
    var x, low := FromLow(b[..4]), FromLow(b[..n]);
    assert b[..4] == b[..n] + [b[3]];
    FromLowJoin(b[..n], [b[3]]);
    FromLowIsSmall(b[..n]);
    Powers();
    var m := 24;
    MaskIsLow(x, m);
    LowAndShr(x, m);
    LowIsSmall(x, m);
    assert Pow256(n) == 0x100_0000;
    RemainderIs(x, 0x100_0000, Shr(x, m), Low(x, m));
    RemainderIs(x, 0x100_0000, FromLow([b[3]]), low);
  }

  // ----- signed loads

  predicate SignedWidth(n: nat) {
    n == 2 || n == 3 || n == 4 || n == 8
  }

  /** A byte read through a `char` pointer, whose sign is up to the compiler. */
  function Char(x: Byte, charIsSigned: bool): int {
    if charIsSigned && x >= 128 then x - 256 else x
  }

  /** `(int16) (low + (int16) ((int16) high << 8))`. */
  function Sint2(high: Byte, low: Byte, charIsSigned: bool): (r: int)
    ensures r == Signed(high * 0x100 + low, 2)
  {
    var h := Char(high, charIsSigned) * 0x100;
    SignedOfSum(low, h, 2);
    SignedDropsMultiples(high * 0x100 + low, low + h, if charIsSigned && high >= 128 then -1 else 0, 2);
    Signed(low + Signed(h, 2), 2)
  }

  /** The three-byte form: an explicit sign test, then bits or-ed together. */
  function Sint3(high: Byte, mid: Byte, low: Byte): (r: int)
    ensures r == Signed(high * 0x1_0000 + mid * 0x100 + low, 3)
  {
    SignTest(high, 7);
    var m := high * 0x1_0000 + mid * 0x100 + low;
    ThreeDigitRange(m, 3);
    if And(high, 128) != 0 then Joined(255, high, mid, low) - TWO_32 else Joined(0, high, mid, low)
  }

  /** `(int32) (low + (mid << 8) + (mid2 << 16) + ((int32) high << 24))`. */
  function Sint4(high: Byte, mid2: Byte, mid: Byte, low: Byte, charIsSigned: bool): (r: int)
    ensures r == Signed(high * 0x100_0000 + mid2 * 0x1_0000 + mid * 0x100 + low, 4)
  {
    var x := low + mid * 0x100 + mid2 * 0x1_0000 + Char(high, charIsSigned) * 0x100_0000;
    SignedDropsMultiples(high * 0x100_0000 + mid2 * 0x1_0000 + mid * 0x100 + low, x,
                         if charIsSigned && high >= 128 then -1 else 0, 4);
    Signed(x, 4)
  }

  lemma SignedDropsMultiples(x: int, y: int, k: int, n: nat)
    requires y == x + Pow256(n) * k
    ensures Signed(y, n) == Signed(x, n)
  {
    var p := Pow256(n);
    DivisionLaw(x, p);
    assert p * (x / p + k) == p * (x / p) + p * k;
    RemainderIs(y, p, x / p + k, x % p);
  }

  /** Wrapping a summand first makes no difference. */
  lemma SignedOfSum(x: int, y: int, n: nat)
    ensures Signed(x + Signed(y, n), n) == Signed(x + y, n)
  {
    var p := Pow256(n);
    DivisionLaw(y, p);
    var k := if Signed(y, n) == y % p then -(y / p) else -(y / p) - 1;
    assert p * k == if Signed(y, n) == y % p then -(p * (y / p)) else -(p * (y / p)) - p;
    SignedDropsMultiples(x + y, x + Signed(y, n), k, n);
  }

  lemma ThreeDigitRange(m: nat, n: nat)
    requires n == 3 && m < 0x100_0000
    ensures Signed(m, n) == if m >= 0x80_0000 then m - 0x100_0000 else m
  {
    assert Pow256(n) == 0x100_0000;
  }

  lemma SignTest(x: Byte, k: nat)
    requires k == 7
    ensures And(x, 128) != 0 <==> x >= 128
  {
    assert Pow2(k) == 128 && Pow2(k + 1) == 256;
    AndWithOneBit(x, k);
    HighBitsAreClear(x, k);
  }

  /** `mi_sint2korr`, `mi_sint3korr`, `mi_sint4korr` and `mi_sint8korr`. */
  function MiSintKorr(b: seq<Byte>, n: nat, charIsSigned: bool): (r: int)
    requires SignedWidth(n) && n <= |b|
    ensures r == Signed(FromHigh(b[..n]), n)
  {
    if n == 8 then Signed(MiUintKorr(b, 8), 8)
    else
      LowDigits(Reverse(b[..n]));
      if n == 2 then Sint2(b[0], b[1], charIsSigned)
      else if n == 3 then Sint3(b[0], b[1], b[2])
      else Sint4(b[0], b[1], b[2], b[3], charIsSigned)
  }

  /** Portable `sint2korr`, `sint3korr`, `sint4korr` and `sint8korr`. */
  function SintKorr(b: seq<Byte>, n: nat, charIsSigned: bool): (r: int)
    requires SignedWidth(n) && n <= |b|
    ensures r == Signed(FromLow(b[..n]), n)
  {
    if n == 8 then Signed(UintKorr(b, 8), 8)
    else
      LowDigits(b[..n]);
      if n == 2 then Sint2(b[1], b[0], charIsSigned)
      else if n == 3 then Sint3(b[2], b[1], b[0])
      else Sint4(b[3], b[2], b[1], b[0], charIsSigned)
  }

  /** The x86 forms: a signed word access, except for three bytes. */
  function FastSintKorr(b: seq<Byte>, n: nat): (r: int)
    requires SignedWidth(n) && n <= |b|
    ensures forall charIsSigned :: r == SintKorr(b, n, charIsSigned)
  {
    if n == 3 then
      LowDigits(b[..n]);
      Sint3(b[2], b[1], b[0])
    else Signed(FromLow(b[..n]), n)
  }

  // ----- what the families promise together

  /** What was stored high byte first at `off` in a buffer comes back: unsigned modulo 256^n, signed
      as two's complement, and unchanged if it fits. */
  lemma {:induction false} HighRoundTrip(s: seq<Byte>, off: nat, a: int, n: nat, charIsSigned: bool)
    requires 2 <= n <= 8 && off + n <= |s|
    ensures var b := Written(s, off, ToHigh(a, n))[off..];
      && MiUintKorr(b, n) == a % Pow256(n)
      && (SignedWidth(n) ==> MiSintKorr(b, n, charIsSigned) == Signed(a, n))
      && (0 <= a < Pow256(n) ==> MiUintKorr(b, n) == a)
      && (SignedWidth(n) && 0 <= 2 * a + Pow256(n) && 2 * a < Pow256(n) ==> MiSintKorr(b, n, charIsSigned) == a)
  {
    var b := Written(s, off, ToHigh(a, n))[off..];
    assert b[..n] == ToHigh(a, n);
    ReverseTwice(ToLow(a, n));
    FromLowOfToLow(a, n);
    WholeRange(a, n);
  }

  /** The same low byte first, for the portable and for the x86 loads. */
  lemma {:induction false} LowRoundTrip(s: seq<Byte>, off: nat, a: int, n: nat, charIsSigned: bool)
    requires LowWidth(n) && off + n <= |s|
    ensures var b := Written(s, off, ToLow(a, n))[off..];
      && UintKorr(b, n) == a % Pow256(n)
      && (SignedWidth(n) ==> SintKorr(b, n, charIsSigned) == Signed(a, n))
      && (0 <= a < Pow256(n) ==> UintKorr(b, n) == a)
      && (SignedWidth(n) && 0 <= 2 * a + Pow256(n) && 2 * a < Pow256(n) ==> SintKorr(b, n, charIsSigned) == a)
  {
    var b := Written(s, off, ToLow(a, n))[off..];
    assert b[..n] == ToLow(a, n);
    FromLowOfToLow(a, n);
    WholeRange(a, n);
  }

  lemma WholeRange(a: int, n: nat)
    ensures 0 <= a < Pow256(n) ==> a % Pow256(n) == a
    ensures 0 <= 2 * a + Pow256(n) && 2 * a < Pow256(n) ==> Signed(a, n) == a
    ensures Signed(a % Pow256(n), n) == Signed(a, n)
  {
    var p := Pow256(n);
    if 0 <= a < p {
      RemainderIs(a, p, 0, a);
    }
    if 0 <= 2 * a + p && 2 * a < p {
      SignedInRange(a, n);
    }
    DivisionLaw(a, p);
    SignedDropsMultiples(a % p, a, a / p, n);
  }

  /** Loading high byte first is loading the reversed bytes low byte first. */
  lemma {:induction false} LoadsMirror(b: seq<Byte>, n: nat, charIsSigned: bool)
    requires LowWidth(n) && |b| == n
    ensures MiUintKorr(b, n) == UintKorr(Reverse(b), n)
    ensures SignedWidth(n) ==> MiSintKorr(b, n, charIsSigned) == SintKorr(Reverse(b), n, charIsSigned)
  {
    assert b[..n] == b && Reverse(b)[..n] == Reverse(b);
  }

  /** Keys stored high byte first compare as byte strings exactly as their numbers compare. */
  lemma StoredKeysKeepOrder(s: seq<Byte>, offX: nat, offY: nat, t: seq<Byte>, x: nat, y: nat, n: nat)
    requires 2 <= n <= 8 && x < Pow256(n) && y < Pow256(n)
    requires offX + n <= |s| && offY + n <= |t|
    ensures x < y <==> LexBelow(Written(s, offX, ToHigh(x, n))[offX..offX + n],
                                Written(t, offY, ToHigh(y, n))[offY..offY + n])
  {
    HighFirstKeepsOrder(x, y, n);
    assert Written(s, offX, ToHigh(x, n))[offX..offX + n] == ToHigh(x, n);
    assert Written(t, offY, ToHigh(y, n))[offY..offY + n] == ToHigh(y, n);
  }

  // ----- alignment

  /** `MY_ALIGN` in words of `w` bits, where the sum wraps. */
  function MyAlign(a: nat, l: nat, w: nat): nat
    requires 0 < l <= Pow2(w)
  {
    And((a + l - 1) % Pow2(w), Pow2(w) - l)
  }

  /** `MY_DIV_UP`, without wrapping. */
  function MyDivUp(a: nat, b: nat): nat
    requires b > 0
  {
    (a + b - 1) / b
  }

  ghost predicate LeastMultiple(a: nat, l: nat, r: nat)
    requires l > 0
  {
    && r >= a && r % l == 0
    && forall m: nat :: m % l == 0 && m >= a ==> r <= m
  }

  lemma MaskClearsLow(x: nat, k: nat, w: nat)
    requires k <= w && x < Pow2(w)
    ensures Pow2(k) <= Pow2(w) && And(x, Pow2(w) - Pow2(k)) == x - Low(x, k)
  {
    Pow2Monotone(k, w);
    LowAndShr(x, k);
    MaskHighBits(x, k, w);
  }

  lemma {:induction false} MaskHighBits(x: nat, k: nat, w: nat)
    requires k <= w && x < Pow2(w)
    ensures Pow2(k) <= Pow2(w) && And(x, Pow2(w) - Pow2(k)) + Low(x, k) == x
  {
    Pow2Monotone(k, w);
    if k == 0 {
      MaskAll(x, w);
    } else {
      MaskHighBits(x / 2, k - 1, w - 1);
      Pow2Monotone(k - 1, w - 1);
      assert (Pow2(w) - Pow2(k)) / 2 == Pow2(w - 1) - Pow2(k - 1) && (Pow2(w) - Pow2(k)) % 2 == 0;
      ZeroMask(x / 2);
    }
  }

  lemma ZeroMask(x: nat)
    ensures And(x, 0) == 0 && And(0, x) == 0
  {
  }

  lemma MaskAll(x: nat, w: nat)
    requires x < Pow2(w)
    ensures And(x, Pow2(w) - 1) == x
  {
    MaskIsLow(x, w);
    LowIsSmall(x, w);
  }

  lemma MultipleOf(l: nat, q: nat)
    requires l > 0
    ensures (l * q) % l == 0
  {
    RemainderIs(l * q, l, q, 0);
  }

  lemma {:induction false} DivUpIsLeast(a: nat, l: nat)
    requires l > 0
    ensures LeastMultiple(a, l, l * MyDivUp(a, l)) && a <= l * MyDivUp(a, l) < a + l
  {
    var q := MyDivUp(a, l);
    DivisionLaw(a + l - 1, l);
    MultipleOf(l, q);
    forall m: nat | m % l == 0 && m >= a ensures l * q <= m {
      DivisionLaw(m, l);
      NextMultiple(l, q, m / l);
    }
  }

  lemma NextMultiple(l: nat, q: nat, r: nat)
    ensures if q <= r then l * q <= l * r else l * r + l <= l * q
  {
    if q <= r {
      assert l * r == l * q + l * (r - q);
    } else {
      assert l * q == l * r + l + l * (q - r - 1);
    }
  }

  /** For a power of two, the mask form is the division form and the least multiple not below `a`,
      exactly when the sum does not wrap. */
  lemma {:induction false} AlignIsLeastMultipleIff(a: nat, k: nat, w: nat)
    requires k <= w && a < Pow2(w)
    ensures Pow2(k) <= Pow2(w)
    ensures var l := Pow2(k);
      && (LeastMultiple(a, l, MyAlign(a, l, w)) <==> a + l - 1 < Pow2(w))
      && (a + l - 1 < Pow2(w) ==> MyAlign(a, l, w) == l * MyDivUp(a, l))
  {
    Pow2Monotone(k, w);
    if a + Pow2(k) - 1 < Pow2(w) {
      AlignWithoutWrap(a, k, w);
    } else {
      AlignWraps(a, k, w);
    }
  }

  lemma AlignWithoutWrap(a: nat, k: nat, w: nat)
    requires k <= w && Pow2(k) <= Pow2(w) && a + Pow2(k) - 1 < Pow2(w)
    ensures MyAlign(a, Pow2(k), w) == Pow2(k) * MyDivUp(a, Pow2(k))
    ensures LeastMultiple(a, Pow2(k), MyAlign(a, Pow2(k), w))
  {
    var s, l := a + Pow2(k) - 1, Pow2(k);
    RemainderIs(s, Pow2(w), 0, s);
    MaskClearsLow(s, k, w);
    LowAndShr(s, k);
    LowIsSmall(s, k);
    QuotientIs(s, l, Shr(s, k), Low(s, k));
    DivUpIsLeast(a, l);
  }

  lemma AlignWraps(a: nat, k: nat, w: nat)
    requires k <= w && Pow2(k) <= Pow2(w) && a < Pow2(w) <= a + Pow2(k) - 1
    ensures MyAlign(a, Pow2(k), w) == 0
  {
    var s := a + Pow2(k) - 1 - Pow2(w);
    RemainderIs(a + Pow2(k) - 1, Pow2(w), 1, s);
    MaskClearsLow(s, k, w);
    LowIsSmall(s, k);
  }

  lemma QuotientIs(x: nat, d: nat, q: nat, r: nat)
    requires d > 0 && x == r + d * q && r < d
    ensures x / d == q
  {
    DivisionLaw(x, d);
    RemainderIs(x, d, q, r);
    SameFactor(d, x / d, q);
  }
}
