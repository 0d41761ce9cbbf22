/** The bitmap of include/my_bitmap.h: single bits reached through bytes, a whole-map comparison
    that works on 32-bit words of little-endian memory. */
module Bitmap {
  import opened Words
  import opened Bytes

  /** Bit `i` of a bitmap stored in bytes. */
  predicate BitAt(b: seq<Byte>, i: nat)
    requires i < 8 * |b|
  {
    Bit(b[i / 8], i % 8)
  }

  /** The set of numbers below `n` that a bitmap stands for. */
  function Members(b: seq<Byte>, n: nat): set<nat>
    requires n <= 8 * |b|
  {
    set i: nat | i < n && BitAt(b, i)
  }

  /** `1 << (bit & 7)`. */
  function Mask(bit: nat): (m: Byte)
    ensures m == Pow2(bit % 8)
  {
    SmallPowers(bit % 8);
    LowThreeBits(bit, 3);
    Pow2(And(bit, 7))
  }

  lemma LowThreeBits(x: nat, k: nat)
    requires k == 3
    ensures And(x, 7) == x % 8
  {
    assert Pow2(k) == 8;
    MaskIsLow(x, k);
    LowAndShr(x, k);
    LowIsSmall(x, k);
    RemainderIs(x, 8, Shr(x, k), Low(x, k));
  }

  lemma SmallPowers(k: nat)
    requires k < 8
    ensures Pow2(k) < 256
  {
    Pow2Monotone(k, 7);
    assert Pow2(7) == 128;
  }

  function OrByte(x: Byte, m: Byte): (r: Byte)
    ensures r == Or(x, m)
  {
    Powers();
    OrIsSmall(x, m, 8);
    Or(x, m)
  }

  function XorByte(x: Byte, m: Byte): (r: Byte)
    ensures r == Xor(x, m)
  {
    Powers();
    XorIsSmall(x, m, 8);
    Xor(x, m)
  }

  /** `x & ~m`. */
  function AndNotByte(x: Byte, m: Byte): (r: Byte)
    ensures r == And(x, 255 - m)
  {
    AndIsSmall(x, 255 - m);
    And(x, 255 - m)
  }

  datatype BitOp = Set(bit: nat) | Flip(bit: nat) | Clear(bit: nat) | SetAll | ClearAll

  /** A single-bit operation names a bit of the map. */
  predicate InRange(op: BitOp, n: nat) {
    op.SetAll? || op.ClearAll? || op.bit < n
  }

  /** What an operation does to the bytes. */
  function OnBytes(b: seq<Byte>, op: BitOp): (r: seq<Byte>)
    requires InRange(op, 8 * |b|)
    ensures |r| == |b|
  {
    match op
    case Set(i) => b[i / 8 := OrByte(b[i / 8], Mask(i))]
    case Flip(i) => b[i / 8 := XorByte(b[i / 8], Mask(i))]
    case Clear(i) => b[i / 8 := AndNotByte(b[i / 8], Mask(i))]
    case SetAll => seq(|b|, _ => 0xFF)
    case ClearAll => seq(|b|, _ => 0)
  }

  /** All numbers below `n`. */
  function AllBelow(n: nat): (s: set<nat>)
    ensures forall i: nat :: i in s <==> i < n
  {
    if n == 0 then {} else AllBelow(n - 1) + {n - 1}
  }

  /** What it means for the set. */
  function OnSet(s: set<nat>, op: BitOp, n: nat): set<nat> {
    match op
    case Set(i) => s + {i}
    case Flip(i) => if i in s then s - {i} else s + {i}
    case Clear(i) => s - {i}
    case SetAll => AllBelow(n)
    case ClearAll => {}
  }

  lemma BitOfByteOp(x: Byte, k: nat, j: nat)
    requires k < 8 && j < 8
    ensures Pow2(k) < 256
    ensures Bit(Or(x, Pow2(k)), j) <==> Bit(x, j) || j == k
    ensures Bit(Xor(x, Pow2(k)), j) <==> (Bit(x, j) != (j == k))
    ensures Bit(And(x, 255 - Pow2(k)), j) <==> Bit(x, j) && j != k
  {
    SmallPowers(k);
    BitOfPow2(k, j);
    BitOfOr(x, Pow2(k), j);
    BitOfXor(x, Pow2(k), j);
    BitOfAnd(x, 255 - Pow2(k), j);
    BitOfComplement(Pow2(k), 8, j);
  }

  /** `~m` in `n` bits. */
  lemma {:induction false} BitOfComplement(m: nat, n: nat, j: nat)
    requires m < Pow2(n) && j < n
    ensures Bit(Pow2(n) - 1 - m, j) <==> !Bit(m, j)
  {
    if j != 0 {
      BitOfComplement(m / 2, n - 1, j - 1);
      assert (Pow2(n) - 1 - m) / 2 == Pow2(n - 1) - 1 - m / 2;
    }
  }

  lemma BitAfter(b: seq<Byte>, op: BitOp, i: nat)
    requires InRange(op, 8 * |b|) && i < 8 * |b|
    ensures BitAt(OnBytes(b, op), i) <==>
            match op
            case Set(k) => BitAt(b, i) || i == k
            case Flip(k) => BitAt(b, i) != (i == k)
            case Clear(k) => BitAt(b, i) && i != k
            case SetAll => true
            case ClearAll => false
  {
    match op
    case SetAll =>
      Powers();
      BitOfPow2(8, i % 8);
    case ClearAll =>
      BitOfZero(i % 8);
    case _ =>
      BitOfByteOp(b[op.bit / 8], op.bit % 8, i % 8);
  }

  lemma BitsAfter(b: seq<Byte>, op: BitOp)
    requires InRange(op, 8 * |b|) && !op.SetAll? && !op.ClearAll?
    ensures forall i: nat :: i < 8 * |b| ==>
              (Bit(OnBytes(b, op)[i / 8], i % 8) <==>
               match op
               case Set(k) => i == k || Bit(b[i / 8], i % 8)
               case Flip(k) => (i == k) != Bit(b[i / 8], i % 8)
               case Clear(k) => i != k && Bit(b[i / 8], i % 8)
               case _ => false)
  {
    forall i: nat | i < 8 * |b|
      ensures Bit(OnBytes(b, op)[i / 8], i % 8) <==>
              match op
              case Set(k) => i == k || Bit(b[i / 8], i % 8)
              case Flip(k) => (i == k) != Bit(b[i / 8], i % 8)
              case Clear(k) => i != k && Bit(b[i / 8], i % 8)
              case _ => false
    {
      BitAfter(b, op, i);
    }
  }

  /** Each operation on the bytes is the operation on the set. */
  lemma OpRefinesSet(b: seq<Byte>, op: BitOp, n: nat)
    requires n <= 8 * |b| && InRange(op, n)
    ensures Members(OnBytes(b, op), n) == OnSet(Members(b, n), op, n)
  {
    forall i: nat | i < n ensures i in Members(OnBytes(b, op), n) <==> i in OnSet(Members(b, n), op, n) {
      BitAfter(b, op, i);
    }
  }

  function RunBytes(b: seq<Byte>, ops: seq<BitOp>, n: nat): (r: seq<Byte>)
    requires n <= 8 * |b| && forall i :: 0 <= i < |ops| ==> InRange(ops[i], n)
    ensures |r| == |b|
    decreases ops
  {
    if ops == [] then b else assert InRange(ops[0], n); RunBytes(OnBytes(b, ops[0]), ops[1..], n)
  }

  function RunSet(s: set<nat>, ops: seq<BitOp>, n: nat): set<nat>
    decreases ops
  {
    if ops == [] then s else RunSet(OnSet(s, ops[0], n), ops[1..], n)
  }

  /** So is any run of operations, from any contents, unused tail bits included. */
  lemma {:induction false} RunRefinesSet(b: seq<Byte>, ops: seq<BitOp>, n: nat)
    requires n <= 8 * |b| && forall i :: 0 <= i < |ops| ==> InRange(ops[i], n)
    ensures Members(RunBytes(b, ops, n), n) == RunSet(Members(b, n), ops, n)
    decreases ops
  {
    if ops != [] {
      OpRefinesSet(b, ops[0], n);
      RunRefinesSet(OnBytes(b, ops[0]), ops[1..], n);
    }
  }

  lemma {:induction false} RunsCompose(b: seq<Byte>, first: seq<BitOp>, ops: seq<BitOp>, n: nat)
    requires n <= 8 * |b| && forall i :: 0 <= i < |first + ops| ==> InRange((first + ops)[i], n)
    ensures forall i :: 0 <= i < |first| ==> InRange(first[i], n)
    ensures forall i :: 0 <= i < |ops| ==> InRange(ops[i], n)
    ensures RunBytes(b, first + ops, n) == RunBytes(RunBytes(b, first, n), ops, n)
    decreases first
  {
    forall i | 0 <= i < |first| ensures InRange(first[i], n) {
      assert (first + ops)[i] == first[i];
    }
    forall i | 0 <= i < |ops| ensures InRange(ops[i], n) {
      assert (first + ops)[|first| + i] == ops[i];
    }
    if first == [] {
      assert first + ops == ops;
    } else {
      assert (first + ops)[1..] == first[1..] + ops;
      RunsCompose(OnBytes(b, first[0]), first[1..], ops, n);
    }
  }

  /** The operation names bit `i`, or all bits. */
  predicate Touches(op: BitOp, i: nat) {
    op.SetAll? || op.ClearAll? || op.bit == i
  }

  lemma {:induction false} UntouchedBitStays(b: seq<Byte>, ops: seq<BitOp>, n: nat, i: nat)
    requires n <= 8 * |b| && i < 8 * |b| && forall k :: 0 <= k < |ops| ==> InRange(ops[k], n)
    requires forall k :: 0 <= k < |ops| ==> !Touches(ops[k], i)
    ensures BitAt(RunBytes(b, ops, n), i) <==> BitAt(b, i)
    decreases ops
  {
    if ops != [] {
      BitAfter(b, ops[0], i);
      UntouchedBitStays(OnBytes(b, ops[0]), ops[1..], n, i);
    }
  }

  /** In any run, the last operation that names a bit decides what the bit is in the end. */
  lemma {:induction false} LastTouchDecides(b: seq<Byte>, first: seq<BitOp>, op: BitOp, rest: seq<BitOp>,
                                            n: nat, i: nat)
    requires n <= 8 * |b| && i < 8 * |b| && InRange(op, n)
    requires forall k :: 0 <= k < |first| ==> InRange(first[k], n)
    requires forall k :: 0 <= k < |rest| ==> InRange(rest[k], n)
    requires Touches(op, i) && forall k :: 0 <= k < |rest| ==> !Touches(rest[k], i)
    ensures forall k :: 0 <= k < |first + [op] + rest| ==> InRange((first + [op] + rest)[k], n)
    ensures BitAt(RunBytes(b, first + [op] + rest, n), i) <==>
            match op
            case Set(_) => true
            case SetAll => true
            case Clear(_) => false
            case ClearAll => false
            case Flip(_) => !BitAt(RunBytes(b, first, n), i)
  {
    var before := RunBytes(b, first, n);
    RunsCompose(b, first + [op], rest, n);
    RunsCompose(b, first, [op], n);
    assert [op][1..] == [];
    assert RunBytes(before, [op], n) == OnBytes(before, op);
    BitAfter(before, op, i);
    UntouchedBitStays(OnBytes(before, op), rest, n, i);
  }

  // ----- comparison

  /** `mask` has exactly the bits of the last word that lie beyond the `n` bits of the map. */
  ghost predicate MaskOk(mask: Uint32, n: nat, words: nat) {
    && 0 < words && 32 * (words - 1) < n <= 32 * words
    && forall j: nat :: j < 32 ==> (Bit(mask, j) <==> 32 * (words - 1) + j >= n)
  }

  /** Such a mask exists for every size. */
  lemma MaskExists(n: nat, words: nat) returns (mask: Uint32)
    requires 0 < words && 32 * (words - 1) < n <= 32 * words
    ensures MaskOk(mask, n, words)
  {
    var used := n - 32 * (words - 1);
    Powers();
    Pow2Monotone(used, 32);
    mask := Pow2(32) - 1 - (Pow2(used) - 1);
    forall j: nat | j < 32 ensures Bit(mask, j) <==> j >= used {
      BitOfComplement(Pow2(used) - 1, 32, j);
      BitOfPow2(used, j);
    }
  }

  /** The last word of `b`, or-ed with the mask and written back. */
  function WithTail(b: seq<Byte>, mask: Uint32): (r: seq<Byte>)
    requires |b| >= 4
    ensures |r| == |b|
  {
    b[..|b| - 4] + ToLow(Or(FromLow(b[|b| - 4..]), mask), 4)
  }

  lemma {:induction false} BitOfJoin(l: nat, r: nat, m: nat, i: nat)
    requires l < Pow2(m)
    ensures Bit(l + Pow2(m) * r, i) <==> if i < m then Bit(l, i) else Bit(r, i - m)
  {
    if m != 0 {
      var x := l + Pow2(m) * r;
      assert x == l + 2 * (Pow2(m - 1) * r);
      assert x / 2 == l / 2 + Pow2(m - 1) * r && x % 2 == l % 2;
      if i != 0 {
        BitOfJoin(l / 2, r, m - 1, i - 1);
      }
    }
  }

  /** On little-endian memory the bits of a word are the bits of its bytes, in order. */
  lemma {:induction false} BitOfWord(b: seq<Byte>, i: nat)
    ensures Bit(FromLow(b), i) <==> i < 8 * |b| && BitAt(b, i)
  {
    if b == [] {
      BitOfZero(i);
    } else {
      Powers();
      BitOfJoin(b[0], FromLow(b[1..]), 8, i);
      if i >= 8 {
        BitOfWord(b[1..], i - 8);
        assert (i - 8) / 8 == i / 8 - 1 && (i - 8) % 8 == i % 8;
      }
    }
  }

  lemma BitOfWritten(x: nat, n: nat, i: nat)
    requires x < Pow256(n) && i < 8 * n
    ensures BitAt(ToLow(x, n), i) <==> Bit(x, i)
  {
    FromLowOfToLow(x, n);
    RemainderIs(x, Pow256(n), 0, x);
    BitOfWord(ToLow(x, n), i);
  }

  lemma BitOfTail(b: seq<Byte>, mask: Uint32, i: nat)
    requires |b| >= 4 && i < 8 * |b|
    ensures var start := 8 * (|b| - 4);
      BitAt(WithTail(b, mask), i) <==> BitAt(b, i) || (i >= start && Bit(mask, i - start))
  {
    var start, last := 8 * (|b| - 4), b[|b| - 4..];
    if i >= start {
      Powers();
      FromLowIsSmall(last);
      assert Pow256(4) == TWO_32;
      OrIsSmall(FromLow(last), mask, 32);
      BitOfWritten(Or(FromLow(last), mask), 4, i - start);
      BitOfOr(FromLow(last), mask, i - start);
      BitOfWord(last, i - start);
      assert (i - start) / 8 == i / 8 - (|b| - 4) && (i - start) % 8 == i % 8;
    }
  }

  /** Every bit beyond the map is set. */
  ghost predicate TailSet(b: seq<Byte>, n: nat) {
    forall i: nat :: n <= i < 8 * |b| ==> BitAt(b, i)
  }

  /** The in-place or changes no member and sets the whole tail. */
  lemma TailKeepsMembers(b: seq<Byte>, mask: Uint32, n: nat, words: nat)
    requires |b| == 4 * words && MaskOk(mask, n, words)
    ensures Members(WithTail(b, mask), n) == Members(b, n) && TailSet(WithTail(b, mask), n)
  {
    forall i: nat | i < 8 * |b| ensures BitAt(WithTail(b, mask), i) <==> (if i < n then BitAt(b, i) else true) {
      BitOfTail(b, mask, i);
    }
  }

  lemma SameBitsSameBytes(a: seq<Byte>, b: seq<Byte>)
    requires |a| == |b| && forall i: nat :: i < 8 * |a| ==> (BitAt(a, i) <==> BitAt(b, i))
    ensures a == b
  {
    forall k | 0 <= k < |a| ensures a[k] == b[k] {
      forall j: nat ensures Bit(a[k], j) <==> Bit(b[k], j) {
        if j < 8 {
          assert BitAt(a, 8 * k + j) <==> BitAt(b, 8 * k + j);
        } else {
          ByteHasEightBits(a[k], j);
          ByteHasEightBits(b[k], j);
        }
      }
      BitsDetermine(a[k], b[k]);
    }
  }

  lemma ByteHasEightBits(x: Byte, j: nat)
    requires j >= 8
    ensures !Bit(x, j)
  {
    Powers();
    Pow2Monotone(8, j);
    HighBitsAreClear(x, j);
  }

  /** With the tails set, comparing bytes compares the sets. */
  lemma EqualBytesIffEqualSets(a: seq<Byte>, b: seq<Byte>, n: nat)
    requires |a| == |b| && n <= 8 * |a| && TailSet(a, n) && TailSet(b, n)
    ensures a == b <==> Members(a, n) == Members(b, n)
  {
    if Members(a, n) == Members(b, n) {
      forall i: nat | i < 8 * |a| ensures BitAt(a, i) <==> BitAt(b, i) {
        assert i < n ==> (i in Members(a, n) <==> i in Members(b, n));
      }
      SameBitsSameBytes(a, b);
    }
  }

  class MyBitmap {
    const bitmap: array<Byte>
    const nBits: Uint32
    const lastWordMask: Uint32

    /** The buffer has whole words, and the mask covers the unused bits of the last one. */
    ghost predicate Valid() {
      && nBits + 31 < TWO_32
      && bitmap.Length == 4 * NoWords(nBits)
      && MaskOk(lastWordMask, nBits, NoWords(nBits))
    }

    ghost function Contents(): set<nat>
      requires Valid()
      reads bitmap
    {
      Members(bitmap[..], nBits)
    }

    constructor (bitmap: array<Byte>, nBits: Uint32, lastWordMask: Uint32)
      requires nBits + 31 < TWO_32 && bitmap.Length == 4 * NoWords(nBits)
      requires MaskOk(lastWordMask, nBits, NoWords(nBits))
      ensures Valid() && this.bitmap == bitmap && this.nBits == nBits
    {
      this.bitmap := bitmap;
      this.nBits := nBits;
      this.lastWordMask := lastWordMask;
    }

    method SetBit(bit: nat)
      requires Valid() && bit < nBits
      modifies bitmap
      ensures bitmap[..] == OnBytes(old(bitmap[..]), Set(bit))
      ensures forall i: nat :: i < 8 * bitmap.Length ==>
                (Bit(bitmap[i / 8], i % 8) <==> i == bit || old(Bit(bitmap[i / 8], i % 8)))
      ensures Contents() == old(Contents()) + {bit}
    {
      OpRefinesSet(bitmap[..], Set(bit), nBits);
      BitsAfter(bitmap[..], Set(bit));
      bitmap[bit / 8] := OrByte(bitmap[bit / 8], Mask(bit));
    }

    method FlipBit(bit: nat)
      requires Valid() && bit < nBits
      modifies bitmap
      ensures bitmap[..] == OnBytes(old(bitmap[..]), Flip(bit))
      ensures forall i: nat :: i < 8 * bitmap.Length ==>
                (Bit(bitmap[i / 8], i % 8) <==> (i == bit) != old(Bit(bitmap[i / 8], i % 8)))
      ensures Contents() == old(if bit in Contents() then Contents() - {bit} else Contents() + {bit})
    {
      OpRefinesSet(bitmap[..], Flip(bit), nBits);
      BitsAfter(bitmap[..], Flip(bit));
      bitmap[bit / 8] := XorByte(bitmap[bit / 8], Mask(bit));
    }

    method ClearBit(bit: nat)
      requires Valid() && bit < nBits
      modifies bitmap
      ensures bitmap[..] == OnBytes(old(bitmap[..]), Clear(bit))
      ensures forall i: nat :: i < 8 * bitmap.Length ==>
                (Bit(bitmap[i / 8], i % 8) <==> i != bit && old(Bit(bitmap[i / 8], i % 8)))
      ensures Contents() == old(Contents()) - {bit}
    {
      OpRefinesSet(bitmap[..], Clear(bit), nBits);
      BitsAfter(bitmap[..], Clear(bit));
      bitmap[bit / 8] := AndNotByte(bitmap[bit / 8], Mask(bit));
    }

    /** Non-zero, and then the bit's place value in its byte, exactly for members. */
    function IsSet(bit: nat): (r: nat)
      requires Valid() && bit < nBits
      reads bitmap
      ensures r == if bit in Contents() then Pow2(bit % 8) else 0
      ensures r != 0 <==> Bit(bitmap[bit / 8], bit % 8)
    {
      AndWithOneBit(bitmap[bit / 8], bit % 8);
      And(bitmap[bit / 8], Mask(bit))
    }

    method SetAllBits()
      requires Valid()
      modifies bitmap
      ensures bitmap[..] == OnBytes(old(bitmap[..]), SetAll)
      ensures forall i :: 0 <= i < bitmap.Length ==> bitmap[i] == 0xFF
      ensures Contents() == AllBelow(nBits) && forall i: nat :: i in Contents() <==> i < nBits
    {
      OpRefinesSet(bitmap[..], SetAll, nBits);
      Fill(bitmap, 0xFF);
    }

    method ClearAllBits()
      requires Valid()
      modifies bitmap
      ensures bitmap[..] == OnBytes(old(bitmap[..]), ClearAll)
      ensures forall i :: 0 <= i < bitmap.Length ==> bitmap[i] == 0
      ensures Contents() == {}
    {
      OpRefinesSet(bitmap[..], ClearAll, nBits);
      Fill(bitmap, 0);
    }

    /** `*last_word_ptr|= last_word_mask`. */
    method SetTail()
      requires Valid()
      modifies bitmap
      ensures bitmap[..] == WithTail(old(bitmap[..]), lastWordMask)
      ensures Contents() == old(Contents()) && TailSet(bitmap[..], nBits)
    {
      TailKeepsMembers(bitmap[..], lastWordMask, nBits, NoWords(nBits));
      OrLastWord(bitmap, lastWordMask);
    }
  }

  method OrLastWord(a: array<Byte>, mask: Uint32)
    requires a.Length >= 4
    modifies a
    ensures a[..] == WithTail(old(a[..]), mask)
  {
    var n := a.Length;
    var word := ToLow(Or(FromLow(a[n - 4..]), mask), 4);
    a[n - 4], a[n - 3], a[n - 2], a[n - 1] := word[0], word[1], word[2], word[3];
    assert a[..] == old(a[..])[..n - 4] + word;
  }

  /** `memset` over a whole buffer. */
  method Fill(a: array<Byte>, x: Byte)
    modifies a
    ensures a[..] == seq(a.Length, _ => x)
  {
    forall k | 0 <= k < a.Length {
      a[k] := x;
    }
  }

  /** `bitmap_cmp`: true exactly for equal sets, and neither set changes, even when the two maps
      share one buffer. */
  method BitmapCmp(map1: MyBitmap, map2: MyBitmap) returns (equal: bool)
    requires map1.Valid() && map2.Valid() && map1.nBits == map2.nBits
    modifies map1.bitmap, map2.bitmap
    ensures equal <==> old(map1.Contents() == map2.Contents())
    ensures map1.Contents() == old(map1.Contents()) && map2.Contents() == old(map2.Contents())
  {
    map1.SetTail();
    map2.SetTail();
    EqualBytesIffEqualSets(map1.bitmap[..], map2.bitmap[..], map1.nBits);
    equal := map1.bitmap[..] == map2.bitmap[..];
  }

  // ----- sizes

  /** `no_words_in_map`. */
  function NoWords(nBits: Uint32): nat {
    Add32(nBits, 31) / 32
  }

  /** `no_bytes_in_map`. */
  function NoBytes(nBits: Uint32): Uint32 {
    Add32(nBits, 7) / 8
  }

  /** `bytes_word_aligned`. */
  function BytesWordAligned(bytes: Uint32): nat {
    4 * (Add32(bytes, 3) / 4)
  }

  /** `bitmap_buffer_size`. */
  function BitmapBufferSize(bits: Uint32): nat {
    Add32(bits, 31) / 32 * 4
  }

  /** What each size is for, exactly where its sum does not wrap: whole bytes for all bits, whole
      words for all bytes, and whole words for all bits, with nothing to spare. */
  lemma SizesAreLeastIff(n: Uint32)
    ensures n <= 8 * NoBytes(n) < n + 8 <==> n + 7 < TWO_32
    ensures BytesWordAligned(n) % 4 == 0 && (n <= BytesWordAligned(n) < n + 4 <==> n + 3 < TWO_32)
    ensures BitmapBufferSize(n) % 4 == 0 && (n <= 8 * BitmapBufferSize(n) < n + 32 <==> n + 31 < TWO_32)
    ensures BitmapBufferSize(n) == 4 * NoWords(n)
  {
  }

  /** The buffer of a map has the advertised size, and room for every bit of the map. */
  lemma BufferHasRoom(map1: MyBitmap)
    requires map1.Valid()
    ensures map1.bitmap.Length == BitmapBufferSize(map1.nBits) == BytesWordAligned(NoBytes(map1.nBits))
    ensures map1.nBits <= 8 * map1.bitmap.Length < map1.nBits + 32
  {
    SizesAreLeastIff(map1.nBits);
    SizesAgreeIff(map1.nBits);
  }

  /** The two ways of sizing a buffer agree, except where only the one that adds 31 wraps. */
  lemma SizesAgreeIff(nBits: Uint32)
    ensures BytesWordAligned(NoBytes(nBits)) == BitmapBufferSize(nBits)
            <==> !(TWO_32 - 31 <= nBits <= TWO_32 - 8)
  {
    if nBits + 7 < TWO_32 {
      assert NoBytes(nBits) == (nBits + 7) / 8;
      assert BytesWordAligned(NoBytes(nBits)) == 4 * (((nBits + 7) / 8 + 3) / 4);
      RoundUpTwice(nBits);
    } else {
      assert NoBytes(nBits) == 0;
    }
  }

  /** Rounding up to bytes and then to words is rounding up to words. */
  lemma RoundUpTwice(n: nat)
    ensures ((n + 7) / 8 + 3) / 4 == (n + 31) / 32
  {
  }
}
