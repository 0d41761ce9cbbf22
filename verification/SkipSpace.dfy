/** `skip_trailing_space` of include/m_string.h: dropping trailing spaces a word at a time. */
module SkipSpace {
  import opened Words
  import opened Bytes

  const SPACE: Byte := 0x20

  /** How much of `s` is left without its trailing spaces: the plain backwards loop. */
  function Trimmed(s: seq<Byte>): nat {
    if s != [] && s[|s| - 1] == SPACE then Trimmed(s[..|s| - 1]) else |s|
  }

  /** What the plain loop computes, said without it. */
  ghost predicate IsTrimmed(s: seq<Byte>, n: nat) {
    && n <= |s|
    && (forall i :: n <= i < |s| ==> s[i] == SPACE)
    && (n > 0 ==> s[n - 1] != SPACE)
  }

  lemma {:induction false} TrimmedCharacterized(s: seq<Byte>, n: nat)
    ensures IsTrimmed(s, n) <==> n == Trimmed(s)
  {
    if s != [] && s[|s| - 1] == SPACE {
      var front := s[..|s| - 1];
      TrimmedCharacterized(front, n);
      if n < |s| {
        assert IsTrimmed(s, n) <==> IsTrimmed(front, n);
      }
    } else if n < |s| {
      assert s[|s| - 1] != SPACE;
    }
  }

  /** A word of `size` bytes as the machine reads it. */
  function Word(b: seq<Byte>, bigEndian: bool): nat {
    FromLow(if bigEndian then Reverse(b) else b)
  }

  /** `SPACE_INT`. */
  function SpaceInt(size: nat): nat
    requires size == 4 || size == 8
  {
    if size == 4 then 0x2020_2020 else 0x2020_2020_2020_2020
  }

  ghost predicate AllSpaces(b: seq<Byte>) {
    forall i :: 0 <= i < |b| ==> b[i] == SPACE
  }

  /** One comparison of words stands for `size` comparisons of bytes, in either byte order. */
  lemma WordOfSpaces(b: seq<Byte>, bigEndian: bool)
    requires |b| == 4 || |b| == 8
    ensures Word(b, bigEndian) == SpaceInt(|b|) <==> AllSpaces(b)
  {
    var spaces := seq(|b|, i => SPACE);
    SpacesValue(spaces);
    var read := if bigEndian then Reverse(b) else b;
    if AllSpaces(b) {
      assert read == spaces;
    }
    if Word(b, bigEndian) == SpaceInt(|b|) {
      FromLowInjective(read, spaces);
      forall i | 0 <= i < |b| ensures b[i] == SPACE {
        assert read[if bigEndian then |b| - 1 - i else i] == SPACE;
      }
    }
  }

  lemma FromLowOfFour(s: seq<Byte>)
    requires |s| >= 4
    ensures FromLow(s) == s[0] + 0x100 * s[1] + 0x1_0000 * s[2] + 0x100_0000 * s[3] + 0x1_0000_0000 * FromLow(s[4..])
  {
    assert s[1..][1..] == s[2..] && s[2..][1..] == s[3..] && s[3..][1..] == s[4..];
  }

  lemma SpacesValue(s: seq<Byte>)
    requires |s| == 4 || |s| == 8
    requires AllSpaces(s)
    ensures FromLow(s) == SpaceInt(|s|)
  {
    if |s| == 8 {
      var t := s[4..];
      SpacesValue(t);
      FromLowOfFour(s);
    } else {
      FromLowOfFour(s);
      assert FromLow(s[4..]) == 0;
    }
  }

  lemma SkipsSpaces(buf: seq<Byte>, k: int, size: nat, bigEndian: bool)
    requires size == 4 || size == 8
    requires size <= k <= |buf| && Word(buf[k - size..k], bigEndian) == SpaceInt(size)
    ensures forall i :: k - size <= i < k ==> buf[i] == SPACE
  {
    var word := buf[k - size..k];
    WordOfSpaces(word, bigEndian);
    forall i | k - size <= i < k ensures buf[i] == SPACE {
      assert word[i - (k - size)] == buf[i];
    }
  }

  /** The length of `k` words. */
  function Span(k: nat, size: nat): nat {
    if size == 4 then 4 * k else 8 * k
  }

  /** `addr` is a multiple of the word size. */
  ghost predicate Aligned(addr: nat, size: nat) {
    exists m: nat :: addr == Span(m, size)
  }

  /** The last multiple of `size` that is not above `x`. */
  function AlignDown(x: nat, size: nat): (r: nat)
    requires size == 4 || size == 8
    ensures r <= x < r + size && Aligned(r, size)
  {
    assert x / size * size == Span(if size == 4 then x / 4 else x / 8, size);
    x / size * size
  }

  /** The word at `addr`, in a buffer that starts at `ptr`.  A word is read only at a multiple of its
      size and only inside the buffer. */
  function ReadWord(buf: seq<Byte>, ptr: nat, addr: nat, size: nat, bigEndian: bool): nat
    requires Aligned(addr, size) && ptr <= addr && addr + size <= ptr + |buf|
  {
    Word(buf[addr - ptr..addr + size - ptr], bigEndian)
  }

  ghost predicate SpacesFrom(buf: seq<Byte>, k: int) {
    0 <= k <= |buf| && forall i :: k <= i < |buf| ==> buf[i] == SPACE
  }

  /** Different multiples of the word size are at least a word apart. */
  lemma AlignedApart(a: nat, b: nat, size: nat)
    requires (size == 4 || size == 8) && Aligned(a, size) && Aligned(b, size)
    ensures a < b ==> a <= b - size && Aligned(b - size, size)
  {
    if a < b {
      var j: nat, k: nat :| a == Span(j, size) && b == Span(k, size);
      assert b - size == Span(k - 1, size);
    }
  }

  /** The loop over words, from one aligned address down to another. */
  method SkipWords(buf: seq<Byte>, ptr: nat, size: nat, bigEndian: bool, startWords: nat, endWords: nat)
    returns (end: nat)
    requires size == 4 || size == 8
    requires Aligned(startWords, size) && Aligned(endWords, size) && ptr <= startWords <= endWords
    requires SpacesFrom(buf, endWords - ptr)
    ensures startWords <= end <= endWords && SpacesFrom(buf, end - ptr)
  {
    end := endWords;
    AlignedApart(startWords, endWords, size);
    while end > startWords && ReadWord(buf, ptr, end - size, size, bigEndian) == SpaceInt(size)
      invariant startWords <= end <= endWords
      invariant end > startWords ==> startWords <= end - size && Aligned(end - size, size)
      invariant SpacesFrom(buf, end - ptr)
    {
      SkipsSpaces(buf, end - ptr, size, bigEndian);
      end := end - size;
      AlignedApart(startWords, end, size);
    }
  }

  /** `buf` lies in memory at address `ptr`; the result is the address after the last character
      that is not a space.  Every byte and every word read lies inside the buffer, and words are
      read at multiples of their size only. */
  method SkipTrailingSpace(buf: seq<Byte>, ptr: nat, size: nat, bigEndian: bool) returns (end: nat)
    requires size == 4 || size == 8
    requires size <= ptr && ptr + |buf| < TWO_64
    ensures end == ptr + Trimmed(buf) && ptr <= end <= ptr + |buf|
    ensures forall i :: end - ptr <= i < |buf| ==> buf[i] == 0x20
    ensures end > ptr ==> buf[end - 1 - ptr] != 0x20
  {
    end := ptr + |buf|;
    if |buf| > 20 {
      var endWords := AlignDown(end, size);
      var startWords := AlignDown(ptr + size - 1, size);
      if endWords > ptr {
        while end > endWords && buf[end - 1 - ptr] == SPACE
          invariant endWords <= end <= ptr + |buf|
          invariant SpacesFrom(buf, end - ptr)
        {
          end := end - 1;
        }
        if buf[end - 1 - ptr] == SPACE && startWords < endWords {
          end := SkipWords(buf, ptr, size, bigEndian, startWords, end);
        }
      }
    }
    while end > ptr && buf[end - 1 - ptr] == SPACE
      invariant ptr <= end <= ptr + |buf|
      invariant SpacesFrom(buf, end - ptr)
    {
      end := end - 1;
    }
    TrimmedCharacterized(buf, end - ptr);
  }
}
