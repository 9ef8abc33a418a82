/*
 * BitExtensions.GetCardinality: counting the set bits of a BitArray by copying it into
 * 32-bit words, clearing the unused top of the last word and adding up a parallel
 * (SWAR) bit count of every word.
 *
 * A word is a bv32. The C# code works on Int32 with arithmetic right shifts; every shifted
 * value is masked (or, for the final `>> 24`, is at most 32) so that the result is the
 * same as with the logical shifts used here.
 */
module BitCount {

  // ---------------------------------------------------------------------------------
  // Counting true cells of a sequence
  // ---------------------------------------------------------------------------------

  /** The number of true cells of b in [lo, hi). */
  function CountRange(b: seq<bool>, lo: int, hi: int): int
    requires 0 <= lo && hi <= |b|
    decreases hi - lo
  {
    if hi <= lo then 0 else CountRange(b, lo, hi - 1) + (if b[hi - 1] then 1 else 0)
  }

  lemma {:induction false} CountSplit(b: seq<bool>, lo: int, mid: int, hi: int)
    requires 0 <= lo <= mid <= hi <= |b|
    ensures CountRange(b, lo, hi) == CountRange(b, lo, mid) + CountRange(b, mid, hi)
    decreases hi - mid
  {
    if mid < hi {
      CountSplit(b, lo, mid, hi - 1);
    }
  }

  lemma {:induction false} CountBound(b: seq<bool>, lo: int, hi: int)
    requires 0 <= lo <= hi <= |b|
    ensures 0 <= CountRange(b, lo, hi) <= hi - lo
    decreases hi - lo
  {
    if lo < hi {
      CountBound(b, lo, hi - 1);
    }
  }

  /** CountRange only looks at the bits between its bounds. */
  lemma {:induction false} CountSame(b: seq<bool>, c: seq<bool>, lo: int, hi: int)
    requires 0 <= lo && hi <= |b| && hi <= |c|
    requires forall i :: lo <= i < hi ==> b[i] == c[i]
    ensures CountRange(b, lo, hi) == CountRange(c, lo, hi)
    decreases hi - lo
  {
    if lo < hi {
      CountSame(b, c, lo, hi - 1);
    }
  }

  /** The count of set bits agrees with the number of trues in the sequence. */
  lemma {:induction false} CountIsMultiplicity(b: seq<bool>, hi: int)
    requires 0 <= hi <= |b|
    ensures CountRange(b, 0, hi) == multiset(b[..hi])[true]
  {
    if 0 < hi {
      CountIsMultiplicity(b, hi - 1);
      assert b[..hi] == b[..hi - 1] + [b[hi - 1]];
    }
  }

  /** The number of true bits of a bit array. */
  function Cardinality(bits: seq<bool>): (n: nat)
    ensures n <= |bits|
  {
    CountBound(bits, 0, |bits|);
    CountRange(bits, 0, |bits|)
  }

  /** Padding past the end does not change the count, which is the number of trues. */
  lemma PaddedCount(bits: seq<bool>, stale: seq<bool>)
    ensures CountRange(bits + stale, 0, |bits|) == Cardinality(bits) == multiset(bits)[true]
  {
    CountSame(bits, bits + stale, 0, |bits|);
    CountIsMultiplicity(bits, |bits|);
    assert bits[..|bits|] == bits;
  }

  // ---------------------------------------------------------------------------------
  // Words: bit i of a bit array is bit i % 32 of word i / 32
  // ---------------------------------------------------------------------------------

  /** Eight cells from offset o as a byte, the first cell in the lowest bit. */
  function Pack8(b: seq<bool>, o: int): bv32
    requires 0 <= o && o + 8 <= |b|
  {
    (if b[o] then 1 else 0) | (if b[o+1] then 2 else 0) | (if b[o+2] then 4 else 0) | (if b[o+3] then 8 else 0)
    | (if b[o+4] then 0x10 else 0) | (if b[o+5] then 0x20 else 0) | (if b[o+6] then 0x40 else 0) | (if b[o+7] then 0x80 else 0)
  }

  /** Four bytes side by side in a word, the first one lowest. */
  function Join4(p0: bv32, p1: bv32, p2: bv32, p3: bv32): bv32
  {
    p0 | (p1 << 8) | (p2 << 16) | (p3 << 24)
  }

  /** Word k of the cells: cells 32k .. 32k+31. */
  function Word(b: seq<bool>, k: int): bv32
    requires 0 <= k && 32 * k + 32 <= |b|
  {
    Join4(Pack8(b, 32 * k), Pack8(b, 32 * k + 8), Pack8(b, 32 * k + 16), Pack8(b, 32 * k + 24))
  }

  /** The four bytes of a word, lowest first. */
  function Lo0(x: bv32): bv32 { x & 0xFF }
  function Lo1(x: bv32): bv32 { (x >> 8) & 0xFF }
  function Lo2(x: bv32): bv32 { (x >> 16) & 0xFF }
  function Lo3(x: bv32): bv32 { x >> 24 }

  /** The low s bits of a byte set. */
  function ByteMask(s: int): bv32
  {
    if s <= 0 then 0 else if s >= 8 then 0xFF else if s == 1 then 1 else if s == 2 then 3 else if s == 3 then 7
    else if s == 4 then 0xF else if s == 5 then 0x1F else if s == 6 then 0x3F else 0x7F
  }

  function Clamp8(s: int): int { if s <= 0 then 0 else if s >= 8 then 8 else s }

  /** A packed byte with only its low s bits kept. */
  function MaskedPack(b: seq<bool>, o: int, s: int): bv32
    requires 0 <= o && o + 8 <= |b|
  {
    Pack8(b, o) & ByteMask(s)
  }

  lemma Pack8Bits(b: seq<bool>, o: int)
    requires 0 <= o && o + 8 <= |b|
    ensures (Pack8(b, o) & 1 == 1) == b[o]
    ensures ((Pack8(b, o) >> 1) & 1 == 1) == b[o + 1]
    ensures ((Pack8(b, o) >> 2) & 1 == 1) == b[o + 2]
    ensures ((Pack8(b, o) >> 3) & 1 == 1) == b[o + 3]
    ensures ((Pack8(b, o) >> 4) & 1 == 1) == b[o + 4]
    ensures ((Pack8(b, o) >> 5) & 1 == 1) == b[o + 5]
    ensures ((Pack8(b, o) >> 6) & 1 == 1) == b[o + 6]
    ensures ((Pack8(b, o) >> 7) & 1 == 1) == b[o + 7]
    ensures Pack8(b, o) < 0x100
  {}

  lemma Pack8Small(b: seq<bool>, o: int)
    requires 0 <= o && o + 8 <= |b|
    ensures Pack8(b, o) < 0x100
  {}

  lemma MaskBits(s: int)
    requires 0 <= s <= 8
    ensures (ByteMask(s) & 1 == 1) == (0 < s)
    ensures ((ByteMask(s) >> 1) & 1 == 1) == (1 < s)
    ensures ((ByteMask(s) >> 2) & 1 == 1) == (2 < s)
    ensures ((ByteMask(s) >> 3) & 1 == 1) == (3 < s)
    ensures ((ByteMask(s) >> 4) & 1 == 1) == (4 < s)
    ensures ((ByteMask(s) >> 5) & 1 == 1) == (5 < s)
    ensures ((ByteMask(s) >> 6) & 1 == 1) == (6 < s)
    ensures ((ByteMask(s) >> 7) & 1 == 1) == (7 < s)
  {}

  lemma AndBits(x: bv32, m: bv32)
    ensures ((x & m) & 1 == 1) == ((x & 1 == 1) && (m & 1 == 1))
    ensures (((x & m) >> 1) & 1 == 1) == (((x >> 1) & 1 == 1) && ((m >> 1) & 1 == 1))
    ensures (((x & m) >> 2) & 1 == 1) == (((x >> 2) & 1 == 1) && ((m >> 2) & 1 == 1))
    ensures (((x & m) >> 3) & 1 == 1) == (((x >> 3) & 1 == 1) && ((m >> 3) & 1 == 1))
    ensures (((x & m) >> 4) & 1 == 1) == (((x >> 4) & 1 == 1) && ((m >> 4) & 1 == 1))
    ensures (((x & m) >> 5) & 1 == 1) == (((x >> 5) & 1 == 1) && ((m >> 5) & 1 == 1))
    ensures (((x & m) >> 6) & 1 == 1) == (((x >> 6) & 1 == 1) && ((m >> 6) & 1 == 1))
    ensures (((x & m) >> 7) & 1 == 1) == (((x >> 7) & 1 == 1) && ((m >> 7) & 1 == 1))
  {}

  lemma MaskedPackBits(b: seq<bool>, o: int, s: int)
    requires 0 <= o && o + 8 <= |b| && 0 <= s <= 8
    ensures ((Pack8(b, o) & ByteMask(s)) & 1 == 1) == (b[o] && 0 < s)
    ensures (((Pack8(b, o) & ByteMask(s)) >> 1) & 1 == 1) == (b[o + 1] && 1 < s)
    ensures (((Pack8(b, o) & ByteMask(s)) >> 2) & 1 == 1) == (b[o + 2] && 2 < s)
    ensures (((Pack8(b, o) & ByteMask(s)) >> 3) & 1 == 1) == (b[o + 3] && 3 < s)
    ensures (((Pack8(b, o) & ByteMask(s)) >> 4) & 1 == 1) == (b[o + 4] && 4 < s)
    ensures (((Pack8(b, o) & ByteMask(s)) >> 5) & 1 == 1) == (b[o + 5] && 5 < s)
    ensures (((Pack8(b, o) & ByteMask(s)) >> 6) & 1 == 1) == (b[o + 6] && 6 < s)
    ensures (((Pack8(b, o) & ByteMask(s)) >> 7) & 1 == 1) == (b[o + 7] && 7 < s)
  {
    Pack8Bits(b, o);
    MaskBits(s);
    AndBits(Pack8(b, o), ByteMask(s));
  }

  lemma Unroll8(b: seq<bool>, o: int)
    requires 0 <= o && o + 8 <= |b|
    ensures CountRange(b, o, o) == 0
    ensures CountRange(b, o, o + 1) == (if b[o] then 1 else 0)
    ensures CountRange(b, o, o + 2) == CountRange(b, o, o + 1) + (if b[o + 1] then 1 else 0)
    ensures CountRange(b, o, o + 3) == CountRange(b, o, o + 2) + (if b[o + 2] then 1 else 0)
    ensures CountRange(b, o, o + 4) == CountRange(b, o, o + 3) + (if b[o + 3] then 1 else 0)
    ensures CountRange(b, o, o + 5) == CountRange(b, o, o + 4) + (if b[o + 4] then 1 else 0)
    ensures CountRange(b, o, o + 6) == CountRange(b, o, o + 5) + (if b[o + 5] then 1 else 0)
    ensures CountRange(b, o, o + 7) == CountRange(b, o, o + 6) + (if b[o + 6] then 1 else 0)
    ensures CountRange(b, o, o + 8) == CountRange(b, o, o + 7) + (if b[o + 7] then 1 else 0)
  {}

  lemma LoAnd(x: bv32, m: bv32)
    ensures Lo0(x & m) == Lo0(x) & Lo0(m) && Lo1(x & m) == Lo1(x) & Lo1(m)
    ensures Lo2(x & m) == Lo2(x) & Lo2(m) && Lo3(x & m) == Lo3(x) & Lo3(m)
  {}

  lemma JoinLo(p0: bv32, p1: bv32, p2: bv32, p3: bv32)
    requires p0 < 0x100 && p1 < 0x100 && p2 < 0x100 && p3 < 0x100
    ensures Lo0(Join4(p0, p1, p2, p3)) == p0 && Lo1(Join4(p0, p1, p2, p3)) == p1
    ensures Lo2(Join4(p0, p1, p2, p3)) == p2 && Lo3(Join4(p0, p1, p2, p3)) == p3
  {}

  /** The bytes of a packed word. */
  lemma WordBytes(b: seq<bool>, o: int, w: bv32)
    requires 0 <= o && o + 32 <= |b|
    requires w == Join4(Pack8(b, o), Pack8(b, o + 8), Pack8(b, o + 16), Pack8(b, o + 24))
    ensures Lo0(w) == Pack8(b, o) && Lo1(w) == Pack8(b, o + 8) && Lo2(w) == Pack8(b, o + 16) && Lo3(w) == Pack8(b, o + 24)
  {
    Pack8Small(b, o); Pack8Small(b, o + 8); Pack8Small(b, o + 16); Pack8Small(b, o + 24);
    JoinLo(Pack8(b, o), Pack8(b, o + 8), Pack8(b, o + 16), Pack8(b, o + 24));
  }

  /** The bytes of the mask ~(-1 << r). */
  lemma ShiftMask0(r: int) requires 0 <= r < 32 ensures Lo0(!(0xFFFF_FFFF << r)) == ByteMask(Clamp8(r)) {}
  lemma ShiftMask1(r: int) requires 0 <= r < 32 ensures Lo1(!(0xFFFF_FFFF << r)) == ByteMask(Clamp8(r - 8)) {}
  lemma ShiftMask2(r: int) requires 0 <= r < 32 ensures Lo2(!(0xFFFF_FFFF << r)) == ByteMask(Clamp8(r - 16)) {}
  lemma ShiftMask3(r: int) requires 0 <= r < 32 ensures Lo3(!(0xFFFF_FFFF << r)) == ByteMask(Clamp8(r - 24)) {}

  lemma LowMask(r: int, m: bv32)
    requires 0 <= r < 32 && m == !(0xFFFF_FFFF << r)
    ensures Lo0(m) == ByteMask(Clamp8(r)) && Lo1(m) == ByteMask(Clamp8(r - 8))
    ensures Lo2(m) == ByteMask(Clamp8(r - 16)) && Lo3(m) == ByteMask(Clamp8(r - 24))
  {
    ShiftMask0(r); ShiftMask1(r); ShiftMask2(r); ShiftMask3(r);
  }

  // ---------------------------------------------------------------------------------
  // The number of set bits of a word
  // ---------------------------------------------------------------------------------

  function Ind(c: bool): int { if c then 1 else 0 }

  /** The number of set bits among the low eight bits of x. */
  function Bits8(x: bv32): int
  {
    Ind(x & 1 == 1) + Ind((x >> 1) & 1 == 1) + Ind((x >> 2) & 1 == 1) + Ind((x >> 3) & 1 == 1)
    + Ind((x >> 4) & 1 == 1) + Ind((x >> 5) & 1 == 1) + Ind((x >> 6) & 1 == 1) + Ind((x >> 7) & 1 == 1)
  }

  /** The number of set bits of a word. */
  function PopCount(x: bv32): int
  {
    Bits8(Lo0(x)) + Bits8(Lo1(x)) + Bits8(Lo2(x)) + Bits8(Lo3(x))
  }

  lemma MaskedBits8(b: seq<bool>, o: int, s: int)
    requires 0 <= o && o + 8 <= |b| && 0 <= s <= 8
    ensures Bits8(Pack8(b, o) & ByteMask(s)) == CountRange(b, o, o + s)
  {
    MaskedPackBits(b, o, s);
    var x := Pack8(b, o) & ByteMask(s);
    assert Bits8(x) == FirstCells(b, o, s);
    UnrollFirst(b, o, s);
  }

  /** The true cells among the first s of the eight from offset o, counted one by one. */
  function FirstCells(b: seq<bool>, o: int, s: int): int
    requires 0 <= o && o + 8 <= |b|
  {
    Ind(b[o] && 0 < s) + Ind(b[o + 1] && 1 < s) + Ind(b[o + 2] && 2 < s) + Ind(b[o + 3] && 3 < s)
      + Ind(b[o + 4] && 4 < s) + Ind(b[o + 5] && 5 < s) + Ind(b[o + 6] && 6 < s) + Ind(b[o + 7] && 7 < s)
  }

  lemma UnrollFirst(b: seq<bool>, o: int, s: int)
    requires 0 <= o && o + 8 <= |b| && 0 <= s <= 8
    ensures FirstCells(b, o, s) == CountRange(b, o, o + s)
  {
    Unroll8(b, o);
    if s == 0 {} else if s == 1 {} else if s == 2 {} else if s == 3 {} else if s == 4 {}
    else if s == 5 {} else if s == 6 {} else if s == 7 {} else {}
  }

  lemma MaskedByte(b: seq<bool>, o: int, s: int)
    requires 0 <= o && o + 8 <= |b| && 0 <= s <= 8
    ensures Bits8(MaskedPack(b, o, s)) == CountRange(b, o, o + s)
  {
    MaskedBits8(b, o, s);
  }

  lemma ByteRanges(b: seq<bool>, o: int, r: int)
    requires 0 <= o && o + 32 <= |b| && 0 <= r <= 32
    ensures CountRange(b, o, o + r) == CountRange(b, o, o + Clamp8(r)) + CountRange(b, o + 8, o + 8 + Clamp8(r - 8))
      + CountRange(b, o + 16, o + 16 + Clamp8(r - 16)) + CountRange(b, o + 24, o + 24 + Clamp8(r - 24))
  {
    if r <= 8 {
    } else if r <= 16 {
      CountSplit(b, o, o + 8, o + r);
    } else if r <= 24 {
      CountSplit(b, o, o + 8, o + r);
      CountSplit(b, o + 8, o + 16, o + r);
    } else {
      CountSplit(b, o, o + 8, o + r);
      CountSplit(b, o + 8, o + 16, o + r);
      CountSplit(b, o + 16, o + 24, o + r);
    }
  }

  /** A word whose four bytes are the masked packs of four consecutive bytes of bits holds their count. */
  lemma WordCount(b: seq<bool>, o: int, r: int, w: bv32)
    requires 0 <= o && o + 32 <= |b| && 0 <= r <= 32
    requires Lo0(w) == MaskedPack(b, o, Clamp8(r)) && Lo1(w) == MaskedPack(b, o + 8, Clamp8(r - 8))
    requires Lo2(w) == MaskedPack(b, o + 16, Clamp8(r - 16)) && Lo3(w) == MaskedPack(b, o + 24, Clamp8(r - 24))
    ensures PopCount(w) == CountRange(b, o, o + r)
  {
    MaskedByte(b, o, Clamp8(r)); MaskedByte(b, o + 8, Clamp8(r - 8));
    MaskedByte(b, o + 16, Clamp8(r - 16)); MaskedByte(b, o + 24, Clamp8(r - 24));
    ByteRanges(b, o, r);
    AddCounts(PopCount(w), Bits8(Lo0(w)), Bits8(Lo1(w)), Bits8(Lo2(w)), Bits8(Lo3(w)),
      CountRange(b, o, o + Clamp8(r)), CountRange(b, o + 8, o + 8 + Clamp8(r - 8)),
      CountRange(b, o + 16, o + 16 + Clamp8(r - 16)), CountRange(b, o + 24, o + 24 + Clamp8(r - 24)));
  }

  lemma AddCounts(p: int, a: int, b: int, c: int, d: int, a': int, b': int, c': int, d': int)
    requires p == a + b + c + d && a == a' && b == b' && c == c' && d == d'
    ensures p == a' + b' + c' + d'
  {
  }

  /** A full word of the copy holds the count of its 32 cells. */
  lemma FullWord(b: seq<bool>, o: int, w: bv32)
    requires 0 <= o && o + 32 <= |b|
    requires w == Join4(Pack8(b, o), Pack8(b, o + 8), Pack8(b, o + 16), Pack8(b, o + 24))
    ensures PopCount(w) == CountRange(b, o, o + 32)
  {
    WordBytes(b, o, w);
    Pack8Small(b, o); Pack8Small(b, o + 8); Pack8Small(b, o + 16); Pack8Small(b, o + 24);
    WordCount(b, o, 32, w);
  }

  /** The last word, masked with ~(-1 << r), holds the count of its low r cells. */
  lemma LastWord(b: seq<bool>, o: int, r: int, x: bv32, m: bv32, w: bv32)
    requires 0 <= o && o + 32 <= |b| && 0 <= r < 32
    requires x == Join4(Pack8(b, o), Pack8(b, o + 8), Pack8(b, o + 16), Pack8(b, o + 24))
    requires m == !(0xFFFF_FFFF << r) && w == x & m
    ensures PopCount(w) == CountRange(b, o, o + r)
  {
    WordBytes(b, o, x);
    LoAnd(x, m);
    LowMask(r, m);
    WordCount(b, o, r, w);
  }

  // ---------------------------------------------------------------------------------
  // The parallel bit count
  // ---------------------------------------------------------------------------------

  /** `c - ((c >> 1) & 0x55555555)`: a 2-bit count in every bit pair. */
  function S2(x: bv32): bv32 { x - ((x >> 1) & 0x5555_5555) }
  /** `(c & 0x33333333) + ((c >> 2) & 0x33333333)`: a 4-bit count in every nibble. */
  function S4(c: bv32): bv32 { (c & 0x3333_3333) + ((c >> 2) & 0x3333_3333) }
  /** `(c + (c >> 4)) & 0xF0F0F0F`: an 8-bit count in every byte (C# `+` binds tighter than `&`). */
  function S8(c: bv32): bv32 { (c + (c >> 4)) & 0x0F0F_0F0F }
  /** `(c * 0x1010101) >> 24`: the sum of the four bytes. */
  function Fold(c: bv32): bv32 { (c * 0x0101_0101) >> 24 }
  /** The three statements of the loop body, one after the other. */
  function Swar(x: bv32): bv32 { Fold(S8(S4(S2(x)))) }

  /** The sum of four words. */
  function Sum4(a: bv32, b: bv32, c: bv32, d: bv32): bv32 { (a + b) + (c + d) }

  /** The bit count of each byte, summed in bv32 arithmetic. */
  function Byte(x: bv32): bv32
  {
    (x & 1) + ((x >> 1) & 1) + ((x >> 2) & 1) + ((x >> 3) & 1) + ((x >> 4) & 1) + ((x >> 5) & 1) + ((x >> 6) & 1) + ((x >> 7) & 1)
  }

  /** The integer value of a word below 64, read from its six low bits. */
  function Small(v: bv32): int
  {
    Ind(v & 1 != 0) + 2 * Ind(v & 2 != 0) + 4 * Ind(v & 4 != 0) + 8 * Ind(v & 8 != 0) + 16 * Ind(v & 16 != 0) + 32 * Ind(v & 32 != 0)
  }
  lemma B0(x: bv32) ensures Lo0(S8(S4(S2(x)))) == Byte(Lo0(x)) {}
  lemma B1(x: bv32) ensures Lo1(S8(S4(S2(x)))) == Byte(Lo1(x)) {}
  lemma B2(x: bv32) ensures Lo2(S8(S4(S2(x)))) == Byte(Lo2(x)) {}
  lemma B3(x: bv32) ensures Lo3(S8(S4(S2(x)))) == Byte(Lo3(x)) {}
  lemma BytesSmall(x: bv32) ensures S8(S4(S2(x))) & 0xF0F0_F0F0 == 0 {}
  lemma FoldSums(c: bv32, y0: bv32, y1: bv32, y2: bv32, y3: bv32)
    requires c & 0xF0F0_F0F0 == 0
    requires Lo0(c) == y0 && Lo1(c) == y1 && Lo2(c) == y2 && Lo3(c) == y3
    ensures Fold(c) == Sum4(y0, y1, y2, y3)
  {}
  /** The parallel count adds up the bit counts of the four bytes. */
  lemma SwarSum(x: bv32)
    ensures Swar(x) == Sum4(Byte(Lo0(x)), Byte(Lo1(x)), Byte(Lo2(x)), Byte(Lo3(x)))
  {
    B0(x); B1(x); B2(x); B3(x);
    BytesSmall(x);
    FoldSums(S8(S4(S2(x))), Byte(Lo0(x)), Byte(Lo1(x)), Byte(Lo2(x)), Byte(Lo3(x)));
  }

  /** Byte(x) read back as an integer is the number of set bits of the byte. */
  lemma ByteValue(x: bv32)
    ensures Byte(x) <= 8
    ensures Small(Byte(x)) == Bits8(x)
  {}

  lemma ToSmall(v: bv32) requires v <= 32 ensures v as int == Small(v) {}

  lemma SmallPair(a: bv32, b: bv32)
    requires a <= 8 && b <= 8
    ensures a + b <= 16 && Small(a + b) == Small(a) + Small(b)
  {}

  lemma SmallJoin(p: bv32, q: bv32)
    requires p <= 16 && q <= 16
    ensures p + q <= 32 && Small(p + q) == Small(p) + Small(q)
  {}

  lemma SmallSum4(a: bv32, b: bv32, c: bv32, d: bv32, v: bv32)
    requires a <= 8 && b <= 8 && c <= 8 && d <= 8 && v == (a + b) + (c + d)
    ensures v <= 32 && Small(v) == Small(a) + Small(b) + Small(c) + Small(d)
  {
    var s, t := a + b, c + d;
    SmallPair(a, b); SmallPair(c, d);
    SmallJoin(s, t);
  }

  lemma SumSmall(v: bv32, z0: bv32, z1: bv32, z2: bv32, z3: bv32, n0: int, n1: int, n2: int, n3: int)
    requires v == Sum4(z0, z1, z2, z3) && z0 <= 8 && z1 <= 8 && z2 <= 8 && z3 <= 8
    requires Small(z0) == n0 && Small(z1) == n1 && Small(z2) == n2 && Small(z3) == n3
    ensures v <= 32 && Small(v) == n0 + n1 + n2 + n3
  {
    SmallSum4(z0, z1, z2, z3, v);
  }

  lemma ByteSumValue(x: bv32, v: bv32)
    requires v == Sum4(Byte(Lo0(x)), Byte(Lo1(x)), Byte(Lo2(x)), Byte(Lo3(x)))
    ensures v <= 32 && Small(v) == PopCount(x)
  {
    ByteValue(Lo0(x)); ByteValue(Lo1(x)); ByteValue(Lo2(x)); ByteValue(Lo3(x));
    SumSmall(v, Byte(Lo0(x)), Byte(Lo1(x)), Byte(Lo2(x)), Byte(Lo3(x)),
      Bits8(Lo0(x)), Bits8(Lo1(x)), Bits8(Lo2(x)), Bits8(Lo3(x)));
  }

  lemma IntOf(v: bv32, n: int)
    requires v <= 32 && Small(v) == n
    ensures v as int == n
  {
    ToSmall(v);
  }

  /** The parallel bit count of a word is the number of its set bits. */
  lemma SwarValue(x: bv32)
    ensures Swar(x) as int == PopCount(x)
  {
    SwarSum(x);
    ByteSumValue(x, Swar(x));
    IntOf(Swar(x), PopCount(x));
  }

  // ---------------------------------------------------------------------------------
  // GetCardinality
  // ---------------------------------------------------------------------------------

  /**
   * BitArray.CopyTo(int[]): bit i of the array lands in bit i % 32 of word i / 32.
   * The cells past the array's Count are whatever the storage holds there.
   */
  method CopyTo(cells: seq<bool>, n: nat) returns (ints: array<bv32>)
    requires 32 * n <= |cells|
    ensures fresh(ints) && ints.Length == n
    ensures forall k :: 0 <= k < n ==> ints[k] == Word(cells, k)
  {
    ints := new bv32[n];
    var k := 0;
    while k < n
      invariant 0 <= k <= n
      invariant forall j :: 0 <= j < k ==> ints[j] == Word(cells, j)
    {
      ints[k] := Word(cells, k);
      k := k + 1;
    }
  }

  /** Clears the bits of the last word from bit r on: `ints[^1] &= ~(-1 << r)`. */
  method ClearTail(ints: array<bv32>, cells: seq<bool>, r: int)
    requires 0 < ints.Length && |cells| == 32 * ints.Length && 0 <= r < 32
    requires ints[ints.Length - 1] == Word(cells, ints.Length - 1)
    modifies ints
    ensures forall k :: 0 <= k < ints.Length - 1 ==> ints[k] == old(ints[k])
    ensures PopCount(ints[ints.Length - 1]) == CountRange(cells, 32 * (ints.Length - 1), 32 * (ints.Length - 1) + r)
  {
    var last := ints[ints.Length - 1];
    var m: bv32 := !(0xFFFF_FFFF << r);
    ints[ints.Length - 1] := last & m;
    LastWord(cells, 32 * (ints.Length - 1), r, last, m, last & m);
  }

  /** How many bits the first i words of the copy contribute to the count. */
  function Upto(n: nat, count: nat, i: nat): nat
  {
    if i < n then 32 * i else count
  }

  /** The set bits of word i of the copy, after the last word is masked, are the bits of that word below Count. */
  lemma StepCount(cells: seq<bool>, count: nat, n: nat, i: nat, w: bv32)
    requires |cells| == 32 * n && 0 < n && 32 * (n - 1) <= count < 32 * n && i < n
    requires i < n - 1 ==> w == Word(cells, i)
    requires i == n - 1 ==> PopCount(w) == CountRange(cells, 32 * i, count)
    ensures CountRange(cells, 0, Upto(n, count, i)) + Swar(w) as int == CountRange(cells, 0, Upto(n, count, i + 1))
  {
    SwarValue(w);
    if i < n - 1 {
      FullWord(cells, 32 * i, w);
    }
    CountSplit(cells, 0, 32 * i, Upto(n, count, i + 1));
  }

  /**
   * GetCardinality: copies the bits into Count / 32 + 1 words, clears the bits of the last
   * word from Count % 32 on, and adds up the parallel count of every word. `stale` stands for
   * whatever the BitArray's storage holds past Count (SetAll sets whole words).
   */
  method GetCardinality(bits: seq<bool>, stale: seq<bool>) returns (count: int)
    requires |stale| == 32 - |bits| % 32
    ensures count == Cardinality(bits)
    ensures count == multiset(bits)[true]
  {
    var cells := bits + stale;
    var n := |bits| / 32 + 1;
    var r := |bits| % 32;
    assert |cells| == 32 * n && 32 * (n - 1) + r == |bits|;
    var ints := CopyTo(cells, n);
    ClearTail(ints, cells, r);
    count := 0;
    var i := 0;
    while i < n
      invariant 0 <= i <= n
      invariant forall k :: 0 <= k < n - 1 ==> ints[k] == Word(cells, k)
      invariant PopCount(ints[n - 1]) == CountRange(cells, 32 * (n - 1), |bits|)
      invariant count == CountRange(cells, 0, Upto(n, |bits|, i))
    {
      var c := Swar(ints[i]);
      StepCount(cells, |bits|, n, i, ints[i]);
      count := count + c as int;
      i := i + 1;
    }
    PaddedCount(bits, stale);
  }
}
