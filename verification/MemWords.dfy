/** Little-endian words in a memory of bytes. */
module MemWords {
  function Word(a: bv8, b: bv8, c: bv8, d: bv8): (w: bv32) {
    a as bv32 | (b as bv32 << 8) | (c as bv32 << 16) | (d as bv32 << 24)
  }

  /** Byte `i` of a word, from the low end. */
  function ByteOf(w: bv32, i: nat): (b: bv8)
    requires i < 4
  {
    if i == 0 then Low(w) else if i == 1 then Low(w >> 8) else if i == 2 then Low(w >> 16) else Low(w >> 24)
  }

  function Low(w: bv32): (b: bv8) {
    (w & 0xFF) as bv8
  }

  lemma WordBytes(a: bv8, b: bv8, c: bv8, d: bv8)
    ensures ByteOf(Word(a, b, c, d), 0) == a && ByteOf(Word(a, b, c, d), 1) == b
    ensures ByteOf(Word(a, b, c, d), 2) == c && ByteOf(Word(a, b, c, d), 3) == d
  {
  }

  /** The last `r` bytes of one word before the first `4 - r` of the next. */
  function Merge(w: bv32, x: bv32, r: nat): (m: bv32)
    requires 1 <= r <= 3
  {
    if r == 1 then (w >> 24) | (x << 8) else if r == 2 then (w >> 16) | (x << 16) else (w >> 8) | (x << 24)
  }

  lemma MergeBytes1(w: bv32, x: bv32)
    ensures ByteOf(Merge(w, x, 1), 0) == ByteOf(w, 3) && ByteOf(Merge(w, x, 1), 1) == ByteOf(x, 0)
    ensures ByteOf(Merge(w, x, 1), 2) == ByteOf(x, 1) && ByteOf(Merge(w, x, 1), 3) == ByteOf(x, 2)
  {
  }

  lemma MergeBytes2(w: bv32, x: bv32)
    ensures ByteOf(Merge(w, x, 2), 0) == ByteOf(w, 2) && ByteOf(Merge(w, x, 2), 1) == ByteOf(w, 3)
    ensures ByteOf(Merge(w, x, 2), 2) == ByteOf(x, 0) && ByteOf(Merge(w, x, 2), 3) == ByteOf(x, 1)
  {
  }

  lemma MergeBytes3(w: bv32, x: bv32)
    ensures ByteOf(Merge(w, x, 3), 0) == ByteOf(w, 1) && ByteOf(Merge(w, x, 3), 1) == ByteOf(w, 2)
    ensures ByteOf(Merge(w, x, 3), 2) == ByteOf(w, 3) && ByteOf(Merge(w, x, 3), 3) == ByteOf(x, 0)
  {
  }

  /** A byte in all four places of a word. */
  function Splat(c: bv8): (w: bv32) {
    0xFFFF_FFFF / 255 * (c as bv32)
  }

  lemma SplatBytes(c: bv8)
    ensures Splat(c) == Word(c, c, c, c)
  {
  }

  /** Eight bytes as a 64-bit word; the halves are 32-bit words. */
  function Long(low: bv32, high: bv32): (w: bv64) {
    low as bv64 | (high as bv64 << 32)
  }

  function LowHalf(w: bv64): (r: bv32) {
    (w & 0xFFFF_FFFF) as bv32
  }

  function HighHalf(w: bv64): (r: bv32) {
    ((w >> 32) & 0xFFFF_FFFF) as bv32
  }

  lemma LongHalves(low: bv32, high: bv32)
    ensures LowHalf(Long(low, high)) == low && HighHalf(Long(low, high)) == high
  {
  }

  // ---------------------------------------------------------------- finding a NUL

  /** Non-zero if the program finds a NUL in the word. */
  function DetectNull(x: bv64): (r: bv64) {
    (x - 0x0101_0101_0101_0101) & !x & 0x8080_8080_8080_8080
  }

  predicate HasNul(w: bv32) {
    Low(w) == 0 || Low(w >> 8) == 0 || Low(w >> 16) == 0 || Low(w >> 24) == 0
  }

  function DetectHalf(x: bv32): (r: bv32) {
    (x - 0x0101_0101) & !x & 0x8080_8080
  }

  lemma NulDetected(x: bv32)
    requires HasNul(x)
    ensures DetectHalf(x) != 0
  {
  }

  lemma NothingDetected(x: bv32)
    requires !HasNul(x)
    ensures DetectHalf(x) == 0 && x >= 0x0101_0101
  {
  }

  lemma LowPart(low: bv32, high: bv32)
    ensures LowHalf(DetectNull(Long(low, high))) == DetectHalf(low)
  {
  }

  /** Without a borrow from the low half the high half is on its own. */
  lemma HighPart(low: bv32, high: bv32)
    requires low >= 0x0101_0101
    ensures HighHalf(DetectNull(Long(low, high))) == DetectHalf(high)
  {
  }

  lemma HalvesOfZero(w: bv64)
    ensures w == 0 <==> LowHalf(w) == 0 && HighHalf(w) == 0
  {
  }

  /** The bit trick finds a NUL exactly when there is one among the bytes. */
  lemma DetectExact(low: bv32, high: bv32)
    ensures DetectNull(Long(low, high)) != 0 <==> HasNul(low) || HasNul(high)
  {
    var w := DetectNull(Long(low, high));
    HalvesOfZero(w);
    LowPart(low, high);
    if HasNul(low) {
      NulDetected(low);
    } else {
      NothingDetected(low);
      HighPart(low, high);
      if HasNul(high) {
        NulDetected(high);
      } else {
        NothingDetected(high);
      }
    }
  }
}
