/** Filling memory: bytes at both ends first, then words at both ends, then
    sixty-four bits at a time in between. */
module MemSet {
  import opened MemWords

  /** The memory `m` is `o` with the `n` bytes at `d` filled, except for those
      from `a` up to `b`. */
  ghost predicate FilledBut(m: seq<bv8>, o: seq<bv8>, d: nat, n: nat, a: int, b: int, c: bv8) {
    && |m| == |o|
    && forall i {:trigger m[i]} :: 0 <= i < |o| ==> m[i] == if d <= i < d + n && !(a <= i < b) then c else o[i]
  }

  ghost predicate Filled(m: seq<bv8>, o: seq<bv8>, d: nat, n: nat, c: bv8) {
    |m| == |o| && forall i {:trigger m[i]} :: 0 <= i < |o| ==> m[i] == if d <= i < d + n then c else o[i]
  }

  /** Stores a word where it is aligned: at `q` times its size. */
  method Store32(mem: array<bv8>, at: nat, w: bv32, ghost q: nat)
    requires at == 4 * q && at + 4 <= mem.Length
    modifies mem
    ensures mem[at] == ByteOf(w, 0) && mem[at + 1] == ByteOf(w, 1)
    ensures mem[at + 2] == ByteOf(w, 2) && mem[at + 3] == ByteOf(w, 3)
    ensures forall i :: 0 <= i < mem.Length && !(at <= i < at + 4) ==> mem[i] == old(mem[i])
  {
    mem[at], mem[at + 1], mem[at + 2], mem[at + 3] := ByteOf(w, 0), ByteOf(w, 1), ByteOf(w, 2), ByteOf(w, 3);
  }

  /** Words of the same byte at ascending places. */
  method FillWords(mem: array<bv8>, at: nat, count: nat, word: bv32, ghost c: bv8, ghost q: nat)
    requires at == 4 * q && at + 4 * count <= mem.Length && word == Splat(c)
    modifies mem
    ensures Filled(mem[..], old(mem[..]), at, 4 * count, c)
  {
    SplatBytes(c);
    WordBytes(c, c, c, c);
    var k := 0;
    while k < count
      invariant k <= count
      invariant forall i :: 0 <= i < mem.Length ==> mem[i] == if at <= i < at + 4 * k then c else old(mem[i])
    {
      Store32(mem, at + 4 * k, word, q + k);
      k := k + 1;
    }
  }

  method FillLong(mem: array<bv8>, at: nat, word: bv64, ghost c: bv8, ghost q: nat)
    requires at == 8 * q && at + 8 <= mem.Length && word == Long(Splat(c), Splat(c))
    modifies mem
    ensures Filled(mem[..], old(mem[..]), at, 8, c)
  {
    LongHalves(Splat(c), Splat(c));
    SplatBytes(c);
    WordBytes(c, c, c, c);
    Store32(mem, at, LowHalf(word), 2 * q);
    Store32(mem, at + 4, HighHalf(word), 2 * q + 1);
  }

  lemma FillFromBelow(m: seq<bv8>, m': seq<bv8>, o: seq<bv8>, d: nat, n: nat, a: nat, b: int, c: bv8, lo: nat, k: nat)
    requires FilledBut(m, o, d, n, a, b, c) && Filled(m', m, lo, k, c) && d <= lo <= a <= lo + k && lo + k <= d + n
    ensures FilledBut(m', o, d, n, lo + k, b, c)
  {
  }

  lemma FillFromAbove(m: seq<bv8>, m': seq<bv8>, o: seq<bv8>, d: nat, n: nat, a: nat, b: int, c: bv8, lo: nat, k: nat)
    requires FilledBut(m, o, d, n, a, b, c) && Filled(m', m, lo, k, c) && d <= lo <= b <= lo + k && lo + k <= d + n
    ensures FilledBut(m', o, d, n, a, lo, c)
  {
  }

  /** Up to four bytes at each end. */
  method FillEndBytes(mem: array<bv8>, s: nat, n: nat, c: bv8)
    requires n > 0 && s + n <= mem.Length
    modifies mem
    ensures FilledBut(mem[..], old(mem[..]), s, n, s + 4, s + n - 4, c)
  {
    mem[s] := c;
    mem[s + n - 1] := c;
    if n <= 2 {
      return;
    }
    mem[s + 1] := c;
    mem[s + 2] := c;
    mem[s + n - 2] := c;
    mem[s + n - 3] := c;
    if n <= 6 {
      return;
    }
    mem[s + 3] := c;
    mem[s + n - 4] := c;
  }

  /** Words for up to 28 bytes at each end of a range whose length is a multiple
      of four; `d` and `n` say what is to be filled in all. */
  method FillEndWords(mem: array<bv8>, s: nat, len: nat, word: bv32, ghost c: bv8,
                      ghost o: seq<bv8>, ghost d: nat, ghost n: nat, ghost q: nat, ghost p: nat)
    requires s == 4 * q && len == 4 * p >= 4 && d <= s <= d + 4 && s + len <= d + n <= s + len + 4
        && d + n <= mem.Length
    requires word == Splat(c) && FilledBut(mem[..], o, d, n, d + 4, d + n - 4, c)
    modifies mem
    ensures FilledBut(mem[..], o, d, n, s + 28, s + len - 28, c)
  {
    FillBothEnds(mem, s, s + len - 4, 1, word, c, q, q + p - 1, o, d, n, d + 4, d + n - 4);
    if len <= 8 {
      return;
    }
    FillBothEnds(mem, s + 4, s + len - 12, 2, word, c, q + 1, q + p - 3, o, d, n, s + 4, s + len - 4);
    if len <= 24 {
      return;
    }
    FillBothEnds(mem, s + 12, s + len - 28, 4, word, c, q + 3, q + p - 7, o, d, n, s + 12, s + len - 12);
  }

  /** Words that narrow the gap from `a` to `b` from below and from above. */
  method FillBothEnds(mem: array<bv8>, low: nat, high: nat, count: nat, word: bv32, ghost c: bv8, ghost ql: nat,
                      ghost qh: nat, ghost o: seq<bv8>, ghost d: nat, ghost n: nat, ghost a: nat, ghost b: int)
    requires word == Splat(c) && FilledBut(mem[..], o, d, n, a, b, c) && d + n <= mem.Length
    requires low == 4 * ql && d <= low <= a <= low + 4 * count <= d + n
    requires high == 4 * qh && d <= high <= b <= high + 4 * count <= d + n
    modifies mem
    ensures FilledBut(mem[..], o, d, n, low + 4 * count, high, c)
  {
    ghost var m := mem[..];
    FillWords(mem, low, count, word, c, ql);
    FillFromBelow(m, mem[..], o, d, n, a, b, c, low, 4 * count);
    m := mem[..];
    FillWords(mem, high, count, word, c, qh);
    FillFromAbove(m, mem[..], o, d, n, low + 4 * count, b, c, high, 4 * count);
  }

  method FillLongs(mem: array<bv8>, s: nat, word: bv64, ghost c: bv8, ghost q: nat)
    requires s == 8 * q && s + 32 <= mem.Length && word == Long(Splat(c), Splat(c))
    modifies mem
    ensures Filled(mem[..], old(mem[..]), s, 32, c)
  {
    FillLong(mem, s, word, c, q);
    FillLong(mem, s + 8, word, c, q + 1);
    FillLong(mem, s + 16, word, c, q + 2);
    FillLong(mem, s + 24, word, c, q + 3);
  }

  /** Thirty-two bytes at a time; the last 28 bytes of the range are filled
      already, so a remainder can be left. */
  method FillMiddle(mem: array<bv8>, s0: nat, len: nat, word: bv64, ghost c: bv8,
                    ghost o: seq<bv8>, ghost d: nat, ghost n: nat, ghost a: nat, ghost q0: nat, ghost p0: nat)
    requires s0 == 8 * q0 && len == 4 * p0 && d <= s0 <= a <= s0 + 4 && s0 + len <= d + n <= mem.Length
    requires word == Long(Splat(c), Splat(c)) && FilledBut(mem[..], o, d, n, a, s0 + len - 28, c)
    modifies mem
    ensures Filled(mem[..], o, d, n, c)
  {
    var s, left := s0, len;
    ghost var from, q, p := a, q0, p0;
    while left >= 32
      invariant s == 8 * q && s + left == s0 + len && left == 4 * p && s0 <= s <= from <= s + 4
      invariant FilledBut(mem[..], o, d, n, from, s0 + len - 28, c)
    {
      ghost var m := mem[..];
      FillLongs(mem, s, word, c, q);
      FillFromBelow(m, mem[..], o, d, n, from, s0 + len - 28, c, s, 32);
      s, left := s + 32, left - 32;
      from, q, p := s, q + 4, p - 8;
    }
  }

  /** Fills `n` bytes with `c` and writes nothing else, for every length and
      every alignment. */
  method Memset(mem: array<bv8>, dest: nat, c: bv8, n: nat)
    requires dest + n <= mem.Length
    modifies mem
    ensures Filled(mem[..], old(mem[..]), dest, n, c)
  {
    ghost var o := mem[..];
    if n == 0 {
      return;
    }
    FillEndBytes(mem, dest, n, c);
    if n <= 8 {
      return;
    }
    var s, len;
    ghost var q, p;
    s, len, q, p := AlignRange(dest, n);
    FillEndWords(mem, s, len, Splat(c), c, o, dest, n, q, p);
    if len <= 24 {
      return;
    }
    var k;
    k, q := AlignLong(s, q);
    FillMiddle(mem, s + k, len - k, Long(Splat(c), Splat(c)), c, o, dest, n, s + 28, q, p - k / 4);
  }

  /** The part of a range that consists of whole words. */
  method AlignRange(dest: nat, n: nat) returns (s: nat, len: nat, ghost q: nat, ghost p: nat)
    requires n > 8
    ensures s == 4 * q && len == 4 * p >= 4 && dest <= s <= dest + 4 && s + len <= dest + n <= s + len + 4
  {
    var k := (4 - dest % 4) % 4;
    s, len := dest + k, (n - k) / 4 * 4;
    q, p := (dest + k) / 4, (n - k) / 4;
  }

  /** How many bytes to skip so that 64-bit words are aligned. */
  method AlignLong(s: nat, ghost q: nat) returns (k: nat, ghost q8: nat)
    requires s == 4 * q
    ensures (k == 24 || k == 28) && s + k == 8 * q8
  {
    k := 24 + s / 4 % 2 * 4;
    q8 := (s + k) / 8;
  }
}
