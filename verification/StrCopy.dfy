/** Copying a string into a buffer of a given length, by words as long as they
    hold no NUL. */
module StrCopy {
  import opened MemCopy
  import opened MemMove
  import opened MemWords

  /** The string at `s` has `len` characters, or at least `count == len`. */
  ghost predicate IsLen(o: seq<bv8>, s: nat, count: nat, len: nat) {
    && len <= count && s + len <= |o| && (forall i :: s <= i < s + len ==> o[i] != 0)
    && (len < count ==> s + len < |o| && o[s + len] == 0)
  }

  /** The first `j` bytes at `d` are the string and NULs after it; nothing else
      has changed. */
  ghost predicate Padded(m: seq<bv8>, o: seq<bv8>, d: nat, s: nat, len: nat, j: nat) {
    && |m| == |o| && s + len <= |o|
    && forall i {:trigger m[i]} :: 0 <= i < |o| ==>
         m[i] == if d <= i < d + j then (if i < d + len then o[s + (i - d)] else 0) else o[i]
  }

  /** The characters to be read, with the NUL if there is one, are not where the
      copy goes. */
  ghost predicate Readable(o: seq<bv8>, d: nat, s: nat, count: nat, len: nat) {
    && IsLen(o, s, count, len) && d + count <= |o|
    && (d + count <= s || (if len < count then s + len + 1 else s + len) <= d)
  }

  /** A word without a NUL lies wholly inside the string. */
  lemma WordInside(m: seq<bv8>, o: seq<bv8>, d: nat, s: nat, count: nat, len: nat, j: nat, b: seq<bv8>)
    requires Readable(o, d, s, count, len) && Padded(m, o, d, s, len, j) && j <= len && j + 8 <= count
    requires s + j + 8 <= |m| && b == m[s + j..s + j + 8] && !HasNul(WordAt(b, 0)) && !HasNul(WordAt(b, 4))
    ensures j + 8 <= len
  {
    assert len < j + 8 ==> b[len - j] == m[s + len] == 0;
    WordHasNul(b[0], b[1], b[2], b[3]);
    WordHasNul(b[4], b[5], b[6], b[7]);
  }

  lemma WordHasNul(a: bv8, b: bv8, c: bv8, d: bv8)
    ensures HasNul(Word(a, b, c, d)) <==> a == 0 || b == 0 || c == 0 || d == 0
  {
    WordBytes(a, b, c, d);
  }

  method CopyLong(mem: array<bv8>, d: nat, s: nat, j: nat, w: bv64, ghost qd: nat, ghost b: seq<bv8>,
                  ghost o: seq<bv8>, ghost count: nat, ghost len: nat)
    requires Readable(o, d, s, count, len) && Padded(mem[..], o, d, s, len, j) && j + 8 <= len
    requires b == mem[s + j..s + j + 8] && w == Long(WordAt(b, 0), WordAt(b, 4)) && d + j == 8 * qd
    modifies mem
    ensures Padded(mem[..], o, d, s, len, j + 8)
  {
    ghost var m := mem[..];
    assert forall k :: 0 <= k < 8 ==> b[k] == m[s + j + k];
    Store64(mem, d + j, w, b, qd);
    forall i | 0 <= i < |o| ensures mem[..][i] == if d <= i < d + (j + 8) then o[s + (i - d)] else o[i] {
      if d + j <= i < d + j + 8 {
        assert b[i - (d + j)] == m[s + j + (i - (d + j))];
      } else {
        assert mem[..][i] == m[i];
      }
    }
  }

  /** Copies words up to the one that holds the NUL; false when a word is read
      that does not lie wholly in memory. */
  method CopyLongs(mem: array<bv8>, d: nat, s: nat, count: nat, ghost qd: nat, ghost qs: nat, ghost o: seq<bv8>,
                   ghost len: nat)
    returns (inside: bool, j: nat)
    requires Readable(o, d, s, count, len) && mem[..] == o && d == 8 * qd && s == 8 * qs
    modifies mem
    ensures inside ==> j <= len && Padded(mem[..], o, d, s, len, j)
    ensures inside <==> !WordOutside(mem.Length, s, count, len)
  {
    j := 0;
    ghost var k := 0;
    while count - j >= 8
      invariant j == 8 * k && j <= len && Padded(mem[..], o, d, s, len, j)
    {
      if s + j + 8 > mem.Length {
        LastWord(mem.Length, s, count, len, k);
        return false, j;
      }
      var w := Load64(mem, s + j, qs + k);
      ghost var b := mem[s + j..s + j + 8];
      DetectExact(WordAt(b, 0), WordAt(b, 4));
      if DetectNull(w) != 0 {
        WordStops(mem[..], o, d, s, count, len, j, b);
        LastWord(mem.Length, s, count, len, k);
        return true, j;
      }
      WordInside(mem[..], o, d, s, count, len, j, b);
      CopyLong(mem, d, s, j, w, qd + k, b, o, count, len);
      j := j + 8;
      k := k + 1;
    }
    LastWord(mem.Length, s, count, len, k);
    inside := true;
  }

  /** The word with the NUL is read, and does not lie wholly in memory. */
  ghost predicate WordOutside(length: nat, s: nat, count: nat, len: nat) {
    var word := len / 8 * 8;
    len < count && word + 8 <= count && s + word + 8 > length
  }

  lemma NulWordOutside()
    ensures WordOutside(12, 8, 8, 2)
  {
  }

  /** When the loop is at word `k`, which holds or follows no NUL. */
  lemma LastWord(length: nat, s: nat, count: nat, len: nat, k: nat)
    requires 8 * k <= len <= count && s + len <= length
    ensures len < 8 * k + 8 ==> len / 8 * 8 == 8 * k
    ensures count < 8 * k + 8 ==> !WordOutside(length, s, count, len)
    ensures 8 * k + 8 <= count && s + 8 * k + 8 > length ==> WordOutside(length, s, count, len)
    ensures len < 8 * k + 8 && s + 8 * k + 8 <= length ==> !WordOutside(length, s, count, len)
  {
  }

  /** A word with a NUL is the one with the end of the string. */
  lemma WordStops(m: seq<bv8>, o: seq<bv8>, d: nat, s: nat, count: nat, len: nat, j: nat, b: seq<bv8>)
    requires Readable(o, d, s, count, len) && Padded(m, o, d, s, len, j) && j <= len && j + 8 <= count
    requires s + j + 8 <= |m| && b == m[s + j..s + j + 8] && (HasNul(WordAt(b, 0)) || HasNul(WordAt(b, 4)))
    ensures len < j + 8
  {
    assert forall k :: 0 <= k < 8 && j + k < len ==> b[k] == m[s + j + k] != 0;
    WordHasNul(b[0], b[1], b[2], b[3]);
    WordHasNul(b[4], b[5], b[6], b[7]);
  }

  method CopyChar(mem: array<bv8>, d: nat, s: nat, j: nat, ghost o: seq<bv8>, ghost count: nat, ghost len: nat)
    returns (ch: bv8)
    requires Readable(o, d, s, count, len) && Padded(mem[..], o, d, s, len, j) && j <= len && j < count
    modifies mem
    ensures Padded(mem[..], o, d, s, len, j + 1) && (ch == 0 <==> j == len)
  {
    ghost var m := mem[..];
    assert m[s + j] == o[s + j];
    ch := mem[s + j];
    mem[d + j] := ch;
    assert forall i :: 0 <= i < |o| && i != d + j ==> mem[..][i] == m[i];
  }

  /** The buffer holds the string, cut off at `count` characters, and NULs in all
      that is left of it; nothing else is written. Reading stays in memory if and
      only if the word that holds the NUL does, where it is read as a word. */
  method Strncpy(mem: array<bv8>, d: nat, s: nat, count: nat, ghost len: nat) returns (inside: bool)
    requires Readable(mem[..], d, s, count, len)
    modifies mem
    ensures inside <==> !(s % 8 == 0 && d % 8 == 0 && WordOutside(mem.Length, s, count, len))
    ensures inside ==> Padded(mem[..], old(mem[..]), d, s, len, count)
  {
    ghost var o := mem[..];
    var j;
    inside, j := CopyAlignedLongs(mem, d, s, count, o, len);
    if inside {
      CopyChars(mem, d, s, j, count, o, len);
    }
  }

  /** By words if both places are aligned and there is room for one. */
  method CopyAlignedLongs(mem: array<bv8>, d: nat, s: nat, count: nat, ghost o: seq<bv8>, ghost len: nat)
    returns (inside: bool, j: nat)
    requires Readable(o, d, s, count, len) && mem[..] == o
    modifies mem
    ensures inside ==> j <= len && Padded(mem[..], o, d, s, len, j)
    ensures inside <==> !(s % 8 == 0 && d % 8 == 0 && WordOutside(mem.Length, s, count, len))
  {
    if s % 8 != 0 || d % 8 != 0 || count < 8 {
      LastWord(mem.Length, s, count, len, 0);
      return true, 0;
    }
    inside, j := CopyLongs(mem, d, s, count, d / 8, s / 8, o, len);
  }

  method CopyChars(mem: array<bv8>, d: nat, s: nat, j0: nat, count: nat, ghost o: seq<bv8>, ghost len: nat)
    requires Readable(o, d, s, count, len) && Padded(mem[..], o, d, s, len, j0) && j0 <= len
    modifies mem
    ensures Padded(mem[..], o, d, s, len, count)
  {
    var j := j0;
    var stop := false;
    while j < count && !stop
      invariant j <= count && Padded(mem[..], o, d, s, len, j)
      invariant if stop then j == len + 1 else j <= len
      decreases count - j, !stop
    {
      var ch := CopyChar(mem, d, s, j, o, count, len);
      j := j + 1;
      stop := ch == 0;
    }
    while j < count
      invariant j <= count && Padded(mem[..], o, d, s, len, j) && (j < count ==> len < j)
    {
      ghost var m := mem[..];
      mem[d + j] := 0;
      assert forall i :: 0 <= i < |o| && i != d + j ==> mem[..][i] == m[i];
      j := j + 1;
    }
  }
}
