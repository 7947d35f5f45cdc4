/** Page tables in memory. A table is a page of entries found at an address; an
    entry refers to the table below it by that address. `Rep` relates memory to
    the tree that it holds, which exists only in the proofs. */
module MmMemory {
  import opened PageShape
  import opened PageTree

  /** An entry as it is stored. */
  datatype RawPte = RawAbsent | RawBlock(pa: nat, attrs: Attrs) | RawTable(addr: nat)

  type Tables = map<nat, seq<RawPte>>

  /** How an entry of the tree is stored, leaving out what is below it. */
  function Stored(t: Pte): RawPte {
    match t
    case Absent => RawAbsent
    case Block(pa, attrs) => RawBlock(pa, attrs)
    case Table(addr, _) => RawTable(addr)
  }

  function StoredAttrs(r: RawPte): Attrs {
    match r
    case RawAbsent => NO_ATTRS
    case RawBlock(_, attrs) => attrs
    case RawTable(_) => TABLE_ATTRS
  }

  function StoredFrame(r: RawPte): nat {
    match r
    case RawAbsent => 0
    case RawBlock(pa, _) => pa
    case RawTable(addr) => addr / PAGE_SIZE
  }

  ghost predicate Rep(m: Tables, r: RawPte, t: Pte)
    decreases t
  {
    match t
    case Absent => r == RawAbsent
    case Block(pa, attrs) => r == RawBlock(pa, attrs)
    case Table(addr, es) => r == RawTable(addr) && addr in m && RepList(m, m[addr], es)
  }

  ghost predicate RepList(m: Tables, s: seq<RawPte>, es: Entries)
    decreases es
  {
    match es
    case Nil => s == []
    case Cons(h, t) => |s| > 0 && Rep(m, s[0], h) && RepList(m, s[1..], t)
  }

  /** No page holds two tables of the tree. */
  ghost predicate Sole(t: Pte) {
    forall x :: Holds(t, x) <= 1
  }

  ghost predicate SoleList(es: Entries) {
    forall x :: HoldsList(es, x) <= 1
  }

  // ---------------------------------------------------------------- framing

  /** Only the pages of the tree matter to it. */
  lemma {:induction false} RepFrame(m: Tables, m': Tables, r: RawPte, t: Pte)
    requires Rep(m, r, t)
    requires forall x :: Holds(t, x) > 0 && x in m ==> x in m' && m'[x] == m[x]
    ensures Rep(m', r, t)
    decreases t
  {
    if t.Table? {
      assert Holds(t, t.addr) > 0;
      forall x | HoldsList(t.entries, x) > 0 && x in m ensures x in m' && m'[x] == m[x] {
        assert Holds(t, x) > 0;
      }
      RepListFrame(m, m', m[t.addr], t.entries);
    }
  }

  lemma {:induction false} RepListFrame(m: Tables, m': Tables, s: seq<RawPte>, es: Entries)
    requires RepList(m, s, es)
    requires forall x :: HoldsList(es, x) > 0 && x in m ==> x in m' && m'[x] == m[x]
    ensures RepList(m', s, es)
    decreases es
  {
    if es.Cons? {
      forall x | Holds(es.head, x) > 0 && x in m ensures x in m' && m'[x] == m[x] {
        assert HoldsList(es, x) > 0;
      }
      RepFrame(m, m', s[0], es.head);
      forall x | HoldsList(es.tail, x) > 0 && x in m ensures x in m' && m'[x] == m[x] {
        assert HoldsList(es, x) > 0;
      }
      RepListFrame(m, m', s[1..], es.tail);
    }
  }

  lemma {:induction false} RepLength(m: Tables, s: seq<RawPte>, es: Entries, n: nat, level: nat)
    requires RepList(m, s, es) && ShapedList(es, n, level)
    ensures |s| == n
    decreases es
  {
    if es.Cons? {
      RepLength(m, s[1..], es.tail, n - 1, level);
    }
  }

  // ---------------------------------------------------------------- entries by position

  function Drop(es: Entries, i: nat): Entries {
    if i == 0 || es.Nil? then es else Drop(es.tail, i - 1)
  }

  /** The first `i` entries of `es`, then `rest`. */
  function Splice(es: Entries, i: nat, rest: Entries): Entries {
    if i == 0 || es.Nil? then rest else Cons(es.head, Splice(es.tail, i - 1, rest))
  }

  function SetAt(es: Entries, i: nat, t: Pte): Entries {
    if es.Nil? then es else if i == 0 then Cons(t, es.tail) else Cons(es.head, SetAt(es.tail, i - 1, t))
  }

  lemma {:induction false} DropNext(es: Entries, i: nat)
    ensures var d := Drop(es, i); d.Cons? ==> d.tail == Drop(es, i + 1)
  {
    if i > 0 && es.Cons? {
      DropNext(es.tail, i - 1);
    }
  }

  lemma {:induction false} RepAt(m: Tables, s: seq<RawPte>, es: Entries, i: nat)
    requires RepList(m, s, es) && i < |s|
    ensures var d := Drop(es, i); d.Cons? && Rep(m, s[i], d.head) && RepList(m, s[i + 1..], d.tail)
    decreases es
  {
    if i > 0 {
      RepAt(m, s[1..], es.tail, i - 1);
      assert s[1..][i..] == s[i + 1..];
    }
  }

  lemma {:induction false} HoldsAt(es: Entries, i: nat, x: nat)
    requires Drop(es, i).Cons?
    ensures Holds(Drop(es, i).head, x) + HoldsList(Drop(es, i).tail, x) <= HoldsList(es, x)
    decreases es
  {
    if i > 0 {
      HoldsAt(es.tail, i - 1, x);
    }
  }

  lemma {:induction false} HoldsSet(es: Entries, i: nat, t: Pte, x: nat)
    requires Drop(es, i).Cons?
    ensures HoldsList(SetAt(es, i, t), x) == HoldsList(es, x) - Holds(Drop(es, i).head, x) + Holds(t, x)
    decreases es
  {
    if i > 0 {
      HoldsSet(es.tail, i - 1, t, x);
    }
  }

  lemma {:induction false} ShapedAt(es: Entries, n: nat, level: nat, i: nat)
    requires ShapedList(es, n, level) && i < n
    ensures var d := Drop(es, i); d.Cons? && Shaped(d.head, level) && ShapedList(d.tail, n - i - 1, level)
    decreases es
  {
    if i > 0 {
      ShapedAt(es.tail, n - 1, level, i - 1);
    }
  }

  lemma {:induction false} ShapedSet(es: Entries, n: nat, level: nat, i: nat, t: Pte)
    requires ShapedList(es, n, level) && i < n && Shaped(t, level)
    ensures ShapedList(SetAt(es, i, t), n, level)
    decreases es
  {
    if i > 0 {
      ShapedSet(es.tail, n - 1, level, i - 1, t);
    }
  }

  /** After entry `i` has been replaced, the entries after it are as before, and
      what follows can be seen either way. */
  lemma {:induction false} SetThenDrop(es: Entries, i: nat, t: Pte, rest: Entries)
    requires Drop(es, i).Cons?
    ensures Drop(SetAt(es, i, t), i + 1) == Drop(es, i + 1)
    ensures Splice(SetAt(es, i, t), i + 1, rest) == Splice(es, i, Cons(t, rest))
    decreases es
  {
    if i > 0 {
      SetThenDrop(es.tail, i - 1, t, rest);
    }
  }

  lemma {:induction false} SpliceDrop(es: Entries, i: nat)
    ensures Splice(es, i, Drop(es, i)) == es
  {
    if i > 0 && es.Cons? {
      SpliceDrop(es.tail, i - 1);
    }
  }

  lemma {:induction false} RepSnoc(m: Tables, s: seq<RawPte>, es: Entries, i: nat, r: RawPte)
    requires Drop(es, i).Cons? && RepList(m, s, Splice(es, i, Nil)) && Rep(m, r, Drop(es, i).head)
    ensures RepList(m, s + [r], Splice(es, i + 1, Nil))
    decreases es
  {
    if i == 0 {
      assert s + [r] == [r] && (s + [r])[1..] == [];
      assert Splice(es, 1, Nil) == Cons(es.head, Splice(es.tail, 0, Nil));
    } else {
      RepSnoc(m, s[1..], es.tail, i - 1, r);
      assert (s + [r])[1..] == s[1..] + [r];
    }
  }

  /** Replacing one entry, when memory has changed only in the pages of the old
      entry and in pages outside the tree. */
  lemma {:induction false} RepReplace(m: Tables, m': Tables, s: seq<RawPte>, es: Entries, i: nat, r: RawPte, t: Pte)
    requires RepList(m, s, es) && i < |s| && SoleList(es) && Rep(m', r, t) && Drop(es, i).Cons?
    requires forall x :: x in m && HoldsList(es, x) > 0 && Holds(Drop(es, i).head, x) == 0 ==> x in m' && m'[x] == m[x]
    ensures RepList(m', s[i := r], SetAt(es, i, t))
    decreases es
  {
    var s' := s[i := r];
    if i == 0 {
      assert s'[1..] == s[1..];
      forall x | HoldsList(es.tail, x) > 0 && x in m ensures x in m' && m'[x] == m[x] {
        assert HoldsList(es, x) <= 1;
      }
      RepListFrame(m, m', s[1..], es.tail);
    } else {
      forall x ensures HoldsList(es.tail, x) <= HoldsList(es, x) {
      }
      forall x | Holds(es.head, x) > 0 && x in m ensures x in m' && m'[x] == m[x] {
        assert HoldsList(es, x) <= 1;
        HoldsAt(es.tail, i - 1, x);
      }
      RepFrame(m, m', s[0], es.head);
      forall x ensures HoldsList(es.tail, x) <= 1 {
        assert HoldsList(es, x) <= 1;
      }
      RepReplace(m, m', s[1..], es.tail, i - 1, r, t);
      assert s'[1..] == s[1..][i - 1 := r];
    }
  }

  lemma {:induction false} SetGet(es: Entries, i: nat, t: Pte, u: Pte)
    requires Drop(es, i).Cons?
    ensures var es' := SetAt(es, i, t);
            Drop(es', i).Cons? && Drop(es', i).head == t && SetAt(es', i, u) == SetAt(es, i, u)
    decreases es
  {
    if i > 0 {
      SetGet(es.tail, i - 1, t, u);
    }
  }
}
