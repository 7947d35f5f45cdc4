/** The SMMUv3 command queue: a ring of 2^k commands in memory and two
    registers, each an index with a wrap bit above it. Software produces, the
    hardware consumes whenever it likes. */
module Smmu {
  import opened Arith

  /** A command of two 64-bit words. */
  datatype Cmd = Cmd(dw0: bv64, dw1: bv64)

  const MAX_POLLS := 100000
  const MAX_LOG2: nat := 19
  const UINT32: nat := 0x1_0000_0000

  const OP_CMD_SYNC: bv64 := 0x46
  const CSIGNAL_NONE: bv64 := 0

  /** What the hardware does before one register access: how many commands it
      consumes if there are so many, and the bits it puts above the wrap bit. */
  datatype Tick = Tick(steps: nat, high: nat)

  // ---------------------------------------------------------------- positions in the ring

  /** Next of two counters modulo `d`. */
  lemma {:induction false} RemNext(x: nat, d: nat)
    requires d > 0
    ensures Rem(x + 1, d) == if Rem(x, d) + 1 == d then 0 else Rem(x, d) + 1
  {
    if x >= d {
      RemNext(x - d, d);
    }
  }

  /** Counters less than `d` apart are told apart modulo `d`. */
  lemma {:induction false} RemGap(c: nat, p: nat, d: nat)
    requires d > 0 && c <= p < c + d
    ensures p - c == if Rem(c, d) <= Rem(p, d) then Rem(p, d) - Rem(c, d) else Rem(p, d) + d - Rem(c, d)
  {
    if c >= d {
      RemGap(c - d, p - d, d);
    }
  }

  lemma {:induction false} RemHalf(x: nat, n: nat)
    requires n > 0
    ensures Rem(x, n) == if Rem(x, 2 * n) < n then Rem(x, 2 * n) else Rem(x, 2 * n) - n
  {
    if x >= 2 * n {
      RemHalf(x - 2 * n, n);
    }
  }

  function Index(reg: nat, n: nat): (i: nat)
    requires n > 0
  {
    reg % n
  }

  function Wrap(reg: nat, n: nat): (w: nat)
    requires n > 0
  {
    reg / n % 2
  }

  /** The register shows the counter `x` modulo twice the queue size, whatever
      is in the bits above. */
  ghost predicate Shows(reg: nat, x: nat, high: nat, n: nat)
    requires n > 0
  {
    reg == high * (2 * n) + Rem(x, 2 * n)
  }

  lemma Extract(reg: nat, x: nat, high: nat, n: nat)
    requires n > 0 && Shows(reg, x, high, n)
    ensures Index(reg, n) == Rem(x, n) && Wrap(reg, n) == if Rem(x, 2 * n) < n then 0 else 1
  {
    RemHalf(x, n);
    var w: nat := if Rem(x, 2 * n) < n then 0 else 1;
    ProductAssoc(high, 2, n);
    Distribute(high * 2, w, n);
    DivUnique(reg, high * 2 + w, Rem(x, n), n);
    DivUnique(high * 2 + w, high, w, 2);
  }

  function Sub32(a: nat, b: nat): (r: nat)
    requires a < UINT32 && b < UINT32
  {
    if a >= b then a - b else a + UINT32 - b
  }

  /** The empty slots as the driver computes them, in 32-bit arithmetic. */
  function EmptySlots(prodReg: nat, consReg: nat, n: nat): (r: nat)
    requires 0 < n < UINT32
  {
    if Wrap(prodReg, n) == Wrap(consReg, n) then
      Sub32(n, Sub32(Index(prodReg, n), Index(consReg, n)))
    else
      Sub32(Index(consReg, n), Index(prodReg, n))
  }

  lemma EmptySlotsExact(prodReg: nat, consReg: nat, p: nat, c: nat, highP: nat, highC: nat, n: nat)
    requires 0 < n < UINT32 && Shows(prodReg, p, highP, n) && Shows(consReg, c, highC, n) && c <= p <= c + n
    ensures EmptySlots(prodReg, consReg, n) == n - (p - c)
  {
    Extract(prodReg, p, highP, n);
    Extract(consReg, c, highC, n);
    RemHalf(p, n);
    RemHalf(c, n);
    RemGap(c, p, 2 * n);
  }

  /** Equal index and equal wrap bit mean equal counters. */
  lemma MeetExact(prodReg: nat, consReg: nat, p: nat, c: nat, highP: nat, highC: nat, n: nat)
    requires n > 0 && Shows(prodReg, p, highP, n) && Shows(consReg, c, highC, n) && c <= p <= c + n
    ensures Wrap(consReg, n) == Wrap(prodReg, n) && Index(prodReg, n) == Index(consReg, n) <==> p == c
  {
    Extract(prodReg, p, highP, n);
    Extract(consReg, c, highC, n);
    RemHalf(p, n);
    RemHalf(c, n);
    RemGap(c, p, 2 * n);
  }

  /** The next value of the producer register. */
  function NextWrite(current: nat, prodWrap: nat, n: nat): (r: nat)
    requires current < n
  {
    if current < n - 1 then current + 1 + prodWrap else if prodWrap == 0 then n else 0
  }

  lemma NextWriteExact(p: nat, reg: nat, n: nat)
    requires n > 0 && Shows(reg, p, 0, n)
    ensures Shows(NextWrite(Index(reg, n), Wrap(reg, n) * n, n), p + 1, 0, n)
  {
    Extract(reg, p, 0, n);
    RemHalf(p, n);
    RemNext(p, 2 * n);
  }

  /** The next value of the consumer register, with other bits above. */
  function NextRead(reg: nat, bits: nat, n: nat): (r: nat)
    requires n > 0
  {
    var position := Wrap(reg, n) * n + Index(reg, n);
    bits * (2 * n) + if position + 1 == 2 * n then 0 else position + 1
  }

  lemma NextReadExact(c: nat, reg: nat, high: nat, bits: nat, n: nat)
    requires n > 0 && Shows(reg, c, high, n)
    ensures Shows(NextRead(reg, bits, n), c + 1, bits, n)
  {
    Extract(reg, c, high, n);
    RemHalf(c, n);
    RemNext(c, 2 * n);
  }

  // ---------------------------------------------------------------- the ring in memory

  /** Every command that is not yet consumed stands in its slot. */
  ghost predicate Holds(q: seq<Cmd>, issued: seq<Cmd>, c: nat, n: nat) {
    |q| == n > 0 && forall j :: c <= j < |issued| ==> q[Rem(j, n)] == issued[j]
  }

  /** With room left, the next slot holds no command still to be consumed. */
  lemma WriteKeeps(q: seq<Cmd>, issued: seq<Cmd>, c: nat, cmd: Cmd, n: nat)
    requires Holds(q, issued, c, n) && c <= |issued| < c + n
    ensures Holds(q[Rem(|issued|, n) := cmd], issued, c, n)
    ensures Holds(q[Rem(|issued|, n) := cmd], issued + [cmd], c, n)
  {
    forall j | c <= j < |issued| ensures Rem(j, n) != Rem(|issued|, n) {
      RemGap(j, |issued|, n);
    }
  }

  class CommandQueue {
    const n: nat
    const schedule: nat -> Tick
    const queue: array<Cmd>
    var prodReg: nat
    var consReg: nat
    var time: nat
    ghost var high: nat
    ghost var issued: seq<Cmd>
    ghost var consumed: seq<Cmd>

    /** The registers stand for counters that never wrap; the commands consumed
        are those issued first, in order; the others are in the queue. */
    ghost predicate Valid()
      reads this, queue
    {
      && 0 < n < UINT32 && queue.Length == n
      && consumed <= issued && |issued| - |consumed| <= n
      && Shows(prodReg, |issued|, 0, n) && Shows(consReg, |consumed|, high, n)
      && Holds(queue[..], issued, |consumed|, n)
    }

    constructor (log2: nat, schedule: nat -> Tick)
      requires log2 <= MAX_LOG2
      ensures Valid() && fresh(queue) && n == Pow2(log2) && this.schedule == schedule
      ensures issued == [] && consumed == []
    {
      SmallPowers(log2);
      this.n, this.schedule := Pow2(log2), schedule;
      queue := new Cmd[Pow2(log2)](_ => Cmd(0, 0));
      prodReg, consReg, time := 0, 0, 0;
      high, issued, consumed := 0, [], [];
    }

    /** The hardware consumes the command its register points at. */
    method Consume(bits: nat)
      requires Valid() && |consumed| < |issued|
      modifies this`consReg, this`high, this`consumed
      ensures Valid() && consumed == old(consumed) + [issued[old(|consumed|)]]
    {
      NextReadExact(|consumed|, consReg, high, bits, n);
      Extract(consReg, |consumed|, high, n);
      consumed := consumed + [queue[Index(consReg, n)]];
      consReg := NextRead(consReg, bits, n);
      high := bits;
    }

    method Met(prod: nat, cons: nat) returns (met: bool)
      requires Valid() && prod == prodReg && cons == consReg
      ensures met <==> consumed == issued
    {
      MeetExact(prod, cons, |issued|, |consumed|, 0, high, n);
      met := Wrap(cons, n) == Wrap(prod, n) && Index(prod, n) == Index(cons, n);
    }

    /** Time passes before a register access. */
    method Hardware()
      requires Valid()
      modifies this`consReg, this`high, this`consumed, this`time
      ensures Valid() && old(consumed) <= consumed && time == old(time) + 1
      ensures schedule(old(time)).steps > 0 && |old(consumed)| < |issued| ==> |old(consumed)| < |consumed|
    {
      var tick := schedule(time);
      time := time + 1;
      var i := 0;
      while i < tick.steps
        invariant Valid() && old(consumed) <= consumed && time == old(time) + 1
        invariant i > 0 && |old(consumed)| < |issued| ==> |old(consumed)| < |consumed|
      {
        var met := Met(prodReg, consReg);
        if met {
          return;
        }
        Consume(tick.high);
        i := i + 1;
      }
    }

    method ReadProd() returns (reg: nat)
      requires Valid()
      modifies this`consReg, this`high, this`consumed, this`time
      ensures Valid() && old(consumed) <= consumed && reg == prodReg && time == old(time) + 1
    {
      Hardware();
      reg := prodReg;
    }

    method ReadCons() returns (reg: nat)
      requires Valid()
      modifies this`consReg, this`high, this`consumed, this`time
      ensures Valid() && old(consumed) <= consumed && reg == consReg && time == old(time) + 1
      ensures schedule(old(time)).steps > 0 && |old(consumed)| < |issued| ==> |old(consumed)| < |consumed|
    {
      Hardware();
      reg := consReg;
    }

    /** Puts a command into the queue, unless it was full when the driver looked:
        `seen` commands had been consumed then. */
    method IssueCmd(cmd: Cmd) returns (ok: bool, ghost seen: nat)
      requires Valid()
      modifies this, queue
      ensures Valid() && old(consumed) <= consumed
      ensures |old(consumed)| <= seen <= |consumed| && (ok <==> |old(issued)| < seen + n)
      ensures issued == if ok then old(issued) + [cmd] else old(issued)
    {
      var prod := ReadProd();
      var cons := ReadCons();
      seen := |consumed|;
      EmptySlotsExact(prod, cons, |issued|, |consumed|, 0, high, n);
      if EmptySlots(prod, cons, n) == 0 {
        return false, seen;
      }
      Extract(prod, |issued|, 0, n);
      Hardware();
      PushEntry(Index(prod, n), cmd);
      Hardware();
      UpdateProd(NextWrite(Index(prod, n), Wrap(prod, n) * n, n), cmd);
      Hardware();
      ok := true;
    }

    /** Writes a slot that the hardware is not going to read. */
    method PushEntry(slot: nat, cmd: Cmd)
      requires Valid() && |issued| < |consumed| + n && slot == Rem(|issued|, n)
      modifies queue
      ensures Valid() && queue[slot] == cmd
    {
      WriteKeeps(queue[..], issued, |consumed|, cmd, n);
      queue[slot] := cmd;
    }

    /** Makes the command in the next slot visible to the hardware. */
    method UpdateProd(reg: nat, ghost cmd: Cmd)
      requires Valid() && |issued| < |consumed| + n && queue[Rem(|issued|, n)] == cmd
      requires reg == NextWrite(Index(prodReg, n), Wrap(prodReg, n) * n, n)
      modifies this`prodReg, this`issued
      ensures Valid() && issued == old(issued) + [cmd]
    {
      NextWriteExact(|issued|, prodReg, n);
      WriteKeeps(queue[..], issued, |consumed|, cmd, n);
      assert queue[..][Rem(|issued|, n) := cmd] == queue[..];
      prodReg := reg;
      issued := issued + [cmd];
    }

    /** Waits until the hardware has consumed everything. It gives up after a
        hundred thousand looks, which is not too early for a hardware that consumes
        something between any two of them, if there are no more slots than that. */
    method RdMeetsWrIdx() returns (ok: bool)
      requires Valid()
      modifies this`consReg, this`high, this`consumed, this`time
      ensures Valid() && old(consumed) <= consumed
      ensures ok ==> consumed == issued
      ensures |old(consumed)| == |issued| ==> ok
      ensures n <= 100000 && (forall t :: schedule(t).steps > 0) ==> ok
      ensures if ok then time <= old(time) + 100001 else time == old(time) + 100002
    {
      ghost var busy := n <= MAX_POLLS && forall t :: schedule(t).steps > 0;
      var prod := ReadProd();
      var cons := ReadCons();
      var attempts := 0;
      while attempts < MAX_POLLS
        invariant Valid() && old(consumed) <= consumed && prod == prodReg && cons == consReg && attempts <= MAX_POLLS
        invariant busy ==> |issued| - |consumed| + attempts < n
        invariant |old(consumed)| == |issued| ==> attempts == 0
        invariant time == old(time) + 2 + attempts
      {
        attempts := attempts + 1;
        var met := Met(prod, cons);
        if met {
          return true;
        }
        cons := ReadCons();
      }
      ok := false;
    }

    /** Success means that the hardware has consumed the CMD_SYNC and with it
        every command issued before. */
    method SynchronizeCmdq() returns (ok: bool)
      requires Valid()
      modifies this, queue
      ensures Valid() && old(consumed) <= consumed
      ensures issued == old(issued) || (|issued| == |old(issued)| + 1 && old(issued) <= issued)
      ensures issued != old(issued) ==>
                var cmd := issued[|issued| - 1];
                && cmd.dw0 & 0xFF == 0x46 && (cmd.dw0 >> 12) & 3 == 0
                && cmd.dw0 & 0xFFFF_FFFF_FFFF_CF00 == 0 && cmd.dw1 == 0
      ensures ok ==> consumed == issued != old(issued)
      ensures n <= MAX_POLLS && (forall t :: schedule(t).steps > 0) && issued != old(issued) ==> ok
    {
      ghost var seen;
      ok, seen := IssueCmd(Sync());
      if !ok {
        return;
      }
      ok := RdMeetsWrIdx();
    }
  }

  function Sync(): (cmd: Cmd)
  {
    Cmd((OP_CMD_SYNC & 0xFF) | ((CSIGNAL_NONE & 0x3) << 12), 0)
  }

  lemma SmallPowers(k: nat)
    requires k <= MAX_LOG2
    ensures 0 < Pow2(k) <= 524288
  {
    PowersGrow(k, MAX_LOG2);
    assert Pow2(4) == 16 && Pow2(8) == 256 && Pow2(12) == 4096 && Pow2(16) == 65536;
    assert Pow2(19) == 524288;
  }

  lemma {:induction false} PowersGrow(a: nat, b: nat)
    requires a <= b
    ensures Pow2(a) <= Pow2(b)
  {
    if a < b {
      PowersGrow(a, b - 1);
    }
  }
}
