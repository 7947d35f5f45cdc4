/** The interrupt calls on the bit fields of a vCPU: two words of 32 bits each
    for enabled, pending and type, and two 32-bit counters. */
module Interrupts {
  import opened InterruptSpec

  const REGISTER_BITS: nat := 32
  const REGISTERS: nat := NUM_INTIDS / REGISTER_BITS

  /** Bit `id % 32` of word `id / 32`. */
  ghost predicate Bit(words: array2<bool>, id: int)
    requires words.Length0 == REGISTERS && words.Length1 == REGISTER_BITS && 0 <= id < NUM_INTIDS
    reads words
  {
    words[id / REGISTER_BITS, id % REGISTER_BITS]
  }

  ghost function Bits(words: array2<bool>): (s: set<nat>)
    requires words.Length0 == REGISTERS && words.Length1 == REGISTER_BITS
    reads words
    ensures forall id: nat :: id in s <==> id < NUM_INTIDS && Bit(words, id)
  {
    set id: nat | id < NUM_INTIDS && Bit(words, id)
  }

  method SetBit(words: array2<bool>, id: nat, value: bool)
    requires words.Length0 == REGISTERS && words.Length1 == REGISTER_BITS && id < NUM_INTIDS
    modifies words
    ensures Bits(words) == if value then old(Bits(words)) + {id} else old(Bits(words)) - {id}
  {
    words[id / REGISTER_BITS, id % REGISTER_BITS] := value;
    forall j: nat | j < NUM_INTIDS && j != id ensures Bit(words, j) == old(Bit(words, j)) {
      assert j / REGISTER_BITS != id / REGISTER_BITS || j % REGISTER_BITS != id % REGISTER_BITS;
    }
  }

  class VcpuInterrupts {
    const enabled: array2<bool>
    const pending: array2<bool>
    const types: array2<bool>
    var irqCount: nat
    var fiqCount: nat

    ghost const Repr: set<object> := {this, enabled, pending, types}

    ghost predicate Valid() {
      && enabled.Length0 == pending.Length0 == types.Length0 == REGISTERS
      && enabled.Length1 == pending.Length1 == types.Length1 == REGISTER_BITS
      && enabled != pending && enabled != types && pending != types
    }

    ghost function View(): (v: Vcpu)
      requires Valid()
      reads this, enabled, pending, types
    {
      Vcpu(Bits(enabled), Bits(pending), Bits(types), irqCount, fiqCount)
    }

    constructor ()
      ensures Valid() && fresh(Repr) && View() == ZEROED
    {
      enabled := new bool[REGISTERS, REGISTER_BITS]((i, j) => false);
      pending := new bool[REGISTERS, REGISTER_BITS]((i, j) => false);
      types := new bool[REGISTERS, REGISTER_BITS]((i, j) => false);
      irqCount, fiqCount := 0, 0;
    }

    method CountUp(id: nat)
      requires Valid() && id < NUM_INTIDS
      modifies this
      ensures View() == InterruptSpec.CountUp(old(View()), id)
    {
      if !types[id / REGISTER_BITS, id % REGISTER_BITS] {
        irqCount := Up(irqCount);
      } else {
        fiqCount := Up(fiqCount);
      }
      assert id in Bits(types) <==> Bit(types, id);
    }

    method CountDown(id: nat)
      requires Valid() && id < NUM_INTIDS
      modifies this
      ensures View() == InterruptSpec.CountDown(old(View()), id)
    {
      if !types[id / REGISTER_BITS, id % REGISTER_BITS] {
        irqCount := Down(irqCount);
      } else {
        fiqCount := Down(fiqCount);
      }
      assert id in Bits(types) <==> Bit(types, id);
    }

    method Enable(id: nat, enable: bool, kind: Type) returns (ret: int)
      requires Valid()
      modifies Repr
      ensures ret == if id < NUM_INTIDS then 0 else -1
      ensures View() == Step(old(View()), if enable then Op.Enable(id, kind) else Op.Disable(id))
    {
      if id >= NUM_INTIDS {
        return -1;
      }
      var index, shift := id / REGISTER_BITS, id % REGISTER_BITS;
      assert Bit(enabled, id) == enabled[index, shift] && Bit(pending, id) == pending[index, shift];
      if enable {
        if pending[index, shift] && !enabled[index, shift] {
          CountUp(id);
        }
        SetBit(enabled, id, true);
        if kind == Irq {
          SetBit(types, id, false);
        } else if kind == Fiq {
          SetBit(types, id, true);
        }
      } else {
        if pending[index, shift] && enabled[index, shift] {
          CountDown(id);
        }
        SetBit(enabled, id, false);
        SetBit(types, id, false);
      }
      ret := 0;
    }

    /** Tells the primary VM to kick the vCPU, or wakes it up for another vCPU that
        can switch to it, exactly when the interrupt is the only one that is
        enabled and pending and was not so before. The sum of the counters is
        right in every reachable state (`CountersExact`). */
    method Inject(id: nat, fromPrimary: bool, fromTarget: bool, canSwitch: bool) returns (ret: int, wake: bool)
      requires Valid() && id < NUM_INTIDS && (irqCount + fiqCount) % UINT32 == |Live(View())|
      modifies Repr
      ensures View() == Step(old(View()), Op.Inject(id))
      ensures var first := Live(old(View())) == {} && Live(View()) == {id};
              && ret == (if first && fromPrimary then 1 else 0)
              && (wake <==> first && !fromPrimary && !fromTarget && canSwitch)
    {
      var index, shift := id / REGISTER_BITS, id % REGISTER_BITS;
      ghost var v := View();
      assert Bit(enabled, id) == enabled[index, shift] && Bit(pending, id) == pending[index, shift];
      ret, wake := 0, false;
      if enabled[index, shift] && !pending[index, shift] {
        CountUp(id);
        var first := IsFirst(v, id);
        if first {
          if fromPrimary {
            ret := 1;
          } else if !fromTarget && canSwitch {
            wake := true;
          }
        }
      } else {
        NothingNew(v, id);
      }
      SetBit(pending, id, true);
      assert View() == DoInject(v, id);
    }

    /** The interrupt just counted is the only one. */
    method IsFirst(ghost v: Vcpu, ghost id: nat) returns (first: bool)
      requires Valid() && View() == InterruptSpec.CountUp(v, id)
      requires id !in Live(v) && id in v.enabled && (v.irqCount + v.fiqCount) % UINT32 == |Live(v)|
      ensures first <==> Live(v) == {}
      ensures first <==> Live(DoInject(v, id)) == {id}
    {
      OnlyOne(v, id);
      first := (irqCount + fiqCount) % UINT32 == 1;
    }

    /** The lowest bit that is set in both words, 32 if there is none. */
    method LowestBit(i: nat) returns (bit: nat)
      requires Valid() && i < REGISTERS
      ensures bit <= REGISTER_BITS && (bit < REGISTER_BITS ==> enabled[i, bit] && pending[i, bit])
      ensures forall j :: 0 <= j < bit ==> !(enabled[i, j] && pending[i, j])
    {
      bit := 0;
      while bit < REGISTER_BITS && !(enabled[i, bit] && pending[i, bit])
        invariant bit <= REGISTER_BITS && forall j :: 0 <= j < bit ==> !(enabled[i, j] && pending[i, j])
      {
        bit := bit + 1;
      }
    }

    method Get() returns (first: nat)
      requires Valid()
      modifies Repr
      ensures first == Next(old(View())) && View() == Step(old(View()), Op.Get)
    {
      ghost var v := View();
      var i := 0;
      while i < REGISTERS
        invariant i <= REGISTERS && View() == v
        invariant forall id :: 0 <= id < i * REGISTER_BITS ==> !(Bit(enabled, id) && Bit(pending, id))
      {
        var bit := LowestBit(i);
        if bit < REGISTER_BITS {
          first := i * REGISTER_BITS + bit;
          NextIs(first);
          CountDown(first);
          SetBit(pending, first, false);
          return;
        }
        i := i + 1;
      }
      first := INVALID_INTID;
    }

    lemma NextIs(first: nat)
      requires Valid() && first < NUM_INTIDS && Bit(enabled, first) && Bit(pending, first)
      requires forall id :: 0 <= id < first ==> !(Bit(enabled, id) && Bit(pending, id))
      ensures Next(View()) == first
    {
      var f := First(Live(View()), 0);
      assert first in Live(View());
      assert f < NUM_INTIDS ==> Bit(enabled, f) && Bit(pending, f);
    }
  }

  lemma NothingNew(v: Vcpu, id: nat)
    requires id in v.enabled ==> id in v.pending
    ensures Live(DoInject(v, id)) == Live(v)
  {
    assert forall x :: x in Live(DoInject(v, id)) <==> x in Live(v);
  }

  lemma OnlyOne(v: Vcpu, id: nat)
    requires id !in Live(v) && id in v.enabled && (v.irqCount + v.fiqCount) % UINT32 == |Live(v)|
    ensures var w := InterruptSpec.CountUp(v, id);
            ((w.irqCount + w.fiqCount) % UINT32 == 1 <==> Live(v) == {}) &&
            (Live(DoInject(v, id)) == {id} <==> Live(v) == {})
  {
    assert Live(DoInject(v, id)) == Live(v) + {id};
  }
}
