/** What a run of interrupt calls leaves behind, told from the calls alone: which
    interrupts are enabled, pending and FIQs, and what the next get returns. */
module InterruptRuns {
  import opened InterruptSpec

  /** The interrupt has been enabled and not been disabled since. */
  ghost predicate EnabledBy(ops: seq<Op>, x: nat) {
    exists i :: 0 <= i < |ops| && ops[i].Enable? && ops[i].id == x && NoneAfter(ops, i, Disable(x), Disable(x))
  }

  /** It has been enabled as an FIQ and neither as an IRQ nor disabled since. */
  ghost predicate FiqBy(ops: seq<Op>, x: nat) {
    exists i :: 0 <= i < |ops| && ops[i] == Enable(x, Fiq) && NoneAfter(ops, i, Disable(x), Enable(x, Irq))
  }

  /** It has been injected, and no get has returned it since. */
  ghost predicate PendingBy(ops: seq<Op>, x: nat) {
    exists i :: 0 <= i < |ops| && ops[i] == Inject(x) && NotTakenAfter(ops, i, x)
  }

  predicate NoneAfter(ops: seq<Op>, i: int, a: Op, b: Op) {
    forall j :: i < j < |ops| && 0 <= j ==> ops[j] != a && ops[j] != b
  }

  predicate NotTakenAfter(ops: seq<Op>, i: int, x: nat) {
    forall j :: i < j < |ops| && 0 <= j && ops[j] == Get ==> Answer(ops[..j]) != x
  }

  /** What a get after these calls returns. */
  function Answer(ops: seq<Op>): (r: nat) {
    Next(Run(ZEROED, ops))
  }

  lemma {:induction false} RunLast(v: Vcpu, ops: seq<Op>, op: Op)
    ensures Run(v, ops + [op]) == Step(Run(v, ops), op)
    decreases ops
  {
    if ops == [] {
      assert ops + [op] == [op] && [op][1..] == [];
      assert Run(v, [op]) == Run(Step(v, op), []);
    } else {
      assert (ops + [op])[1..] == ops[1..] + [op] && (ops + [op])[0] == ops[0];
      RunLast(Step(v, ops[0]), ops[1..], op);
    }
  }

  lemma EnabledNext(ops: seq<Op>, op: Op, x: nat)
    ensures EnabledBy(ops + [op], x) <==> (op.Enable? && op.id == x) || (EnabledBy(ops, x) && op != Disable(x))
  {
    var more := ops + [op];
    assert more[|ops|] == op;
    if op.Enable? && op.id == x {
      assert NoneAfter(more, |ops|, Disable(x), Disable(x));
    }
    if i :| 0 <= i < |ops| && ops[i].Enable? && ops[i].id == x && NoneAfter(ops, i, Disable(x), Disable(x)) {
      if op != Disable(x) {
        assert more[i] == ops[i] && NoneAfter(more, i, Disable(x), Disable(x));
      }
    }
    if i :| 0 <= i < |more| && more[i].Enable? && more[i].id == x && NoneAfter(more, i, Disable(x), Disable(x)) {
      if i < |ops| {
        assert ops[i] == more[i] && NoneAfter(ops, i, Disable(x), Disable(x)) by {
          assert forall j :: i < j < |ops| ==> ops[j] == more[j];
        }
      }
    }
  }

  lemma FiqNext(ops: seq<Op>, op: Op, x: nat)
    ensures FiqBy(ops + [op], x) <==>
            op == Enable(x, Fiq) || (FiqBy(ops, x) && op != Disable(x) && op != Enable(x, Irq))
  {
    var more := ops + [op];
    assert more[|ops|] == op;
    if op == Enable(x, Fiq) {
      assert NoneAfter(more, |ops|, Disable(x), Enable(x, Irq));
    }
    if i :| 0 <= i < |ops| && ops[i] == Enable(x, Fiq) && NoneAfter(ops, i, Disable(x), Enable(x, Irq)) {
      if op != Disable(x) && op != Enable(x, Irq) {
        assert more[i] == ops[i] && NoneAfter(more, i, Disable(x), Enable(x, Irq));
      }
    }
    if i :| 0 <= i < |more| && more[i] == Enable(x, Fiq) && NoneAfter(more, i, Disable(x), Enable(x, Irq)) {
      if i < |ops| {
        assert ops[i] == more[i] && NoneAfter(ops, i, Disable(x), Enable(x, Irq)) by {
          assert forall j :: i < j < |ops| ==> ops[j] == more[j];
        }
      }
    }
  }

  lemma PendingNext(ops: seq<Op>, op: Op, x: nat)
    ensures PendingBy(ops + [op], x) <==> op == Inject(x) || (PendingBy(ops, x) && !(op == Get && Answer(ops) == x))
  {
    var more := ops + [op];
    assert more[|ops|] == op && more[..|ops|] == ops;
    forall j | 0 <= j < |ops| ensures more[j] == ops[j] && more[..j] == ops[..j] {
    }
    if op == Inject(x) {
      assert NotTakenAfter(more, |ops|, x);
    }
    if i :| 0 <= i < |ops| && ops[i] == Inject(x) && NotTakenAfter(ops, i, x) {
      if !(op == Get && Answer(ops) == x) {
        assert more[i] == ops[i] && NotTakenAfter(more, i, x);
      }
    }
    if i :| 0 <= i < |more| && more[i] == Inject(x) && NotTakenAfter(more, i, x) {
      if i < |ops| {
        assert ops[i] == more[i] && NotTakenAfter(ops, i, x);
      }
    }
  }

  /** After every run: an interrupt is enabled, pending or an FIQ exactly if the
      calls say so. */
  lemma {:induction false} RunHistory(ops: seq<Op>, x: nat)
    requires x < 64
    ensures var v := Run(ZEROED, ops);
            && (x in v.enabled <==> EnabledBy(ops, x))
            && (x in v.pending <==> PendingBy(ops, x))
            && (x in v.fiqs <==> FiqBy(ops, x))
    decreases ops
  {
    if ops != [] {
      var before, op := ops[..|ops| - 1], ops[|ops| - 1];
      assert ops == before + [op];
      RunHistory(before, x);
      RunLast(ZEROED, before, op);
      EnabledNext(before, op, x);
      PendingNext(before, op, x);
      FiqNext(before, op, x);
      StepBits(Run(ZEROED, before), op, x);
    }
  }

  /** What one call does to the three bits of any interrupt. */
  lemma StepBits(v: Vcpu, op: Op, x: nat)
    requires x < 64
    ensures var w := Step(v, op);
            && (x in w.enabled <==> (op.Enable? && op.id == x) || (x in v.enabled && op != Disable(x)))
            && (x in w.pending <==> op == Inject(x) || (x in v.pending && !(op == Get && Next(v) == x)))
            && (x in w.fiqs <==>
                  op == Enable(x, Fiq) || (x in v.fiqs && op != Disable(x) && op != Enable(x, Irq)))
  {
  }

  /** A get returns the least interrupt that the calls have left enabled and
      pending, or the invalid ID if there is none. */
  lemma AnswerExact(ops: seq<Op>)
    ensures var r := Answer(ops);
            && (r != 0xffff_ffff ==> r < 64 && EnabledBy(ops, r) && PendingBy(ops, r))
            && (forall x: nat :: x < 64 && x < r ==> !EnabledBy(ops, x) || !PendingBy(ops, x))
  {
    var v := Run(ZEROED, ops);
    forall x: nat | x < 64
      ensures x in Live(v) <==> EnabledBy(ops, x) && PendingBy(ops, x)
    {
      RunHistory(ops, x);
    }
  }
}
