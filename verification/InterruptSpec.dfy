/** The virtual interrupts of a vCPU as sets of interrupt IDs with two counters,
    and what the counters count. */
module InterruptSpec {
  const NUM_INTIDS: nat := 64
  const INVALID_INTID: nat := 0xffff_ffff
  const UINT32: nat := 0x1_0000_0000

  datatype Vcpu = Vcpu(enabled: set<nat>, pending: set<nat>, fiqs: set<nat>, irqCount: nat, fiqCount: nat)

  /** The type that a VM asks for is a number, of which only two have a meaning. */
  datatype Type = Irq | Fiq | Neither

  datatype Op = Enable(id: nat, kind: Type) | Disable(id: nat) | Inject(id: nat) | Get

  const ZEROED := Vcpu({}, {}, {}, 0, 0)

  ghost predicate Wf(v: Vcpu) {
    && (forall id :: id in v.enabled || id in v.pending || id in v.fiqs ==> id < NUM_INTIDS)
    && v.irqCount < UINT32 && v.fiqCount < UINT32
  }

  /** The interrupts that are enabled and pending. */
  function Live(v: Vcpu): (s: set<nat>) {
    v.enabled * v.pending
  }

  function LiveIrqs(v: Vcpu): (s: set<nat>) {
    Live(v) - v.fiqs
  }

  function LiveFiqs(v: Vcpu): (s: set<nat>) {
    Live(v) * v.fiqs
  }

  // ---------------------------------------------------------------- the operations

  function Up(x: nat): (r: nat) {
    if x + 1 == UINT32 then 0 else x + 1
  }

  function Down(x: nat): (r: nat) {
    if x == 0 then UINT32 - 1 else x - 1
  }

  /** Counts an interrupt under the type that is recorded for it. */
  function CountUp(v: Vcpu, id: nat): (r: Vcpu) {
    if id in v.fiqs then v.(fiqCount := Up(v.fiqCount)) else v.(irqCount := Up(v.irqCount))
  }

  function CountDown(v: Vcpu, id: nat): (r: Vcpu) {
    if id in v.fiqs then v.(fiqCount := Down(v.fiqCount)) else v.(irqCount := Down(v.irqCount))
  }

  function Retype(fiqs: set<nat>, id: nat, kind: Type): (r: set<nat>) {
    match kind
    case Irq => fiqs - {id}
    case Fiq => fiqs + {id}
    case Neither => fiqs
  }

  function DoEnable(v: Vcpu, id: nat, kind: Type): (r: Vcpu) {
    var w := if id in v.pending && id !in v.enabled then CountUp(v, id) else v;
    w.(enabled := v.enabled + {id}, fiqs := Retype(v.fiqs, id, kind))
  }

  function DoDisable(v: Vcpu, id: nat): (r: Vcpu) {
    var w := if id in Live(v) then CountDown(v, id) else v;
    w.(enabled := v.enabled - {id}, fiqs := v.fiqs - {id})
  }

  function DoInject(v: Vcpu, id: nat): (r: Vcpu) {
    var w := if id in v.enabled && id !in v.pending then CountUp(v, id) else v;
    w.(pending := v.pending + {id})
  }

  function DoTake(v: Vcpu, id: nat): (r: Vcpu) {
    CountDown(v, id).(pending := v.pending - {id})
  }

  /** The least ID from `from` on that is in the set. */
  function First(s: set<nat>, from: nat): (r: nat)
    requires from <= NUM_INTIDS
    ensures from <= r <= NUM_INTIDS && (r < NUM_INTIDS ==> r in s) && forall id :: from <= id < r ==> id !in s
    decreases NUM_INTIDS - from
  {
    if from == NUM_INTIDS || from in s then from else First(s, from + 1)
  }

  function Next(v: Vcpu): (r: nat) {
    if First(Live(v), 0) == NUM_INTIDS then INVALID_INTID else First(Live(v), 0)
  }

  function DoGet(v: Vcpu): (r: Vcpu) {
    if Next(v) == INVALID_INTID then v else DoTake(v, Next(v))
  }

  function Step(v: Vcpu, op: Op): (r: Vcpu) {
    match op
    case Enable(id, kind) => if id < NUM_INTIDS then DoEnable(v, id, kind) else v
    case Disable(id) => if id < NUM_INTIDS then DoDisable(v, id) else v
    case Inject(id) => if id < NUM_INTIDS then DoInject(v, id) else v
    case Get => DoGet(v)
  }

  function Run(v: Vcpu, ops: seq<Op>): (r: Vcpu)
    decreases |ops|
  {
    if ops == [] then v else Run(Step(v, ops[0]), ops[1..])
  }

  // ---------------------------------------------------------------- what the counters count

  /** By how much a step moves the IRQ counter away from the interrupts it should
      count: an enable that changes the recorded type of a pending interrupt. */
  function Drift(v: Vcpu, op: Op): (d: int) {
    if !op.Enable? || op.id >= NUM_INTIDS || op.id !in v.pending then 0
    else if op.kind == Fiq && op.id !in v.fiqs then 1
    else if op.kind == Irq && op.id in v.fiqs then -1
    else 0
  }

  function RunDrift(v: Vcpu, ops: seq<Op>): (d: int)
    decreases |ops|
  {
    if ops == [] then 0 else Drift(v, ops[0]) + RunDrift(Step(v, ops[0]), ops[1..])
  }

  /** A number in a 32-bit counter; said without division, which keeps it cheap. */
  function Wrapped(n: int): (r: nat)
    ensures r < UINT32
    decreases if n < 0 then -n else n
  {
    if n < 0 then (if n + UINT32 >= 0 then n + UINT32 else Wrapped(n + UINT32))
    else if n >= UINT32 then Wrapped(n - UINT32)
    else n
  }

  lemma {:induction false} WrappedSteps(n: int)
    ensures Up(Wrapped(n)) == Wrapped(n + 1) && Down(Wrapped(n)) == Wrapped(n - 1)
    decreases if n < 0 then -n else n
  {
    if n + UINT32 < 0 {
      WrappedSteps(n + UINT32);
    } else if n >= UINT32 {
      WrappedSteps(n - UINT32);
    }
  }

  /** Going around any number of times changes nothing. */
  lemma {:induction false} WrappedAround(n: int, k: int)
    ensures Wrapped(n + k * UINT32) == Wrapped(n)
    decreases if k < 0 then -k else k
  {
    if k > 0 {
      WrappedAround(n, k - 1);
      WrappedOnce(n + (k - 1) * UINT32);
    } else if k < 0 {
      WrappedAround(n, k + 1);
      WrappedOnce(n + k * UINT32);
    }
  }

  lemma {:induction false} WrappedOnce(n: int)
    ensures Wrapped(n + UINT32) == Wrapped(n)
    decreases if n < 0 then -n else n
  {
    if n + UINT32 < 0 {
      WrappedOnce(n + UINT32);
    }
  }

  lemma WrappedSum(a: nat, b: nat, d: int)
    requires a + b < UINT32
    ensures (Wrapped(a + d) + Wrapped(b - d)) % UINT32 == a + b
  {
    var k, r := d / UINT32, d % UINT32;
    WrappedAround(a + r, k);
    WrappedAround(b - r, -k);
    assert Wrapped(a + d) == Wrapped(a + r) && Wrapped(b - d) == Wrapped(b - r);
    var sum := Wrapped(a + r) + Wrapped(b - r);
    assert sum == a + b || sum == a + b + UINT32;
  }

  lemma WrappedExact(a: nat, d: int)
    requires a < UINT32
    ensures Wrapped(a + d) == a <==> d % UINT32 == 0
    ensures Wrapped(a - d) == a <==> d % UINT32 == 0
  {
    var k, r := d / UINT32, d % UINT32;
    WrappedAround(a + r, k);
    WrappedAround(a - r, -k);
    assert Wrapped(a + d) == Wrapped(a + r) && Wrapped(a - d) == Wrapped(a - r);
  }

  /** The counters are right but for a drift from the one to the other. */
  ghost predicate Counted(v: Vcpu, drift: int) {
    v.irqCount == Wrapped(|LiveIrqs(v)| + drift) && v.fiqCount == Wrapped(|LiveFiqs(v)| - drift)
  }

  lemma AddOne(s: set<nat>, t: set<nat>, x: nat)
    requires x !in s && t == s + {x}
    ensures |t| == |s| + 1
  {
  }

  /** One interrupt becomes live, or stops being live, and is counted so. */
  lemma CountUpCounts(v: Vcpu, w: Vcpu, id: nat, drift: int)
    requires Counted(v, drift) && id !in Live(v) && Live(w) == Live(v) + {id} && w.fiqs == v.fiqs
    requires w.irqCount == CountUp(v, id).irqCount && w.fiqCount == CountUp(v, id).fiqCount
    ensures Counted(w, drift)
  {
    WrappedSteps(|LiveIrqs(v)| + drift);
    WrappedSteps(|LiveFiqs(v)| - drift);
    if id in v.fiqs {
      AddOne(LiveFiqs(v), LiveFiqs(w), id);
      assert LiveIrqs(w) == LiveIrqs(v);
    } else {
      AddOne(LiveIrqs(v), LiveIrqs(w), id);
      assert LiveFiqs(w) == LiveFiqs(v);
    }
  }

  lemma CountDownCounts(v: Vcpu, w: Vcpu, id: nat, drift: int)
    requires Counted(v, drift) && id in Live(v) && Live(w) == Live(v) - {id} && w.fiqs == v.fiqs
    requires w.irqCount == CountDown(v, id).irqCount && w.fiqCount == CountDown(v, id).fiqCount
    ensures Counted(w, drift)
  {
    WrappedSteps(|LiveIrqs(v)| + drift);
    WrappedSteps(|LiveFiqs(v)| - drift);
    if id in v.fiqs {
      AddOne(LiveFiqs(w), LiveFiqs(v), id);
      assert LiveIrqs(w) == LiveIrqs(v);
    } else {
      AddOne(LiveIrqs(w), LiveIrqs(v), id);
      assert LiveFiqs(w) == LiveFiqs(v);
    }
  }

  /** The interrupts that a new type for one of them adds to the FIQs. */
  function Moved(v: Vcpu, id: nat, fiq: bool): (d: int) {
    if id in Live(v) && fiq != (id in v.fiqs) then if fiq then 1 else -1 else 0
  }

  lemma MoveOne(live: set<nat>, f: set<nat>, g: set<nat>, id: nat)
    requires id in live && id !in f && id in g && forall x :: x != id ==> (x in f <==> x in g)
    ensures |live - f| == |live - g| + 1 && |live * g| == |live * f| + 1
  {
    AddOne(live - g, live - f, id);
    AddOne(live * f, live * g, id);
  }

  lemma RetypeMoves(v: Vcpu, w: Vcpu, id: nat, fiq: bool)
    requires w == v.(fiqs := if fiq then v.fiqs + {id} else v.fiqs - {id})
    ensures |LiveIrqs(w)| == |LiveIrqs(v)| - Moved(v, id, fiq) && |LiveFiqs(w)| == |LiveFiqs(v)| + Moved(v, id, fiq)
  {
    if Moved(v, id, fiq) == 0 {
      assert LiveIrqs(w) == LiveIrqs(v) && LiveFiqs(w) == LiveFiqs(v);
    } else if fiq {
      MoveOne(Live(v), v.fiqs, w.fiqs, id);
    } else {
      MoveOne(Live(v), w.fiqs, v.fiqs, id);
    }
  }

  /** A new type for an interrupt leaves it counted under the old one. */
  lemma RetypeDrifts(v: Vcpu, w: Vcpu, id: nat, fiq: bool, drift: int)
    requires Counted(v, drift) && w == v.(fiqs := if fiq then v.fiqs + {id} else v.fiqs - {id})
    ensures Counted(w, drift + Moved(v, id, fiq))
  {
    RetypeMoves(v, w, id, fiq);
    var d := Moved(v, id, fiq);
    assert |LiveIrqs(w)| + (drift + d) == |LiveIrqs(v)| + drift;
    assert |LiveFiqs(w)| - (drift + d) == |LiveFiqs(v)| - drift;
  }

  /** Enabling an interrupt, before its type is set. */
  lemma SwitchOnCounts(v: Vcpu, w: Vcpu, id: nat, drift: int)
    requires Counted(v, drift)
    requires w == (if id in v.pending && id !in v.enabled then CountUp(v, id) else v).(enabled := v.enabled + {id})
    ensures Counted(w, drift) && w.fiqs == v.fiqs && (id in Live(w) <==> id in v.pending)
  {
    if id in v.pending && id !in v.enabled {
      assert Live(w) == Live(v) + {id};
      CountUpCounts(v, w, id, drift);
    } else {
      assert Live(w) == Live(v);
    }
  }

  lemma EnableCounts(v: Vcpu, id: nat, kind: Type, drift: int)
    requires Counted(v, drift) && id < NUM_INTIDS
    ensures Counted(DoEnable(v, id, kind), drift + Drift(v, Enable(id, kind)))
  {
    var w := (if id in v.pending && id !in v.enabled then CountUp(v, id) else v).(enabled := v.enabled + {id});
    SwitchOnCounts(v, w, id, drift);
    if kind == Neither {
      assert w == DoEnable(v, id, kind);
    } else {
      var r, fiq := DoEnable(v, id, kind), kind == Fiq;
      RetypeDrifts(w, r, id, fiq, drift);
      assert Moved(w, id, fiq) == Drift(v, Enable(id, kind));
    }
  }

  lemma DisableCounts(v: Vcpu, id: nat, drift: int)
    requires Counted(v, drift)
    ensures Counted(DoDisable(v, id), drift)
  {
    var w := DoDisable(v, id).(fiqs := v.fiqs);
    if id in Live(v) {
      CountDownCounts(v, w, id, drift);
    } else {
      assert Live(w) == Live(v);
    }
    RetypeDrifts(w, DoDisable(v, id), id, false, drift);
  }

  lemma InjectCounts(v: Vcpu, id: nat, drift: int)
    requires Counted(v, drift)
    ensures Counted(DoInject(v, id), drift)
  {
    var w := DoInject(v, id);
    if id in v.enabled && id !in v.pending {
      CountUpCounts(v, w, id, drift);
    } else {
      assert Live(w) == Live(v);
    }
  }

  lemma GetCounts(v: Vcpu, drift: int)
    requires Counted(v, drift)
    ensures Counted(DoGet(v), drift)
  {
    if Next(v) != INVALID_INTID {
      CountDownCounts(v, DoGet(v), Next(v), drift);
    }
  }

  lemma StepCounts(v: Vcpu, op: Op, drift: int)
    requires Counted(v, drift)
    ensures Counted(Step(v, op), drift + Drift(v, op))
  {
    match op
    case Enable(id, kind) =>
      if id < NUM_INTIDS {
        EnableCounts(v, id, kind, drift);
      }
    case Disable(id) => DisableCounts(v, id, drift);
    case Inject(id) => InjectCounts(v, id, drift);
    case Get => GetCounts(v, drift);
  }

  lemma {:induction false} RunCounts(v: Vcpu, ops: seq<Op>, drift: int)
    requires Counted(v, drift)
    ensures Counted(Run(v, ops), drift + RunDrift(v, ops))
    decreases |ops|
  {
    if ops != [] {
      StepCounts(v, ops[0], drift);
      RunCounts(Step(v, ops[0]), ops[1..], drift + Drift(v, ops[0]));
    }
  }

  lemma {:induction false} RunWf(v: Vcpu, ops: seq<Op>)
    requires Wf(v)
    ensures Wf(Run(v, ops))
    decreases |ops|
  {
    if ops != [] {
      RunWf(Step(v, ops[0]), ops[1..]);
    }
  }

  /** After every run the 32-bit sum of the counters is the number of interrupts
      that are enabled and pending. Each counter by itself is right if and only
      if the changes of type of pending interrupts cancel out. */
  lemma CountersExact(ops: seq<Op>)
    ensures var v := Run(ZEROED, ops);
            && (v.irqCount + v.fiqCount) % UINT32 == |Live(v)|
            && (v.irqCount == |LiveIrqs(v)| <==> RunDrift(ZEROED, ops) % UINT32 == 0)
            && (v.fiqCount == |LiveFiqs(v)| <==> RunDrift(ZEROED, ops) % UINT32 == 0)
  {
    RunCounts(ZEROED, ops, 0);
    RunWf(ZEROED, ops);
    CountedMeans(Run(ZEROED, ops), RunDrift(ZEROED, ops));
  }

  lemma CountedMeans(v: Vcpu, drift: int)
    requires Counted(v, drift) && Wf(v)
    ensures (v.irqCount + v.fiqCount) % UINT32 == |Live(v)|
    ensures v.irqCount == |LiveIrqs(v)| <==> drift % UINT32 == 0
    ensures v.fiqCount == |LiveFiqs(v)| <==> drift % UINT32 == 0
  {
    Parts(v);
    Small(Live(v), NUM_INTIDS);
    var irqs, fiqs := |LiveIrqs(v)|, |LiveFiqs(v)|;
    WrappedSum(irqs, fiqs, drift);
    WrappedExact(irqs, drift);
    WrappedExact(fiqs, drift);
  }

  lemma Parts(v: Vcpu)
    ensures |Live(v)| == |LiveIrqs(v)| + |LiveFiqs(v)|
  {
    assert Live(v) == LiveIrqs(v) + LiveFiqs(v);
    assert LiveIrqs(v) !! LiveFiqs(v);
  }

  lemma {:induction false} Small(s: set<nat>, n: nat)
    requires forall x :: x in s ==> x < n
    ensures |s| <= n
  {
    if n > 0 {
      Small(s - {n - 1}, n - 1);
      if n - 1 in s {
        AddOne(s - {n - 1}, s, n - 1);
      } else {
        assert s - {n - 1} == s;
      }
    }
  }

  /** A pending interrupt that is enabled as an FIQ is counted as an IRQ; taking
      it makes the FIQ counter wrap below zero. */
  lemma PendingFiqMiscounts(id: nat)
    requires id < NUM_INTIDS
    ensures var v := Run(ZEROED, [Inject(id), Enable(id, Fiq)]);
            LiveFiqs(v) == {id} && v.irqCount == 1 && v.fiqCount == 0 && DoTake(v, id).fiqCount == UINT32 - 1
  {
    var v1 := Step(ZEROED, Inject(id));
    var v2 := Step(v1, Enable(id, Fiq));
    assert [Inject(id), Enable(id, Fiq)][1..] == [Enable(id, Fiq)];
    assert Run(v1, [Enable(id, Fiq)]) == Run(v2, []);
    assert Live(v2) == {id};
  }

  // ---------------------------------------------------------------- draining

  /** The members of the set from `from` on, in ascending order. */
  function Ascending(s: set<nat>, from: nat): (r: seq<nat>)
    requires from <= NUM_INTIDS
    decreases NUM_INTIDS - from
  {
    if from == NUM_INTIDS then [] else if from in s then [from] + Ascending(s, from + 1) else Ascending(s, from + 1)
  }

  lemma {:induction false} AscendingOrder(s: set<nat>, from: nat)
    requires from <= NUM_INTIDS
    ensures forall i, j :: 0 <= i < j < |Ascending(s, from)| ==> Ascending(s, from)[i] < Ascending(s, from)[j]
    ensures forall x :: x in Ascending(s, from) <==> x in s && from <= x < NUM_INTIDS
    decreases NUM_INTIDS - from
  {
    if from < NUM_INTIDS {
      AscendingOrder(s, from + 1);
      var rest := Ascending(s, from + 1);
      assert forall i :: 0 <= i < |rest| ==> rest[i] in rest;
    }
  }

  /** The answers to `n` calls of get in a row. */
  function Answers(v: Vcpu, n: nat): (r: seq<nat>)
    decreases n
  {
    if n == 0 then [] else [Next(v)] + Answers(DoGet(v), n - 1)
  }

  function Invalids(n: nat): (r: seq<nat>) {
    if n == 0 then [] else [INVALID_INTID] + Invalids(n - 1)
  }

  lemma {:induction false} FirstIsHead(s: set<nat>, from: nat)
    requires from <= NUM_INTIDS
    ensures var f := First(s, from);
            Ascending(s, from) == if f == NUM_INTIDS then [] else [f] + Ascending(s - {f}, from)
    decreases NUM_INTIDS - from
  {
    var f := First(s, from);
    if from < NUM_INTIDS {
      if from in s {
        Irrelevant(s, from, from + 1);
      } else {
        FirstIsHead(s, from + 1);
      }
    }
  }

  lemma {:induction false} Irrelevant(s: set<nat>, x: nat, from: nat)
    requires x < from <= NUM_INTIDS
    ensures Ascending(s - {x}, from) == Ascending(s, from)
    decreases NUM_INTIDS - from
  {
    if from < NUM_INTIDS {
      Irrelevant(s, x, from + 1);
    }
  }

  /** Repeated gets return the live interrupts in ascending order, each once, and
      then the invalid ID for ever. */
  lemma GetsDrain(v: Vcpu, n: nat)
    requires Wf(v)
    ensures var live := Ascending(Live(v), 0);
            && Answers(v, |live| + n) == live + Invalids(n)
            && (forall i, j :: 0 <= i < j < |live| ==> live[i] < live[j])
            && (forall id :: id in live <==> id in Live(v))
  {
    GetsReturn(v, n);
    AscendingOrder(Live(v), 0);
  }

  lemma {:induction false} GetsReturn(v: Vcpu, n: nat)
    ensures var live := Ascending(Live(v), 0);
            Answers(v, |live| + n) == live + Invalids(n)
    decreases |Ascending(Live(v), 0)| + n
  {
    var live := Ascending(Live(v), 0);
    FirstIsHead(Live(v), 0);
    var f := First(Live(v), 0);
    if f < NUM_INTIDS {
      var w := DoGet(v);
      var rest := Ascending(Live(w), 0);
      assert Live(w) == Live(v) - {f};
      assert live == [f] + rest;
      GetsReturn(w, n);
      assert Answers(v, 1 + (|rest| + n)) == [f] + Answers(w, |rest| + n);
      assert [f] + (rest + Invalids(n)) == live + Invalids(n);
    } else if n > 0 {
      GetsReturn(v, n - 1);
    }
  }
}
