/** Whole runs of the object table: the class follows the value model step by
    step, stale ids miss until a slot's generations wrap, and freed slots wait
    their turn. */
module ObjectTableRuns {
  import opened Basics
  import opened ObjectTables

  datatype Op =
    | Allocate(kind: nat, payload: nat, grown: bool, granted: bool)
    | Remove(id: nat)
    | RemoveTyped(kind: nat, id: nat)

  /** The operation takes a slot off the free list. */
  ghost predicate Pops(t: Table, op: Op) {
    op.Allocate? && PopsSlot(t, op.kind, op.payload, op.grown)
  }

  /** The operation removes a live object. */
  ghost predicate Frees(t: Table, op: Op) {
    && !op.Allocate?
    && Live(t, op.id % ID_LIMIT)
    && (op.RemoveTyped? ==> ObjectAt(t, op.id % ID_LIMIT).kind == op.kind)
  }

  lemma ReadyKeeps(t: Table)
    requires TableInv(t) && (t.free != [] || |t.slots| < INDEX_LIMIT)
    ensures TableInv(Ready(t)) && Ready(t).free != []
  {
    if t.free == [] {
      GrownKeeps(t);
    }
  }

  ghost function Step(t: Table, op: Op): (r: Table)
    requires TableInv(t)
    ensures TableInv(r)
  {
    if Pops(t, op) then
      ReadyKeeps(t);
      TakeSlotAdds(Ready(t), op.kind, op.payload);
      TakeSlotFails(Ready(t), op.kind, op.payload);
      TakeSlot(Ready(t), op.kind, op.payload, op.granted)
    else if Frees(t, op) then
      RemovedTakesAway(t, op.id);
      Removed(t, op.id)
    else t
  }

  /** The object that an operation hands out. */
  ghost function Issued(t: Table, op: Op): Option<Object>
    requires TableInv(t)
  {
    if Pops(t, op) && op.granted then
      ReadyKeeps(t);
      Some(NewObject(Ready(t), op.kind, op.payload))
    else None
  }

  ghost function Run(t: Table, ops: seq<Op>): (r: Table)
    requires TableInv(t)
    ensures TableInv(r)
    decreases |ops|
  {
    if ops == [] then t else Run(Step(t, ops[0]), ops[1..])
  }

  method Perform(table: ObjectTable, op: Op) returns (r: Option<Object>)
    requires table.Valid()
    modifies table
    ensures table.Valid()
    ensures table.State() == Step(old(table.State()), op)
    ensures op.Allocate? ==> r == Issued(old(table.State()), op)
  {
    match op
    case Allocate(kind, payload, grown, granted) =>
      r := table.Allocate(kind, payload, grown, granted);
    case Remove(id) => r := table.Remove(id);
    case RemoveTyped(kind, id) => r := table.RemoveTyped(kind, id);
  }

  lemma {:induction false} RunExtends(t: Table, ops: seq<Op>, op: Op)
    requires TableInv(t)
    ensures Run(t, ops + [op]) == Step(Run(t, ops), op)
    decreases |ops|
  {
    if ops != [] {
      RunExtends(Step(t, ops[0]), ops[1..], op);
      assert (ops + [op])[1..] == ops[1..] + [op];
    }
  }

  /** Any run of the table from empty ends in the state the value model gives. */
  method RunTable(ops: seq<Op>) returns (table: ObjectTable)
    ensures table.Valid()
    ensures TableInv(Table([], [])) && table.State() == Run(Table([], []), ops)
  {
    table := new ObjectTable();
    for i := 0 to |ops|
      invariant fresh(table) && table.Valid()
      invariant table.State() == Run(Table([], []), ops[..i])
    {
      RunExtends(Table([], []), ops[..i], ops[i]);
      assert ops[..i] + [ops[i]] == ops[..i + 1];
      var _ := Perform(table, ops[i]);
    }
    assert ops[..|ops|] == ops;
  }

  /** Two live slots never share an id, and no live id is zero. */
  lemma LiveIdsDiffer(t: Table, j: nat, k: nat)
    requires TableInv(t) && j < k < |t.slots| && t.slots[j].held.Some? && t.slots[k].held.Some?
    ensures t.slots[j].held.value.id != t.slots[k].held.value.id
    ensures t.slots[j].held.value.id != 0
  {
    assert SlotOk(t.slots[j], j) && SlotOk(t.slots[k], k);
    IdRoundTrip(t.slots[j].generation, j, t.slots[j].held.value.id);
    IdRoundTrip(t.slots[k].generation, k, t.slots[k].held.value.id);
  }

  // ----------------------------------------------------------- stale handles

  ghost predicate FreesSlot(t: Table, op: Op, k: nat) {
    Frees(t, op) && IndexOf(op.id) == k
  }

  /** How often a run removes the object of slot `k`. */
  ghost function Removals(t: Table, ops: seq<Op>, k: nat): nat
    requires TableInv(t)
    decreases |ops|
  {
    if ops == [] then 0
    else (if FreesSlot(t, ops[0], k) then 1 else 0) + Removals(Step(t, ops[0]), ops[1..], k)
  }

  /** The generation reached from `g` after `n` removals. */
  ghost function Cycled(g: nat, n: nat): nat
    requires 0 < g
  {
    (g - 1 + n) % CYCLE + 1
  }

  lemma CycledSteps(g: nat, n: nat)
    requires 0 < g < GENERATIONS
    ensures Cycled(g, 0) == g
    ensures Cycled(NextGeneration(g), n) == Cycled(g, n + 1)
    ensures Cycled(g, n) == g <==> n % CYCLE == 0
  {
    WrapsBack(g - 1, n);
    WrapsOn(g - 1, n);
  }

  lemma WrapsBack(a: nat, n: nat)
    requires a < CYCLE
    ensures a % CYCLE == a && ((a + n) % CYCLE == a <==> n % CYCLE == 0)
  {
    var q, r := n / CYCLE, n % CYCLE;
    assert a + n == CYCLE * q + (a + r);
    if a + r < CYCLE {
      CycleRemainder(q, a + r);
    } else {
      CycleRemainder(q + 1, a + r - CYCLE);
    }
  }

  /** The generation after 65535 is 1, at the start of the cycle. */
  lemma WrapsOn(a: nat, n: nat)
    requires a < CYCLE
    ensures ((a + 1) % CYCLE + n) % CYCLE == (a + (n + 1)) % CYCLE
  {
    if a + 1 == CYCLE {
      var q, r := n / CYCLE, n % CYCLE;
      assert CYCLE + n == CYCLE * (q + 1) + r;
      CycleRemainder(q + 1, r);
    }
  }

  lemma CycleRemainder(q: nat, r: nat)
    requires r < CYCLE
    ensures (CYCLE * q + r) % CYCLE == r
  {
  }

  lemma StepGeneration(t: Table, op: Op, k: nat)
    requires TableInv(t) && k < |t.slots|
    ensures |t.slots| <= |Step(t, op).slots|
    ensures Step(t, op).slots[k].generation ==
      if FreesSlot(t, op, k) then NextGeneration(t.slots[k].generation) else t.slots[k].generation
  {
    hide TakeSlot, Ready, Removed, NextGeneration, PopsSlot, Live, ObjectAt, IndexOf, TableInv;
    if Pops(t, op) {
      PopsReady(t, op);
      ReadyKeeps(t);
      ReadySlot(t, k);
      TakenSlot(Ready(t), op.kind, op.payload, op.granted, k);
    } else if Frees(t, op) {
      RemovedSlot(t, op.id, k);
    }
  }

  lemma PopsReady(t: Table, op: Op)
    requires Pops(t, op)
    ensures t.free != [] || |t.slots| < INDEX_LIMIT
  {
  }

  lemma ReadySlot(t: Table, k: nat)
    requires (t.free != [] || |t.slots| < INDEX_LIMIT) && k < |t.slots|
    ensures |t.slots| <= |Ready(t).slots| && Ready(t).slots[k] == t.slots[k]
  {
  }

  lemma TakenSlot(t: Table, kind: nat, payload: nat, granted: bool, k: nat)
    requires TableInv(t) && t.free != [] && k < |t.slots|
    ensures var n := TakeSlot(t, kind, payload, granted);
      |n.slots| == |t.slots| && n.slots[k].generation == t.slots[k].generation
  {
  }

  lemma RemovedSlot(t: Table, id: nat, k: nat)
    requires TableInv(t) && Live(t, id % ID_LIMIT) && k < |t.slots|
    ensures var n := Removed(t, id);
      && |n.slots| == |t.slots|
      && n.slots[k].generation ==
           if IndexOf(id) == k then NextGeneration(t.slots[k].generation) else t.slots[k].generation
  {
    hide NextGeneration, TableInv, MakeId, IndexOf, GenerationOf, SlotOk;
    DecodedParts(id);
  }

  /** Along any run a slot's generation counts its removals modulo 65535. */
  lemma {:induction false} RunGeneration(t: Table, ops: seq<Op>, k: nat)
    requires TableInv(t) && k < |t.slots|
    ensures k < |Run(t, ops).slots| && 0 < t.slots[k].generation
    ensures Run(t, ops).slots[k].generation == Cycled(t.slots[k].generation, Removals(t, ops, k))
    decreases |ops|
  {
    assert SlotOk(t.slots[k], k);
    CycledSteps(t.slots[k].generation, 0);
    if ops != [] {
      StepGeneration(t, ops[0], k);
      RunGeneration(Step(t, ops[0]), ops[1..], k);
      CycledSteps(t.slots[k].generation, Removals(Step(t, ops[0]), ops[1..], k));
    }
  }

  lemma IssuedId(t: Table, op: Op, k: nat)
    requires TableInv(t) && Issued(t, op).Some? && k < |t.slots|
    ensures IndexOf(Issued(t, op).value.id) == k ==> Issued(t, op).value.id == MakeId(t.slots[k].generation, k)
  {
    ReadyKeeps(t);
    var r := Ready(t);
    var j := r.free[0];
    assert SlotOk(r.slots[j], j);
    IdRoundTrip(r.slots[j].generation, j, Issued(t, op).value.id);
  }

  /** Once an object is removed, its slot spells its id again exactly when the
      removals of the slot, that one included, are a multiple of 65535. */
  lemma {:induction false} StaleGeneration(t: Table, id: nat, ops: seq<Op>)
    requires TableInv(t) && Live(t, id)
    ensures var after := Run(Step(t, Remove(id)), ops);
      var n := 1 + Removals(Step(t, Remove(id)), ops, IndexOf(id));
      && IndexOf(id) < |after.slots|
      && (MakeId(after.slots[IndexOf(id)].generation, IndexOf(id)) == id <==> n % 65535 == 0)
  {
    var k := IndexOf(id);
    var first := Step(t, Remove(id));
    var g, r := t.slots[k].generation, Removals(first, ops, k);
    assert SlotOk(t.slots[k], k);
    assert id % ID_LIMIT == id;
    StepGeneration(t, Remove(id), k);
    RunGeneration(first, ops, k);
    CycledSteps(g, r);
    CycledSteps(g, r + 1);
  }

  /** After an id has been removed it resolves to nothing and is not issued
      again, over any run, unless the removals of its slot, that one included,
      are a multiple of 65535; so not before the 65535th. */
  lemma {:induction false} StaleIdMisses(t: Table, id: nat, ops: seq<Op>, op: Op)
    requires TableInv(t) && Live(t, id)
    ensures var after := Run(Step(t, Remove(id)), ops);
      var n := 1 + Removals(Step(t, Remove(id)), ops, IndexOf(id));
      n % 65535 != 0 ==>
        && !Live(after, id)
        && (Issued(after, op).Some? ==> Issued(after, op).value.id != id)
  {
    var k := IndexOf(id);
    var after := Run(Step(t, Remove(id)), ops);
    StaleGeneration(t, id, ops);
    assert SlotOk(after.slots[k], k);
    if Issued(after, op).Some? {
      IssuedId(after, op, k);
    }
  }

  // -------------------------------------------------------------- quarantine

  /** How many operations of a run take a slot off the free list. */
  ghost function PopCount(t: Table, ops: seq<Op>): nat
    requires TableInv(t)
    decreases |ops|
  {
    if ops == [] then 0 else (if Pops(t, ops[0]) then 1 else 0) + PopCount(Step(t, ops[0]), ops[1..])
  }

  lemma StepQueue(t: Table, op: Op, p: nat)
    requires TableInv(t) && p < |t.free| && (Pops(t, op) ==> 0 < p)
    ensures var p' := if Pops(t, op) then p - 1 else p;
      p' < |Step(t, op).free| && Step(t, op).free[p'] == t.free[p]
  {
  }

  /** A slot freed behind `p` free slots moves up by one for each attempt that
      takes a slot, so at least `p` of those come before it is handed out. */
  lemma {:induction false} FreedSlotWaits(t: Table, ops: seq<Op>, p: nat, op: Op)
    requires TableInv(t) && p < |t.free| && PopCount(t, ops) <= p
    ensures var after := Run(t, ops);
      && p - PopCount(t, ops) < |after.free|
      && after.free[p - PopCount(t, ops)] == t.free[p]
      && (PopCount(t, ops) < p && Issued(after, op).Some? ==> IndexOf(Issued(after, op).value.id) != t.free[p])
    decreases |ops|
  {
    if ops != [] {
      StepQueue(t, ops[0], p);
      FreedSlotWaits(Step(t, ops[0]), ops[1..], if Pops(t, ops[0]) then p - 1 else p, op);
    } else if Issued(t, op).Some? {
      assert SlotOk(t.slots[t.free[0]], t.free[0]);
      IdRoundTrip(t.slots[t.free[0]].generation, t.free[0], Issued(t, op).value.id);
    }
  }

  // ----------------------------------------------------------------- growth

  lemma StepCapacity(t: Table, op: Op)
    requires TableInv(t)
    ensures var n := Step(t, op);
      |n.slots| == |t.slots| ||
      (t.free == [] && op.Allocate? && op.grown && |n.slots| == if |t.slots| == 0 then 4096 else Doubled(|t.slots|))
  {
    hide TableInv, Live, ObjectAt, NextGeneration, TakeSlot, Removed;
    if Pops(t, op) {
      ReadyKeeps(t);
      TakenSize(Ready(t), op.kind, op.payload, op.granted);
      ReadySize(t);
    } else if Frees(t, op) {
      RemovedSize(t, op.id);
    }
  }

  lemma TakenSize(t: Table, kind: nat, payload: nat, granted: bool)
    requires TableInv(t) && t.free != []
    ensures |TakeSlot(t, kind, payload, granted).slots| == |t.slots|
  {
  }

  lemma RemovedSize(t: Table, id: nat)
    requires TableInv(t) && Live(t, id % ID_LIMIT)
    ensures |Removed(t, id).slots| == |t.slots|
  {
  }

  lemma ReadySize(t: Table)
    requires t.free != [] || |t.slots| < INDEX_LIMIT
    ensures |Ready(t).slots| ==
      if t.free != [] then |t.slots| else if |t.slots| == 0 then 4096 else Doubled(|t.slots|)
  {
  }

  function Doubled(capacity: nat): nat {
    if 2 * capacity <= 0x8000 then 2 * capacity else 0x8000
  }

  /** The table starts empty, and only ever has 4096 slots or a doubling of that, up
      to the largest index; it grows only when no slot is free. */
  lemma {:induction false} RunCapacity(ops: seq<Op>)
    ensures TableInv(Table([], []))
    ensures |Run(Table([], []), ops).slots| in {0, 4096, 8192, 16384, 32768}
    decreases |ops|
  {
    hide TableInv, Step;
    EmptyTable();
    if ops == [] {
    } else {
      var n := |ops| - 1;
      RunCapacity(ops[..n]);
      var before := Run(Table([], []), ops[..n]);
      assert ops[..n] + [ops[n]] == ops;
      RunExtends(Table([], []), ops[..n], ops[n]);
      StepCapacity(before, ops[n]);
    }
  }

  lemma EmptyTable()
    ensures TableInv(Table([], []))
  {
  }
}
