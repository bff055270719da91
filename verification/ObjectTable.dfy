/** The generational handle table of src/object-table.c: a growing slot array
    with a first-in first-out free list threaded through it. Whether realloc and
    calloc succeed are parameters. */
module ObjectTables {
  import opened Basics
  import opened FiniteSets

  const INDEX_LIMIT: nat := 0x8000           // 1 << 15 slot indices
  const GENERATIONS: nat := 0x1_0000         // 16-bit generations, zero unused
  const CYCLE: nat := GENERATIONS - 1
  const ID_LIMIT: nat := 0x8000_0000         // bit 31 of an id is ignored
  const INITIAL_CAPACITY: nat := 4096
  const NONE: nat := 0xFFFF_FFFF
  const KINDS: nat := 7
  const OBJECT_BYTES: nat := 16

  datatype Object = Object(id: nat, kind: nat, payload: nat)

  // ------------------------------------------------------------------- ids

  function MakeId(generation: nat, index: nat): nat {
    generation * INDEX_LIMIT + index
  }

  function GenerationOf(id: nat): nat {
    id / INDEX_LIMIT % GENERATIONS
  }

  function IndexOf(id: nat): nat {
    id % INDEX_LIMIT
  }

  /** Decoding inverts encoding and sees an id only up to bit 31. */
  lemma IdRoundTrip(generation: nat, index: nat, id: nat)
    requires generation < GENERATIONS && index < INDEX_LIMIT
    ensures GenerationOf(id) == generation && IndexOf(id) == index <==> id % ID_LIMIT == MakeId(generation, index)
    ensures GenerationOf(id) == generation && IndexOf(id) == index <==> id % 0x8000_0000 == 0x8000 * generation + index
  {
    DecodedParts(id);
  }

  /** The two decoded parts make up the low 31 bits. */
  lemma DecodedParts(id: nat)
    ensures id % ID_LIMIT == MakeId(GenerationOf(id), IndexOf(id))
    ensures GenerationOf(id) < GENERATIONS && IndexOf(id) < INDEX_LIMIT && IndexOf(id % ID_LIMIT) == IndexOf(id)
  {
    var high := id / INDEX_LIMIT;
    var top, low := high / GENERATIONS, MakeId(GenerationOf(id), IndexOf(id));
    assert high == top * GENERATIONS + GenerationOf(id);
    assert id == high * INDEX_LIMIT + IndexOf(id);
    LowBits(top, low);
    LowIndex(GenerationOf(id), IndexOf(id));
  }

  lemma LowBits(top: nat, low: nat)
    requires low < ID_LIMIT
    ensures (top * ID_LIMIT + low) % ID_LIMIT == low
  {
  }

  lemma LowIndex(generation: nat, index: nat)
    requires index < INDEX_LIMIT
    ensures IndexOf(MakeId(generation, index)) == index
  {
  }

  /** The generation after a removal: the next one, skipping zero. */
  function NextGeneration(generation: nat): nat {
    var g := (generation + 1) % GENERATIONS;
    if g == 0 then 1 else g
  }

  // ----------------------------------------------------------------- values

  datatype Slot = Slot(held: Option<Object>, generation: nat)

  /** The table as a value: the slots, and the free slots in reuse order. */
  datatype Table = Table(slots: seq<Slot>, free: seq<nat>)

  ghost predicate SlotOk(s: Slot, k: nat) {
    && 0 < s.generation < GENERATIONS
    && (s.held.Some? ==> s.held.value.id == MakeId(s.generation, k))
  }

  ghost predicate Distinct(s: seq<nat>) {
    forall i, j :: 0 <= i < j < |s| ==> s[i] != s[j]
  }

  /** The free list holds exactly the slots without an object, each once. */
  ghost predicate TableInv(t: Table) {
    && |t.slots| <= INDEX_LIMIT
    && (forall k :: 0 <= k < |t.slots| ==> SlotOk(t.slots[k], k))
    && Distinct(t.free)
    && (forall i :: 0 <= i < |t.free| ==> t.free[i] < |t.slots|)
    && (forall k :: 0 <= k < |t.slots| ==> (t.slots[k].held.None? <==> k in t.free))
  }

  /** The live objects, by id. */
  ghost predicate Live(t: Table, id: nat) {
    var k := IndexOf(id);
    && id < ID_LIMIT && k < |t.slots|
    && t.slots[k].held.Some? && t.slots[k].held.value.id == id
  }

  ghost function ObjectAt(t: Table, id: nat): Object
    requires Live(t, id)
  {
    t.slots[IndexOf(id)].held.value
  }

  function GrownCapacity(capacity: nat): nat {
    var doubled := if capacity == 0 then INITIAL_CAPACITY else capacity * 2;
    if doubled > INDEX_LIMIT then INDEX_LIMIT else doubled
  }

  ghost function Indices(lo: nat, hi: nat): seq<nat>
    requires lo <= hi
  {
    seq(hi - lo, i requires 0 <= i < hi - lo => lo + i)
  }

  ghost function Fresh(n: nat): seq<Slot> {
    seq(n, _ => Slot(None, 1))
  }

  ghost function Grown(t: Table): Table
    requires |t.slots| < INDEX_LIMIT
  {
    var n := GrownCapacity(|t.slots|);
    Table(t.slots + Fresh(n - |t.slots|), t.free + Indices(|t.slots|, n))
  }

  ghost predicate Acceptable(kind: nat, payload: nat) {
    kind < KINDS && payload <= SIZE_MAX - OBJECT_BYTES
  }

  /** An attempt takes a slot off the free list unless there is none to take. */
  ghost predicate PopsSlot(t: Table, kind: nat, payload: nat, grown: bool) {
    Acceptable(kind, payload) && (t.free != [] || (|t.slots| < INDEX_LIMIT && grown))
  }

  ghost function Ready(t: Table): Table
    requires t.free != [] || |t.slots| < INDEX_LIMIT
  {
    if t.free != [] then t else Grown(t)
  }

  ghost function NewObject(t: Table, kind: nat, payload: nat): Object
    requires TableInv(t) && t.free != []
  {
    Object(MakeId(t.slots[t.free[0]].generation, t.free[0]), kind, payload)
  }

  /** Takes the oldest free slot, or moves it to the back when the object itself
      cannot be allocated. */
  ghost function TakeSlot(t: Table, kind: nat, payload: nat, granted: bool): Table
    requires TableInv(t) && t.free != []
  {
    var k := t.free[0];
    if !granted then t.(free := t.free[1..] + [k])
    else Table(t.slots[k := t.slots[k].(held := Some(NewObject(t, kind, payload)))], t.free[1..])
  }

  ghost function Removed(t: Table, id: nat): Table
    requires TableInv(t) && Live(t, id % ID_LIMIT)
  {
    var k := IndexOf(id);
    Table(t.slots[k := Slot(None, NextGeneration(t.slots[k].generation))], t.free + [k])
  }

  /** The slot, its generation and its object decide a lookup. */
  lemma LookupDecides(t: Table, id: nat)
    requires TableInv(t)
    ensures Live(t, id % ID_LIMIT) <==>
      var k := IndexOf(id);
      GenerationOf(id) != 0 && k < |t.slots| && t.slots[k].generation == GenerationOf(id) && t.slots[k].held.Some?
    ensures Live(t, id % ID_LIMIT) ==> ObjectAt(t, id % ID_LIMIT) == t.slots[IndexOf(id)].held.value
  {
    hide IndexOf, GenerationOf, MakeId;
    DecodedParts(id);
    var k := IndexOf(id);
    if k < |t.slots| {
      assert SlotOk(t.slots[k], k);
      IdRoundTrip(t.slots[k].generation, k, id);
    }
  }

  // ------------------------------------------------------ what the steps do

  /** Growth neither adds nor loses an object. */
  lemma GrownKeepsLive(t: Table, id: nat)
    requires TableInv(t) && |t.slots| < INDEX_LIMIT
    ensures Live(Grown(t), id) <==> Live(t, id)
    ensures Live(t, id) ==> ObjectAt(Grown(t), id) == ObjectAt(t, id)
  {
  }

  lemma GrownKeeps(t: Table)
    requires TableInv(t) && |t.slots| < INDEX_LIMIT
    ensures TableInv(Grown(t)) && Grown(t).free != []
  {
    var n, c := GrownCapacity(|t.slots|), |t.slots|;
    var g := Grown(t);
    assert forall j :: |t.free| <= j < |g.free| ==> g.free[j] == c + (j - |t.free|);
    forall k | 0 <= k < |g.slots|
      ensures g.slots[k].held.None? <==> k in g.free
    {
      if c <= k {
        assert g.free[|t.free| + (k - c)] == k;
      } else if k in t.free {
        var i :| 0 <= i < |t.free| && t.free[i] == k;
        assert g.free[i] == k;
      }
    }
  }

  /** A successful allocation adds exactly one object under an id that was not live. */
  lemma TakeSlotAdds(t: Table, kind: nat, payload: nat)
    requires TableInv(t) && t.free != []
    ensures var n, o := TakeSlot(t, kind, payload, true), NewObject(t, kind, payload);
      && TableInv(n)
      && 0 < o.id < ID_LIMIT && !Live(t, o.id)
      && (forall id :: Live(n, id) <==> Live(t, id) || id == o.id)
      && ObjectAt(n, o.id) == o
      && (forall id :: Live(t, id) ==> ObjectAt(n, id) == ObjectAt(t, id))
  {
    var k := t.free[0];
    var n, o := TakeSlot(t, kind, payload, true), NewObject(t, kind, payload);
    IdRoundTrip(t.slots[k].generation, k, o.id);
    LowIndex(t.slots[k].generation, k);
    assert k in t.free;
    assert forall i :: 1 <= i < |t.free| ==> t.free[1..][i - 1] == t.free[i];
    assert k !in n.free;
    forall j | 0 <= j < |t.slots| && j != k
      ensures j in n.free <==> j in t.free
    {
    }
  }

  lemma AllocatedIsLive(t: Table, kind: nat, payload: nat)
    requires TableInv(t) && (t.free != [] || |t.slots| < INDEX_LIMIT)
    ensures TableInv(Ready(t)) && Ready(t).free != []
    ensures var n, o := TakeSlot(Ready(t), kind, payload, true), NewObject(Ready(t), kind, payload);
      && o.kind == kind && o.payload == payload && 0 < o.id < 0x8000_0000
      && Live(n, o.id) && ObjectAt(n, o.id) == o && !Live(t, o.id)
  {
    hide TableInv, Live, ObjectAt, TakeSlot, Grown;
    if t.free == [] {
      GrownKeeps(t);
    }
    TakeSlotAdds(Ready(t), kind, payload);
    if t.free == [] {
      GrownKeepsLive(t, NewObject(Ready(t), kind, payload).id);
    }
  }

  /** A failed object allocation changes nothing but the reuse order. */
  lemma TakeSlotFails(t: Table, kind: nat, payload: nat)
    requires TableInv(t) && t.free != []
    ensures var n := TakeSlot(t, kind, payload, false);
      TableInv(n) && n.slots == t.slots && n.free == t.free[1..] + [t.free[0]]
  {
    var n := TakeSlot(t, kind, payload, false);
    forall j | 0 <= j < |t.slots|
      ensures j in n.free <==> j in t.free
    {
      if j in t.free {
        var i :| 0 <= i < |t.free| && t.free[i] == j;
        assert n.free[if i == 0 then |t.free| - 1 else i - 1] == j;
      }
    }
  }

  /** A removal takes away exactly the object with that id, modulo bit 31. */
  lemma RemovedTakesAway(t: Table, id: nat)
    requires TableInv(t) && Live(t, id % ID_LIMIT)
    ensures var n := Removed(t, id);
      && TableInv(n)
      && (forall x :: Live(n, x) <==> Live(t, x) && x != id % ID_LIMIT)
      && (forall x :: Live(n, x) ==> ObjectAt(n, x) == ObjectAt(t, x))
  {
    var k, n := IndexOf(id), Removed(t, id);
    assert IndexOf(id % ID_LIMIT) == k;
    assert n.free[|t.free|] == k;
    forall j | 0 <= j < |t.slots| && j != k
      ensures j in n.free <==> j in t.free
    {
    }
    forall x | Live(t, x) && IndexOf(x) == k
      ensures x == id % ID_LIMIT
    {
    }
  }

  // ------------------------------------------------------------------ class

  datatype RawSlot = RawSlot(held: Option<Object>, nextFree: nat, generation: nat)

  ghost function Strip(slots: seq<RawSlot>): (r: seq<Slot>)
    ensures |r| == |slots|
  {
    seq(|slots|, i requires 0 <= i < |slots| => Slot(slots[i].held, slots[i].generation))
  }

  /** The links from `head` to `tail` spell out `free`. */
  ghost predicate Chained(slots: seq<RawSlot>, free: seq<nat>, head: nat, tail: nat) {
    && (forall i :: 0 <= i < |free| ==> free[i] < |slots|)
    && (if free == [] then head == NONE && tail == NONE
        else head == free[0] && tail == free[|free| - 1] && slots[tail].nextFree == NONE)
    && (forall i :: 0 <= i < |free| - 1 ==> slots[free[i]].nextFree == free[i + 1])
  }

  ghost predicate FreshTail(was: seq<RawSlot>, now: seq<RawSlot>, n: nat) {
    && |was| <= |now| <= n && now[..|was|] == was
    && forall k :: |was| <= k < |now| ==>
         now[k] == RawSlot(None, if k + 1 < n then k + 1 else NONE, 1)
  }

  /** Linking the old tail to the fresh slots extends the chain. */
  lemma GrownChain(was: seq<RawSlot>, now: seq<RawSlot>, free: seq<nat>, head: nat, tail: nat)
    requires Chained(was, free, head, tail) && Distinct(free)
    requires FreshTail(was, now, |now|) && |was| < |now| < NONE
    ensures var linked := if tail != NONE then now[tail := now[tail].(nextFree := |was|)] else now;
      && Chained(linked, free + Indices(|was|, |now|), if tail != NONE then head else |was|, |now| - 1)
      && Strip(linked) == Strip(was) + Fresh(|now| - |was|)
  {
    var linked := if tail != NONE then now[tail := now[tail].(nextFree := |was|)] else now;
    var all := free + Indices(|was|, |now|);
    forall i | 0 <= i < |all| - 1
      ensures linked[all[i]].nextFree == all[i + 1]
    {
      if i < |free| - 1 {
        assert free[i] != free[|free| - 1];
        assert now[free[i]] == was[free[i]];
      }
    }
    forall k | 0 <= k < |was|
      ensures now[k] == was[k]
    {
      assert now[..|was|][k] == was[k];
    }
  }

  /** The concrete fields represent a well-formed table. */
  ghost predicate TableRep(slots: seq<RawSlot>, free: seq<nat>, head: nat, tail: nat, live: nat) {
    && TableInv(Table(Strip(slots), free))
    && Chained(slots, free, head, tail)
    && live + |free| == |slots|
  }

  lemma GrownRep(was: seq<RawSlot>, now: seq<RawSlot>, free: seq<nat>, head: nat, tail: nat, live: nat)
    requires TableRep(was, free, head, tail, live) && |was| < INDEX_LIMIT
    requires FreshTail(was, now, |now|) && |now| == GrownCapacity(|was|)
    ensures tail != NONE ==> tail < |was|
    ensures var linked := if tail != NONE then now[tail := now[tail].(nextFree := |was|)] else now;
      var free' := free + Indices(|was|, |now|);
      && TableRep(linked, free', if tail != NONE then head else |was|, |now| - 1, live)
      && Table(Strip(linked), free') == Grown(Table(Strip(was), free))
  {
    assert tail != NONE ==> tail == free[|free| - 1];
    GrownKeeps(Table(Strip(was), free));
    GrownChain(was, now, free, head, tail);
  }

  /** Unlinking the head leaves the rest of the chain. */
  lemma ChainTail(slots: seq<RawSlot>, free: seq<nat>, head: nat, tail: nat)
    requires Chained(slots, free, head, tail) && free != [] && |slots| <= INDEX_LIMIT
    ensures slots[head].nextFree == NONE <==> |free| == 1
    ensures Chained(slots, free[1..], slots[head].nextFree, if |free| == 1 then NONE else tail)
  {
    if |free| > 1 {
      assert slots[free[0]].nextFree == free[0 + 1];
    }
    forall i | 0 <= i < |free[1..]| - 1
      ensures slots[free[1..][i]].nextFree == free[1..][i + 1]
    {
      assert slots[free[i + 1]].nextFree == free[i + 1 + 1];
    }
  }

  /** The slots once `k` has been linked behind `tail`. */
  function LinkedBehind(slots: seq<RawSlot>, tail: nat, k: nat): seq<RawSlot>
    requires k < |slots| && (tail != NONE ==> tail < |slots|)
  {
    var ended := slots[k := slots[k].(nextFree := NONE)];
    if tail != NONE then ended[tail := ended[tail].(nextFree := k)] else ended
  }

  lemma ChainAppend(slots: seq<RawSlot>, free: seq<nat>, head: nat, tail: nat, k: nat)
    requires Chained(slots, free, head, tail) && |slots| <= INDEX_LIMIT && Distinct(free)
    requires k < |slots| && k !in free
    ensures tail != NONE ==> tail < |slots|
    ensures Chained(LinkedBehind(slots, tail, k), free + [k], if tail != NONE then head else k, k)
    ensures Strip(LinkedBehind(slots, tail, k)) == Strip(slots)
  {
    assert tail != NONE ==> tail == free[|free| - 1];
    var after, all := LinkedBehind(slots, tail, k), free + [k];
    forall i | 0 <= i < |all| - 1
      ensures after[all[i]].nextFree == all[i + 1]
    {
      if i < |free| - 1 {
        assert free[i] != free[|free| - 1];
        assert slots[free[i]].nextFree == free[i + 1];
      }
    }
  }

  /** The links do not depend on what other slots hold. */
  lemma ChainFrame(a: seq<RawSlot>, b: seq<RawSlot>, free: seq<nat>, head: nat, tail: nat)
    requires Chained(a, free, head, tail) && |a| == |b|
    requires forall i :: 0 <= i < |free| ==> b[free[i]].nextFree == a[free[i]].nextFree
    ensures Chained(b, free, head, tail)
  {
  }

  lemma HeadIsFirst(slots: seq<RawSlot>, free: seq<nat>, head: nat, tail: nat, live: nat, kind: nat, payload: nat)
    requires TableRep(slots, free, head, tail, live) && free != []
    ensures head == free[0] < |slots| && TableInv(Table(Strip(slots), free))
    ensures NewObject(Table(Strip(slots), free), kind, payload) ==
      Object(MakeId(slots[head].generation, head), kind, payload)
  {
  }

  /** The fields after the head slot has been given an object. */
  lemma TakenRep(slots: seq<RawSlot>, free: seq<nat>, head: nat, tail: nat, live: nat, o: Object)
    requires TableRep(slots, free, head, tail, live) && free != []
    requires o == NewObject(Table(Strip(slots), free), o.kind, o.payload)
    ensures var next := slots[head].nextFree;
      var slots' := slots[head := RawSlot(Some(o), NONE, slots[head].generation)];
      && TableRep(slots', free[1..], next, if next == NONE then NONE else tail, live + 1)
      && Table(Strip(slots'), free[1..]) == TakeSlot(Table(Strip(slots), free), o.kind, o.payload, true)
  {
    ChainTail(slots, free, head, tail);
    TakeSlotAdds(Table(Strip(slots), free), o.kind, o.payload);
    var next := slots[head].nextFree;
    var slots' := slots[head := RawSlot(Some(o), NONE, slots[head].generation)];
    ChainFrame(slots, slots', free[1..], next, if next == NONE then NONE else tail);
    assert Strip(slots') == Strip(slots)[head := Slot(Some(o), slots[head].generation)];
  }

  /** The fields after the head slot has been moved to the back. */
  lemma RequeuedRep(slots: seq<RawSlot>, free: seq<nat>, head: nat, tail: nat, live: nat, kind: nat, payload: nat)
    requires TableRep(slots, free, head, tail, live) && free != []
    ensures var next := slots[head].nextFree;
      var tail' := if next == NONE then NONE else tail;
      && (tail' != NONE ==> tail' < |slots|)
      && TableRep(LinkedBehind(slots, tail', head), free[1..] + [head], if tail' != NONE then next else head, head, live)
      && Table(Strip(LinkedBehind(slots, tail', head)), free[1..] + [head]) ==
           TakeSlot(Table(Strip(slots), free), kind, payload, false)
  {
    ChainTail(slots, free, head, tail);
    TakeSlotFails(Table(Strip(slots), free), kind, payload);
    var next := slots[head].nextFree;
    ChainAppend(slots, free[1..], next, if next == NONE then NONE else tail, head);
  }

  /** The fields after the object in slot `k` has been removed. */
  lemma RemovedRep(slots: seq<RawSlot>, free: seq<nat>, head: nat, tail: nat, live: nat, id: nat)
    requires TableRep(slots, free, head, tail, live) && Live(Table(Strip(slots), free), id % ID_LIMIT)
    ensures IndexOf(id) < |slots| && 0 < live && (tail != NONE ==> tail < |slots|)
    ensures var k := IndexOf(id);
      var cleared := slots[k := slots[k].(held := None, generation := NextGeneration(slots[k].generation))];
      && TableRep(LinkedBehind(cleared, tail, k), free + [k], if tail != NONE then head else k, k, live - 1)
      && Table(Strip(LinkedBehind(cleared, tail, k)), free + [k]) == Removed(Table(Strip(slots), free), id)
  {
    var k := IndexOf(id);
    assert IndexOf(id % ID_LIMIT) == k;
    RemovedTakesAway(Table(Strip(slots), free), id);
    var cleared := slots[k := slots[k].(held := None, generation := NextGeneration(slots[k].generation))];
    assert k !in free;
    FreeIsFewer(Table(Strip(slots), free), k);
    ChainFrame(slots, cleared, free, head, tail);
    ChainAppend(cleared, free, head, tail, k);
    assert Strip(cleared) == Strip(slots)[k := Slot(None, NextGeneration(slots[k].generation))];
  }

  /** Distinct elements of a set are no more than its size. */
  lemma {:induction false} DistinctFit(s: seq<nat>, within: set<nat>)
    requires Distinct(s) && forall i :: 0 <= i < |s| ==> s[i] in within
    ensures |s| <= |within|
  {
    if s != [] {
      DistinctFit(s[1..], within - {s[0]});
    }
  }

  /** A live slot means the free list does not cover the table. */
  lemma FreeIsFewer(t: Table, k: nat)
    requires TableInv(t) && k < |t.slots| && k !in t.free
    ensures |t.free| < |t.slots|
  {
    forall i | 0 <= i < |t.free|
      ensures t.free[i] in Below(|t.slots|) - {k}
    {
      BelowHas(|t.slots|, t.free[i]);
    }
    BelowHas(|t.slots|, k);
    BelowSize(|t.slots|);
    DistinctFit(t.free, Below(|t.slots|) - {k});
  }

  class ObjectTable {
    var slots: seq<RawSlot>
    var freeHead: nat
    var freeTail: nat
    var liveCount: nat
    ghost var free: seq<nat>

    ghost predicate Valid()
      reads this
    {
      TableRep(slots, free, freeHead, freeTail, liveCount)
    }

    ghost function State(): Table
      reads this
    {
      Table(Strip(slots), free)
    }

    constructor ()
      ensures Valid() && State() == Table([], [])
    {
      slots, freeHead, freeTail, liveCount, free := [], NONE, NONE, 0, [];
    }

    method Grow(granted: bool) returns (ok: bool)
      requires Valid()
      modifies this
      ensures Valid()
      ensures ok == (old(|slots|) < INDEX_LIMIT && granted)
      ensures ok ==> State() == Grown(old(State()))
      ensures !ok ==> State() == old(State())
    {
      hide TableInv, Chained, Strip, Grown, Indices;
      var capacity := |slots|;
      if capacity >= INDEX_LIMIT {
        return false;
      }
      var newCapacity := if capacity == 0 then INITIAL_CAPACITY else capacity * 2;
      if newCapacity > INDEX_LIMIT {
        newCapacity := INDEX_LIMIT;
      }
      if !granted {
        return false;
      }
      AddFreshSlots(newCapacity);
      GrownRep(old(slots), slots, free, freeHead, freeTail, liveCount);
      if freeTail != NONE {
        slots := slots[freeTail := slots[freeTail].(nextFree := capacity)];
      } else {
        freeHead := capacity;
      }
      freeTail := newCapacity - 1;
      free := free + Indices(capacity, newCapacity);
      return true;
    }

    /** The initialisation loop over the new part of the slot array. */
    method AddFreshSlots(newCapacity: nat)
      requires |slots| <= newCapacity
      modifies this`slots
      ensures |slots| == newCapacity && FreshTail(old(slots), slots, newCapacity)
    {
      var i := |slots|;
      while i < newCapacity
        invariant old(|slots|) <= i <= newCapacity && |slots| == i
        invariant FreshTail(old(slots), slots, newCapacity)
      {
        slots := slots + [RawSlot(None, if i + 1 < newCapacity then i + 1 else NONE, 1)];
        i := i + 1;
      }
    }

    method Allocate(kind: nat, payload: nat, grown: bool, granted: bool) returns (r: Option<Object>)
      requires Valid()
      modifies this
      ensures Valid()
      ensures !PopsSlot(old(State()), kind, payload, grown) ==> r.None? && State() == old(State())
      ensures PopsSlot(old(State()), kind, payload, grown) ==>
        var ready := Ready(old(State()));
        && TableInv(ready) && ready.free != []
        && State() == TakeSlot(ready, kind, payload, granted)
        && r == if granted then Some(NewObject(ready, kind, payload)) else None
      ensures r.Some? <==>
        && kind < 7 && payload + 16 <= SIZE_MAX && granted
        && (old(free) != [] || (old(|slots|) < 0x8000 && grown))
      ensures r.Some? ==>
        && r.value.kind == kind && r.value.payload == payload && 0 < r.value.id < 0x8000_0000
        && Live(State(), r.value.id) && ObjectAt(State(), r.value.id) == r.value && !Live(old(State()), r.value.id)
    {
      if kind >= KINDS || payload > SIZE_MAX - OBJECT_BYTES {
        return None;
      }
      if freeHead == NONE {
        var ok := Grow(grown);
        if !ok {
          return None;
        }
        GrownKeeps(old(State()));
      }
      r := TakeHead(kind, payload, granted);
      AllocatedIsLive(old(State()), kind, payload);
    }

    /** The part of an allocation that has a free slot to take. */
    method TakeHead(kind: nat, payload: nat, granted: bool) returns (r: Option<Object>)
      requires Valid() && free != []
      modifies this
      ensures Valid()
      ensures State() == TakeSlot(old(State()), kind, payload, granted)
      ensures r == if granted then Some(NewObject(old(State()), kind, payload)) else None
    {
      hide TableInv, Chained, LinkedBehind, TakeSlot, NewObject, Strip;
      HeadIsFirst(slots, free, freeHead, freeTail, liveCount, kind, payload);
      var index := freeHead;
      freeHead := slots[index].nextFree;
      if freeHead == NONE {
        freeTail := NONE;
      }
      free := free[1..];
      if !granted {
        RequeuedRep(slots, old(free), index, old(freeTail), liveCount, kind, payload);
        LinkLast(index);
        return None;
      }
      var o := Object(MakeId(slots[index].generation, index), kind, payload);
      TakenRep(slots, old(free), index, old(freeTail), liveCount, o);
      slots := slots[index := RawSlot(Some(o), NONE, slots[index].generation)];
      liveCount := liveCount + 1;
      return Some(o);
    }

    /** Links slot `index` behind the last free slot. */
    method LinkLast(index: nat)
      requires index < |slots| && (freeTail != NONE ==> freeTail < |slots|)
      modifies this`slots, this`freeHead, this`freeTail, this`free
      ensures slots == LinkedBehind(old(slots), old(freeTail), index)
      ensures freeHead == if old(freeTail) != NONE then old(freeHead) else index
      ensures freeTail == index && free == old(free) + [index]
    {
      slots := slots[index := slots[index].(nextFree := NONE)];
      if freeTail != NONE {
        slots := slots[freeTail := slots[freeTail].(nextFree := index)];
      } else {
        freeHead := index;
      }
      freeTail := index;
      free := free + [index];
    }

    /** Finds an object exactly when a live one has that kind and, up to bit 31, that id. */
    method Get(kind: nat, id: nat) returns (r: Option<Object>)
      requires Valid()
      ensures r.Some? <==> Live(State(), id % ID_LIMIT) && ObjectAt(State(), id % ID_LIMIT).kind == kind
      ensures r.Some? ==> r.value == ObjectAt(State(), id % ID_LIMIT)
    {
      hide TableInv, Live, ObjectAt, GenerationOf, IndexOf, Chained;
      var generation, index := GenerationOf(id), IndexOf(id);
      LookupDecides(State(), id);
      if generation == 0 || index >= |slots| {
        return None;
      }
      var slot := slots[index];
      if slot.generation == generation && slot.held.Some? && slot.held.value.kind == kind {
        return slot.held;
      }
      return None;
    }

    method Remove(id: nat) returns (r: Option<Object>)
      requires Valid()
      modifies this
      ensures Valid()
      ensures r.Some? <==> Live(old(State()), id % ID_LIMIT)
      ensures r.Some? ==> r.value == ObjectAt(old(State()), id % ID_LIMIT) && State() == Removed(old(State()), id)
      ensures r.None? ==> State() == old(State())
    {
      hide TableInv, Live, ObjectAt, GenerationOf, IndexOf, Chained, LinkedBehind, NextGeneration, Removed;
      var generation, index := GenerationOf(id), IndexOf(id);
      LookupDecides(State(), id);
      if generation == 0 || index >= |slots| {
        return None;
      }
      var slot := slots[index];
      if slot.generation != generation || slot.held.None? {
        return None;
      }
      RemovedRep(slots, free, freeHead, freeTail, liveCount, id);
      slots := slots[index := slot.(held := None, generation := NextGeneration(generation))];
      LinkLast(index);
      liveCount := liveCount - 1;
      return slot.held;
    }

    method RemoveTyped(kind: nat, id: nat) returns (r: Option<Object>)
      requires Valid()
      modifies this
      ensures Valid()
      ensures r.Some? <==> Live(old(State()), id % ID_LIMIT) && ObjectAt(old(State()), id % ID_LIMIT).kind == kind
      ensures r.Some? ==> r.value == ObjectAt(old(State()), id % ID_LIMIT) && State() == Removed(old(State()), id)
      ensures r.None? ==> State() == old(State())
    {
      r := Get(kind, id);
      if r.Some? {
        r := Remove(id);
      }
    }
  }
}
