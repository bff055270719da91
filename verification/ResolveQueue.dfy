/** The bounded queue of src/resolve-queue.c: a ring of sixteen pointers under a
    mutex, two condition variables, shutdown with drain, and cancel. The ring is
    modelled as the class that the locked regions update; the threads are a step
    system in which each locked region between two waits is one atomic step. */
module ResolveQueues {

  const CAPACITY: nat := 16

  /** An opaque pointer; zero is null. */
  type Pointer = nat
  type Thread = nat

  // ------------------------------------------------------------------- ring

  datatype Ring = Ring(items: seq<Pointer>, readIdx: nat, writeIdx: nat, count: nat, highWater: nat, exiting: bool)

  /** The slot holding the `i`-th oldest item. */
  function SlotOf(readIdx: nat, i: nat): (k: nat)
    ensures k < CAPACITY
  {
    (readIdx + i) % CAPACITY
  }

  ghost predicate WellFormed(r: Ring) {
    && |r.items| == CAPACITY && r.readIdx < CAPACITY && r.count <= CAPACITY
    && r.writeIdx == SlotOf(r.readIdx, r.count)
    && r.count <= r.highWater <= CAPACITY
    && (forall i :: r.count <= i < CAPACITY ==> r.items[SlotOf(r.readIdx, i)] == 0)
  }

  /** The queued items, oldest first. */
  ghost function Contents(r: Ring): (s: seq<Pointer>)
    requires WellFormed(r)
    ensures |s| == r.count
  {
    seq(r.count, i requires 0 <= i < r.count => r.items[SlotOf(r.readIdx, i)])
  }

  function Advance(i: nat): nat {
    (i + 1) % CAPACITY
  }

  ghost function Put(r: Ring, item: Pointer): Ring
    requires WellFormed(r)
  {
    r.(items := r.items[r.writeIdx := item],
       writeIdx := Advance(r.writeIdx),
       count := r.count + 1,
       highWater := if r.count + 1 > r.highWater then r.count + 1 else r.highWater)
  }

  ghost function Take(r: Ring): Ring
    requires WellFormed(r) && 0 < r.count
  {
    r.(items := r.items[r.readIdx := 0], readIdx := Advance(r.readIdx), count := r.count - 1)
  }

  ghost function Drained(r: Ring): Ring {
    r.(items := seq(CAPACITY, _ => 0), readIdx := r.writeIdx, count := 0, exiting := true)
  }

  lemma SlotsDiffer(readIdx: nat, i: nat, j: nat)
    requires i < j < CAPACITY
    ensures SlotOf(readIdx, i) != SlotOf(readIdx, j)
  {
  }

  lemma SlotAfterAdvance(readIdx: nat, i: nat)
    ensures SlotOf(Advance(readIdx), i) == SlotOf(readIdx, i + 1)
  {
  }

  /** A push appends to the queue. */
  lemma PutAppends(r: Ring, item: Pointer)
    requires WellFormed(r) && r.count < CAPACITY
    ensures WellFormed(Put(r, item)) && Contents(Put(r, item)) == Contents(r) + [item]
  {
    var p := Put(r, item);
    forall i | 0 <= i < CAPACITY && i != r.count
      ensures p.items[SlotOf(p.readIdx, i)] == r.items[SlotOf(r.readIdx, i)]
    {
      if i < r.count {
        SlotsDiffer(r.readIdx, i, r.count);
      } else {
        SlotsDiffer(r.readIdx, r.count, i);
      }
    }
  }

  /** A pop removes the oldest item and clears its slot. */
  lemma TakeRemovesOldest(r: Ring)
    requires WellFormed(r) && 0 < r.count
    ensures WellFormed(Take(r)) && Contents(Take(r)) == Contents(r)[1..]
  {
    hide SlotOf, Advance;
    var t := Take(r);
    StartsAtReadIdx(r);
    forall i | 0 <= i < CAPACITY - 1
      ensures t.items[SlotOf(t.readIdx, i)] == r.items[SlotOf(r.readIdx, i + 1)]
    {
      SlotAfterAdvance(r.readIdx, i);
      SlotsDiffer(r.readIdx, 0, i + 1);
    }
    SlotAfterAdvance(r.readIdx, CAPACITY - 1);
    SlotAfterAdvance(r.readIdx, t.count);
    assert t.count + 1 == r.count;
  }

  lemma StartsAtReadIdx(r: Ring)
    requires WellFormed(r)
    ensures SlotOf(r.readIdx, 0) == SlotOf(r.readIdx, CAPACITY) == r.readIdx && Advance(r.readIdx) < CAPACITY
  {
  }

  lemma DrainedIsEmpty(r: Ring)
    requires WellFormed(r)
    ensures WellFormed(Drained(r)) && Contents(Drained(r)) == []
  {
  }

  datatype PushOutcome = MustWait | Refused | Accepted
  datatype PopOutcome = MustSleep | Finished | Popped(item: Pointer)

  ghost function PushResult(r: Ring): PushOutcome {
    if r.count == CAPACITY && !r.exiting then MustWait
    else if r.exiting then Refused
    else Accepted
  }

  /** Each method is one pass through a locked region: the wait-loop test, and
      the region's body when the test lets it through. */
  class ResolveQueue {
    const items: array<Pointer>
    var readIdx: nat
    var writeIdx: nat
    var count: nat
    var highWater: nat
    var exiting: bool

    ghost predicate Valid()
      reads this, items
    {
      items.Length == CAPACITY && WellFormed(State())
    }

    ghost function State(): Ring
      reads this, items
    {
      Ring(items[..], readIdx, writeIdx, count, highWater, exiting)
    }

    constructor ()
      ensures Valid() && fresh(items)
      ensures State() == Ring(seq(CAPACITY, _ => 0), 0, 0, 0, 0, false) && Contents(State()) == []
    {
      items := new Pointer[CAPACITY](_ => 0);
      readIdx, writeIdx, count, highWater, exiting := 0, 0, 0, 0, false;
    }

    method TryPush(item: Pointer) returns (outcome: PushOutcome)
      requires Valid()
      modifies this`writeIdx, this`count, this`highWater, items
      ensures Valid()
      ensures outcome == PushResult(old(State()))
      ensures outcome.MustWait? <==> old(count) == 16 && !exiting
      ensures outcome.Refused? <==> exiting
      ensures State() == if outcome.Accepted? then Put(old(State()), item) else old(State())
      ensures Contents(State()) == old(Contents(State())) + if outcome.Accepted? then [item] else []
    {
      if count == CAPACITY && !exiting {
        return MustWait;
      }
      if exiting {
        return Refused;
      }
      PutAppends(State(), item);
      items[writeIdx] := item;
      writeIdx := (writeIdx + 1) % CAPACITY;
      count := count + 1;
      if count > highWater {
        highWater := count;
      }
      return Accepted;
    }

    /** Reads and clears the oldest slot of the ring that `r` describes. */
    method TakeOldest(ghost r: Ring) returns (item: Pointer)
      requires items.Length == CAPACITY && WellFormed(r) && 0 < r.count
      requires r.items == items[..] && r.readIdx == readIdx
      modifies this`readIdx, items
      ensures items[..] == Take(r).items && readIdx == Take(r).readIdx
      ensures WellFormed(Take(r)) && [item] + Contents(Take(r)) == Contents(r)
    {
      TakeRemovesOldest(r);
      item := items[readIdx];
      assert item == Contents(r)[0];
      items[readIdx] := 0;
      readIdx := (readIdx + 1) % CAPACITY;
    }

    method TryPop() returns (outcome: PopOutcome)
      requires Valid()
      modifies this`readIdx, this`count, items
      ensures Valid()
      ensures outcome.MustSleep? <==> old(count) == 0 && !exiting
      ensures outcome.Finished? <==> old(count) == 0 && exiting
      ensures State() == if outcome.Popped? then Take(old(State())) else old(State())
      ensures outcome.Popped? ==> [outcome.item] + Contents(State()) == old(Contents(State()))
    {
      if count == 0 && !exiting {
        return MustSleep;
      }
      if count == 0 {
        return Finished;
      }
      var item := TakeOldest(State());
      count := count - 1;
      return Popped(item);
    }

    method Shutdown()
      requires Valid()
      modifies this`exiting
      ensures Valid() && State() == old(State()).(exiting := true)
      ensures Contents(State()) == old(Contents(State()))
    {
      exiting := true;
    }

    /** Hands back the first `room` queued items, oldest first, and drops the rest. */
    method Cancel(room: nat) returns (cancelled: seq<Pointer>)
      requires Valid()
      modifies this, items
      ensures Valid() && State() == Drained(old(State()))
      ensures cancelled <= old(Contents(State()))
      ensures |cancelled| == if old(count) < room then old(count) else room
      ensures CAPACITY <= room ==> cancelled == old(Contents(State()))
    {
      hide WellFormed, Contents, SlotOf, Drained;
      ghost var queued := Contents(State());
      ghost var before := State();
      WellFormedFields(before);
      exiting := true;
      ExitingKeeps(before);
      var pending := count;
      var returned := if pending < room then pending else room;
      cancelled := [];
      ghost var rest := State();
      for i := 0 to pending
        invariant rest == Ring(items[..], readIdx, before.writeIdx, pending - i, before.highWater, true)
        invariant items.Length == CAPACITY && WellFormed(rest) && queued[..i] + Contents(rest) == queued
        invariant |queued| == count == pending && highWater == before.highWater && exiting
        invariant cancelled == queued[..if i < returned then i else returned]
      {
        ghost var more := Contents(rest);
        var item := TakeOldest(rest);
        rest := Take(rest);
        Handed(queued, i, item, more, Contents(rest));
        if i < returned {
          cancelled := cancelled + [item];
        }
      }
      count := 0;
      writeIdx := readIdx;
      EmptyIsAllNull(rest);
      DrainedIsEmpty(before);
      DrainedFields(before);
    }
  }

  lemma WellFormedFields(r: Ring)
    requires WellFormed(r)
    ensures |r.items| == CAPACITY && r.readIdx < CAPACITY && r.count == |Contents(r)| <= r.highWater
  {
  }

  lemma ExitingKeeps(r: Ring)
    requires WellFormed(r)
    ensures WellFormed(r.(exiting := true)) && Contents(r.(exiting := true)) == Contents(r)
  {
  }

  lemma DrainedFields(r: Ring)
    ensures Drained(r) == Ring(seq(CAPACITY, _ => 0), r.writeIdx, r.writeIdx, 0, r.highWater, true)
  {
  }

  lemma Handed(queued: seq<Pointer>, i: nat, item: Pointer, more: seq<Pointer>, rest: seq<Pointer>)
    requires i < |queued| && queued[..i] + more == queued && [item] + rest == more
    ensures item == queued[i] && queued[..i + 1] + rest == queued
    ensures queued[..i + 1] == queued[..i] + [item]
  {
    assert more == queued[i..];
  }

  lemma EmptyIsAllNull(r: Ring)
    requires WellFormed(r) && r.count == 0
    ensures r.items == seq(CAPACITY, _ => 0) && r.writeIdx == r.readIdx
  {
    forall k | 0 <= k < |r.items|
      ensures r.items[k] == 0
    {
      var j := if r.readIdx <= k then k - r.readIdx else k + CAPACITY - r.readIdx;
      assert SlotOf(r.readIdx, j) == k;
    }
  }
}
