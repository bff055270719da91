/** What a producer and a consumer get out of any run of the resolve queue
    (src/resolve-queue.c:54-158), told from the steps the threads took: an accepted
    item is the one its own thread asked to push, and a pop hands out what has been
    queued longest, before and after shutdown. */
module ResolveQueueRuns {
  import opened Basics
  import opened ResolveQueues
  import opened ResolveQueueThreads

  /** The item of the last push that thread `t` started. */
  ghost function LastPush(steps: seq<Step>, t: Thread): Option<Pointer> {
    if steps == [] then None
    else
      var step := steps[|steps| - 1];
      if step.Push? && step.t == t then Some(step.item) else LastPush(steps[..|steps| - 1], t)
  }

  /** Every waiting producer still holds the item it came with. */
  ghost predicate ItemsKept(w: Waiters, steps: seq<Step>) {
    && (forall t :: t in w.asleepPush ==> LastPush(steps, t) == Some(w.asleepPush[t]))
    && (forall t :: t in w.wokenPush ==> LastPush(steps, t) == Some(w.wokenPush[t]))
  }

  lemma LastPushStep(steps: seq<Step>, step: Step, t: Thread)
    ensures LastPush(steps + [step], t) ==
      if step.Push? && step.t == t then Some(step.item) else LastPush(steps, t)
  {
    assert (steps + [step])[..|steps|] == steps;
  }

  /** The two ways to be a waiting producer. */
  ghost predicate Holds(w: Waiters, t: Thread, item: Pointer) {
    (t in w.asleepPush && w.asleepPush[t] == item) || (t in w.wokenPush && w.wokenPush[t] == item)
  }

  lemma SignalPushHolds(w: Waiters, wake: set<Thread>, t: Thread, item: Pointer)
    requires Holds(SignalPush(w, wake), t, item)
    ensures Holds(w, t, item)
  {
  }

  lemma WakeAllHolds(w: Waiters, t: Thread, item: Pointer)
    requires Holds(WakeAll(w), t, item)
    ensures Holds(w, t, item)
  {
  }

  /** A step leaves a producer waiting with an item only if it waited with it
      before, or has just asked to push it. */
  lemma StepHolds(s: System, step: Step, n: System, t: Thread, item: Pointer)
    requires Inv(s) && Follows(s, step, n) && Holds(n.w, t, item)
    ensures if step.Push? && step.t == t then item == step.item && !Holds(s.w, t, item)
            else Holds(s.w, t, item)
  {
    hide WellFormed, Contents, WaitersInv, ExactlyOnce, SignalPush, WakeAll, Put, Take, Drained;
    match step
    case Push(_, _, _) =>
    case RetryPush(_, _) =>
    case Pop(_, wake) =>
      if n.w == SignalPush(s.w, wake) {
        SignalPushHolds(s.w, wake, t, item);
      }
    case RetryPop(u, wake) =>
      if n.w == SignalPush(LeavePop(s.w, u), wake) {
        SignalPushHolds(LeavePop(s.w, u), wake, t, item);
      }
    case Shutdown => WakeAllHolds(s.w, t, item);
    case Cancel => WakeAllHolds(s.w, t, item);
    case Spurious(u) =>
      if u in s.w.asleepPush {
        SignalPushHolds(s.w, {u}, t, item);
      }
  }

  lemma StepKeepsItems(s: System, step: Step, n: System, steps: seq<Step>)
    requires Inv(s) && Follows(s, step, n) && ItemsKept(s.w, steps)
    ensures ItemsKept(n.w, steps + [step])
  {
    hide Inv, Follows, LastPush;
    forall t: Thread, item: Pointer | Holds(n.w, t, item)
      ensures LastPush(steps + [step], t) == Some(item)
    {
      StepHolds(s, step, n, t, item);
      LastPushStep(steps, step, t);
    }
    assert forall t :: t in n.w.asleepPush ==> Holds(n.w, t, n.w.asleepPush[t]);
    assert forall t :: t in n.w.wokenPush ==> Holds(n.w, t, n.w.wokenPush[t]);
  }

  lemma {:induction false} RunKeepsItems(states: seq<System>, steps: seq<Step>, i: nat)
    requires IsRun(states, steps) && i < |states|
    ensures ItemsKept(states[i].w, steps[..i])
  {
    hide Inv, Follows, ItemsKept;
    if i == 0 {
      NobodyWaits();
      assert steps[..0] == [];
    } else {
      RunKeepsItems(states, steps, i - 1);
      StepInRun(states, steps, i - 1);
      StepKeepsItems(states[i - 1], steps[i - 1], states[i], steps[..i - 1]);
      assert steps[..i - 1] + [steps[i - 1]] == steps[..i];
    }
  }

  lemma NobodyWaits()
    ensures ItemsKept(Start().w, [])
  {
  }

  /** The item a push or a retried push is about. */
  ghost predicate Pushes(s: System, step: Step, t: Thread, item: Pointer) {
    (step.Push? && step.t == t && step.item == item) ||
    (step.RetryPush? && step.t == t && t in s.w.wokenPush && s.w.wokenPush[t] == item)
  }

  lemma PushEffect(s: System, step: Step, n: System, t: Thread, item: Pointer)
    requires Inv(s) && Follows(s, step, n) && Pushes(s, step, t, item)
    ensures WellFormed(n.ring) && n.popped == s.popped && n.cancelled == s.cancelled
    ensures s.ring.exiting ==> n.ring == s.ring && n.accepted == s.accepted && Outside(n.w, t)
    ensures !s.ring.exiting && s.ring.count == 16 ==> n.ring == s.ring && n.accepted == s.accepted && t in n.w.asleepPush
    ensures !s.ring.exiting && s.ring.count < 16 ==>
      n.accepted == s.accepted + [item] && Contents(n.ring) == Contents(s.ring) + [item] && Outside(n.w, t)
  {
    hide Contents, ExactlyOnce, WellFormed, Put, Apart, PushersCovered, PoppersCovered, Quiet;
    WellFormedFields(s.ring);
    RoomToPut(s.ring, item);
    StaysOutside(s.w, step, t);
  }

  lemma RoomToPut(r: Ring, item: Pointer)
    requires WellFormed(r)
    ensures r.count <= 16
    ensures r.count < 16 ==> WellFormed(Put(r, item)) && Contents(Put(r, item)) == Contents(r) + [item]
  {
    if r.count < 16 {
      PutAppends(r, item);
    }
  }

  lemma StaysOutside(w: Waiters, step: Step, t: Thread)
    requires Apart(w)
    ensures step.RetryPush? && t in w.wokenPush ==> Outside(LeavePush(w, t), t)
    ensures step.RetryPop? && t in w.wokenPop ==> Outside(LeavePop(w, t), t)
  {
    if step.RetryPush? && t in w.wokenPush {
      LeavePushSpends(w, t);
    }
    if step.RetryPop? && t in w.wokenPop {
      LeavePopSpends(w, t);
    }
  }

  /** Over any run, each pass of a push by thread `t` is about the item that `t`
      itself last asked to push. It is refused when the queue is exiting, waits when
      the queue is full, and otherwise puts that item, and no other, behind the rest. */
  lemma {:induction false} PushInRun(states: seq<System>, steps: seq<Step>, i: nat)
    requires IsRun(states, steps) && i < |steps| && (steps[i].Push? || steps[i].RetryPush?)
    ensures LastPush(steps[..i + 1], steps[i].t).Some?
    ensures WellFormed(states[i].ring) && WellFormed(states[i + 1].ring)
    ensures var s, n, t := states[i], states[i + 1], steps[i].t;
      var item := LastPush(steps[..i + 1], t).value;
      if s.ring.exiting then n.ring == s.ring && n.accepted == s.accepted && Outside(n.w, t)
      else if |Contents(s.ring)| == 16 then n.ring == s.ring && n.accepted == s.accepted && t in n.w.asleepPush
      else n.accepted == s.accepted + [item] && Contents(n.ring) == Contents(s.ring) + [item] && Outside(n.w, t)
  {
    hide Inv, Follows, ItemsKept, LastPush, Outside, WellFormed, Contents;
    var s, n, step := states[i], states[i + 1], steps[i];
    StepInRun(states, steps, i);
    RunKeepsItems(states, steps, i);
    assert steps[..i + 1] == steps[..i] + [step];
    LastPushStep(steps[..i], step, step.t);
    var item := ItemOf(s, step, n, steps[..i]);
    PushEffect(s, step, n, step.t, item);
    RingIn(s);
  }

  lemma ItemOf(s: System, step: Step, n: System, before: seq<Step>) returns (item: Pointer)
    requires Inv(s) && Follows(s, step, n) && ItemsKept(s.w, before) && (step.Push? || step.RetryPush?)
    ensures Pushes(s, step, step.t, item)
    ensures LastPush(before + [step], step.t) == Some(item)
  {
    LastPushStep(before, step, step.t);
    item := if step.Push? then step.item else s.w.wokenPush[step.t];
  }

  lemma RingIn(s: System)
    requires Inv(s)
    ensures WellFormed(s.ring) && |Contents(s.ring)| == s.ring.count <= 16
  {
  }

  /** Nothing is accepted except by a push. */
  lemma {:induction false} OnlyPushesAccept(states: seq<System>, steps: seq<Step>, i: nat)
    requires IsRun(states, steps) && i < |steps| && states[i + 1].accepted != states[i].accepted
    ensures steps[i].Push? || steps[i].RetryPush?
  {
    StepInRun(states, steps, i);
  }

  lemma PopEffect(s: System, step: Step, n: System)
    requires Inv(s) && Follows(s, step, n) && (step.Pop? || step.RetryPop?)
    ensures WellFormed(n.ring) && n.accepted == s.accepted && n.cancelled == s.cancelled
    ensures s.ring.count != 0 ==>
      && n.popped == s.popped + [Contents(s.ring)[0]] && Contents(n.ring) == Contents(s.ring)[1..]
      && Outside(n.w, step.t)
    ensures s.ring.count == 0 ==> n.ring == s.ring && n.popped == s.popped
    ensures s.ring.count == 0 && s.ring.exiting ==> Outside(n.w, step.t)
    ensures s.ring.count == 0 && !s.ring.exiting ==> step.t in n.w.asleepPop
  {
    hide Contents, ExactlyOnce, WellFormed, Take, Apart, PushersCovered, PoppersCovered, Quiet, SignalPush;
    WellFormedFields(s.ring);
    if s.ring.count != 0 {
      TakeRemovesOldest(s.ring);
      var w := if step.Pop? then s.w else LeavePop(s.w, step.t);
      StaysOutside(s.w, step, step.t);
      SignalPushOutside(w, step.wake, step.t);
    } else {
      StaysOutside(s.w, step, step.t);
    }
  }

  lemma SignalPushOutside(w: Waiters, wake: set<Thread>, t: Thread)
    requires Outside(w, t)
    ensures Outside(SignalPush(w, wake), t)
  {
  }

  /** Over any run, a pass of a pop hands out what has been queued longest whenever
      something is queued, shutdown or not. With nothing queued it sleeps while the
      queue is open and ends when it is not. */
  lemma {:induction false} PopInRun(states: seq<System>, steps: seq<Step>, i: nat)
    requires IsRun(states, steps) && i < |steps| && (steps[i].Pop? || steps[i].RetryPop?)
    ensures WellFormed(states[i].ring) && WellFormed(states[i + 1].ring)
    ensures var s, n, t := states[i], states[i + 1], steps[i].t;
      var queued := Contents(s.ring);
      if queued != [] then
        n.popped == s.popped + [queued[0]] && Contents(n.ring) == queued[1..] && Outside(n.w, t)
      else if s.ring.exiting then n.ring == s.ring && n.popped == s.popped && Outside(n.w, t)
      else n.ring == s.ring && n.popped == s.popped && t in n.w.asleepPop
  {
    hide Inv, Follows, Outside, WellFormed, Contents;
    StepInRun(states, steps, i);
    PopEffect(states[i], steps[i], states[i + 1]);
    RingIn(states[i]);
  }

  // ---------------------------------------------------------- the class follows

  /** One pass of a push on the real ring does to it what the step system's region
      does, and its outcome says what becomes of the thread. */
  method PushOnce(q: ResolveQueue, item: Pointer, ghost s: System, ghost t: Thread, ghost wake: set<Thread>)
    returns (outcome: PushOutcome)
    requires q.Valid() && q.State() == s.ring
    modifies q`writeIdx, q`count, q`highWater, q.items
    ensures q.Valid()
    ensures outcome.MustWait? ==> PushRegion(s, t, item, wake) == s.(w := s.w.(asleepPush := s.w.asleepPush[t := item]))
    ensures outcome.Refused? ==> PushRegion(s, t, item, wake) == s
    ensures outcome.Accepted? ==>
      PushRegion(s, t, item, wake) == s.(ring := q.State(), w := SignalPop(s.w, wake), accepted := s.accepted + [item])
    ensures !outcome.Accepted? ==> q.State() == s.ring
  {
    hide WellFormed, Contents, Put, SignalPop;
    outcome := q.TryPush(item);
  }

  /** The same for a pop, whose outcome carries the item that joins `popped`. */
  method PopOnce(q: ResolveQueue, ghost s: System, ghost t: Thread, ghost wake: set<Thread>)
    returns (outcome: PopOutcome)
    requires q.Valid() && q.State() == s.ring
    modifies q`readIdx, q`count, q.items
    ensures q.Valid()
    ensures outcome.MustSleep? ==> PopRegion(s, t, wake) == s.(w := s.w.(asleepPop := s.w.asleepPop + {t}))
    ensures outcome.Finished? ==> PopRegion(s, t, wake) == s
    ensures outcome.Popped? ==>
      PopRegion(s, t, wake) == s.(ring := q.State(), w := SignalPush(s.w, wake), popped := s.popped + [outcome.item])
    ensures !outcome.Popped? ==> q.State() == s.ring
  {
    hide WellFormed, Contents, Take, SignalPush;
    WellFormedFields(s.ring);
    outcome := q.TryPop();
  }

  /** Cancel with room for everything hands back exactly what the step drains. */
  method CancelOnce(q: ResolveQueue, ghost s: System) returns (cancelled: seq<Pointer>)
    requires q.Valid() && q.State() == s.ring
    modifies q, q.items
    ensures q.Valid()
    ensures Next(s, Cancel) == s.(ring := q.State(), w := WakeAll(s.w), cancelled := s.cancelled + cancelled)
  {
    hide WellFormed, Contents, Drained, WakeAll;
    cancelled := q.Cancel(CAPACITY);
  }

  method ShutdownOnce(q: ResolveQueue, ghost s: System)
    requires q.Valid() && q.State() == s.ring
    modifies q`exiting
    ensures q.Valid()
    ensures Next(s, Shutdown) == s.(ring := q.State(), w := WakeAll(s.w))
  {
    hide WellFormed, Contents, WakeAll;
    q.Shutdown();
  }

  // ------------------------------------------------------- what may happen

  /** Nothing but its own sleep keeps a thread from going on, a signal may go to any
      one sleeper, and any sleeper may wake by itself. */
  lemma StepsAvailable(s: System, t: Thread, item: Pointer, u: Thread)
    ensures Outside(s.w, t) && (u in s.w.asleepPop || s.w.asleepPop == {}) ==>
      Enabled(s, Push(t, item, if u in s.w.asleepPop then {u} else {}))
    ensures t in s.w.wokenPush && (u in s.w.asleepPop || s.w.asleepPop == {}) ==>
      Enabled(s, RetryPush(t, if u in s.w.asleepPop then {u} else {}))
    ensures Outside(s.w, t) && (u in s.w.asleepPush || s.w.asleepPush == map[]) ==>
      Enabled(s, Pop(t, if u in s.w.asleepPush then {u} else {}))
    ensures t in s.w.wokenPop && (u in s.w.asleepPush || s.w.asleepPush == map[]) ==>
      Enabled(s, RetryPop(t, if u in s.w.asleepPush then {u} else {}))
    ensures Enabled(s, Shutdown) && Enabled(s, Cancel)
    ensures t in s.w.asleepPush || t in s.w.asleepPop ==> Enabled(s, Spurious(t))
    ensures Outside(s.w, t) <==> !(t in s.w.asleepPush || t in s.w.wokenPush || t in s.w.asleepPop || t in s.w.wokenPop)
  {
    if s.w.asleepPush == map[] {
      assert s.w.asleepPush.Keys == {};
    }
  }

  // ----------------------------------------------------------- end to end

  /** What the pushes of a run have put into the queue, told from the steps: each
      pass of a push that finds the queue open and not full adds the item its thread
      last asked to push. */
  ghost function Taken(states: seq<System>, steps: seq<Step>, i: nat): seq<Pointer>
    requires |states| == |steps| + 1 && i <= |steps|
  {
    if i == 0 then []
    else
      var s, step, before := states[i - 1], steps[i - 1], Taken(states, steps, i - 1);
      if (step.Push? || step.RetryPush?) && !s.ring.exiting && s.ring.count < 16 && LastPush(steps[..i], step.t).Some?
      then before + [LastPush(steps[..i], step.t).value] else before
  }

  lemma {:induction false} AcceptedIsTaken(states: seq<System>, steps: seq<Step>, i: nat)
    requires IsRun(states, steps) && i < |states|
    ensures states[i].accepted == Taken(states, steps, i)
  {
    RunShape(states, steps);
    hide IsRun, Inv, LastPush, Taken;
    if i == 0 {
      NothingAccepted(states, steps);
      NothingTaken(states, steps);
    } else {
      AcceptedIsTaken(states, steps, i - 1);
      TakenStep(states, steps, i - 1);
      TakenUnfolds(states, steps, i);
    }
  }

  lemma NothingTaken(states: seq<System>, steps: seq<Step>)
    requires |states| == |steps| + 1
    ensures Taken(states, steps, 0) == []
  {
  }

  lemma {:induction false} TakenUnfolds(states: seq<System>, steps: seq<Step>, i: nat)
    requires |states| == |steps| + 1 && 0 < i <= |steps|
    ensures var s, step, before := states[i - 1], steps[i - 1], Taken(states, steps, i - 1);
      Taken(states, steps, i) == before +
        if (step.Push? || step.RetryPush?) && !s.ring.exiting && s.ring.count < 16 && LastPush(steps[..i], step.t).Some?
        then [LastPush(steps[..i], step.t).value] else []
  {
    hide LastPush;
    var before := Taken(states, steps, i - 1);
    assert before + [] == before;
  }

  lemma RunShape(states: seq<System>, steps: seq<Step>)
    requires IsRun(states, steps)
    ensures |states| == |steps| + 1
  {
  }

  lemma NothingAccepted(states: seq<System>, steps: seq<Step>)
    requires IsRun(states, steps)
    ensures states[0].accepted == []
  {
  }

  lemma {:induction false} TakenStep(states: seq<System>, steps: seq<Step>, i: nat)
    requires IsRun(states, steps) && i < |steps|
    ensures |states| == |steps| + 1
    ensures var s, step := states[i], steps[i];
      states[i + 1].accepted == s.accepted +
        if (step.Push? || step.RetryPush?) && !s.ring.exiting && s.ring.count < 16 && LastPush(steps[..i + 1], step.t).Some?
        then [LastPush(steps[..i + 1], step.t).value] else []
  {
    RunShape(states, steps);
    hide IsRun, Inv, LastPush, Outside, Contents;
    var s, step := states[i], steps[i];
    RunInv(states, steps, i);
    RingIn(s);
    assert s.accepted + [] == s.accepted;
    if step.Push? || step.RetryPush? {
      PushInRun(states, steps, i);
    } else if states[i + 1].accepted != s.accepted {
      OnlyPushesAccept(states, steps, i);
    }
  }

  /** Over any run, what consumers received, then what cancel handed back, then what
      is still queued, is exactly what the producers pushed, in the order in which it
      was taken. */
  lemma {:induction false} DeliveredIsPushed(states: seq<System>, steps: seq<Step>, i: nat)
    requires IsRun(states, steps) && i < |states|
    ensures WellFormed(states[i].ring)
    ensures states[i].popped + states[i].cancelled + Contents(states[i].ring) == Taken(states, steps, i)
  {
    hide Taken;
    FifoExactlyOnce(states, steps, i);
    AcceptedIsTaken(states, steps, i);
  }
}
