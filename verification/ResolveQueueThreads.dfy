/** Any number of producers and consumers around one resolve queue
    (src/resolve-queue.c:54-158). A thread inside a call is asleep on a condition
    variable or has been woken and is about to retake the mutex; a thread that is
    in neither is outside. A signal wakes at least one sleeper when there is one,
    and any sleeper may wake for no reason. */
module ResolveQueueThreads {
  import opened ResolveQueues

  /** The threads inside a call; a waiting producer keeps its item. */
  datatype Waiters = Waiters(
    asleepPush: map<Thread, Pointer>,
    wokenPush: map<Thread, Pointer>,
    asleepPop: set<Thread>,
    wokenPop: set<Thread>)

  /** The ring, the waiting threads, and the history of what was accepted,
      popped, and drained by cancel. */
  datatype System = System(
    ring: Ring,
    w: Waiters,
    accepted: seq<Pointer>,
    popped: seq<Pointer>,
    cancelled: seq<Pointer>)

  datatype Step =
    | Push(t: Thread, item: Pointer, wake: set<Thread>)
    | RetryPush(t: Thread, wake: set<Thread>)
    | Pop(t: Thread, wake: set<Thread>)
    | RetryPop(t: Thread, wake: set<Thread>)
    | Shutdown
    | Cancel
    | Spurious(t: Thread)

  ghost function Start(): System {
    System(Ring(seq(CAPACITY, _ => 0), 0, 0, 0, 0, false), Waiters(map[], map[], {}, {}), [], [], [])
  }

  ghost predicate Outside(w: Waiters, t: Thread) {
    t !in w.asleepPush && t !in w.wokenPush && t !in w.asleepPop && t !in w.wokenPop
  }

  /** What one signal may wake. */
  ghost predicate WakesOne(asleep: set<Thread>, wake: set<Thread>) {
    wake <= asleep && (asleep != {} ==> wake != {})
  }

  ghost function SignalPop(w: Waiters, wake: set<Thread>): Waiters {
    w.(asleepPop := w.asleepPop - wake, wokenPop := w.wokenPop + wake)
  }

  ghost function SignalPush(w: Waiters, wake: set<Thread>): Waiters {
    w.(asleepPush := w.asleepPush - wake,
       wokenPush := w.wokenPush + map t | t in w.asleepPush && t in wake :: w.asleepPush[t])
  }

  ghost function WakeAll(w: Waiters): Waiters {
    Waiters(map[], w.wokenPush + w.asleepPush, {}, w.wokenPop + w.asleepPop)
  }

  /** The locked region of a push by `t`, which is outside or has just left the
      woken set. */
  ghost function PushRegion(s: System, t: Thread, item: Pointer, wake: set<Thread>): System
    requires WellFormed(s.ring)
  {
    match PushResult(s.ring)
    case MustWait => s.(w := s.w.(asleepPush := s.w.asleepPush[t := item]))
    case Refused => s
    case Accepted => s.(ring := Put(s.ring, item), w := SignalPop(s.w, wake), accepted := s.accepted + [item])
  }

  ghost function PopRegion(s: System, t: Thread, wake: set<Thread>): System
    requires WellFormed(s.ring)
  {
    if s.ring.count == 0 && !s.ring.exiting then s.(w := s.w.(asleepPop := s.w.asleepPop + {t}))
    else if s.ring.count == 0 then s
    else s.(ring := Take(s.ring), w := SignalPush(s.w, wake), popped := s.popped + [Contents(s.ring)[0]])
  }

  ghost predicate Enabled(s: System, step: Step) {
    match step
    case Push(t, item, wake) => Outside(s.w, t) && WakesOne(s.w.asleepPop, wake)
    case RetryPush(t, wake) => t in s.w.wokenPush && WakesOne(s.w.asleepPop, wake)
    case Pop(t, wake) => Outside(s.w, t) && WakesOne(s.w.asleepPush.Keys, wake)
    case RetryPop(t, wake) => t in s.w.wokenPop && WakesOne(s.w.asleepPush.Keys, wake)
    case Shutdown => true
    case Cancel => true
    case Spurious(t) => t in s.w.asleepPush || t in s.w.asleepPop
  }

  ghost function LeavePush(w: Waiters, t: Thread): Waiters {
    w.(wokenPush := w.wokenPush - {t})
  }

  ghost function LeavePop(w: Waiters, t: Thread): Waiters {
    w.(wokenPop := w.wokenPop - {t})
  }

  ghost function Stir(w: Waiters, t: Thread): Waiters {
    if t in w.asleepPush then SignalPush(w, {t}) else SignalPop(w, {t})
  }

  ghost function Next(s: System, step: Step): System
    requires WellFormed(s.ring) && Enabled(s, step)
  {
    match step
    case Push(t, item, wake) => PushRegion(s, t, item, wake)
    case RetryPush(t, wake) => PushRegion(s.(w := LeavePush(s.w, t)), t, s.w.wokenPush[t], wake)
    case Pop(t, wake) => PopRegion(s, t, wake)
    case RetryPop(t, wake) => PopRegion(s.(w := LeavePop(s.w, t)), t, wake)
    case Shutdown => s.(ring := s.ring.(exiting := true), w := WakeAll(s.w))
    case Cancel => s.(ring := Drained(s.ring), w := WakeAll(s.w), cancelled := s.cancelled + Contents(s.ring))
    case Spurious(t) => s.(w := Stir(s.w, t))
  }

  // -------------------------------------------------------------- wakeups

  ghost predicate Apart(w: Waiters) {
    && w.asleepPush.Keys !! w.wokenPush.Keys
    && w.asleepPop !! w.wokenPop
    && (w.asleepPush.Keys + w.wokenPush.Keys) !! (w.asleepPop + w.wokenPop)
  }

  /** A producer left asleep is matched by enough woken producers to take all
      `free` slots; `spent` of them have just retaken the mutex. */
  ghost predicate PushersCovered(w: Waiters, free: int, spent: nat) {
    |w.asleepPush| != 0 ==> free <= |w.wokenPush| + spent
  }

  /** A consumer left asleep is matched by enough woken consumers to take all
      `queued` items. */
  ghost predicate PoppersCovered(w: Waiters, queued: int, spent: nat) {
    |w.asleepPop| != 0 ==> queued <= |w.wokenPop| + spent
  }

  ghost predicate Quiet(w: Waiters) {
    |w.asleepPush| == 0 && |w.asleepPop| == 0
  }

  ghost predicate WaitersInv(w: Waiters, count: int, exiting: bool) {
    && Apart(w)
    && if exiting then Quiet(w)
       else PushersCovered(w, CAPACITY - count, 0) && PoppersCovered(w, count, 0)
  }

  lemma NonEmptySize<T>(s: set<T>)
    ensures s != {} <==> |s| >= 1
  {
    if s != {} {
      var x :| x in s;
      assert s == {x} + (s - {x});
    }
  }

  lemma SignalPopWakes(w: Waiters, wake: set<Thread>)
    requires Apart(w) && wake <= w.asleepPop
    ensures Apart(SignalPop(w, wake))
    ensures |SignalPop(w, wake).wokenPop| == |w.wokenPop| + |wake|
    ensures |SignalPop(w, wake).asleepPop| + |wake| == |w.asleepPop|
  {
    MovedSizes(w.asleepPop, w.wokenPop, wake);
  }

  lemma SignalPushKeys(w: Waiters, wake: set<Thread>)
    requires wake <= w.asleepPush.Keys
    ensures SignalPush(w, wake).asleepPush.Keys == w.asleepPush.Keys - wake
    ensures SignalPush(w, wake).wokenPush.Keys == w.wokenPush.Keys + wake
  {
  }

  lemma SignalPushSpares(w: Waiters, wake: set<Thread>)
    ensures SignalPush(w, wake).asleepPop == w.asleepPop && SignalPush(w, wake).wokenPop == w.wokenPop
  {
  }

  lemma SignalPushApart(w: Waiters, wake: set<Thread>)
    requires Apart(w) && wake <= w.asleepPush.Keys
    ensures Apart(SignalPush(w, wake))
  {
    SignalPushKeys(w, wake);
  }

  lemma MovedSizes<T>(from: set<T>, to: set<T>, moved: set<T>)
    requires moved <= from && from !! to
    ensures |from - moved| + |moved| == |from| && |to + moved| == |to| + |moved|
  {
    assert from == (from - moved) + moved;
  }

  lemma SignalPushWakes(w: Waiters, wake: set<Thread>)
    requires Apart(w) && wake <= w.asleepPush.Keys
    ensures |SignalPush(w, wake).wokenPush| == |w.wokenPush| + |wake|
    ensures |SignalPush(w, wake).asleepPush| + |wake| == |w.asleepPush|
  {
    var n := SignalPush(w, wake);
    SignalPushKeys(w, wake);
    MovedSizes(w.asleepPush.Keys, w.wokenPush.Keys, wake);
    MapSize(w.asleepPush);
    MapSize(w.wokenPush);
    MapSize(n.asleepPush);
    MapSize(n.wokenPush);
  }

  lemma MapSize<K, V>(m: map<K, V>)
    ensures |m| == |m.Keys|
  {
  }

  /** An accepted push fills one slot and passes one wakeup to a sleeping consumer. */
  lemma PushSignals(w: Waiters, count: nat, wake: set<Thread>, spent: nat)
    requires Apart(w) && WakesOne(w.asleepPop, wake) && spent <= 1
    requires PushersCovered(w, CAPACITY - count, spent) && PoppersCovered(w, count, 0)
    ensures WaitersInv(SignalPop(w, wake), count + 1, false)
  {
    SignalPopWakes(w, wake);
    NonEmptySize(wake);
    NonEmptySize(w.asleepPop);
  }

  lemma PopSignals(w: Waiters, count: nat, wake: set<Thread>, spent: nat)
    requires Apart(w) && WakesOne(w.asleepPush.Keys, wake) && spent <= 1
    requires PushersCovered(w, CAPACITY - count, 0) && PoppersCovered(w, count, spent)
    ensures WaitersInv(SignalPush(w, wake), count - 1, false)
  {
    SignalPushApart(w, wake);
    SignalPushWakes(w, wake);
    NonEmptySize(wake);
    NonEmptySize(w.asleepPush.Keys);
    MapSize(w.asleepPush);
  }

  lemma PushFallsAsleep(w: Waiters, t: Thread, item: Pointer)
    requires Apart(w) && Outside(w, t) && PoppersCovered(w, CAPACITY, 0)
    ensures WaitersInv(w.(asleepPush := w.asleepPush[t := item]), CAPACITY, false)
  {
  }

  lemma PopFallsAsleep(w: Waiters, t: Thread)
    requires Apart(w) && Outside(w, t) && PushersCovered(w, CAPACITY, 0)
    ensures WaitersInv(w.(asleepPop := w.asleepPop + {t}), 0, false)
  {
  }

  lemma LeavePushSpends(w: Waiters, t: Thread)
    requires Apart(w) && t in w.wokenPush
    ensures Apart(LeavePush(w, t)) && Outside(LeavePush(w, t), t)
    ensures |w.wokenPush| == |LeavePush(w, t).wokenPush| + 1
  {
    var n := LeavePush(w, t);
    assert n.wokenPush.Keys == w.wokenPush.Keys - {t};
    MovedSizes(w.wokenPush.Keys, {}, {t});
    MapSize(w.wokenPush);
    MapSize(n.wokenPush);
  }

  lemma LeavePopSpends(w: Waiters, t: Thread)
    requires Apart(w) && t in w.wokenPop
    ensures Apart(LeavePop(w, t)) && Outside(LeavePop(w, t), t)
    ensures |w.wokenPop| == |LeavePop(w, t).wokenPop| + 1
  {
    assert w.wokenPop == (w.wokenPop - {t}) + {t};
  }

  lemma WakeAllQuiet(w: Waiters)
    requires Apart(w)
    ensures Apart(WakeAll(w)) && Quiet(WakeAll(w))
  {
    var n := WakeAll(w);
    assert n.asleepPush.Keys == {} && n.asleepPop == {};
    assert n.wokenPush.Keys == w.wokenPush.Keys + w.asleepPush.Keys;
  }

  lemma StirPush(w: Waiters, t: Thread, count: nat)
    requires WaitersInv(w, count, false) && t in w.asleepPush
    ensures WaitersInv(SignalPush(w, {t}), count, false)
  {
    hide Apart, SignalPush;
    SignalPushApart(w, {t});
    SignalPushWakes(w, {t});
    SignalPushSpares(w, {t});
  }

  lemma StirPop(w: Waiters, t: Thread, count: nat)
    requires WaitersInv(w, count, false) && t in w.asleepPop
    ensures WaitersInv(SignalPop(w, {t}), count, false)
  {
    hide Apart;
    SignalPopWakes(w, {t});
  }

  lemma QuietIsEmpty(w: Waiters)
    requires Quiet(w)
    ensures w.asleepPush.Keys == {} && w.asleepPop == {}
  {
    NonEmptySize(w.asleepPush.Keys);
    MapSize(w.asleepPush);
    NonEmptySize(w.asleepPop);
  }

  /** Waking for no reason. Once the queue is exiting nobody is asleep to do so. */
  lemma StirKeeps(w: Waiters, t: Thread, count: nat, exiting: bool)
    requires WaitersInv(w, count, exiting) && (t in w.asleepPush || t in w.asleepPop)
    ensures WaitersInv(Stir(w, t), count, exiting)
  {
    hide Apart, SignalPush, SignalPop, PushersCovered, PoppersCovered, Quiet;
    if exiting {
      QuietIsEmpty(w);
      assert false;
    }
    if t in w.asleepPush {
      StirPush(w, t, count);
    } else {
      StirPop(w, t, count);
    }
  }

  // ------------------------------------------------------------- invariant

  /** Every accepted item went to a consumer, then to cancel, or is still queued,
      in the order of acceptance. */
  ghost predicate ExactlyOnce(s: System)
    requires WellFormed(s.ring)
  {
    && s.accepted == s.popped + s.cancelled + Contents(s.ring)
    && (s.cancelled != [] ==> s.ring.exiting && s.ring.count == 0)
  }

  ghost predicate Inv(s: System) {
    && WellFormed(s.ring)
    && WaitersInv(s.w, s.ring.count, s.ring.exiting)
    && ExactlyOnce(s)
  }

  lemma PushRegionKeeps(s: System, t: Thread, item: Pointer, wake: set<Thread>, spent: nat)
    requires WellFormed(s.ring) && ExactlyOnce(s) && Apart(s.w)
    requires Outside(s.w, t) && WakesOne(s.w.asleepPop, wake) && spent <= 1
    requires s.ring.exiting ==> Quiet(s.w)
    requires !s.ring.exiting ==>
      PushersCovered(s.w, CAPACITY - s.ring.count, spent) && PoppersCovered(s.w, s.ring.count, 0)
    ensures Inv(PushRegion(s, t, item, wake))
  {
    match PushResult(s.ring)
    case MustWait => PushFallsAsleep(s.w, t, item);
    case Refused =>
    case Accepted =>
      PutAppends(s.ring, item);
      PushSignals(s.w, s.ring.count, wake, spent);
  }

  lemma PopRegionKeeps(s: System, t: Thread, wake: set<Thread>, spent: nat)
    requires WellFormed(s.ring) && ExactlyOnce(s) && Apart(s.w)
    requires Outside(s.w, t) && WakesOne(s.w.asleepPush.Keys, wake) && spent <= 1
    requires s.ring.exiting ==> Quiet(s.w)
    requires !s.ring.exiting ==>
      PushersCovered(s.w, CAPACITY - s.ring.count, 0) && PoppersCovered(s.w, s.ring.count, spent)
    ensures Inv(PopRegion(s, t, wake))
  {
    hide Apart, SignalPush, Outside, WakesOne, Quiet, PushersCovered, PoppersCovered, Contents, Take;
    if s.ring.count == 0 && !s.ring.exiting {
      PopFallsAsleep(s.w, t);
    } else if s.ring.count != 0 {
      TakeKeepsOrder(s);
      if s.ring.exiting {
        PopWhileExiting(s.w, s.ring.count, wake);
      } else {
        PopSignals(s.w, s.ring.count, wake, spent);
      }
    }
  }

  lemma PopWhileExiting(w: Waiters, count: nat, wake: set<Thread>)
    requires Apart(w) && Quiet(w) && WakesOne(w.asleepPush.Keys, wake)
    ensures WaitersInv(SignalPush(w, wake), count - 1, true)
  {
    hide Apart, SignalPush;
    QuietIsEmpty(w);
    assert wake == {};
    SignalPushApart(w, wake);
    SignalPushWakes(w, wake);
    SignalPushSpares(w, wake);
  }

  /** A pop moves the oldest queued item to the end of what was popped. */
  lemma TakeKeepsOrder(s: System)
    requires WellFormed(s.ring) && ExactlyOnce(s) && s.ring.count != 0
    ensures var n := Take(s.ring);
      && WellFormed(n) && n.count == s.ring.count - 1 && n.exiting == s.ring.exiting
      && |Contents(s.ring)| == s.ring.count && s.cancelled == []
      && s.accepted == s.popped + [Contents(s.ring)[0]] + s.cancelled + Contents(n)
  {
    TakeRemovesOldest(s.ring);
    var c := Contents(s.ring);
    assert c == [c[0]] + c[1..];
    assert s.popped + s.cancelled == s.popped;
    assert s.popped + [c[0]] + [] == s.popped + [c[0]];
  }

  lemma ShutdownKeeps(s: System)
    requires Inv(s)
    ensures Inv(Next(s, Shutdown))
  {
    WakeAllQuiet(s.w);
    assert Contents(s.ring.(exiting := true)) == Contents(s.ring);
  }

  lemma CancelKeeps(s: System)
    requires Inv(s)
    ensures Inv(Next(s, Cancel))
  {
    DrainedIsEmpty(s.ring);
    WakeAllQuiet(s.w);
    Regroup(s.popped, s.cancelled, Contents(s.ring), Contents(Drained(s.ring)));
  }

  lemma Regroup<T>(a: seq<T>, b: seq<T>, c: seq<T>, none: seq<T>)
    requires none == []
    ensures a + (b + c) + none == a + b + c
  {
  }

  /** Every step of every thread keeps the invariant. */
  lemma NextKeeps(s: System, step: Step)
    requires Inv(s) && Enabled(s, step)
    ensures Inv(Next(s, step))
  {
    match step
    case Push(t, item, wake) => PushRegionKeeps(s, t, item, wake, 0);
    case RetryPush(t, wake) =>
      LeavePushSpends(s.w, t);
      PushRegionKeeps(s.(w := LeavePush(s.w, t)), t, s.w.wokenPush[t], wake, 1);
    case Pop(t, wake) => PopRegionKeeps(s, t, wake, 0);
    case RetryPop(t, wake) =>
      LeavePopSpends(s.w, t);
      PopRegionKeeps(s.(w := LeavePop(s.w, t)), t, wake, 1);
    case Shutdown => ShutdownKeeps(s);
    case Cancel => CancelKeeps(s);
    case Spurious(t) => StirKeeps(s.w, t, s.ring.count, s.ring.exiting);
  }

  // ------------------------------------------------------------------ runs

  ghost predicate Follows(s: System, step: Step, n: System) {
    WellFormed(s.ring) && Enabled(s, step) && n == Next(s, step)
  }

  ghost predicate IsRun(states: seq<System>, steps: seq<Step>) {
    && |states| == |steps| + 1
    && states[0] == Start()
    && forall i {:trigger steps[i]} :: 0 <= i < |steps| ==> Follows(states[i], steps[i], states[i + 1])
  }

  lemma StartInv()
    ensures Inv(Start())
  {
  }

  lemma FollowsKeeps(s: System, step: Step, n: System)
    requires Inv(s) && Follows(s, step, n)
    ensures Inv(n)
  {
    hide Inv, Next;
    NextKeeps(s, step);
  }

  /** The peak moves only when the new depth exceeds it. */
  lemma StepPeak(s: System, step: Step, n: System)
    requires Inv(s) && Follows(s, step, n)
    ensures s.ring.highWater <= n.ring.highWater
    ensures n.ring.highWater == s.ring.highWater || n.ring.highWater == n.ring.count
  {
    hide WellFormed, Contents, WaitersInv, ExactlyOnce, SignalPop, SignalPush, WakeAll, Stir;
    WellFormedFields(s.ring);
  }

  lemma StepAfterExit(s: System, step: Step, n: System)
    requires Inv(s) && Follows(s, step, n) && s.ring.exiting
    ensures n.ring.exiting && n.accepted == s.accepted && s.popped <= n.popped && s.cancelled <= n.cancelled
  {
  }

  lemma {:induction false} RunInv(states: seq<System>, steps: seq<Step>, i: nat)
    requires IsRun(states, steps) && i < |states|
    ensures Inv(states[i])
  {
    hide Inv, Follows, Start;
    if i == 0 {
      StartInv();
    } else {
      RunInv(states, steps, i - 1);
      assert Follows(states[i - 1], steps[i - 1], states[i - 1 + 1]);
      FollowsKeeps(states[i - 1], steps[i - 1], states[i]);
    }
  }

  /** No wakeup is lost in any run. While the queue is open and nobody is on the
      way to the mutex, a sleeping producer means a full queue and a sleeping
      consumer an empty one, so they never sleep at the same time. */
  lemma {:induction false} NeverStuck(states: seq<System>, steps: seq<Step>, i: nat)
    requires IsRun(states, steps) && i < |states| && !states[i].ring.exiting
    ensures var s := states[i];
      && (s.w.asleepPush != map[] ==> CAPACITY - s.ring.count <= |s.w.wokenPush|)
      && (s.w.asleepPop != {} ==> s.ring.count <= |s.w.wokenPop|)
      && (s.w.wokenPush == map[] && s.w.asleepPush != map[] ==> s.ring.count == CAPACITY)
      && (s.w.wokenPop == {} && s.w.asleepPop != {} ==> s.ring.count == 0)
      && (s.w.wokenPush == map[] && s.w.wokenPop == {} ==> s.w.asleepPush == map[] || s.w.asleepPop == {})
  {
    RunInv(states, steps, i);
    var s := states[i];
    NonEmptySize(s.w.asleepPop);
    NonEmptySize(s.w.asleepPush.Keys);
    MapSize(s.w.asleepPush);
  }

  lemma {:induction false} AsleepInRun(states: seq<System>, steps: seq<Step>, i: nat)
    requires IsRun(states, steps) && i < |states|
    ensures states[i].ring.exiting ==> states[i].w.asleepPush == map[] && states[i].w.asleepPop == {}
    ensures states[i].ring.count <= states[i].ring.highWater
  {
    RunInv(states, steps, i);
    NonEmptySize(states[i].w.asleepPop);
    NonEmptySize(states[i].w.asleepPush.Keys);
    MapSize(states[i].w.asleepPush);
  }

  lemma {:induction false} StepInRun(states: seq<System>, steps: seq<Step>, i: nat)
    requires IsRun(states, steps) && i < |steps|
    ensures Inv(states[i]) && Follows(states[i], steps[i], states[i + 1])
  {
    RunInv(states, steps, i);
    assert Follows(states[i], steps[i], states[i + 1]);
  }

  lemma {:induction false} ExitStepInRun(states: seq<System>, steps: seq<Step>, i: nat)
    requires IsRun(states, steps) && i < |steps| && states[i].ring.exiting
    ensures states[i + 1].ring.exiting && states[i + 1].accepted == states[i].accepted
    ensures states[i].popped <= states[i + 1].popped && states[i].cancelled <= states[i + 1].cancelled
  {
    StepInRun(states, steps, i);
    StepAfterExit(states[i], steps[i], states[i + 1]);
  }

  lemma {:induction false} PeakStepInRun(states: seq<System>, steps: seq<Step>, i: nat)
    requires IsRun(states, steps) && i < |steps|
    ensures var s, n := states[i].ring, states[i + 1].ring;
      && s.highWater <= n.highWater
      && (n.highWater == s.highWater || n.highWater == n.count)
      && n.count <= n.highWater
  {
    StepInRun(states, steps, i);
    StepPeak(states[i], steps[i], states[i + 1]);
    AsleepInRun(states, steps, i + 1);
  }

  /** After shutdown or cancel nobody is asleep, nobody falls asleep again, no
      push is accepted, and pops take what was queued, in order. */
  lemma {:induction false} ExitIsFinal(states: seq<System>, steps: seq<Step>, i: nat, j: nat)
    requires IsRun(states, steps) && i <= j < |states| && states[i].ring.exiting
    ensures states[j].ring.exiting
    ensures states[j].w.asleepPush == map[] && states[j].w.asleepPop == {}
    ensures states[j].accepted == states[i].accepted
    ensures states[i].popped <= states[j].popped && states[i].cancelled <= states[j].cancelled
    decreases j
  {
    AsleepInRun(states, steps, j);
    if i < j {
      ExitIsFinal(states, steps, i, j - 1);
      ExitStepInRun(states, steps, j - 1);
    }
  }

  /** Over any run each accepted item is accounted for exactly once and in order;
      when the ring has run dry without a cancel, consumers got everything. */
  lemma {:induction false} FifoExactlyOnce(states: seq<System>, steps: seq<Step>, i: nat)
    requires IsRun(states, steps) && i < |states|
    ensures WellFormed(states[i].ring)
    ensures states[i].accepted == states[i].popped + states[i].cancelled + Contents(states[i].ring)
    ensures states[i].cancelled == [] && states[i].ring.count == 0 ==> states[i].popped == states[i].accepted
    ensures states[i].cancelled != [] ==> states[i].ring.exiting && Contents(states[i].ring) == []
  {
    RunInv(states, steps, i);
  }

  /** `highWater` is the largest depth the run has reached. */
  lemma {:induction false} HighWaterIsPeak(states: seq<System>, steps: seq<Step>, k: nat)
    requires IsRun(states, steps) && k < |states|
    ensures forall i :: 0 <= i <= k ==> states[i].ring.count <= states[k].ring.highWater
    ensures exists i :: 0 <= i <= k && states[i].ring.count == states[k].ring.highWater
  {
    if k == 0 {
      assert states[0].ring.count == states[0].ring.highWater;
    } else {
      HighWaterIsPeak(states, steps, k - 1);
      PeakStepInRun(states, steps, k - 1);
      var i :| 0 <= i <= k - 1 && states[i].ring.count == states[k - 1].ring.highWater;
      if states[k].ring.highWater == states[k - 1].ring.highWater {
        assert states[i].ring.count == states[k].ring.highWater;
      } else {
        assert states[k].ring.count == states[k].ring.highWater;
      }
    }
  }
}
