/** The Subscribe loop against producers, the notification listener and whoever else
    locks rows of the topic: when may it sleep on a message it has not flushed? */
module SubscribeLoop {
  import opened Tables
  import PubSub

  /** Where the loop stands.  `drained` says that the pass before this wait ended on an
      empty read, rather than on an error. */
  datatype Phase =
    | Draining
    | Passing
    | Flushing(batch: set<nat>)
    | Emptied
    | Failed(leaseLost: bool)
    | Parked(drained: bool)
    | Returned

  /** `stored` holds the topic's committed, unflushed messages and `held` those of them
      whose rows some other transaction has locked.  `skipped` is `held` as of the
      last empty read.  `inFlight` counts committed notifications the listener has
      not dispatched; `lost` records that one was lost or the pub/sub shut down.
      `attached` is false once the loop has dropped a closed channel. */
  datatype State = State(stored: set<nat>, held: set<nat>, skipped: set<nat>, inFlight: nat, chan: PubSub.Chan,
                         attached: bool, lost: bool, timerArmed: bool, phase: Phase)

  datatype Step =
    /** A producer's transaction commits messages and, with them, one notification. */
    | Produce(ids: set<nat>)
    | Dispatch
    | Lose
    | ShutDown
    /** Another transaction locks rows, then rolls back or deletes them. */
    | OtherLocks(ids: set<nat>)
    | OtherUnlocks(ids: set<nat>)
    | OtherDeletes(ids: set<nat>)
    | DrainOne
    | DrainDone
    | Read(batch: set<nat>)
    | FlushCommits
    | PassFails(leaseLost: bool)
    | Reacquired
    | Park
    | PollFires
    | Notified
    | SeesClosed
    | Cancelled

  predicate Enabled(s: State, step: Step) {
    match step
    case Produce(ids) => ids != {} && ids !! s.stored
    case Dispatch => s.inFlight > 0 && !s.chan.closed
    case Lose => s.inFlight > 0
    case ShutDown => !s.chan.closed
    case OtherLocks(ids) => ids <= s.stored - s.held && (s.phase.Flushing? ==> ids !! s.phase.batch)
    case OtherUnlocks(ids) => ids <= s.held
    case OtherDeletes(ids) => ids <= s.held
    case DrainOne => s.phase.Draining? && s.attached && s.chan.buffer != []
    case DrainDone => s.phase.Draining? && (s.attached ==> s.chan.buffer == [])
    case Read(batch) =>
      s.phase.Passing? && batch <= s.stored - s.held && (batch == {} ==> s.stored - s.held == {})
    case FlushCommits => s.phase.Flushing?
    case PassFails(_) => s.phase.Passing? || s.phase.Flushing?
    case Reacquired => s.phase.Failed? && s.phase.leaseLost
    case Park => s.phase.Emptied? || s.phase.Failed?
    case PollFires => s.phase.Parked? && s.timerArmed
    case Notified => s.phase.Parked? && s.attached && s.chan.buffer != []
    case SeesClosed => s.phase.Parked? && s.attached && s.chan.closed && s.chan.buffer == []
    case Cancelled => s.phase.Parked?
  }

  /** The outbox's notifications carry no payload. */
  const NO_PAYLOAD: PubSub.Payload := ""

  function Apply(s: State, step: Step): State
    requires Enabled(s, step)
  {
    match step
    case Produce(ids) => s.(stored := s.stored + ids, inFlight := s.inFlight + 1)
    case Dispatch => s.(inFlight := s.inFlight - 1, chan := PubSub.Offer(s.chan, NO_PAYLOAD))
    case Lose => s.(inFlight := s.inFlight - 1, lost := true)
    case ShutDown => s.(chan := s.chan.(closed := true), lost := true)
    case OtherLocks(ids) => s.(held := s.held + ids)
    case OtherUnlocks(ids) => s.(held := s.held - ids)
    case OtherDeletes(ids) => s.(held := s.held - ids, stored := s.stored - ids)
    case DrainOne => s.(chan := PubSub.Receive(s.chan))
    case DrainDone => s.(phase := Passing)
    case Read(batch) => if batch == {} then s.(phase := Emptied, skipped := s.held) else s.(phase := Flushing(batch))
    case FlushCommits => s.(stored := s.stored - s.phase.batch, phase := Passing)
    case PassFails(leaseLost) => s.(phase := Failed(leaseLost))
    case Reacquired => s.(phase := Draining)
    case Park => s.(phase := Parked(s.phase.Emptied?), timerArmed := true)
    case PollFires => s.(phase := Draining, timerArmed := false)
    case Notified => s.(phase := Draining, chan := PubSub.Receive(s.chan))
    case SeesClosed => s.(phase := Draining, attached := false)
    case Cancelled => s.(phase := Returned)
  }

  // ----- the invariant ---------------------------------------------------------------

  /** A wake-up is on its way or already in the buffer. */
  predicate WakePending(s: State) {
    s.inFlight > 0 || s.chan.buffer != []
  }

  /** After a pass that ended on an empty read, only rows that read skipped as locked
      can be waiting without a wake-up. */
  predicate Covered(s: State) {
    !s.lost && (s.phase.Emptied? || (s.phase.Parked? && s.phase.drained)) ==>
      s.stored <= s.skipped || WakePending(s)
  }

  predicate Inv(s: State) {
    && PubSub.ChanOk(s.chan) && s.held <= s.stored
    && (s.phase.Flushing? ==> s.phase.batch <= s.stored && s.phase.batch !! s.held)
    && (s.phase.Parked? ==> s.timerArmed)
    && (!s.lost ==> s.attached && !s.chan.closed)
    && Covered(s)
  }

  /** Sub has just returned: any messages and notifications may be about. */
  predicate Init(s: State, t: Topic) {
    s.chan == PubSub.Chan(t, [], false, [], []) && s.held <= s.stored && s.skipped == {}
    && s.attached && !s.lost && s.phase.Draining?
  }

  lemma StepKeepsInv(s: State, step: Step)
    requires Inv(s) && Enabled(s, step)
    ensures Inv(Apply(s, step))
  {
    match step {
      case Dispatch => PubSub.OfferContract(s.chan, NO_PAYLOAD);
      case DrainOne => PubSub.ReceiveContract(s.chan);
      case Notified => PubSub.ReceiveContract(s.chan);
      case Read(batch) => assert s.stored <= s.held + (s.stored - s.held);
      case _ =>
    }
  }

  ghost predicate IsRun(ss: seq<State>, steps: seq<Step>, t: Topic) {
    && |ss| == |steps| + 1 && Init(ss[0], t)
    && forall k | 0 <= k < |steps| :: Enabled(ss[k], steps[k]) && ss[k + 1] == Apply(ss[k], steps[k])
  }

  lemma {:induction false} RunKeepsInv(ss: seq<State>, steps: seq<Step>, k: nat, t: Topic)
    requires IsRun(ss, steps, t) && k < |ss|
    ensures Inv(ss[k])
  {
    if k > 0 {
      RunKeepsInv(ss, steps, k - 1, t);
      StepKeepsInv(ss[k - 1], steps[k - 1]);
    }
  }

  // ----- the theorems ------------------------------------------------------------------

  lemma {:induction false} NobodyElseHolds(ss: seq<State>, steps: seq<Step>, k: nat, t: Topic)
    requires IsRun(ss, steps, t) && k < |ss| && ss[0].held == {}
    requires forall d | 0 <= d < k :: !steps[d].OtherLocks?
    ensures ss[k].held == ss[k].skipped == {}
  {
    if k > 0 {
      NobodyElseHolds(ss, steps, k - 1, t);
    }
  }

  /** No lost wake-up: parked after a drained pass, as the topic's only consumer and
      with no notification lost, the loop never sleeps on a stored message unless a
      notification is in flight or buffered, even when a full buffer dropped some. */
  lemma NoLostWakeUp(ss: seq<State>, steps: seq<Step>, k: nat, t: Topic)
    requires IsRun(ss, steps, t) && k < |ss| && ss[0].held == {}
    requires forall d | 0 <= d < k :: !steps[d].OtherLocks?
    requires !ss[k].lost && ss[k].phase == Parked(true)
    ensures ss[k].stored != {} ==> WakePending(ss[k])
  {
    RunKeepsInv(ss, steps, k, t);
    NobodyElseHolds(ss, steps, k, t);
  }

  /** With other transactions locking rows, the same holds of every message the last
      empty read did not skip; and the poll timer is armed whenever the loop waits. */
  lemma OnlySkippedRowsWaitForThePoll(ss: seq<State>, steps: seq<Step>, k: nat, t: Topic, m: nat)
    requires IsRun(ss, steps, t) && k < |ss| && ss[k].phase.Parked?
    ensures ss[k].timerArmed
    ensures !ss[k].lost && ss[k].phase.drained && m in ss[k].stored && m !in ss[k].skipped ==> WakePending(ss[k])
  {
    RunKeepsInv(ss, steps, k, t);
  }

  /** A pending wake-up does reach the waiting loop: it can take it now, or after the
      listener's next dispatch. */
  lemma PendingWakeUpArrives(s: State)
    requires Inv(s) && !s.lost && s.phase.Parked? && WakePending(s)
    ensures Enabled(s, Notified) || (Enabled(s, Dispatch) && Enabled(Apply(s, Dispatch), Notified))
  {
    if s.chan.buffer == [] {
      PubSub.OfferContract(s.chan, NO_PAYLOAD);
    }
  }

  /** Why the exclusion of other lockers is needed: a row that a maintenance delete had
      locked during the empty read, and then released by rolling back, waits for the
      poll with no wake-up pending. */
  lemma RolledBackLockNeedsThePoll(t: Topic, m: nat)
    ensures exists ss: seq<State>, steps: seq<Step> ::
              && IsRun(ss, steps, t) && |steps| == 5 && !ss[5].lost && ss[5].phase == Parked(true)
              && ss[5].stored == {m} && ss[5].held == {} && !WakePending(ss[5])
  {
    var s0 := State({m}, {}, {}, 0, PubSub.Chan(t, [], false, [], []), true, false, true, Draining);
    var steps := [OtherLocks({m}), DrainDone, Read({}), Park, OtherUnlocks({m})];
    var s1 := Apply(s0, steps[0]);
    var s2 := Apply(s1, steps[1]);
    var s3 := Apply(s2, steps[2]);
    var s4 := Apply(s3, steps[3]);
    var ss := [s0, s1, s2, s3, s4, Apply(s4, steps[4])];
    assert IsRun(ss, steps, t);
  }

  // ----- what a wake-up leads to ------------------------------------------------------------

  /** Steps of the loop alone, one after the other. */
  ghost predicate LoopRuns(ss: seq<State>, steps: seq<Step>) {
    && |ss| == |steps| + 1
    && (forall k | 0 <= k < |steps| :: Enabled(ss[k], steps[k]) && ss[k + 1] == Apply(ss[k], steps[k]))
    && (forall k | 0 <= k < |steps| ::
          steps[k].DrainOne? || steps[k].DrainDone? || steps[k].Read? || steps[k].FlushCommits? || WakesUp(steps[k]))
  }

  /** What ends a wait, or a failed pass over a lost lease. */
  predicate WakesUp(step: Step) {
    step.PollFires? || step.Notified? || step.SeesClosed? || step.Reacquired?
  }

  lemma LoopGoesOn(s: State, step: Step, ss: seq<State>, steps: seq<Step>)
    requires Enabled(s, step) && LoopRuns(ss, steps) && ss[0] == Apply(s, step)
    requires step.DrainOne? || step.DrainDone? || step.Read? || step.FlushCommits? || WakesUp(step)
    ensures LoopRuns([s] + ss, [step] + steps)
  {
  }

  /** What one pass leaves: the rows others have locked. */
  predicate Flushed(s: State, s': State) {
    s'.phase.Emptied? && s'.stored == s.held && s'.held == s.held
  }

  lemma PassFlushes(s: State) returns (ss: seq<State>, steps: seq<Step>)
    requires s.phase.Passing? && s.held <= s.stored
    ensures LoopRuns(ss, steps) && ss[0] == s && Flushed(s, ss[|steps|])
  {
    var free := s.stored - s.held;
    assert s.stored - free == s.held;
    if free == {} {
      steps := [Read({})];
      ss := [s, Apply(s, Read({}))];
    } else {
      var s1 := Apply(s, Read(free));
      var s2 := Apply(s1, FlushCommits);
      steps := [Read(free), FlushCommits, Read({})];
      ss := [s, s1, s2, Apply(s2, Read({}))];
    }
  }

  lemma {:induction false} DrainingFlushes(s: State) returns (ss: seq<State>, steps: seq<Step>)
    requires s.phase.Draining? && s.held <= s.stored
    ensures LoopRuns(ss, steps) && ss[0] == s && Flushed(s, ss[|steps|])
    decreases |s.chan.buffer|
  {
    var step := if s.attached && s.chan.buffer != [] then DrainOne else DrainDone;
    var rest, restSteps;
    if step.DrainOne? {
      rest, restSteps := DrainingFlushes(Apply(s, step));
    } else {
      rest, restSteps := PassFlushes(Apply(s, step));
    }
    LoopGoesOn(s, step, rest, restSteps);
    ss, steps := [s] + rest, [step] + restSteps;
  }

  /** Whatever ends the wait, the poll timer, a notification, a closed channel or the lease
      regained, the loop by itself drains its buffer and passes over the topic, and can end
      the pass with every message flushed that nobody else has locked. */
  lemma WakeUpFlushes(s: State, wake: Step) returns (ss: seq<State>, steps: seq<Step>)
    requires Inv(s) && WakesUp(wake) && Enabled(s, wake)
    ensures LoopRuns(ss, steps) && ss[0] == s && |steps| > 0 && steps[0] == wake && Flushed(s, ss[|steps|])
  {
    var rest, restSteps := DrainingFlushes(Apply(s, wake));
    LoopGoesOn(s, wake, rest, restSteps);
    ss, steps := [s] + rest, [wake] + restSteps;
  }

  /** A closed channel is seen once: from then on the loop lives on its poll timer. */
  lemma {:induction false} ClosedChannelMeansPolling(ss: seq<State>, steps: seq<Step>, j: nat, k: nat, t: Topic)
    requires IsRun(ss, steps, t) && j < k < |ss| && steps[j] == SeesClosed
    ensures !ss[k].attached && (k < |steps| ==> !steps[k].SeesClosed? && !steps[k].Notified?)
  {
    assert ss[k] == Apply(ss[k - 1], steps[k - 1]);
    if j < k - 1 {
      ClosedChannelMeansPolling(ss, steps, j, k - 1, t);
    }
    if k < |steps| {
      assert Enabled(ss[k], steps[k]);
    }
  }

  /** Once its ctx has ended the loop does nothing any more. */
  lemma {:induction false} ReturnedIsFinal(ss: seq<State>, steps: seq<Step>, j: nat, k: nat, t: Topic)
    requires IsRun(ss, steps, t) && j < k < |ss| && steps[j] == Cancelled
    ensures ss[k].phase == Returned
    ensures k < |steps| ==> !WakesUp(steps[k]) && !steps[k].DrainOne? && !steps[k].Read? && !steps[k].FlushCommits?
  {
    assert ss[k] == Apply(ss[k - 1], steps[k - 1]);
    if j < k - 1 {
      ReturnedIsFinal(ss, steps, j, k - 1, t);
      assert Enabled(ss[k - 1], steps[k - 1]);
    }
    if k < |steps| {
      assert Enabled(ss[k], steps[k]);
    }
  }

  // ----- when a sleep can be too long -----------------------------------------------------

  /** What can happen from `s` on while the loop stays in the wait that follows a drained
      pass. */
  ghost predicate Waits(ss: seq<State>, steps: seq<Step>, s: State) {
    && |ss| == |steps| + 1 && ss[0] == s
    && (forall k | 0 <= k < |steps| :: Enabled(ss[k], steps[k]) && ss[k + 1] == Apply(ss[k], steps[k]))
    && (forall k | 0 <= k < |ss| :: ss[k].phase.Emptied? || ss[k].phase == Parked(true))
  }

  /** Parked on a message nobody else has locked, with no wake-up coming. */
  predicate Oversleeps(s: State) {
    s.phase.Parked? && !s.lost && s.stored - s.held != {} && !WakePending(s)
  }

  lemma {:induction false} WaitKeepsWakeUps(ss: seq<State>, steps: seq<Step>, s: State, k: nat)
    requires Waits(ss, steps, s) && k < |ss| && Inv(s)
    ensures Inv(ss[k]) && ss[k].skipped == s.skipped
    ensures !ss[k].lost && WakePending(s) ==> WakePending(ss[k])
  {
    if k > 0 {
      WaitKeepsWakeUps(ss, steps, s, k - 1);
      var step := steps[k - 1];
      assert Enabled(ss[k - 1], step) && ss[k] == Apply(ss[k - 1], step);
      assert !step.Notified? && !step.Read? by {
        assert ss[k].phase.Emptied? || ss[k].phase == Parked(true);
        assert ss[k - 1].phase.Emptied? || ss[k - 1].phase == Parked(true);
      }
      StepKeepsInv(ss[k - 1], step);
      if step.Dispatch? {
        PubSub.OfferContract(ss[k - 1].chan, NO_PAYLOAD);
      }
    }
  }

  /** Exactly when an empty read lets the loop sleep past a message it could take: there is
      a continuation of the wait that oversleeps if and only if the read skipped a locked
      row while no notification was on its way. */
  lemma OversleepsIffARowWasSkipped(s: State)
    requires Inv(s) && !s.lost && Enabled(s, Read({}))
    ensures (exists ss: seq<State>, steps: seq<Step> :: Waits(ss, steps, Apply(s, Read({}))) && Oversleeps(ss[|steps|]))
            <==> s.held != {} && !WakePending(s)
  {
    var empty := Apply(s, Read({}));
    StepKeepsInv(s, Read({}));
    if ss: seq<State>, steps: seq<Step> :| Waits(ss, steps, empty) && Oversleeps(ss[|steps|]) {
      WaitKeepsWakeUps(ss, steps, empty, |steps|);
      assert ss[|steps|].phase == Parked(true);
    }
    if s.held != {} && !WakePending(s) {
      var parked := Apply(empty, Park);
      var unlocked := Apply(parked, OtherUnlocks(s.held));
      var steps := [Park, OtherUnlocks(s.held)];
      var ss := [empty, parked, unlocked];
      assert Waits(ss, steps, empty);
      assert unlocked.held == {} && s.held <= unlocked.stored && Oversleeps(ss[|steps|]);
    }
  }

  // ----- drainNotifications -------------------------------------------------------------

  /** The receiving end of one subscription; `notifications` may be nil. */
  class Subscriber {
    var notifications: Option<PubSub.Chan>

    /** Empties the buffer without blocking; a nil channel is a no-op. */
    method DrainNotifications()
      modifies this
      ensures notifications.Some? == old(notifications).Some?
      ensures notifications.Some? ==>
                notifications.value.buffer == []
                && notifications.value.received == old(notifications).value.received + old(notifications).value.buffer
                && notifications.value.offered == old(notifications).value.offered
                && notifications.value.closed == old(notifications).value.closed
    {
      while notifications.Some? && notifications.value.buffer != []
        invariant notifications.Some? == old(notifications).Some?
        invariant notifications.Some? ==>
                    notifications.value.received + notifications.value.buffer
                      == old(notifications).value.received + old(notifications).value.buffer
                    && notifications.value.offered == old(notifications).value.offered
                    && notifications.value.closed == old(notifications).value.closed
        decreases if notifications.Some? then |notifications.value.buffer| else 0
      {
        ghost var c := notifications.value;
        notifications := Some(PubSub.Receive(notifications.value));
        assert c.received + [c.buffer[0]] + c.buffer[1..] == c.received + c.buffer;
      }
    }
  }
}
