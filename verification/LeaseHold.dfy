/** One instance's hold on one topic: its AcquireTopic and ReleaseTopic calls, its
    watcher goroutines, and the shared tables with everything every other instance
    and topic does to them.

    Assumed, as the code does: the instance's Acquire and Release calls for the topic
    do not overlap, and a statement or commit that reports an error did not happen. */
module LeaseHold {
  import opened Tables
  import E = ExclusiveLease
  import W = LeaseWatcher

  /** Which call is inside the watcher's Stop, and so what follows it. */
  datatype Next = ToTry | ToRelease | ToInstall

  /** Where the instance's one Acquire/Release call for the topic stands.  `stopped`
      is Stop's answer: the call took the watcher's expiry duty over. */
  datatype Call =
    | Idle
    | Cancelling(next: Next, h: nat)
    | Awaiting(next: Next, h: nat)
    | Trying(stopped: bool)
    | InTx(stopped: bool, x: E.TxId)
    | Acquired
    | Installing
    | Releasing(stopped: bool)
    | Owing

  /** `graceFailed` records that an expiry write failed since the last acquisition. */
  datatype Hold = Hold(db: E.Db, call: Call, watch: W.Watch, graceFailed: bool)

  datatype Step =
    /** Any statement or commit in the database that is not this hold's own. */
    | Other(step: E.Step)
    | BeginAcquire
    | BeginRelease
    | CancelOld
    | StopReturns
    | TryLock(x: E.TxId, now: Time)
    | TryCommit(session: Session)
    | TryFails
    | StartStops
    | Install
    | ReleaseWrites(expiresAt: Time)
    | ReleaseFails
    | OweWrites(expiresAt: Time)
    | OweFails
    | CtxEnds(h: nat)
    | Goroutine(h: nat)
    | GraceWrites(h: nat, expiresAt: Time)
    | GraceFails(h: nat)

  predicate AcquiringHere(tx: E.Tx, me: Instance, t: Topic) {
    tx.Acquiring? && tx.who == me && tx.topic == t
  }

  /** The database steps that only this hold's own calls and watchers take. */
  predicate Mine(db: E.Db, step: E.Step, me: Instance, t: Topic) {
    match step
    case AcquireLock(_, i, u, _) => i == me && u == t
    case AcquireCommit(x, _) => x in db.txs && AcquiringHere(db.txs[x], me, t)
    case Abort(x) => x in db.txs && AcquiringHere(db.txs[x], me, t)
    case SetExpiry(i, u, _) => i == me && u == t
    case _ => false
  }

  function AfterStop(next: Next, stopped: bool): Call {
    match next
    case ToTry => Trying(stopped)
    case ToRelease => Releasing(stopped)
    case ToInstall => Installing
  }

  /** LoadAndDelete: either nothing is running, or its handle is now ours to cancel. */
  function EnterStop(s: Hold, next: Next): Hold {
    s.(call := if s.watch.running.None? then AfterStop(next, false) else Cancelling(next, s.watch.running.value),
       watch := W.Unmap(s.watch))
  }

  /** What a failing call does next: it owes the expiry exactly if it stopped a watcher. */
  function FailedCall(stopped: bool): Call {
    if stopped then Owing else Idle
  }

  predicate Firing(s: Hold, h: nat) {
    h < |s.watch.handles| && s.watch.handles[h].phase == W.Firing
  }

  predicate Enabled(s: Hold, step: Step, me: Instance, t: Topic) {
    match step
    case Other(db) => E.Enabled(s.db, db) && !Mine(s.db, db, me, t)
    case BeginAcquire => s.call.Idle?
    case BeginRelease => s.call.Idle?
    case CancelOld => s.call.Cancelling? && s.call.h < |s.watch.handles|
    case StopReturns => s.call.Awaiting? && s.call.h < |s.watch.handles| && s.watch.handles[s.call.h].phase == W.Done
    case TryLock(x, now) => s.call.Trying? && E.Enabled(s.db, E.AcquireLock(x, me, t, now))
    case TryCommit(session) => s.call.InTx? && E.Enabled(s.db, E.AcquireCommit(s.call.x, session))
    case TryFails => s.call.Trying? || (s.call.InTx? && E.Enabled(s.db, E.Abort(s.call.x)))
    case StartStops => s.call.Acquired?
    case Install => s.call.Installing?
    case ReleaseWrites(e) => s.call.Releasing? && E.Enabled(s.db, E.SetExpiry(me, t, e))
    case ReleaseFails => s.call.Releasing?
    case OweWrites(e) => s.call.Owing? && E.Enabled(s.db, E.SetExpiry(me, t, e))
    case OweFails => s.call.Owing?
    case CtxEnds(h) => h < |s.watch.handles|
    case Goroutine(h) => W.CanRun(s.watch, h) && !Firing(s, h)
    case GraceWrites(h, e) => Firing(s, h) && E.Enabled(s.db, E.SetExpiry(me, t, e))
    case GraceFails(h) => Firing(s, h)
  }

  function Apply(s: Hold, step: Step, me: Instance, t: Topic): Hold
    requires Enabled(s, step, me, t)
  {
    match step
    case Other(db) => s.(db := E.Apply(s.db, db))
    case BeginAcquire => EnterStop(s, ToTry)
    case BeginRelease => EnterStop(s, ToRelease)
    case CancelOld => s.(call := Awaiting(s.call.next, s.call.h), watch := W.Cancel(s.watch, s.call.h, W.Stopped))
    case StopReturns => s.(call := AfterStop(s.call.next, true))
    case TryLock(x, now) => s.(call := InTx(s.call.stopped, x), db := E.Apply(s.db, E.AcquireLock(x, me, t, now)))
    case TryCommit(session) =>
      s.(call := Acquired, db := E.Apply(s.db, E.AcquireCommit(s.call.x, session)), graceFailed := false)
    case TryFails =>
      s.(call := FailedCall(s.call.stopped), db := if s.call.InTx? then E.Apply(s.db, E.Abort(s.call.x)) else s.db)
    case StartStops => EnterStop(s, ToInstall)
    case Install => s.(call := Idle, watch := W.Store(s.watch))
    case ReleaseWrites(e) => s.(call := Idle, db := E.Apply(s.db, E.SetExpiry(me, t, e)))
    case ReleaseFails => s.(call := FailedCall(s.call.stopped))
    case OweWrites(e) => s.(call := Idle, db := E.Apply(s.db, E.SetExpiry(me, t, e)))
    case OweFails => s.(call := Idle, graceFailed := true)
    case CtxEnds(h) => s.(watch := W.Cancel(s.watch, h, W.CtxEnded))
    case Goroutine(h) => s.(watch := W.Run(s.watch, h))
    case GraceWrites(h, e) => s.(watch := W.Run(s.watch, h), db := E.Apply(s.db, E.SetExpiry(me, t, e)))
    case GraceFails(h) => s.(watch := W.Run(s.watch, h), graceFailed := true)
  }

  // ----- the invariant -----------------------------------------------------------

  /** The call still owes an expiry write or a new watcher. */
  predicate CallOwes(call: Call) {
    match call
    case Idle => false
    case Trying(stopped) => stopped
    case InTx(stopped, _) => stopped
    case Releasing(stopped) => stopped
    case _ => true
  }

  /** A registered watcher is waiting for its context or already writing the expiry. */
  predicate WatcherOwes(w: W.Watch) {
    w.running.Some? && w.running.value < |w.handles| && w.handles[w.running.value].phase in {W.Waiting, W.Firing}
  }

  /** No stranded lease: an open-ended hold always has somebody who will end it, unless
      an expiry write has failed. */
  predicate NotStranded(s: Hold, me: Instance, t: Topic) {
    E.OpenEnded(s.db.rows, me, t) ==> WatcherOwes(s.watch) || CallOwes(s.call) || s.graceFailed
  }

  /** The only open acquisition of this hold is the one its call is in. */
  predicate TxMatches(s: Hold, me: Instance, t: Topic) {
    && (forall x | x in s.db.txs && AcquiringHere(s.db.txs[x], me, t) :: s.call.InTx? && s.call.x == x)
    && (s.call.InTx? ==> s.call.x in s.db.txs && AcquiringHere(s.db.txs[s.call.x], me, t))
  }

  /** Only one goroutine can still act: the registered one, or the one being stopped. */
  predicate OneActor(s: Hold) {
    && (forall h | 0 <= h < |s.watch.handles| && s.watch.handles[h].phase in {W.Waiting, W.Firing, W.Cleaning} ::
          s.watch.running == Some(h) || ((s.call.Cancelling? || s.call.Awaiting?) && s.call.h == h))
    && (!s.call.Idle? ==> s.watch.running.None?)
    && (s.watch.running.Some? ==>
          s.watch.running.value < |s.watch.handles|
          && s.watch.handles[s.watch.running.value].cause != Some(W.Stopped))
    && ((s.call.Cancelling? || s.call.Awaiting?) ==> s.call.h < |s.watch.handles| && s.call.next != ToInstall)
  }

  predicate Inv(s: Hold, me: Instance, t: Topic) {
    && E.Inv(s.db) && W.Inv(s.watch)
    && TxMatches(s, me, t) && OneActor(s) && NotStranded(s, me, t)
  }

  /** A new instance: its id appears in no row, and any tables may be there already. */
  predicate Init(s: Hold, me: Instance, t: Topic) {
    && E.Quiet(s.db) && s.call == Idle && s.watch == W.EMPTY && !s.graceFailed
    && E.RowOf(s.db.rows, t).holder != Some(me)
  }

  // ----- every step keeps it -----------------------------------------------------

  /** What the rest of the world can do to the row: nobody else makes it open-ended
      for this instance, and nobody but an acquirer stops it from being so. */
  lemma OthersAndTheRow(db: E.Db, step: E.Step, me: Instance, t: Topic)
    requires E.Enabled(db, step) && !Mine(db, step, me, t)
    ensures E.OpenEnded(E.Apply(db, step).rows, me, t) ==> E.OpenEnded(db.rows, me, t)
    ensures E.OpenEnded(db.rows, me, t) && !E.OpenEnded(E.Apply(db, step).rows, me, t) ==>
              exists j :: j != me && E.Acquires(db, step, j, t)
  {
    if E.OpenEnded(db.rows, me, t) && !E.OpenEnded(E.Apply(db, step).rows, me, t) {
      assert E.Acquires(db, step, db.txs[step.x].who, t);
    }
  }

  /** An expiry write by this instance leaves no open-ended row. */
  lemma ExpiryEndsTheHold(db: E.Db, me: Instance, t: Topic, expiresAt: Time)
    requires E.Enabled(db, E.SetExpiry(me, t, expiresAt))
    ensures !E.OpenEnded(E.Apply(db, E.SetExpiry(me, t, expiresAt)).rows, me, t)
    ensures E.Apply(db, E.SetExpiry(me, t, expiresAt)).txs == db.txs
  {
  }

  lemma StepKeepsParts(s: Hold, step: Step, me: Instance, t: Topic)
    requires Inv(s, me, t) && Enabled(s, step, me, t)
    ensures E.Inv(Apply(s, step, me, t).db) && W.Inv(Apply(s, step, me, t).watch)
  {
    match step {
      case Other(db) => E.StepKeepsInv(s.db, db);
      case TryLock(x, now) => E.StepKeepsInv(s.db, E.AcquireLock(x, me, t, now));
      case TryCommit(session) => E.StepKeepsInv(s.db, E.AcquireCommit(s.call.x, session));
      case TryFails => if s.call.InTx? { E.StepKeepsInv(s.db, E.Abort(s.call.x)); }
      case ReleaseWrites(e) => E.StepKeepsInv(s.db, E.SetExpiry(me, t, e));
      case OweWrites(e) => E.StepKeepsInv(s.db, E.SetExpiry(me, t, e));
      case CancelOld => W.StepKeepsInv(s.watch, W.CancelStep(s.call.h, W.Stopped));
      case CtxEnds(h) => W.StepKeepsInv(s.watch, W.CancelStep(h, W.CtxEnded));
      case Goroutine(h) => W.StepKeepsInv(s.watch, W.RunStep(h));
      case GraceWrites(h, e) => W.StepKeepsInv(s.watch, W.RunStep(h)); E.StepKeepsInv(s.db, E.SetExpiry(me, t, e));
      case GraceFails(h) => W.StepKeepsInv(s.watch, W.RunStep(h));
      case _ =>
        W.StepKeepsInv(s.watch, W.UnmapStep);
        W.StepKeepsInv(s.watch, W.StoreStep);
    }
  }

  lemma OthersAndTheTx(db: E.Db, step: E.Step, me: Instance, t: Topic, x: E.TxId)
    requires E.Enabled(db, step) && !Mine(db, step, me, t)
    ensures (x in db.txs && AcquiringHere(db.txs[x], me, t))
            == (x in E.Apply(db, step).txs && AcquiringHere(E.Apply(db, step).txs[x], me, t))
  {
  }

  lemma StepKeepsTx(s: Hold, step: Step, me: Instance, t: Topic)
    requires TxMatches(s, me, t) && Enabled(s, step, me, t)
    ensures TxMatches(Apply(s, step, me, t), me, t)
  {
    match step {
      case Other(db) =>
        forall x { OthersAndTheTx(s.db, db, me, t, x); }
      case _ =>
    }
  }

  lemma StepKeepsOneActor(s: Hold, step: Step, me: Instance, t: Topic)
    requires W.Inv(s.watch) && OneActor(s) && Enabled(s, step, me, t)
    ensures OneActor(Apply(s, step, me, t))
  {
  }

  lemma StepKeepsNotStranded(s: Hold, step: Step, me: Instance, t: Topic)
    requires Inv(s, me, t) && Enabled(s, step, me, t)
    ensures NotStranded(Apply(s, step, me, t), me, t)
  {
    match step {
      case Other(db) => OthersAndTheRow(s.db, db, me, t);
      case ReleaseWrites(e) => ExpiryEndsTheHold(s.db, me, t, e);
      case OweWrites(e) => ExpiryEndsTheHold(s.db, me, t, e);
      case GraceWrites(_, e) => ExpiryEndsTheHold(s.db, me, t, e);
      case _ =>
    }
  }

  /** The excuse of a failed expiry write is taken only when one did fail, and an acquisition
      ends it. */
  lemma FailuresAreReal(s: Hold, step: Step, me: Instance, t: Topic)
    requires Enabled(s, step, me, t)
    ensures Apply(s, step, me, t).graceFailed
            <==> step.OweFails? || step.GraceFails? || (s.graceFailed && !step.TryCommit?)
  {
  }

  lemma StepKeepsInv(s: Hold, step: Step, me: Instance, t: Topic)
    requires Inv(s, me, t) && Enabled(s, step, me, t)
    ensures Inv(Apply(s, step, me, t), me, t)
  {
    StepKeepsParts(s, step, me, t);
    StepKeepsTx(s, step, me, t);
    StepKeepsOneActor(s, step, me, t);
    StepKeepsNotStranded(s, step, me, t);
  }

  ghost predicate IsRun(ss: seq<Hold>, steps: seq<Step>, me: Instance, t: Topic) {
    && |ss| == |steps| + 1 && Init(ss[0], me, t)
    && forall k | 0 <= k < |steps| :: Enabled(ss[k], steps[k], me, t) && ss[k + 1] == Apply(ss[k], steps[k], me, t)
  }

  /** In every reachable state, through every error and cancel path, an open-ended row
      naming this instance has a watcher waiting or firing, or a call that owes an
      expiry or a watcher, or a failed expiry write to explain it. */
  lemma {:induction false} NoStrandedLease(ss: seq<Hold>, steps: seq<Step>, k: nat, me: Instance, t: Topic)
    requires IsRun(ss, steps, me, t) && k < |ss|
    ensures Inv(ss[k], me, t)
    ensures E.OpenEnded(ss[k].db.rows, me, t) ==> WatcherOwes(ss[k].watch) || CallOwes(ss[k].call) || ss[k].graceFailed
  {
    if k > 0 {
      NoStrandedLease(ss, steps, k - 1, me, t);
      StepKeepsInv(ss[k - 1], steps[k - 1], me, t);
    }
  }

  // ----- AcquireTopic has the last word --------------------------------------------

  /** The call has acquired and is installing, or has returned nil and its watcher is
      waiting on a live context. */
  predicate Standing(s: Hold) {
    || s.call.Acquired? || s.call.Installing?
    || (s.call.Idle? && s.watch.running.Some? && s.watch.running.value < |s.watch.handles|
        && s.watch.handles[s.watch.running.value] == W.Handle(None, W.Waiting, 0))
  }

  /** The events that may end a standing hold from this side: the context of the
      registered watcher ends, or the instance makes another call. */
  predicate EndsHold(s: Hold, step: Step) {
    || step.BeginAcquire? || step.BeginRelease?
    || (step.CtxEnds? && s.watch.running == Some(step.h))
  }

  /** The step hands the topic to some other instance. */
  ghost predicate TakenOver(s: Hold, step: Step, me: Instance, t: Topic) {
    step.Other? && exists j :: j != me && E.Acquires(s.db, step.step, j, t)
  }

  lemma StandingStep(s: Hold, step: Step, me: Instance, t: Topic)
    requires Inv(s, me, t) && Enabled(s, step, me, t)
    requires Standing(s) && E.OpenEnded(s.db.rows, me, t)
    requires !EndsHold(s, step) && !TakenOver(s, step, me, t)
    ensures Standing(Apply(s, step, me, t)) && E.OpenEnded(Apply(s, step, me, t).db.rows, me, t)
  {
    if step.Other? {
      OthersAndTheRow(s.db, step.step, me, t);
    }
  }

  /** From the commit of an acquisition on, no expiry write of an earlier watcher
      lands: the override stays NULL and the row stays this instance's until its
      context ends, it calls again, or another instance takes over. */
  lemma {:induction false} AcquireHasTheLastWord(ss: seq<Hold>, steps: seq<Step>, c: nat, k: nat, me: Instance,
                                                 t: Topic)
    requires IsRun(ss, steps, me, t) && c < k < |ss| && steps[c].TryCommit?
    requires forall d | c < d < k :: !EndsHold(ss[d], steps[d]) && !TakenOver(ss[d], steps[d], me, t)
    ensures Standing(ss[k]) && E.OpenEnded(ss[k].db.rows, me, t)
  {
    var d := k - 1;
    NoStrandedLease(ss, steps, d, me, t);
    if c < d {
      AcquireHasTheLastWord(ss, steps, c, d, me, t);
      StandingStep(ss[d], steps[d], me, t);
    }
  }

  /** At most one goroutine of the topic is ever waiting, firing or cleaning up. */
  lemma OneWatcherAtATime(ss: seq<Hold>, steps: seq<Step>, k: nat, me: Instance, t: Topic, g: nat, h: nat)
    requires IsRun(ss, steps, me, t) && k < |ss|
    requires g < |ss[k].watch.handles| && h < |ss[k].watch.handles|
    requires ss[k].watch.handles[g].phase in {W.Waiting, W.Firing, W.Cleaning}
    requires ss[k].watch.handles[h].phase in {W.Waiting, W.Firing, W.Cleaning}
    ensures g == h
  {
    NoStrandedLease(ss, steps, k, me, t);
  }

  /** Once Stop has returned, and until the call installs a new watcher, no goroutine
      of the topic is waiting or running onCancel. */
  lemma NoneRunsAfterStop(ss: seq<Hold>, steps: seq<Step>, k: nat, me: Instance, t: Topic, h: nat)
    requires IsRun(ss, steps, me, t) && k < |ss| && h < |ss[k].watch.handles|
    requires !ss[k].call.Idle? && !ss[k].call.Cancelling? && !ss[k].call.Awaiting?
    ensures ss[k].watch.running.None? && ss[k].watch.handles[h].phase in {W.Cleaned, W.Done}
  {
    NoStrandedLease(ss, steps, k, me, t);
  }

  // ----- what a call owes ----------------------------------------------------------------

  predicate Begins(step: Step) {
    step.BeginAcquire? || step.BeginRelease?
  }

  /** The call has taken over a watcher's expiry duty, or is about to. */
  predicate TookOver(call: Call) {
    match call
    case Cancelling(_, _) => true
    case Awaiting(_, _) => true
    case Trying(stopped) => stopped
    case InTx(stopped, _) => stopped
    case Releasing(stopped) => stopped
    case Owing => true
    case _ => false
  }

  lemma TookOverStep(s: Hold, step: Step, me: Instance, t: Topic)
    requires Enabled(s, step, me, t) && (s.call == Acquired ==> s.watch.running.None?)
    ensures if Begins(step) then TookOver(Apply(s, step, me, t).call) <==> s.watch.running.Some?
            else TookOver(Apply(s, step, me, t).call) ==> TookOver(s.call)
  {
  }

  /** A call writes an expiry in a watcher's place only if it found one when it began: Stop's
      answer is true.  `j` is the step at which the call began. */
  lemma {:induction false} OwesOnlyWhatItStopped(ss: seq<Hold>, steps: seq<Step>, k: nat, me: Instance, t: Topic)
    returns (j: nat)
    requires IsRun(ss, steps, me, t) && k < |ss| && TookOver(ss[k].call)
    ensures j < k && Begins(steps[j]) && ss[j].watch.running.Some?
    ensures forall m | j < m < k :: !Begins(steps[m])
  {
    var c := k - 1;
    NoStrandedLease(ss, steps, c, me, t);
    assert Enabled(ss[c], steps[c], me, t) && ss[k] == Apply(ss[c], steps[c], me, t);
    TookOverStep(ss[c], steps[c], me, t);
    if Begins(steps[c]) {
      j := c;
    } else {
      j := OwesOnlyWhatItStopped(ss, steps, c, me, t);
    }
  }

  // ----- the end of a hold ---------------------------------------------------------------

  /** Ending the AcquireTopic context ends the hold: the registered watcher wakes, fires and,
      once the row lock is free, writes the grace-period expiry; unless another instance has
      taken over, the row then lapses by itself at that time. */
  lemma CtxEndExpiresTheHold(s: Hold, h: nat, e: Time, me: Instance, t: Topic)
    requires Inv(s, me, t) && s.watch.running == Some(h) && t !in s.db.locks
    requires s.watch.handles[h].phase == W.Waiting && s.watch.handles[h].cause.None?
    ensures var s1 := Apply(s, CtxEnds(h), me, t);
            && Enabled(s1, Goroutine(h), me, t)
            && var s2 := Apply(s1, Goroutine(h), me, t);
               && Enabled(s2, GraceWrites(h, e), me, t)
               && var s3 := Apply(s2, GraceWrites(h, e), me, t);
                  && s3.call == s.call && s3.watch.handles[h].fired == 1
                  && E.RowOf(s3.db.rows, t) == if E.HeldBy(s.db, t, me) then TopicRow(Some(me), Some(e))
                                               else E.RowOf(s.db.rows, t)
  {
    assert W.FiresAsPromised(s.watch.handles[h]);
  }

  // ----- no call gets stuck ---------------------------------------------------------

  lemma {:induction false} AwaitedIsCancelled(ss: seq<Hold>, steps: seq<Step>, k: nat, me: Instance, t: Topic)
    requires IsRun(ss, steps, me, t) && k < |ss| && ss[k].call.Awaiting?
    ensures ss[k].call.h < |ss[k].watch.handles| && ss[k].watch.handles[ss[k].call.h].cause.Some?
  {
    var c := k - 1;
    assert Enabled(ss[c], steps[c], me, t) && ss[k] == Apply(ss[c], steps[c], me, t);
    if ss[c].call.Awaiting? {
      AwaitedIsCancelled(ss, steps, c, me, t);
    }
  }

  /** The call has a next step: an attempt or a failed write always has its error return, a
      write or a commit that would succeed waits for the row lock at most, and a call inside
      Stop waits for a goroutine that can run. */
  ghost predicate CanGoOn(s: Hold, me: Instance, t: Topic) {
    match s.call
    case Idle => Enabled(s, BeginAcquire, me, t) && Enabled(s, BeginRelease, me, t)
    case Cancelling(_, _) => Enabled(s, CancelOld, me, t)
    case Awaiting(_, h) =>
      Enabled(s, StopReturns, me, t) || Enabled(s, Goroutine(h), me, t) || Enabled(s, GraceFails(h), me, t)
    case Trying(_) => Enabled(s, TryFails, me, t)
    case InTx(_, _) => Enabled(s, TryFails, me, t) && forall session :: Enabled(s, TryCommit(session), me, t)
    case Acquired => Enabled(s, StartStops, me, t)
    case Installing => Enabled(s, Install, me, t)
    case Releasing(_) =>
      Enabled(s, ReleaseFails, me, t) && (t !in s.db.locks ==> forall e :: Enabled(s, ReleaseWrites(e), me, t))
    case Owing => Enabled(s, OweFails, me, t) && (t !in s.db.locks ==> forall e :: Enabled(s, OweWrites(e), me, t))
  }

  lemma AwaitedCanRun(s: Hold, me: Instance, t: Topic)
    requires s.call.Awaiting? && s.call.h < |s.watch.handles| && s.watch.handles[s.call.h].cause.Some?
    ensures CanGoOn(s, me, t)
  {
  }

  lemma OpenTxCanGoOn(s: Hold, me: Instance, t: Topic)
    requires s.call.InTx? && TxMatches(s, me, t)
    ensures CanGoOn(s, me, t)
  {
  }

  lemma WritingCanGoOn(s: Hold, me: Instance, t: Topic)
    requires s.call.Releasing? || s.call.Owing?
    ensures CanGoOn(s, me, t)
  {
  }

  lemma OthersCanGoOn(s: Hold, me: Instance, t: Topic)
    requires !s.call.Awaiting? && !s.call.InTx? && !s.call.Releasing? && !s.call.Owing?
    requires s.call.Cancelling? ==> s.call.h < |s.watch.handles|
    ensures CanGoOn(s, me, t)
  {
  }

  /** In every reachable state the call can go on. */
  lemma CallsGetThrough(ss: seq<Hold>, steps: seq<Step>, k: nat, me: Instance, t: Topic)
    requires IsRun(ss, steps, me, t) && k < |ss|
    ensures CanGoOn(ss[k], me, t)
  {
    NoStrandedLease(ss, steps, k, me, t);
    if ss[k].call.Awaiting? {
      AwaitedIsCancelled(ss, steps, k, me, t);
      AwaitedCanRun(ss[k], me, t);
    } else if ss[k].call.InTx? {
      OpenTxCanGoOn(ss[k], me, t);
    } else if ss[k].call.Releasing? || ss[k].call.Owing? {
      WritingCanGoOn(ss[k], me, t);
    } else {
      OthersCanGoOn(ss[k], me, t);
    }
  }
}
