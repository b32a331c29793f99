/** Exclusive-consumer leases at the database: topic rows, sessions, row locks and
    the transactions of any number of instances, interleaved statement by statement.

    Every reading of a clock is a parameter of its step, so instances may disagree
    about the time arbitrarily; only the continuity theorem assumes a shared clock. */
module ExclusiveLease {
  import opened Tables

  type TxId = nat

  datatype Tx =
    /** tryAcquireTopicLease between its locking read and its commit, with what it read. */
    | Acquiring(who: Instance, topic: Topic, read: TopicRow, expiry: Option<Time>, at: Time)
    /** ProcessMessages past its access check; `flushed` once Flush has returned nil. */
    | Processing(who: Instance, topic: Topic, sawRow: bool, flushed: bool)
    /** A producer's trigger or ensureTopicRow: locks or registers the row without
        touching its lease columns. */
    | Bystander(topic: Topic)

  datatype Db = Db(rows: map<Topic, TopicRow>, sessions: Sessions, locks: map<Topic, TxId>, txs: map<TxId, Tx>)

  datatype Step =
    | AcquireLock(x: TxId, i: Instance, t: Topic, now: Time)
    | AcquireCommit(x: TxId, session: Session)
    | Check(x: TxId, i: Instance, t: Topic, now: Time)
    | Flush(x: TxId)
    | Commit(x: TxId)
    | BystanderLock(x: TxId, t: Topic)
    | BystanderCommit(x: TxId)
    | Abort(x: TxId)
    | SetExpiry(i: Instance, t: Topic, expiresAt: Time)
    | Heartbeat(i: Instance, session: Session)
    | SweepSessions(cutoff: Time)

  function RowOf(rows: map<Topic, TopicRow>, t: Topic): TopicRow {
    if t in rows then rows[t] else TopicRow(None, None)
  }

  /** The row names the instance and defers to its session: nothing in the row will ever
      end the hold by itself. */
  predicate OpenEnded(rows: map<Topic, TopicRow>, i: Instance, t: Topic) {
    RowOf(rows, t) == TopicRow(Some(i), None)
  }

  predicate HeldBy(s: Db, t: Topic, i: Instance) {
    RowOf(s.rows, t).holder == Some(i)
  }

  /** A transaction owns its topic's row lock unless it is a ProcessMessages whose
      check found no row to lock. */
  predicate OwnsLock(tx: Tx) {
    tx.Processing? ==> tx.sawRow
  }

  predicate Enabled(s: Db, step: Step) {
    match step
    case AcquireLock(x, i, t, now) =>
      x !in s.txs && t !in s.locks
      && !AcquireRefused(RowOf(s.rows, t), LeaseExpiry(RowOf(s.rows, t), s.sessions), i, now)
    case AcquireCommit(x, _) => x in s.txs && s.txs[x].Acquiring?
    case Check(x, i, t, now) =>
      x !in s.txs && (t in s.rows ==> t !in s.locks && Verdict(s.rows[t], s.sessions, i, now) == Granted)
    case Flush(x) => x in s.txs && s.txs[x].Processing? && !s.txs[x].flushed
    case Commit(x) => x in s.txs && s.txs[x].Processing?
    case BystanderLock(x, t) => x !in s.txs && t !in s.locks
    case BystanderCommit(x) => x in s.txs && s.txs[x].Bystander?
    case Abort(x) => x in s.txs
    case SetExpiry(i, t, _) => HeldBy(s, t, i) ==> t !in s.locks
    case Heartbeat(_, _) => true
    case SweepSessions(_) => true
  }

  /** End transaction `x`, releasing the row lock if it owns one. */
  function End(s: Db, x: TxId): Db
    requires x in s.txs
  {
    s.(txs := s.txs - {x}, locks := if OwnsLock(s.txs[x]) then s.locks - {s.txs[x].topic} else s.locks)
  }

  function Apply(s: Db, step: Step): Db
    requires Enabled(s, step)
  {
    match step
    case AcquireLock(x, i, t, now) =>
      var row := RowOf(s.rows, t);
      s.(locks := s.locks[t := x], txs := s.txs[x := Acquiring(i, t, row, LeaseExpiry(row, s.sessions), now)])
    case AcquireCommit(x, session) =>
      var tx := s.txs[x];
      End(s, x).(rows := s.rows[tx.topic := TopicRow(Some(tx.who), None)],
                 sessions := s.sessions[tx.who := session])
    case Check(x, i, t, now) =>
      s.(txs := s.txs[x := Processing(i, t, t in s.rows, false)],
         locks := if t in s.rows then s.locks[t := x] else s.locks)
    case Flush(x) => s.(txs := s.txs[x := s.txs[x].(flushed := true)])
    case Commit(x) => End(s, x)
    case BystanderLock(x, t) => s.(locks := s.locks[t := x], txs := s.txs[x := Bystander(t)])
    case BystanderCommit(x) =>
      var t := s.txs[x].topic;
      End(s, x).(rows := s.rows[t := RowOf(s.rows, t)])
    case Abort(x) => End(s, x)
    case SetExpiry(i, t, expiresAt) =>
      if HeldBy(s, t, i) then s.(rows := s.rows[t := s.rows[t].(override := Some(expiresAt))]) else s
    case Heartbeat(i, session) => s.(sessions := s.sessions[i := session])
    case SweepSessions(cutoff) => s.(sessions := Sweep(s.sessions, cutoff))
  }

  // ----- the invariant ---------------------------------------------------------

  /** Row locks and lock-owning transactions match one to one. */
  predicate LocksMatch(s: Db) {
    && (forall t | t in s.locks :: s.locks[t] in s.txs && OwnsLock(s.txs[s.locks[t]]) && s.txs[s.locks[t]].topic == t)
    && (forall x | x in s.txs && OwnsLock(s.txs[x]) :: s.txs[x].topic in s.locks && s.locks[s.txs[x].topic] == x)
  }

  /** Whatever a transaction checked when it took the lock still holds. */
  predicate StillTrue(s: Db, tx: Tx) {
    match tx
    case Acquiring(who, t, read, expiry, at) =>
      read == RowOf(s.rows, t) && !AcquireRefused(read, expiry, who, at)
    case Processing(who, t, sawRow, _) =>
      sawRow ==> t in s.rows && (s.rows[t].holder.None? || s.rows[t].holder == Some(who))
    case Bystander(_) => true
  }

  predicate Inv(s: Db) {
    LocksMatch(s) && forall x | x in s.txs :: StillTrue(s, s.txs[x])
  }

  /** Any tables at all, with no transaction open. */
  predicate Quiet(s: Db) {
    s.locks == map[] && s.txs == map[]
  }

  lemma StepKeepsLocks(s: Db, step: Step)
    requires LocksMatch(s) && Enabled(s, step)
    ensures LocksMatch(Apply(s, step))
  {
    var s' := Apply(s, step);
    forall t | t in s'.locks
      ensures s'.locks[t] in s'.txs && OwnsLock(s'.txs[s'.locks[t]]) && s'.txs[s'.locks[t]].topic == t
    {
    }
  }

  /** A step changes the lease columns of `t` only if it owns the row lock or finds it free. */
  lemma LockedRowIsFrozen(s: Db, step: Step, t: Topic)
    requires LocksMatch(s) && Enabled(s, step) && t in s.locks
    requires s.locks[t] in Apply(s, step).txs
    ensures RowOf(Apply(s, step).rows, t) == RowOf(s.rows, t)
    ensures t in s.rows ==> t in Apply(s, step).rows
  {
  }

  lemma StepKeepsInv(s: Db, step: Step)
    requires Inv(s) && Enabled(s, step)
    ensures Inv(Apply(s, step))
  {
    StepKeepsLocks(s, step);
    var s' := Apply(s, step);
    forall x | x in s'.txs
      ensures StillTrue(s', s'.txs[x])
    {
      if x in s.txs && OwnsLock(s.txs[x]) {
        LockedRowIsFrozen(s, step, s.txs[x].topic);
      }
    }
  }

  // ----- runs ------------------------------------------------------------------

  /** `ss` is the sequence of states the steps pass through, starting anywhere quiet. */
  ghost predicate IsRun(ss: seq<Db>, steps: seq<Step>) {
    && |ss| == |steps| + 1
    && Quiet(ss[0])
    && (forall k | 0 <= k < |steps| :: Enabled(ss[k], steps[k]) && ss[k + 1] == Apply(ss[k], steps[k]))
  }

  lemma {:induction false} RunKeepsInv(ss: seq<Db>, steps: seq<Step>, k: nat)
    requires IsRun(ss, steps) && k < |ss|
    ensures Inv(ss[k])
  {
    if k > 0 {
      RunKeepsInv(ss, steps, k - 1);
      StepKeepsInv(ss[k - 1], steps[k - 1]);
    }
  }

  /** The step delivers messages of topic `t` on behalf of instance `i`: it calls
      Flush, or commits the deletes that follow a successful one. */
  predicate Delivers(s: Db, step: Step, i: Instance, t: Topic) {
    && (step.Flush? || step.Commit?)
    && step.x in s.txs && s.txs[step.x].Processing?
    && s.txs[step.x].who == i && s.txs[step.x].topic == t
    && (step.Commit? ==> s.txs[step.x].flushed)
  }

  /** The step commits instance `i`'s acquisition of `t`. */
  predicate Acquires(s: Db, step: Step, i: Instance, t: Topic) {
    && step.AcquireCommit? && step.x in s.txs && s.txs[step.x].Acquiring?
    && s.txs[step.x].who == i && s.txs[step.x].topic == t
  }

  // ----- no zombie flush -------------------------------------------------------

  /** Between its check and its end, a ProcessMessages that saw a topics row owns the
      row's lock, and nobody else is the recorded holder, whatever the clocks say. */
  lemma ProcessingHoldsTheRow(ss: seq<Db>, steps: seq<Step>, k: nat, x: TxId)
    requires IsRun(ss, steps) && k < |ss|
    requires x in ss[k].txs && ss[k].txs[x].Processing? && ss[k].txs[x].sawRow
    ensures var tx := ss[k].txs[x];
            && tx.topic in ss[k].locks && ss[k].locks[tx.topic] == x
            && tx.topic in ss[k].rows
            && forall j | HeldBy(ss[k], tx.topic, j) :: j == tx.who
  {
    RunKeepsInv(ss, steps, k);
  }

  lemma OpenTxKeepsItsRow(s: Db, step: Step, x: TxId)
    requires Enabled(s, step) && x in s.txs && x in Apply(s, step).txs
    requires LocksMatch(s) && OwnsLock(s.txs[x])
    ensures var tx := Apply(s, step).txs[x]; tx.topic == s.txs[x].topic && OwnsLock(tx)
    ensures RowOf(Apply(s, step).rows, s.txs[x].topic) == RowOf(s.rows, s.txs[x].topic)
  {
    LockedRowIsFrozen(s, step, s.txs[x].topic);
  }

  /** The lease columns a transaction locked stay as they are for as long as it is open. */
  lemma {:induction false} LeaseFrozenWhileOpen(ss: seq<Db>, steps: seq<Step>, a: nat, b: nat, x: TxId)
    requires IsRun(ss, steps) && a <= b < |ss|
    requires forall k | a <= k <= b :: x in ss[k].txs
    requires OwnsLock(ss[a].txs[x])
    ensures ss[b].txs[x].topic == ss[a].txs[x].topic && OwnsLock(ss[b].txs[x])
    ensures RowOf(ss[b].rows, ss[a].txs[x].topic) == RowOf(ss[a].rows, ss[a].txs[x].topic)
  {
    if a < b {
      var k := b - 1;
      LeaseFrozenWhileOpen(ss, steps, a, k, x);
      RunKeepsInv(ss, steps, k);
      assert x in ss[b].txs && ss[b] == Apply(ss[k], steps[k]);
      OpenTxKeepsItsRow(ss[k], steps[k], x);
    }
  }

  /** A recorded holder is only ever replaced by an acquisition. */
  lemma HolderChangesByAcquiring(s: Db, step: Step, t: Topic, i: Instance)
    requires Enabled(s, step) && HeldBy(Apply(s, step), t, i) && !HeldBy(s, t, i)
    ensures Acquires(s, step, i, t)
  {
  }

  lemma HolderNeverCleared(s: Db, step: Step, t: Topic)
    requires Enabled(s, step) && RowOf(s.rows, t).holder.Some?
    ensures RowOf(Apply(s, step).rows, t).holder.Some?
  {
  }

  lemma {:induction false} HolderPersists(ss: seq<Db>, steps: seq<Step>, a: nat, b: nat, t: Topic)
    requires IsRun(ss, steps) && a <= b < |ss|
    requires RowOf(ss[a].rows, t).holder.Some?
    ensures RowOf(ss[b].rows, t).holder.Some?
  {
    if a < b {
      var k := b - 1;
      HolderPersists(ss, steps, a, k, t);
      assert ss[b] == Apply(ss[k], steps[k]);
      HolderNeverCleared(ss[k], steps[k], t);
    }
  }

  /** If `i` is not the holder at `a` and is at `b`, it acquired in between. */
  lemma {:induction false} BecameHolder(ss: seq<Db>, steps: seq<Step>, a: nat, b: nat, t: Topic, i: Instance)
    returns (d: nat)
    requires IsRun(ss, steps) && a <= b < |ss|
    requires !HeldBy(ss[a], t, i) && HeldBy(ss[b], t, i)
    ensures a <= d < b && Acquires(ss[d], steps[d], i, t)
  {
    if HeldBy(ss[b - 1], t, i) {
      d := BecameHolder(ss, steps, a, b - 1, t, i);
    } else {
      d := b - 1;
      HolderChangesByAcquiring(ss[d], steps[d], t, i);
    }
  }

  /** After `j`'s acquisition commits at step `c`, another instance `i` whose check saw
      the topics row delivers nothing unless `i` itself acquires in between. */
  lemma NoZombieFlush(ss: seq<Db>, steps: seq<Step>, c: nat, m: nat, t: Topic, i: Instance, j: Instance)
    requires IsRun(ss, steps) && c < m < |steps| && i != j
    requires Acquires(ss[c], steps[c], j, t)
    requires Delivers(ss[m], steps[m], i, t) && ss[m].txs[steps[m].x].sawRow
    ensures exists d :: c < d < m && Acquires(ss[d], steps[d], i, t)
  {
    assert HeldBy(ss[c + 1], t, j);
    HolderPersists(ss, steps, c + 1, m, t);
    RunKeepsInv(ss, steps, m);
    var d := BecameHolder(ss, steps, c + 1, m, t, i);
  }

  /** A zombie flush: `j` acquires at `c`, and later `i` delivers without having acquired
      in between. */
  ghost predicate Zombie(ss: seq<Db>, steps: seq<Step>, c: nat, m: nat, t: Topic, i: Instance, j: Instance) {
    && IsRun(ss, steps) && c < m < |steps|
    && Acquires(ss[c], steps[c], j, t) && Delivers(ss[m], steps[m], i, t)
    && forall d | c < d < m :: !Acquires(ss[d], steps[d], i, t)
  }

  /** Topics rows are never deleted, so once there is one every check sees it. */
  lemma {:induction false} ChecksSeeTheRow(ss: seq<Db>, steps: seq<Step>, k: nat, t: Topic)
    requires IsRun(ss, steps) && k < |ss| && t in ss[0].rows
    ensures t in ss[k].rows
    ensures forall x | x in ss[k].txs && ss[k].txs[x].Processing? && ss[k].txs[x].topic == t :: ss[k].txs[x].sawRow
  {
    if k > 0 {
      ChecksSeeTheRow(ss, steps, k - 1, t);
      assert Enabled(ss[k - 1], steps[k - 1]) && ss[k] == Apply(ss[k - 1], steps[k - 1]);
    }
  }

  /** How a topic gets its row: by the commit of an acquisition, or of a transaction that
      registers it, then without a holder. */
  lemma HowARowAppears(s: Db, step: Step, t: Topic)
    requires Enabled(s, step) && t !in s.rows
    ensures var registers := step.BystanderCommit? && s.txs[step.x].topic == t;
            && (t in Apply(s, step).rows <==> registers || exists i :: Acquires(s, step, i, t))
            && (registers ==> Apply(s, step).rows[t] == TopicRow(None, None))
  {
    if step.AcquireCommit? && s.txs[step.x].topic == t {
      assert Acquires(s, step, s.txs[step.x].who, t);
    }
  }

  /** The one gap: a check that finds no topics row locks nothing.  From any tables
      without the row and for any two instances there is a run in which the first
      delivers while the second holds the lease it acquired in between. */
  lemma UnseenRowLetsAZombieThrough(db: Db, t: Topic, i: Instance, j: Instance, session: Session)
    returns (ss: seq<Db>, steps: seq<Step>)
    requires Quiet(db) && t !in db.rows && i != j
    ensures IsRun(ss, steps) && ss[0] == db && |steps| == 5
    ensures Acquires(ss[2], steps[2], j, t)
    ensures Delivers(ss[4], steps[4], i, t) && HeldBy(ss[4], t, j)
    ensures Zombie(ss, steps, 2, 4, t, i, j)
  {
    steps := [Check(0, i, t, 0), AcquireLock(1, j, t, 0), AcquireCommit(1, session), Flush(0), Commit(0)];
    var s1 := Apply(db, steps[0]);
    var s2 := Apply(s1, steps[1]);
    var s3 := Apply(s2, steps[2]);
    var s4 := Apply(s3, steps[3]);
    ss := [db, s1, s2, s3, s4, Apply(s4, steps[4])];
  }

  /** Exactly when the lease fences flushes: from given tables no run lets `i` deliver after
      `j` took over if and only if the topic already has its row. */
  lemma NoZombieIffTheRowExists(db: Db, t: Topic, i: Instance, j: Instance)
    requires Quiet(db) && i != j
    ensures t in db.rows
            <==> forall ss, steps, c, m | |ss| > 0 && ss[0] == db :: !Zombie(ss, steps, c, m, t, i, j)
  {
    if t in db.rows {
      forall ss, steps, c, m | |ss| > 0 && ss[0] == db
        ensures !Zombie(ss, steps, c, m, t, i, j)
      {
        if Zombie(ss, steps, c, m, t, i, j) {
          ChecksSeeTheRow(ss, steps, m, t);
          NoZombieFlush(ss, steps, c, m, t, i, j);
        }
      }
    } else {
      var ss, steps := UnseenRowLetsAZombieThrough(db, t, i, j, Session(0, false));
    }
  }

  // ----- what a check established --------------------------------------------------

  lemma ProcessingStep(s: Db, step: Step, x: TxId)
    requires Inv(s) && Enabled(s, step)
    requires x in Apply(s, step).txs && Apply(s, step).txs[x].Processing?
    ensures var tx := Apply(s, step).txs[x];
            if x in s.txs then s.txs[x].Processing? && s.txs[x].(flushed := tx.flushed) == tx
            else && step.Check? && step.x == x && step.i == tx.who && step.t == tx.topic
                 && (tx.sawRow <==> tx.topic in s.rows)
  {
  }

  /** Where an open ProcessMessages came from: the step of its check, which found either no
      row, or an unheld topic, or its own hold with time left on it; and a row it saw is
      unchanged ever since. */
  lemma {:induction false} CheckOrigin(ss: seq<Db>, steps: seq<Step>, k: nat, x: TxId) returns (a: nat)
    requires IsRun(ss, steps) && k < |ss| && x in ss[k].txs && ss[k].txs[x].Processing?
    ensures var tx := ss[k].txs[x];
            && a < k && steps[a].Check? && steps[a].x == x && steps[a].i == tx.who && steps[a].t == tx.topic
            && (tx.sawRow <==> tx.topic in ss[a].rows)
            && (tx.sawRow ==>
                  var row := ss[a].rows[tx.topic];
                  && (forall b | a <= b <= k :: RowOf(ss[b].rows, tx.topic) == row)
                  && (row.holder.None?
                      || (row.holder.value == tx.who && Unexpired(LeaseExpiry(row, ss[a].sessions), steps[a].now))))
  {
    var c := k - 1;
    RunKeepsInv(ss, steps, c);
    assert Enabled(ss[c], steps[c]) && ss[k] == Apply(ss[c], steps[c]);
    ProcessingStep(ss[c], steps[c], x);
    if x in ss[c].txs {
      a := CheckOrigin(ss, steps, c, x);
      if ss[k].txs[x].sawRow {
        OpenTxKeepsItsRow(ss[c], steps[c], x);
      }
    } else {
      a := c;
    }
  }

  /** `i`'s hold on `t`, if it is the recorded holder at all, is over by `now`. */
  predicate HoldIsOver(s: Db, t: Topic, i: Instance, now: Time) {
    && RowOf(s.rows, t).holder.Some?
    && (HeldBy(s, t, i) ==> RowOf(s.rows, t).override.Some? && RowOf(s.rows, t).override.value <= now)
  }

  /** The step gives `i` a hold on `t` that reaches past `now`. */
  predicate Extends(s: Db, step: Step, t: Topic, i: Instance, now: Time) {
    Acquires(s, step, i, t) || (step.SetExpiry? && step.i == i && step.t == t && step.expiresAt > now)
  }

  lemma HoldStaysOver(s: Db, step: Step, t: Topic, i: Instance, now: Time)
    requires Enabled(s, step) && HoldIsOver(s, t, i, now) && !Extends(s, step, t, i, now)
    ensures HoldIsOver(Apply(s, step), t, i, now)
  {
  }

  lemma {:induction false} HoldOverUntilExtended(ss: seq<Db>, steps: seq<Step>, a: nat, b: nat, t: Topic, i: Instance,
                                                 now: Time)
    requires IsRun(ss, steps) && a <= b < |ss| && HoldIsOver(ss[a], t, i, now)
    ensures HoldIsOver(ss[b], t, i, now) || exists d :: a <= d < b && Extends(ss[d], steps[d], t, i, now)
  {
    if a < b {
      var k := b - 1;
      HoldOverUntilExtended(ss, steps, a, k, t, i, now);
      assert Enabled(ss[k], steps[k]) && ss[b] == Apply(ss[k], steps[k]);
      if HoldIsOver(ss[k], t, i, now) && !Extends(ss[k], steps[k], t, i, now) {
        HoldStaysOver(ss[k], steps[k], t, i, now);
      }
    }
  }

  /** A release takes: once an instance's expiry write for a topic has landed at step `k`, none
      of its access checks past that expiry succeeds unless it has acquired again, or
      written a later expiry, in between. */
  lemma NoCheckAfterRelease(ss: seq<Db>, steps: seq<Step>, k: nat, m: nat, t: Topic, i: Instance)
    requires IsRun(ss, steps) && k < m < |steps|
    requires steps[k].SetExpiry? && steps[k].i == i && steps[k].t == t && HeldBy(ss[k], t, i)
    requires steps[m].Check? && steps[m].i == i && steps[m].t == t && steps[k].expiresAt <= steps[m].now
    ensures exists d :: k < d < m && Extends(ss[d], steps[d], t, i, steps[m].now)
  {
    assert Enabled(ss[k], steps[k]) && ss[k + 1] == Apply(ss[k], steps[k]);
    HoldOverUntilExtended(ss, steps, k + 1, m, t, i, steps[m].now);
    assert Enabled(ss[m], steps[m]);
  }

  /** When a check can pass: with no row always, and otherwise once the row lock is free, on an
      unheld topic or an own hold that is live by its override or else its session. */
  lemma CheckPassesIff(s: Db, x: TxId, i: Instance, t: Topic, now: Time)
    requires x !in s.txs
    ensures Enabled(s, Check(x, i, t, now)) <==>
            t in s.rows ==>
              var row := s.rows[t];
              && t !in s.locks
              && (row.holder.None?
                  || (row.holder.value == i && if row.override.Some? then row.override.value > now
                                               else i in s.sessions && s.sessions[i].expiresAt > now))
  {
    if t in s.rows {
      AccessRule(s.rows[t], s.sessions, i, now);
    }
  }

  /** Every delivery of an instance that saw the row goes back to a check of its own that found
      the topic unheld or its own hold live, with the row unchanged since. */
  lemma DeliveriesWereGranted(ss: seq<Db>, steps: seq<Step>, m: nat, t: Topic, i: Instance) returns (a: nat)
    requires IsRun(ss, steps) && m < |steps| && Delivers(ss[m], steps[m], i, t) && ss[m].txs[steps[m].x].sawRow
    ensures a < m && steps[a].Check? && steps[a].i == i && steps[a].t == t && t in ss[a].rows
    ensures Verdict(ss[a].rows[t], ss[a].sessions, i, steps[a].now) == Granted
    ensures forall b | a <= b <= m :: RowOf(ss[b].rows, t) == ss[a].rows[t]
  {
    var x := steps[m].x;
    a := CheckOrigin(ss, steps, m, x);
    AccessRule(ss[a].rows[t], ss[a].sessions, i, steps[a].now);
  }

  // ----- what an acquisition displaced ------------------------------------------

  lemma AcquiringStep(s: Db, step: Step, x: TxId)
    requires Inv(s) && Enabled(s, step)
    requires x in Apply(s, step).txs && Apply(s, step).txs[x].Acquiring?
    ensures var tx := Apply(s, step).txs[x];
            && RowOf(Apply(s, step).rows, tx.topic) == RowOf(s.rows, tx.topic) == tx.read
            && if x in s.txs then s.txs[x] == tx
               else step == AcquireLock(x, tx.who, tx.topic, tx.at) && tx.expiry == LeaseExpiry(tx.read, s.sessions)
  {
  }

  /** Where an open acquisition came from: the step at which it took the lock, with the
      row and expiry it read there, and the row unchanged ever since. */
  lemma {:induction false} AcquireOrigin(ss: seq<Db>, steps: seq<Step>, k: nat, x: TxId) returns (a: nat)
    requires IsRun(ss, steps) && k < |ss|
    requires x in ss[k].txs && ss[k].txs[x].Acquiring?
    ensures var tx := ss[k].txs[x];
            && a < k && steps[a] == AcquireLock(x, tx.who, tx.topic, tx.at)
            && tx.read == RowOf(ss[a].rows, tx.topic) && tx.expiry == LeaseExpiry(tx.read, ss[a].sessions)
            && (forall b | a <= b <= k :: RowOf(ss[b].rows, tx.topic) == tx.read)
  {
    var c := k - 1;
    RunKeepsInv(ss, steps, c);
    assert Enabled(ss[c], steps[c]) && ss[k] == Apply(ss[c], steps[c]);
    AcquiringStep(ss[c], steps[c], x);
    if x in ss[c].txs {
      a := AcquireOrigin(ss, steps, c, x);
    } else {
      a := c;
    }
  }

  /** Whoever loses a lease to an acquisition had a lease that read expired, on the
      acquirer's clock, at the moment the acquirer locked the row; and the row has
      not changed since. */
  lemma OnlyExpiredLeasesAreDisplaced(ss: seq<Db>, steps: seq<Step>, k: nat, t: Topic, i: Instance, j: Instance)
    returns (a: nat)
    requires IsRun(ss, steps) && k < |steps| && i != j
    requires HeldBy(ss[k], t, i) && Acquires(ss[k], steps[k], j, t)
    ensures a < k && steps[a].AcquireLock? && steps[a].i == j && steps[a].t == t
    ensures HeldBy(ss[a], t, i) && Verdict(RowOf(ss[a].rows, t), ss[a].sessions, i, steps[a].now) == ErrLeaseRequired
    ensures forall b | a <= b <= k :: RowOf(ss[b].rows, t) == RowOf(ss[a].rows, t)
  {
    a := AcquireOrigin(ss, steps, k, steps[k].x);
    RunKeepsInv(ss, steps, k);
  }

  // ----- ending a hold -------------------------------------------------------------

  /** A release or grace expiry touches only a row this instance holds, and ends its
      hold at `expiresAt` on every clock: from then on the former holder must acquire
      again and anyone may take over; before that nobody else may. */
  lemma ExpiryWriteContract(s: Db, i: Instance, t: Topic, expiresAt: Time, j: Instance, now: Time)
    requires Enabled(s, SetExpiry(i, t, expiresAt)) && i != j
    ensures !HeldBy(s, t, i) ==> Apply(s, SetExpiry(i, t, expiresAt)) == s
    ensures forall u | u != t :: RowOf(Apply(s, SetExpiry(i, t, expiresAt)).rows, u) == RowOf(s.rows, u)
    ensures HeldBy(s, t, i) ==>
              var s' := Apply(s, SetExpiry(i, t, expiresAt));
              && HeldBy(s', t, i)
              && Verdict(s'.rows[t], s'.sessions, i, now) == (if now < expiresAt then Granted else ErrLeaseRequired)
              && (AcquireRefused(s'.rows[t], LeaseExpiry(s'.rows[t], s'.sessions), j, now) <==> now < expiresAt)
  {
    if HeldBy(s, t, i) {
      OverrideDecides(i, expiresAt, s.sessions, j, now);
    }
  }

  // ----- lease continuity from one heartbeat -------------------------------------

  /** The step commits an upsert of `i`'s session row. */
  predicate Upserts(s: Db, step: Step, i: Instance) {
    (step.Heartbeat? && step.i == i)
    || (step.AcquireCommit? && step.x in s.txs && s.txs[step.x].Acquiring? && s.txs[step.x].who == i)
  }

  /** Every step happens at a time of one shared clock and reads that time; a sweep's
      cutoff is in the past, and an upsert writes its stamp plus the lease duration. */
  ghost predicate OnSharedClock(ss: seq<Db>, steps: seq<Step>, clock: seq<Time>, stamps: seq<Time>, duration: Time) {
    && |clock| == |ss| == |steps| + 1 && |stamps| == |steps|
    && (forall k | 0 <= k < |steps| ::
          match steps[k]
          case AcquireLock(_, _, _, now) => now == clock[k]
          case AcquireCommit(_, session) => session.expiresAt == stamps[k] + duration
          case Check(_, _, _, now) => now == clock[k]
          case Heartbeat(_, session) => session.expiresAt == stamps[k] + duration
          case SweepSessions(cutoff) => cutoff <= clock[k]
          case _ => true)
  }

  /** The stamp of the last session upsert of `i` committed before state `k`. */
  ghost function LastStamp(ss: seq<Db>, steps: seq<Step>, stamps: seq<Time>, i: Instance, k: nat): Option<Time>
    requires |ss| == |steps| + 1 && |stamps| == |steps| && k < |ss|
  {
    if k == 0 then None
    else if Upserts(ss[k - 1], steps[k - 1], i) then Some(stamps[k - 1])
    else LastStamp(ss, steps, stamps, i, k - 1)
  }

  /** At state `k`, the last committed upsert is less than one lease duration old. */
  ghost predicate FreshAt(ss: seq<Db>, steps: seq<Step>, clock: seq<Time>, stamps: seq<Time>, duration: Time,
                          i: Instance, k: nat)
    requires |clock| == |ss| == |steps| + 1 && |stamps| == |steps| && k < |ss|
  {
    var stamp := LastStamp(ss, steps, stamps, i, k);
    stamp.Some? && clock[k] - stamp.value < duration
  }

  ghost predicate HeartbeatsOnTime(ss: seq<Db>, steps: seq<Step>, clock: seq<Time>, stamps: seq<Time>, duration: Time,
                                   i: Instance, a: nat, b: nat)
    requires |clock| == |ss| == |steps| + 1 && |stamps| == |steps| && b < |ss|
  {
    forall k | a <= k <= b :: FreshAt(ss, steps, clock, stamps, duration, i, k)
  }

  /** What one step does to one session: an upsert of its own sets it, a sweep removes it exactly
      if it reads expired at the cutoff, and nothing else touches it. */
  lemma WhatHappensToASession(s: Db, step: Step, i: Instance)
    requires Enabled(s, step)
    ensures var after := Apply(s, step).sessions;
            && (Upserts(s, step, i) ==> i in after && after[i] == step.session)
            && (!Upserts(s, step, i) ==>
                  && (i in after <==>
                        i in s.sessions && (step.SweepSessions? ==> s.sessions[i].expiresAt >= step.cutoff))
                  && (i in after ==> after[i] == s.sessions[i]))
  {
  }

  lemma SessionStep(s: Db, step: Step, i: Instance)
    requires Enabled(s, step) && i in s.sessions
    requires step.SweepSessions? ==> step.cutoff <= s.sessions[i].expiresAt
    ensures i in Apply(s, step).sessions
    ensures Apply(s, step).sessions[i] == if Upserts(s, step, i) then step.session else s.sessions[i]
  {
  }

  lemma UpsertStep(s: Db, step: Step, i: Instance)
    requires Enabled(s, step) && Upserts(s, step, i)
    ensures i in Apply(s, step).sessions && Apply(s, step).sessions[i] == step.session
  {
  }

  /** `i`'s session after step `k` carries that step's stamp if it upserted, and is
      otherwise what it was. */
  lemma SessionAfter(ss: seq<Db>, steps: seq<Step>, clock: seq<Time>, stamps: seq<Time>, duration: Time, i: Instance,
                     k: nat)
    requires IsRun(ss, steps) && OnSharedClock(ss, steps, clock, stamps, duration) && k < |steps|
    requires Upserts(ss[k], steps[k], i) || (i in ss[k].sessions && clock[k] < ss[k].sessions[i].expiresAt)
    ensures i in ss[k + 1].sessions
    ensures ss[k + 1].sessions[i].expiresAt
            == if Upserts(ss[k], steps[k], i) then stamps[k] + duration else ss[k].sessions[i].expiresAt
  {
    var s, step := ss[k], steps[k];
    assert Enabled(s, step) && ss[k + 1] == Apply(s, step);
    if Upserts(s, step, i) {
      UpsertStep(s, step, i);
    } else {
      SessionStep(s, step, i);
    }
  }

  lemma {:induction false} SessionStaysLive(ss: seq<Db>, steps: seq<Step>, clock: seq<Time>, stamps: seq<Time>,
                                            duration: Time, i: Instance, a: nat, b: nat)
    requires IsRun(ss, steps) && OnSharedClock(ss, steps, clock, stamps, duration) && 0 < a <= b < |ss|
    requires Upserts(ss[a - 1], steps[a - 1], i) && HeartbeatsOnTime(ss, steps, clock, stamps, duration, i, a, b)
    ensures i in ss[b].sessions && clock[b] < ss[b].sessions[i].expiresAt
    ensures LastStamp(ss, steps, stamps, i, b) == Some(ss[b].sessions[i].expiresAt - duration)
  {
    var k := b - 1;
    if a < b {
      SessionStaysLive(ss, steps, clock, stamps, duration, i, a, k);
    }
    SessionAfter(ss, steps, clock, stamps, duration, i, k);
    assert FreshAt(ss, steps, clock, stamps, duration, i, b);
  }

  /** `i` holds `t` in the session-deferred form, and nobody else is about to take it. */
  predicate Deferred(s: Db, i: Instance, t: Topic) {
    && t in s.rows && s.rows[t] == TopicRow(Some(i), None)
    && forall x | x in s.txs && s.txs[x].Acquiring? && s.txs[x].topic == t :: s.txs[x].who == i
  }

  lemma DeferredStep(s: Db, step: Step, i: Instance, t: Topic)
    requires Enabled(s, step) && Deferred(s, i, t)
    requires i in s.sessions && (step.AcquireLock? ==> step.now < s.sessions[i].expiresAt)
    requires !(step.SetExpiry? && step.i == i && step.t == t)
    ensures Deferred(Apply(s, step), i, t)
  {
  }

  lemma DeferredAfterAcquire(s: Db, step: Step, i: Instance, t: Topic)
    requires Inv(s) && Enabled(s, step) && Acquires(s, step, i, t)
    ensures Deferred(Apply(s, step), i, t)
  {
  }

  /** From `i`'s acquisition of `t` at step `a - 1` on, as long as `i` keeps its one
      session fresh and does not itself end the hold, the row never changes hands and
      never leaves the session-deferred form, and `i` is granted access at every
      instant.  No further write to the topic's row is needed, and any number of
      topics may share the session. */
  lemma {:induction false} LeaseContinuity(ss: seq<Db>, steps: seq<Step>, clock: seq<Time>, stamps: seq<Time>,
                                           duration: Time, i: Instance, t: Topic, a: nat, b: nat)
    requires IsRun(ss, steps) && OnSharedClock(ss, steps, clock, stamps, duration) && 0 < a <= b < |ss|
    requires Acquires(ss[a - 1], steps[a - 1], i, t) && HeartbeatsOnTime(ss, steps, clock, stamps, duration, i, a, b)
    requires forall k | a <= k < b :: !(steps[k].SetExpiry? && steps[k].i == i && steps[k].t == t)
    ensures Deferred(ss[b], i, t)
    ensures Verdict(ss[b].rows[t], ss[b].sessions, i, clock[b]) == Granted
  {
    SessionStaysLive(ss, steps, clock, stamps, duration, i, a, b);
    var k := b - 1;
    RunKeepsInv(ss, steps, k);
    if a == b {
      DeferredAfterAcquire(ss[k], steps[k], i, t);
    } else {
      LeaseContinuity(ss, steps, clock, stamps, duration, i, t, a, k);
      SessionStaysLive(ss, steps, clock, stamps, duration, i, a, k);
      DeferredStep(ss[k], steps[k], i, t);
    }
  }
}
