/** Maintenance leases under every path that writes them: bulk inserts and takeovers by
    scanning instances, the in-loop takeover of runMaintenance, the dormancy release,
    heartbeats and session sweeps, interleaved statement by statement. */
module MaintenanceLease {
  import opened Tables

  type TxId = nat

  /** runMaintenance once its locking read let it proceed: the committed row it found (if
      any), the readings it judged that row by, and whether its deletes have run. */
  datatype Tx = Tx(who: Instance, topic: Topic, found: Option<LeaseRow>, now: Time, staleCutoff: Time, deleted: bool)

  datatype Db = Db(leases: map<Topic, LeaseRow>, sessions: Sessions, locks: map<Topic, TxId>, txs: map<TxId, Tx>)

  datatype Step =
    | BulkInsert(i: Instance, topics: set<Topic>, now: Time)
    | TakeOver(i: Instance, topics: set<Topic>, now: Time, staleCutoff: Time)
    | Begin(x: TxId, i: Instance, t: Topic, now: Time, staleCutoff: Time)
    | DeleteExpired(x: TxId)
    | Commit(x: TxId)
    | Abort(x: TxId)
    | Release(i: Instance, t: Topic)
    | Heartbeat(i: Instance, session: Session)
    | SweepSessions(cutoff: Time)

  function RowOf(s: Db, t: Topic): Option<LeaseRow> {
    if t in s.leases then Some(s.leases[t]) else None
  }

  predicate HeldBy(s: Db, t: Topic, i: Instance) {
    t in s.leases && s.leases[t].holder == i
  }

  /** errLeaseHeld is not returned: no row, our row, or a row that reads expired. */
  predicate MayProceed(row: Option<LeaseRow>, sessions: Sessions, i: Instance, now: Time, staleCutoff: Time) {
    row.Some? ==> row.value.holder == i || SelectReadsExpired(row.value, sessions, now, staleCutoff)
  }

  /** The rows a takeover statement changes: expired and not locked by anyone. */
  function Taken(s: Db, topics: set<Topic>, now: Time, staleCutoff: Time): set<Topic> {
    set t | t in topics && t in s.leases && t !in s.locks
            && ClaimReadsExpired(s.leases[t], s.sessions, now, staleCutoff)
  }

  predicate Enabled(s: Db, step: Step) {
    match step
    case BulkInsert(_, topics, _) => forall t | t in topics && t !in s.leases :: t !in s.locks
    case TakeOver(_, _, _, _) => true
    case Begin(x, i, t, now, staleCutoff) =>
      x !in s.txs && t !in s.locks && MayProceed(RowOf(s, t), s.sessions, i, now, staleCutoff)
    case DeleteExpired(x) => x in s.txs && !s.txs[x].deleted
    case Commit(x) => x in s.txs && s.txs[x].deleted
    case Abort(x) => x in s.txs
    case Release(i, t) => HeldBy(s, t, i) ==> t !in s.locks
    case Heartbeat(_, _) => true
    case SweepSessions(_) => true
  }

  function End(s: Db, x: TxId): Db
    requires x in s.txs
  {
    s.(txs := s.txs - {x}, locks := s.locks - {s.txs[x].topic})
  }

  function Apply(s: Db, step: Step): Db
    requires Enabled(s, step)
  {
    match step
    case BulkInsert(i, topics, now) =>
      s.(leases := s.leases + map t | t in topics && t !in s.leases :: LeaseRow(i, now))
    case TakeOver(i, topics, now, staleCutoff) =>
      s.(leases := s.leases + map t | t in Taken(s, topics, now, staleCutoff) :: LeaseRow(i, now))
    case Begin(x, i, t, now, staleCutoff) =>
      s.(locks := s.locks[t := x], txs := s.txs[x := Tx(i, t, RowOf(s, t), now, staleCutoff, false)])
    case DeleteExpired(x) => s.(txs := s.txs[x := s.txs[x].(deleted := true)])
    case Commit(x) =>
      var tx := s.txs[x];
      End(s, x).(leases := s.leases[tx.topic := LeaseRow(tx.who, tx.now)])
    case Abort(x) => End(s, x)
    case Release(i, t) => if HeldBy(s, t, i) then s.(leases := s.leases - {t}) else s
    case Heartbeat(i, session) => s.(sessions := s.sessions[i := session])
    case SweepSessions(cutoff) => s.(sessions := Sweep(s.sessions, cutoff))
  }

  // ----- the invariant -------------------------------------------------------------------

  /** Locks and open transactions match one to one, and a locked row is still the row
      its transaction judged. */
  predicate Inv(s: Db) {
    && (forall t | t in s.locks :: s.locks[t] in s.txs && s.txs[s.locks[t]].topic == t)
    && (forall x | x in s.txs ::
          s.txs[x].topic in s.locks && s.locks[s.txs[x].topic] == x && RowOf(s, s.txs[x].topic) == s.txs[x].found)
  }

  predicate Quiet(s: Db) {
    s.locks == map[] && s.txs == map[]
  }

  lemma StepKeepsInv(s: Db, step: Step)
    requires Inv(s) && Enabled(s, step)
    ensures Inv(Apply(s, step))
  {
  }

  ghost predicate IsRun(ss: seq<Db>, steps: seq<Step>) {
    && |ss| == |steps| + 1 && Quiet(ss[0])
    && forall k | 0 <= k < |steps| :: Enabled(ss[k], steps[k]) && ss[k + 1] == Apply(ss[k], steps[k])
  }

  lemma {:induction false} RunKeepsInv(ss: seq<Db>, steps: seq<Step>, k: nat)
    requires IsRun(ss, steps) && k < |ss|
    ensures Inv(ss[k])
  {
    if k > 0 {
      RunKeepsInv(ss, steps, k - 1);
      StepKeepsInv(ss[k - 1], steps[k - 1]);
    }
  }

  /** What one step does to one session: its own heartbeat sets it, a sweep removes it exactly if
      it reads expired at the cutoff, and nothing else touches it. */
  lemma WhatHappensToASession(s: Db, step: Step, i: Instance)
    requires Enabled(s, step)
    ensures var after := Apply(s, step).sessions;
            if step.Heartbeat? && step.i == i then i in after && after[i] == step.session
            else
              && (i in after <==> i in s.sessions && (step.SweepSessions? ==> s.sessions[i].expiresAt >= step.cutoff))
              && (i in after ==> after[i] == s.sessions[i])
  {
  }

  // ----- one cleaner at a time -------------------------------------------------------------

  /** At any moment at most one transaction per topic is between its lease check and its
      commit, so only one can have deletes pending; and when it commits, the topic's
      lease is its own. */
  lemma OneCleanerPerTopic(ss: seq<Db>, steps: seq<Step>, k: nat, x: TxId, y: TxId)
    requires IsRun(ss, steps) && k < |ss| && x in ss[k].txs && y in ss[k].txs
    requires ss[k].txs[x].topic == ss[k].txs[y].topic
    ensures x == y
    ensures k < |steps| && steps[k] == Commit(x) ==> HeldBy(ss[k + 1], ss[k].txs[x].topic, ss[k].txs[x].who)
  {
    RunKeepsInv(ss, steps, k);
  }

  /** Deletes run only for the holder: the row a cleaner found is still in place when its
      deletes commit, and it is absent, its own, or read expired when it was locked. */
  lemma {:induction false} CleanerWasEntitled(ss: seq<Db>, steps: seq<Step>, k: nat, x: TxId) returns (a: nat)
    requires IsRun(ss, steps) && k < |ss| && x in ss[k].txs
    ensures var tx := ss[k].txs[x];
            && a < k && steps[a] == Begin(x, tx.who, tx.topic, tx.now, tx.staleCutoff)
            && RowOf(ss[a], tx.topic) == tx.found == RowOf(ss[k], tx.topic)
            && (tx.found.Some? ==> tx.found.value.holder == tx.who
                                   || LeaseExpired(tx.found.value, ss[a].sessions, tx.now, tx.staleCutoff))
  {
    a := k - 1;
    RunKeepsInv(ss, steps, k);
    assert ss[k] == Apply(ss[a], steps[a]);
    if x in ss[a].txs {
      a := CleanerWasEntitled(ss, steps, a, x);
    }
  }

  lemma DeletedStep(s: Db, step: Step, x: TxId)
    requires Enabled(s, step) && x in Apply(s, step).txs && Apply(s, step).txs[x].deleted
    ensures step == DeleteExpired(x) || (x in s.txs && s.txs[x].deleted)
  {
  }

  /** No cleaner commits, and so takes or renews the lease, without having run its deletes. */
  lemma {:induction false} DeletesComeFirst(ss: seq<Db>, steps: seq<Step>, k: nat, x: TxId) returns (d: nat)
    requires IsRun(ss, steps) && k < |ss| && x in ss[k].txs
    requires ss[k].txs[x].deleted || (k < |steps| && steps[k] == Commit(x))
    ensures d < k && steps[d] == DeleteExpired(x)
  {
    if k < |steps| && steps[k] == Commit(x) {
      assert Enabled(ss[k], steps[k]);
    }
    var c := k - 1;
    assert Enabled(ss[c], steps[c]) && ss[k] == Apply(ss[c], steps[c]);
    DeletedStep(ss[c], steps[c], x);
    if steps[c] == DeleteExpired(x) {
      d := c;
    } else {
      d := DeletesComeFirst(ss, steps, c, x);
    }
  }

  // ----- a live lease is never reassigned --------------------------------------------------

  /** The step judges `t`'s lease, and finds it expired. */
  predicate ReadsExpired(s: Db, step: Step, t: Topic)
    requires t in s.leases
  {
    match step
    case TakeOver(_, topics, now, staleCutoff) => t in topics && LeaseExpired(s.leases[t], s.sessions, now, staleCutoff)
    case Begin(_, _, u, now, staleCutoff) => u == t && LeaseExpired(s.leases[t], s.sessions, now, staleCutoff)
    case _ => false
  }

  /** A row changes hands or vanishes only by its holder's own release, by a takeover
      that reads it expired, or by the commit of a cleaner that locked it. */
  lemma HowALeaseMoves(s: Db, step: Step, t: Topic)
    requires Inv(s) && Enabled(s, step) && t in s.leases
    requires !HeldBy(Apply(s, step), t, s.leases[t].holder)
    ensures || step == Release(s.leases[t].holder, t)
            || (step.TakeOver? && ReadsExpired(s, step, t))
            || (step.Commit? && s.txs[step.x].topic == t && s.txs[step.x].who != s.leases[t].holder
                && s.txs[step.x].found == Some(s.leases[t]))
  {
  }

  /** Whoever loses a lease without releasing it had a lease that read expired at the
      step that judged it: the takeover itself, or the moment the cleaner locked the row,
      which has not changed since. */
  lemma OnlyExpiredLeasesMove(ss: seq<Db>, steps: seq<Step>, k: nat, t: Topic) returns (a: nat)
    requires IsRun(ss, steps) && k < |steps| && t in ss[k].leases
    requires !HeldBy(ss[k + 1], t, ss[k].leases[t].holder)
    requires steps[k] != Release(ss[k].leases[t].holder, t)
    ensures a <= k && RowOf(ss[a], t) == RowOf(ss[k], t) && ReadsExpired(ss[a], steps[a], t)
  {
    RunKeepsInv(ss, steps, k);
    HowALeaseMoves(ss[k], steps[k], t);
    a := k;
    if steps[k].Commit? {
      a := CleanerWasEntitled(ss, steps, k, steps[k].x);
    }
  }

  /** `h` holds the lease, and no other instance has locked it. */
  predicate Secure(s: Db, t: Topic, h: Instance) {
    HeldBy(s, t, h) && forall x | x in s.txs && s.txs[x].topic == t :: s.txs[x].who == h
  }

  lemma SecureStep(s: Db, step: Step, t: Topic, h: Instance)
    requires Enabled(s, step) && Inv(s) && Secure(s, t, h)
    requires step != Release(h, t) && !ReadsExpired(s, step, t)
    ensures Secure(Apply(s, step), t, h)
  {
  }

  /** Every way of gaining a lease leaves it secure. */
  lemma GainIsSecure(s: Db, step: Step, t: Topic, h: Instance)
    requires Inv(s) && Enabled(s, step) && !HeldBy(s, t, h) && HeldBy(Apply(s, step), t, h)
    ensures Secure(Apply(s, step), t, h)
  {
  }

  /** The step judges `t`'s lease. */
  predicate Judges(step: Step, t: Topic) {
    match step
    case TakeOver(_, topics, _, _) => t in topics
    case Begin(_, _, u, _, _) => u == t
    case _ => false
  }

  /** The reading by which a step judges leases. */
  function ReadingOf(step: Step): Option<Time> {
    match step
    case TakeOver(_, _, now, _) => Some(now)
    case Begin(_, _, _, now, _) => Some(now)
    case _ => None
  }

  /** From any state where `h` holds the lease and no one else has locked it, the lease stays
      with `h` for as long as no step reads it expired and `h` does not release it. */
  lemma {:induction false} SecureLeaseStays(ss: seq<Db>, steps: seq<Step>, a: nat, b: nat, t: Topic, h: Instance)
    requires IsRun(ss, steps) && a <= b < |ss| && Secure(ss[a], t, h)
    requires forall k | a <= k < b ::
               steps[k] != Release(h, t) && (t in ss[k].leases ==> !ReadsExpired(ss[k], steps[k], t))
    ensures Secure(ss[b], t, h)
  {
    if a < b {
      var k := b - 1;
      SecureLeaseStays(ss, steps, a, k, t, h);
      RunKeepsInv(ss, steps, k);
      SecureStep(ss[k], steps[k], t, h);
    }
  }

  /** A session that outlives a reading keeps every lease of its holder from reading expired. */
  lemma LiveSessionIsNotExpired(s: Db, step: Step, t: Topic, h: Instance)
    requires HeldBy(s, t, h) && h in s.sessions
    requires ReadingOf(step).Some? ==> s.sessions[h].expiresAt >= ReadingOf(step).value
    ensures !ReadsExpired(s, step, t)
  {
  }

  /** The same as long as `h`'s session outlives the reading of every step that judges `t`: no
      write of its own, no matter how old the row gets. */
  lemma {:induction false} LiveSessionKeepsTheLease(ss: seq<Db>, steps: seq<Step>, a: nat, b: nat, t: Topic,
                                                    h: Instance)
    requires IsRun(ss, steps) && a <= b < |ss| && Secure(ss[a], t, h)
    requires forall k | a <= k < b :: steps[k] != Release(h, t)
    requires forall k | a <= k < b && Judges(steps[k], t) ::
               h in ss[k].sessions && ss[k].sessions[h].expiresAt >= ReadingOf(steps[k]).value
    ensures Secure(ss[b], t, h)
  {
    if a < b {
      var k := b - 1;
      LiveSessionKeepsTheLease(ss, steps, a, k, t, h);
      RunKeepsInv(ss, steps, k);
      if Judges(steps[k], t) {
        LiveSessionIsNotExpired(ss[k], steps[k], t, h);
      }
      SecureStep(ss[k], steps[k], t, h);
    }
  }

  /** In particular from the step at which `h` gains the lease. */
  lemma LiveLeaseStays(ss: seq<Db>, steps: seq<Step>, a: nat, b: nat, t: Topic, h: Instance)
    requires IsRun(ss, steps) && 0 < a <= b < |ss|
    requires !HeldBy(ss[a - 1], t, h) && HeldBy(ss[a], t, h)
    requires forall k | a <= k < b :: steps[k] != Release(h, t)
    requires forall k | a <= k < b && Judges(steps[k], t) ::
               h in ss[k].sessions && ss[k].sessions[h].expiresAt >= ReadingOf(steps[k]).value
    ensures Secure(ss[b], t, h)
  {
    RunKeepsInv(ss, steps, a - 1);
    assert Enabled(ss[a - 1], steps[a - 1]) && ss[a] == Apply(ss[a - 1], steps[a - 1]);
    GainIsSecure(ss[a - 1], steps[a - 1], t, h);
    LiveSessionKeepsTheLease(ss, steps, a, b, t, h);
  }
}
