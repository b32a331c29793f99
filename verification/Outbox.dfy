/** AcquireTopic and ReleaseTopic as one caller runs them, against a database that other
    instances change between its statements: the control flow that LeaseHold takes apart
    into steps, with every error return. */
module Outbox {
  import opened Tables
  import E = ExclusiveLease
  import W = LeaseWatcher

  /** Where a database error strikes tryAcquireTopicLease. */
  datatype Fault = NoFault | AtBegin | AtEnsureRow | AtLock | AtSession | AtSet | AtCommit

  /** One attempt: what the committed tables hold by the time it has the row lock, the
      clock reading of its check, its session upsert, and its fault. */
  datatype Attempt = Attempt(rows: map<Topic, TopicRow>, sessions: Sessions, now: Time, session: Session, fault: Fault)

  /** One expiry write: what the topics table holds when it runs, the expiry, its fate. */
  datatype Write = Write(rows: map<Topic, TopicRow>, expiresAt: Time, fails: bool)

  datatype Outcome = Acquired | Refused | Failed

  /** How an attempt ends: errors before the check fail it, a live lease of someone else
      refuses it, and errors after the check fail it again. */
  function OutcomeOf(a: Attempt, me: Instance, t: Topic): Outcome {
    var row := E.RowOf(a.rows, t);
    if a.fault in {AtBegin, AtEnsureRow, AtLock} then Failed
    else if AcquireRefused(row, LeaseExpiry(row, a.sessions), me, a.now) then Refused
    else if a.fault != NoFault then Failed
    else Acquired
  }

  /** The outcomes in terms of the fault and the row: any fault loses the lease, whatever the
      row says, and without one only a live hold of someone else does. */
  lemma OutcomeContract(a: Attempt, me: Instance, t: Topic)
    ensures var row := E.RowOf(a.rows, t);
            var barred := row.holder.Some? && row.holder.value != me
                          && Verdict(row, a.sessions, me, a.now) == ErrLeaseHeld;
            && (OutcomeOf(a, me, t) == Acquired <==> a.fault == NoFault && !barred)
            && (OutcomeOf(a, me, t) == Refused <==> barred && a.fault !in {AtBegin, AtEnsureRow, AtLock})
  {
  }

  /** A granted attempt is the protocol's locking step and commit step in a row; a refused
      one could not take the locking step. */
  lemma AttemptIsTwoSteps(a: Attempt, me: Instance, t: Topic, db: E.Db, x: E.TxId)
    requires db.rows == a.rows && db.sessions == a.sessions && x !in db.txs && t !in db.locks
    ensures OutcomeOf(a, me, t) == Refused ==> !E.Enabled(db, E.AcquireLock(x, me, t, a.now))
    ensures OutcomeOf(a, me, t) == Acquired ==>
              && E.Enabled(db, E.AcquireLock(x, me, t, a.now))
              && var locked := E.Apply(db, E.AcquireLock(x, me, t, a.now));
                 E.Enabled(locked, E.AcquireCommit(x, a.session))
                 && E.Apply(locked, E.AcquireCommit(x, a.session))
                    == db.(rows := db.rows[t := TopicRow(Some(me), None)], sessions := db.sessions[me := a.session])
  {
    if OutcomeOf(a, me, t) == Acquired {
      var locked := E.Apply(db, E.AcquireLock(x, me, t, a.now));
      assert locked.locks - {t} == db.locks && locked.txs - {x} == db.txs;
    }
  }

  /** The topics table after a write: the protocol's SetExpiry step, or nothing. */
  function Written(w: Write, me: Instance, t: Topic): map<Topic, TopicRow> {
    if w.fails then w.rows
    else E.Apply(E.Db(w.rows, map[], map[], map[]), E.SetExpiry(me, t, w.expiresAt)).rows
  }

  /** A failed write leaves the table as it was; one that lands sets the expiry of the writer's
      own row, keeps its holder, and touches no other row. */
  lemma WrittenContract(w: Write, me: Instance, t: Topic, u: Topic)
    ensures w.fails ==> Written(w, me, t) == w.rows
    ensures var mine := E.RowOf(w.rows, t).holder == Some(me);
            E.RowOf(Written(w, me, t), u)
            == if !w.fails && mine && u == t then TopicRow(Some(me), Some(w.expiresAt)) else E.RowOf(w.rows, u)
  {
  }

  /** How many attempts are refused before the first that is not. */
  function Refusals(attempts: seq<Attempt>, me: Instance, t: Topic): (n: nat)
    ensures n <= |attempts|
    ensures forall m | 0 <= m < n :: OutcomeOf(attempts[m], me, t) == Refused
    ensures n < |attempts| ==> OutcomeOf(attempts[n], me, t) != Refused
  {
    if attempts == [] || OutcomeOf(attempts[0], me, t) != Refused then 0 else 1 + Refusals(attempts[1..], me, t)
  }

  /** Some attempt is granted before any fails. */
  predicate Succeeds(attempts: seq<Attempt>, me: Instance, t: Topic) {
    var n := Refusals(attempts, me, t);
    n < |attempts| && OutcomeOf(attempts[n], me, t) == Acquired
  }

  class Consumer {
    const me: Instance
    const watcher: W.Registry
    var rows: map<Topic, TopicRow>
    var sessions: Sessions

    constructor (me: Instance, rows: map<Topic, TopicRow>, sessions: Sessions)
      ensures watcher.Valid() && fresh(watcher) && this.me == me && this.rows == rows && this.sessions == sessions
    {
      this.me, this.rows, this.sessions := me, rows, sessions;
      watcher := new W.Registry();
    }

    /** One transaction: its writes go to the tables at the commit, or nowhere. */
    method TryAcquireTopicLease(t: Topic, a: Attempt) returns (o: Outcome)
      modifies this`rows, this`sessions
      ensures o == OutcomeOf(a, me, t)
      ensures a.fault != NoFault ==> !o.Acquired? && rows == a.rows && sessions == a.sessions
      ensures rows == if o.Acquired? then a.rows[t := TopicRow(Some(me), None)] else a.rows
      ensures sessions == if o.Acquired? then a.sessions[me := a.session] else a.sessions
    {
      rows, sessions := a.rows, a.sessions;
      if a.fault == AtBegin || a.fault == AtEnsureRow || a.fault == AtLock {
        return Failed;
      }
      var txRows := rows[t := E.RowOf(rows, t)];
      var row := txRows[t];
      var expiry := LeaseExpiry(row, sessions);
      var holderIsUs := row.holder.Some? && row.holder.value == me;
      if row.holder.Some? && !holderIsUs && Unexpired(expiry, a.now) {
        return Refused;
      }
      if a.fault == AtSession {
        return Failed;
      }
      var txSessions := sessions[me := a.session];
      if a.fault == AtSet {
        return Failed;
      }
      txRows := txRows[t := TopicRow(Some(me), None)];
      if a.fault == AtCommit {
        return Failed;
      }
      rows, sessions := txRows, txSessions;
      return Acquired;
    }

    /** RenewTopicExclusiveConsumer: guarded by the holder column. */
    method WriteExpiry(t: Topic, w: Write) returns (ok: bool)
      modifies this`rows
      ensures ok == !w.fails && rows == Written(w, me, t)
    {
      rows := w.rows;
      if w.fails {
        return false;
      }
      if t in rows && rows[t].holder == Some(me) {
        rows := rows[t := rows[t].(override := Some(w.expiresAt))];
      }
      return true;
    }

    /** The retry loop of AcquireTopic: the first attempt that is not refused decides. */
    method TryUntilDecided(t: Topic, attempts: seq<Attempt>) returns (acquired: bool)
      requires |attempts| > 0
      modifies this`rows, this`sessions
      ensures acquired == Succeeds(attempts, me, t)
      ensures acquired ==> var a := attempts[Refusals(attempts, me, t)];
                           rows == a.rows[t := TopicRow(Some(me), None)] && sessions == a.sessions[me := a.session]
      ensures !acquired ==>
                exists m | 0 <= m < |attempts| :: rows == attempts[m].rows && sessions == attempts[m].sessions
    {
      ghost var decisive := Refusals(attempts, me, t);
      var n := 0;
      while n < |attempts|
        invariant 0 <= n <= decisive
        invariant n > 0 ==> rows == attempts[n - 1].rows && sessions == attempts[n - 1].sessions
      {
        var o := TryAcquireTopicLease(t, attempts[n]);
        if !o.Refused? {
          return o.Acquired?;
        }
        n := n + 1;
      }
      return false;
    }

    /** AcquireTopic over the attempts it gets to make before its ctx ends; with the last
        of them refused, ctx.Done wins the select.

        On success the granting attempt's writes are in the tables and a new watcher waits.
        On failure the old watcher is stopped for good; if there was one, the call makes
        the expiry write that watcher owed, and when the write lands the row is not left
        open-ended. */
    method AcquireTopic(t: Topic, attempts: seq<Attempt>, grace: Write) returns (acquired: bool)
      requires watcher.Valid() && |attempts| > 0
      modifies this`rows, this`sessions, watcher
      ensures watcher.Valid()
      ensures t == "" ==> !acquired && unchanged(this) && unchanged(watcher)
      ensures t != "" ==> acquired == Succeeds(attempts, me, t)
      ensures t != "" ==> watcher.View(t) == var stopped := W.StopResult(old(watcher.View(t)));
                                             if acquired then W.Store(stopped) else stopped
      ensures acquired ==> var a := attempts[Refusals(attempts, me, t)];
                           rows == a.rows[t := TopicRow(Some(me), None)] && sessions == a.sessions[me := a.session]
      ensures t != "" && !acquired && old(watcher.View(t)).running.Some? ==>
                rows == Written(grace, me, t) && (!grace.fails ==> !E.OpenEnded(rows, me, t))
      ensures t != "" && !acquired && old(watcher.View(t)).running.None? ==>
                exists m | 0 <= m < |attempts| :: rows == attempts[m].rows
      ensures forall u | u != t :: watcher.View(u) == old(watcher.View(u))
    {
      if t == "" {
        return false;
      }
      StopIdempotent(watcher.View(t));
      var stopped := watcher.Stop(t);
      acquired := TryUntilDecided(t, attempts);
      if acquired {
        watcher.Start(t);
      } else if stopped {
        var _ := WriteExpiry(t, grace);
      }
    }

    /** ReleaseTopic: the immediate expiry, or if that fails and a watcher was stopped,
        the grace-period one. */
    method ReleaseTopic(t: Topic, release: Write, grace: Write) returns (ok: bool)
      requires watcher.Valid()
      modifies this`rows, watcher
      ensures watcher.Valid()
      ensures t == "" ==> !ok && unchanged(this) && unchanged(watcher)
      ensures t != "" ==>
                && ok == !release.fails && watcher.View(t) == W.StopResult(old(watcher.View(t)))
                && var w := if release.fails && old(watcher.View(t)).running.Some? then grace else release;
                   rows == Written(w, me, t)
      ensures ok || (t != "" && old(watcher.View(t)).running.Some? && !grace.fails) ==> !E.OpenEnded(rows, me, t)
      ensures forall u | u != t :: watcher.View(u) == old(watcher.View(u))
    {
      if t == "" {
        return false;
      }
      var stopped := watcher.Stop(t);
      ok := WriteExpiry(t, release);
      if !ok && stopped {
        var _ := WriteExpiry(t, grace);
      }
    }
  }

  /** Start finds nothing left to stop after a Stop. */
  lemma StopIdempotent(w: W.Watch)
    requires W.Inv(w)
    ensures W.Inv(W.StopResult(w)) && W.StopResult(W.StopResult(w)) == W.StopResult(w)
  {
    W.StopContract(w);
  }
}
