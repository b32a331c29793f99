/** The maintenance transaction and the dormancy exit as the code runs them, with every
    error return and the messages that race in between. */
module Cleanup {
  import opened Tables
  import M = MaintenanceLease
  import D = Dormancy
  import LooseScan
  import Messages
  import TopicScan

  type Key = D.Key

  datatype Fault = NoFault | AtBegin | AtInsert | AtSelect | AtUpdate | AtDelete | AtCommit
  datatype Outcome = Cleaned | LeaseHeld | Failed

  /** runMaintenance succeeds, or why not: someone else's live lease is told apart from a
      database error only if the check is reached. */
  function OutcomeOf(lease: Option<LeaseRow>, sessions: Sessions, me: Instance, now: Time, staleCutoff: Time,
                     fault: Fault): Outcome
  {
    if fault in {AtBegin, AtInsert, AtSelect} then Failed
    else if !M.MayProceed(lease, sessions, me, now, staleCutoff) then LeaseHeld
    else if fault != NoFault then Failed
    else Cleaned
  }

  /** The outcomes in terms of the fault and the lease row: any fault undoes the pass, and
      without one it is refused exactly by someone else's row that is not expired, by its
      holder's session or, without a session, by its own age. */
  lemma OutcomeContract(lease: Option<LeaseRow>, sessions: Sessions, me: Instance, now: Time, staleCutoff: Time,
                        fault: Fault)
    ensures var barred := lease.Some? && lease.value.holder != me
                          && if lease.value.holder in sessions then sessions[lease.value.holder].expiresAt >= now
                             else lease.value.acquiredAt >= staleCutoff;
            var o := OutcomeOf(lease, sessions, me, now, staleCutoff, fault);
            && (o == Cleaned <==> fault == NoFault && !barred)
            && (o == LeaseHeld <==> barred && fault !in {AtBegin, AtInsert, AtSelect})
  {
  }

  /** DeleteExpiredMessages on one message: it goes if and only if it is of the topic and older
      than the cutoff, and what stays is as it was. */
  lemma WhatAPassDeletes(messages: map<Key, Time>, t: Topic, cutoff: Time, k: Key)
    ensures k in D.DeleteExpired(messages, t, cutoff) <==> k in messages && !(k.topic == t && messages[k] < cutoff)
    ensures k in D.DeleteExpired(messages, t, cutoff) ==> D.DeleteExpired(messages, t, cutoff)[k] == messages[k]
  {
  }

  /** The code's delete is the one whose victims the messages protocol locks. */
  lemma PassDeletesTheVictims(s: Messages.State, t: Topic, cutoff: Time)
    ensures D.DeleteExpired(s.stored, t, cutoff) == s.stored - Messages.Victims(s, t, cutoff)
  {
  }

  class Maintainer {
    const me: Instance
    var leases: map<Topic, LeaseRow>
    var sessions: Sessions
    var messages: map<Key, Time>

    constructor (me: Instance, leases: map<Topic, LeaseRow>, sessions: Sessions, messages: map<Key, Time>)
      ensures this.me == me && this.leases == leases && this.sessions == sessions && this.messages == messages
    {
      this.me, this.leases, this.sessions, this.messages := me, leases, sessions, messages;
    }

    function Lease(t: Topic): Option<LeaseRow>
      reads this
    {
      if t in leases then Some(leases[t]) else None
    }

    /** runMaintenance: everything or nothing.  Only a pass that ends holding the lease
        deletes, and it deletes exactly the topic's messages older than the TTL.  Leases
        are judged and stamped by the database's `now`; the cutoff of the delete comes
        from the instance's own `clock`. */
    method RunMaintenance(t: Topic, ttl: int, now: Time, clock: Time, staleCutoff: Time, fault: Fault)
      returns (o: Outcome)
      modifies this`leases, this`messages
      ensures o == OutcomeOf(old(Lease(t)), sessions, me, now, staleCutoff, fault)
      ensures !o.Cleaned? ==> leases == old(leases) && messages == old(messages)
      ensures fault != NoFault ==> !o.Cleaned?
      ensures o.Cleaned? ==> leases == old(leases)[t := LeaseRow(me, now)]
                             && messages == D.DeleteExpired(old(messages), t, clock - ttl)
      ensures o.Cleaned? ==>
                && (forall k | k in messages :: k in old(messages) && messages[k] == old(messages)[k])
                && (forall k | k in old(messages) ::
                      k in messages <==> k.topic != t || old(messages)[k] >= clock - ttl)
    {
      if fault == AtBegin || fault == AtInsert {
        return Failed;
      }
      var txLeases := if t in leases then leases else leases[t := LeaseRow(me, now)];
      if fault == AtSelect {
        return Failed;
      }
      var row := txLeases[t];
      var leaseExpired := SelectReadsExpired(row, sessions, now, staleCutoff);
      if row.holder != me && !leaseExpired {
        return LeaseHeld;
      }
      if fault == AtUpdate {
        return Failed;
      }
      txLeases := txLeases[t := LeaseRow(me, now)];
      if fault == AtDelete {
        return Failed;
      }
      var txMessages := D.DeleteExpired(messages, t, clock - ttl);
      if fault == AtCommit {
        return Failed;
      }
      leases, messages := txLeases, txMessages;
      return Cleaned;
    }

    /** finishDormantTopic.  `raced` and `taken` are the messages and leases that others write
        between the final pass and the empty check, `late` and `lateTaken` those they write
        between the check and the release.  The lease is given up exactly when the pass
        succeeded, nothing of the topic was left at the check, neither later statement
        fails and the lease is still this instance's; otherwise it stays as it is found,
        and after a failed pass everything does.  Late messages stay, whatever happens. */
    method FinishDormantTopic(t: Topic, ttl: int, now: Time, clock: Time, staleCutoff: Time, fault: Fault,
                              raced: map<Key, Time>, taken: map<Topic, LeaseRow>, checkFails: bool,
                              late: map<Key, Time>, lateTaken: map<Topic, LeaseRow>, releaseFails: bool)
      modifies this`leases, this`messages
      ensures var o := OutcomeOf(old(Lease(t)), sessions, me, now, staleCutoff, fault);
              var left := D.DeleteExpired(old(messages), t, clock - ttl) + raced;
              var seen := old(leases)[t := LeaseRow(me, now)] + taken;
              var atRelease := seen + lateTaken;
              var empty := forall k | k in left :: k.topic != t;
              && (!o.Cleaned? ==> leases == old(leases) && messages == old(messages))
              && (o.Cleaned? && (checkFails || !empty) ==> messages == left && leases == seen)
              && (o.Cleaned? && !checkFails && empty ==>
                    && messages == left + late
                    && leases == if !releaseFails && atRelease[t].holder == me then atRelease - {t} else atRelease)
    {
      var o := RunMaintenance(t, ttl, now, clock, staleCutoff, fault);
      if !o.Cleaned? {
        return;
      }
      leases, messages := leases + taken, messages + raced;
      if checkFails {
        return;
      }
      if exists k | k in messages :: k.topic == t {
        return;
      }
      leases, messages := leases + lateTaken, messages + late;
      if !releaseFails && leases[t].holder == me {
        leases := leases - {t};
      }
    }
  }

  /** What a release that a message slipped past leaves for the next scan.  The message was
      inserted at step `a`; while its bump counts, or once the catch-up sweep lists it, a scan
      at a later state `n` finds the topic a candidate, and with the lease gone an unleased
      one that any instance may claim. */
  lemma LateMessageIsFoundAgain(ss: seq<D.State>, steps: seq<D.Step>, a: nat, n: nat, k: Key, listed: seq<Topic>,
                                dflt: Option<int>, now: Time, slack: Time, leases: map<Topic, LeaseRow>,
                                sessions: Sessions, other: Instance, staleCutoff: Time)
    requires D.IsRun(ss, steps) && a < n < |ss| && steps[a].Insert? && k in steps[a].rows && k in ss[n].messages
    requires LooseScan.IsDistinctTopics(listed, ss[n].messages.Keys) && k.topic !in leases
    ensures k.topic in ss[n].topics
    ensures var activity := ss[n].topics[k.topic];
            var ttl := D.Ttl(activity, dflt);
            var row := TopicScan.QueryRow(k.topic, activity.expiration, leases, sessions, other, now, staleCutoff);
            && row.unleased && !row.heldByMe
            && (ttl > 0 ==> D.Candidate(activity, dflt, k.topic in listed, now, slack))
            && (ttl > 0 && k.topic !in steps[a].skipped && now - steps[a].now < ttl + slack - D.GATE ==>
                  D.Candidate(activity, dflt, false, now, slack))
  {
    D.CatchUpFindsEveryMessage(ss, steps, n, n, k, listed, dflt, now, slack);
    var ttl := D.Ttl(ss[n].topics[k.topic], dflt);
    assert k.topic in Messages.TopicsOf(steps[a].rows);
    if ttl > 0 && k.topic !in steps[a].skipped && now - steps[a].now < ttl + slack - D.GATE {
      D.InsertReactivates(ss, steps, a, n, k.topic, dflt, now, slack);
    }
  }

  /** The code's pass is the protocol's: lock, delete and commit of MaintenanceLease. */
  lemma PassIsThreeSteps(db: M.Db, x: M.TxId, t: Topic, me: Instance, now: Time, staleCutoff: Time)
    requires x !in db.txs && t !in db.locks
    ensures var o := OutcomeOf(M.RowOf(db, t), db.sessions, me, now, staleCutoff, NoFault);
            var begin := M.Begin(x, me, t, now, staleCutoff);
            && (o.LeaseHeld? <==> !M.Enabled(db, begin))
            && (o.Cleaned? ==>
                  var s1 := M.Apply(db, begin);
                  M.Enabled(s1, M.DeleteExpired(x))
                  && var s2 := M.Apply(s1, M.DeleteExpired(x));
                     M.Enabled(s2, M.Commit(x))
                     && M.Apply(s2, M.Commit(x)) == db.(leases := db.leases[t := LeaseRow(me, now)]))
  {
    if M.Enabled(db, M.Begin(x, me, t, now, staleCutoff)) {
      var s2 := M.Apply(M.Apply(db, M.Begin(x, me, t, now, staleCutoff)), M.DeleteExpired(x));
      assert s2.locks - {t} == db.locks && s2.txs - {x} == db.txs;
    }
  }

  /** A dormancy exit leaves nothing behind: if the scan at `scanned` dropped a topic whose
      stamp covers its messages with some lag, and the slack allows for it and for the skew
      of the clocks, every message is deleted by a pass with the TTL the scan used, on a
      clock at most `skew` behind the scan's; so with no message racing in the topic ends
      up empty. */
  lemma DormantTopicEndsEmpty(s: D.State, t: Topic, dflt: Option<int>, scanned: Time, slack: Time, lag: Time,
                              clock: Time, skew: Time)
    requires D.TopicCovered(s, t, lag) && slack > D.GATE + lag + skew && scanned <= clock + skew
    requires t in s.topics && D.Ttl(s.topics[t], dflt) > 0 && !D.Candidate(s.topics[t], dflt, false, scanned, slack)
    ensures forall k | k in D.DeleteExpired(s.messages, t, clock - D.Ttl(s.topics[t], dflt)) :: k.topic != t
  {
    forall k | k in s.messages && k.topic == t
      ensures s.messages[k] < clock - D.Ttl(s.topics[t], dflt)
    {
      D.DroppedMeansExpired(s, k, dflt, scanned, slack, lag, skew);
    }
  }
}
