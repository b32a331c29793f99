/** The rows the protocols share, and the meaning of the queries that judge them.

    Times are integers (nanoseconds of whichever clock took the reading).  A SQL
    NULL is `None`, and each query's COALESCE is written out. */
module Tables {
  type Topic = string
  type Instance = nat
  type Time = int

  datatype Option<+T> = None | Some(value: T)

  /** consumer_sessions: one heartbeat row per instance. */
  datatype Session = Session(expiresAt: Time, maintainsDefault: bool)
  type Sessions = map<Instance, Session>

  /** topics, the two exclusive-consumer columns. */
  datatype TopicRow = TopicRow(holder: Option<Instance>, override: Option<Time>)

  /** maintenance_leases. */
  datatype LeaseRow = LeaseRow(holder: Instance, acquiredAt: Time)

  function Coalesce<T>(a: Option<T>, b: Option<T>): Option<T> {
    if a.Some? then a else b
  }

  /** `expires_at` of the session joined on a nullable holder column. */
  function SessionExpiry(holder: Option<Instance>, sessions: Sessions): Option<Time> {
    if holder.Some? && holder.value in sessions then Some(sessions[holder.value].expiresAt) else None
  }

  // ----- exclusive-consumer leases ---------------------------------------------

  /** The expiry GetTopicForUpdate returns: a per-topic override wins, and NULL
      defers to the holder's session. */
  function LeaseExpiry(row: TopicRow, sessions: Sessions): Option<Time> {
    Coalesce(row.override, SessionExpiry(row.holder, sessions))
  }

  /** `Valid && Time.After(now)`. */
  predicate Unexpired(expiry: Option<Time>, now: Time) {
    expiry.Some? && expiry.value > now
  }

  /** The outcomes of checkExclusiveAccessForUpdate. */
  datatype Access = Granted | ErrLeaseHeld | ErrLeaseRequired

  function CheckAccess(row: TopicRow, expiry: Option<Time>, me: Instance, now: Time): Access {
    if row.holder.None? then Granted
    else if row.holder.value == me then
      if Unexpired(expiry, now) then Granted else ErrLeaseRequired
    else if Unexpired(expiry, now) then ErrLeaseHeld
    else ErrLeaseRequired
  }

  /** tryAcquireTopicLease gives up only when someone else's lease is still live. */
  predicate AcquireRefused(row: TopicRow, expiry: Option<Time>, me: Instance, now: Time) {
    row.holder.Some? && row.holder.value != me && Unexpired(expiry, now)
  }

  /** What ProcessMessages would be told about `row` at time `now`. */
  function Verdict(row: TopicRow, sessions: Sessions, me: Instance, now: Time): Access {
    CheckAccess(row, LeaseExpiry(row, sessions), me, now)
  }

  /** The access rule on the columns themselves.  A hold is live while its override is in the
      future or, with no override, while its holder's session is.  A topic nobody holds is
      open to all; the holder has access while the hold is live and nobody else ever; once
      it is over everybody has to acquire, and only a live hold of someone else refuses. */
  lemma AccessRule(row: TopicRow, sessions: Sessions, me: Instance, now: Time)
    ensures var held := row.holder.Some?;
            var live := if row.override.Some? then row.override.value > now
                        else held && row.holder.value in sessions && sessions[row.holder.value].expiresAt > now;
            && (Verdict(row, sessions, me, now) == Granted <==> !held || (row.holder.value == me && live))
            && (Verdict(row, sessions, me, now) == ErrLeaseHeld <==> held && row.holder.value != me && live)
            && (Verdict(row, sessions, me, now) == ErrLeaseRequired <==> held && !live)
            && (AcquireRefused(row, LeaseExpiry(row, sessions), me, now) <==> held && row.holder.value != me && live)
  {
  }

  /** The two readers of a topic row agree: ProcessMessages reports a held lease exactly
      when AcquireTopic would have to wait, and a required lease exactly when acquiring
      would succeed at once but has not been done. */
  lemma AccessAgreesWithAcquire(row: TopicRow, sessions: Sessions, me: Instance, now: Time)
    ensures Verdict(row, sessions, me, now) == ErrLeaseHeld
            <==> AcquireRefused(row, LeaseExpiry(row, sessions), me, now)
    ensures Verdict(row, sessions, me, now) == ErrLeaseRequired
            <==> row.holder.Some? && !AcquireRefused(row, LeaseExpiry(row, sessions), me, now)
                 && !(row.holder == Some(me) && Unexpired(LeaseExpiry(row, sessions), now))
  {
  }

  /** An override decides alone: whatever the sessions say, the holder has access before
      it and needs to acquire again from it on, and others are refused only before it. */
  lemma OverrideDecides(holder: Instance, override: Time, sessions: Sessions, other: Instance, now: Time)
    requires other != holder
    ensures var row := TopicRow(Some(holder), Some(override));
            && Verdict(row, sessions, holder, now) == (if now < override then Granted else ErrLeaseRequired)
            && Verdict(row, sessions, other, now) == (if now < override then ErrLeaseHeld else ErrLeaseRequired)
            && (AcquireRefused(row, LeaseExpiry(row, sessions), other, now) <==> now < override)
  {
  }

  // ----- maintenance leases ----------------------------------------------------

  /** `s.expires_at < now()` over the left-joined session row. */
  function SessionExpired(holder: Instance, sessions: Sessions, now: Time): Option<bool> {
    if holder in sessions then Some(sessions[holder].expiresAt < now) else None
  }

  /** `lease_expired` of SelectMaintenanceLeaseForUpdate. */
  predicate SelectReadsExpired(l: LeaseRow, sessions: Sessions, now: Time, staleCutoff: Time) {
    Coalesce(Coalesce(SessionExpired(l.holder, sessions, now), Some(l.acquiredAt < staleCutoff)), Some(true)).value
  }

  /** The WHERE clause of ClaimMaintenanceLeases. */
  predicate ClaimReadsExpired(l: LeaseRow, sessions: Sessions, now: Time, staleCutoff: Time) {
    Coalesce(SessionExpired(l.holder, sessions, now), Some(l.acquiredAt < staleCutoff)).value
  }

  /** `lease_expired` of GetMaintenanceCandidateTopics, whose lease row is itself
      left-joined and may be missing. */
  predicate ScanReadsExpired(l: Option<LeaseRow>, sessions: Sessions, now: Time, staleCutoff: Time) {
    var session := if l.Some? then SessionExpired(l.value.holder, sessions, now) else None;
    var stale := if l.Some? then Some(l.value.acquiredAt < staleCutoff) else None;
    Coalesce(Coalesce(session, stale), Some(true)).value
  }

  /** The rule in words: the session decides, and only a holder without a session
      row is judged by the age of its lease row. */
  predicate LeaseExpired(l: LeaseRow, sessions: Sessions, now: Time, staleCutoff: Time) {
    if l.holder in sessions then sessions[l.holder].expiresAt < now else l.acquiredAt < staleCutoff
  }

  /** The three queries that judge a maintenance lease apply one and the same rule. */
  lemma ExpiryQueriesAgree(l: LeaseRow, sessions: Sessions, now: Time, staleCutoff: Time)
    ensures SelectReadsExpired(l, sessions, now, staleCutoff) == LeaseExpired(l, sessions, now, staleCutoff)
    ensures ClaimReadsExpired(l, sessions, now, staleCutoff) == LeaseExpired(l, sessions, now, staleCutoff)
    ensures ScanReadsExpired(Some(l), sessions, now, staleCutoff) == LeaseExpired(l, sessions, now, staleCutoff)
  {
  }

  // ----- garbage collection of sessions ----------------------------------------

  /** DeleteExpiredConsumerSessions. */
  function Sweep(sessions: Sessions, cutoff: Time): Sessions {
    map i | i in sessions && sessions[i].expiresAt >= cutoff :: sessions[i]
  }

  predicate Swept(i: Instance, sessions: Sessions, cutoff: Time) {
    i in sessions && i !in Sweep(sessions, cutoff)
  }

  /** The sweep removes exactly the sessions the maintenance queries would read as expired at
      the cutoff, and touches no other. */
  lemma SweepTakesExpiredSessions(sessions: Sessions, cutoff: Time, i: Instance)
    ensures Swept(i, sessions, cutoff) <==> SessionExpired(i, sessions, cutoff) == Some(true)
    ensures i in Sweep(sessions, cutoff) ==> i in sessions && Sweep(sessions, cutoff)[i] == sessions[i]
  {
  }

  /** Sweeping leaves every exclusive-lease verdict alone exactly when no swept
      session is still live at the time of the verdict; a cutoff that is not in
      the future is enough. */
  lemma SweepKeepsAccessVerdicts(sessions: Sessions, cutoff: Time, now: Time)
    ensures (forall i | Swept(i, sessions, cutoff) :: sessions[i].expiresAt <= now)
            <==> (forall row, me :: Verdict(row, Sweep(sessions, cutoff), me, now) == Verdict(row, sessions, me, now))
    ensures cutoff <= now ==> forall i | Swept(i, sessions, cutoff) :: sessions[i].expiresAt <= now
  {
    if i :| Swept(i, sessions, cutoff) && sessions[i].expiresAt > now {
      var row := TopicRow(Some(i), None);
      assert Verdict(row, Sweep(sessions, cutoff), i, now) != Verdict(row, sessions, i, now);
    }
  }

  /** For maintenance leases, deleting a session is not the same as its having
      expired: once the row is gone the lease is judged by its own age.  With a
      cutoff in the past the verdicts of a whole lease table survive the sweep
      exactly when every lease whose holder is swept is older than the staleness
      cutoff. */
  lemma SweepKeepsMaintenanceVerdicts(leases: map<Topic, LeaseRow>, sessions: Sessions, cutoff: Time, now: Time,
                                      staleCutoff: Time)
    requires cutoff <= now
    ensures (forall t | t in leases ::
               LeaseExpired(leases[t], Sweep(sessions, cutoff), now, staleCutoff)
               == LeaseExpired(leases[t], sessions, now, staleCutoff))
            <==> (forall t | t in leases && Swept(leases[t].holder, sessions, cutoff) ::
                    leases[t].acquiredAt < staleCutoff)
  {
    forall t | t in leases
      ensures LeaseExpired(leases[t], Sweep(sessions, cutoff), now, staleCutoff)
              == LeaseExpired(leases[t], sessions, now, staleCutoff)
              <==> (Swept(leases[t].holder, sessions, cutoff) ==> leases[t].acquiredAt < staleCutoff)
    {
    }
  }

  /** A sweep that revives a lease: the holder's session expired long ago, yet the
      holder re-stamped its lease within the staleness window. */
  lemma SweepCanReviveALease()
    ensures exists sessions, cutoff, now, staleCutoff, l: LeaseRow ::
              cutoff < staleCutoff < now
              && LeaseExpired(l, sessions, now, staleCutoff)
              && !LeaseExpired(l, Sweep(sessions, cutoff), now, staleCutoff)
  {
    var sessions: Sessions := map[0 := Session(10, false)];
    var l := LeaseRow(0, 95);
    assert LeaseExpired(l, sessions, 100, 70);
    assert !LeaseExpired(l, Sweep(sessions, 50), 100, 70);
  }

  // ----- lists without repetition ---------------------------------------------------

  predicate Distinct<T(==)>(xs: seq<T>) {
    forall m, n | 0 <= m < n < |xs| :: xs[m] != xs[n]
  }

  lemma DistinctInit<T>(xs: seq<T>, x: T)
    requires Distinct(xs + [x])
    ensures Distinct(xs) && x !in xs
  {
    assert forall n | 0 <= n < |xs| :: (xs + [x])[n] == xs[n];
    assert (xs + [x])[|xs|] == x;
  }

  lemma DistinctSnoc<T>(xs: seq<T>, x: T)
    requires Distinct(xs)
    ensures x !in xs ==> Distinct(xs + [x])
  {
  }

  lemma DistinctAppend<T>(a: seq<T>, b: seq<T>)
    requires Distinct(a) && Distinct(b) && forall x | x in a :: x !in b
    ensures Distinct(a + b)
  {
    forall m, n | 0 <= m < n < |a + b|
      ensures (a + b)[m] != (a + b)[n]
    {
      if m < |a| <= n {
        assert (a + b)[m] in a && (a + b)[n] in b;
      }
    }
  }

  // ----- rounding up --------------------------------------------------------------

  /** The integer ceiling of n / d, computed as the code computes it. */
  function CeilDiv(n: nat, d: nat): nat
    requires d >= 1
  {
    (n + d - 1) / d
  }

  lemma CeilDivBounds(n: nat, d: nat)
    requires d >= 1
    ensures n <= CeilDiv(n, d) * d < n + d
  {
    var m := n + d - 1;
    assert m == m / d * d + m % d;
  }

  lemma CeilDivUnique(n: nat, d: nat, c: nat)
    requires d >= 1 && n <= c * d < n + d
    ensures c == CeilDiv(n, d)
  {
    var e := CeilDiv(n, d);
    CeilDivBounds(n, d);
    if c < e {
      assert (c + 1) * d <= e * d by { MulMonotone(c + 1, e, d); }
    } else if e < c {
      assert (e + 1) * d <= c * d by { MulMonotone(e + 1, c, d); }
    }
  }

  lemma MulMonotone(a: nat, b: nat, d: nat)
    requires a <= b
    ensures a * d <= b * d
  {
  }
}
