/** How instances divide the maintenance leases: one instance's claim of its fair share
    of a class, and what scans by many instances add up to. */
module FairShare {
  import opened Tables
  import opened TopicScan
  import M = MaintenanceLease

  // ----- the two claim statements --------------------------------------------------------

  /** The readings a statement is judged by: now(), and the caller's staleness cutoff. */
  datatype Tick = Tick(now: Time, staleCutoff: Time)

  /** The topics of `ts` that are in `s`, and those that are not, in order. */
  function Keep(ts: seq<Topic>, s: set<Topic>): seq<Topic> {
    if ts == [] then []
    else Keep(ts[..|ts| - 1], s) + if ts[|ts| - 1] in s then [ts[|ts| - 1]] else []
  }

  function Without(ts: seq<Topic>, s: set<Topic>): seq<Topic> {
    if ts == [] then []
    else Without(ts[..|ts| - 1], s) + if ts[|ts| - 1] in s then [] else [ts[|ts| - 1]]
  }

  /** The rows a takeover may take. */
  function ExpiredRows(leases: Leases, sessions: Sessions, at: Tick): set<Topic> {
    set t | t in leases && ClaimReadsExpired(leases[t], sessions, at.now, at.staleCutoff)
  }

  /** The lease table once `holder` has won `topics` at time `now`. */
  function Leased(leases: Leases, topics: seq<Topic>, holder: Instance, now: Time): Leases {
    leases + map t | t in topics :: LeaseRow(holder, now)
  }

  // ----- claimClassShare -------------------------------------------------------------------

  /** A database error on one of the two statements, and rows locked by others. */
  datatype Trouble = Trouble(insertFails: bool, claimFails: bool, busy: set<Topic>)

  const NO_TROUBLE := Trouble(false, false, {})

  function Prefix(ts: seq<Topic>, n: nat): seq<Topic> {
    if |ts| <= n then ts else ts[..n]
  }

  /** The fair share of a class: its candidates divided among the instances, rounded up. */
  function Share(k: Class, instances: int): nat {
    CeilDiv(k.candidates, if instances < 1 then 1 else instances)
  }

  function Budget(k: Class, instances: int): nat {
    if Share(k, instances) - k.held > 1 then Share(k, instances) - k.held else 1
  }

  function Inserted(k: Class, budget: nat, leases: Leases, trouble: Trouble): seq<Topic> {
    if k.unleased == [] || trouble.insertFails then [] else Without(Prefix(k.unleased, budget), leases.Keys)
  }

  function Claimed(k: Class, left: int, leases: Leases, sessions: Sessions, at: Tick, trouble: Trouble): seq<Topic> {
    if left <= 0 || k.stale == [] || trouble.claimFails then []
    else Keep(Prefix(k.stale, left), ExpiredRows(leases, sessions, at) - trouble.busy)
  }

  /** The topics a claim wins: unleased ones first, and whatever budget they leave for
      stale ones. */
  function Wins(k: Class, budget: nat, leases: Leases, sessions: Sessions, at: Tick, trouble: Trouble): seq<Topic> {
    var inserted := Inserted(k, budget, leases, trouble);
    inserted + Claimed(k, budget - |inserted|, leases, sessions, at, trouble)
  }

  lemma {:induction false} KeepContract(ts: seq<Topic>, s: set<Topic>)
    ensures |Keep(ts, s)| <= |ts| && forall t :: t in Keep(ts, s) <==> t in ts && t in s
    ensures Distinct(ts) ==> Distinct(Keep(ts, s))
  {
    if ts != [] {
      var n := |ts| - 1;
      KeepContract(ts[..n], s);
      assert ts == ts[..n] + [ts[n]];
      if Distinct(ts) {
        DistinctInit(ts[..n], ts[n]);
        DistinctSnoc(Keep(ts[..n], s), ts[n]);
      }
    }
  }

  lemma {:induction false} WithoutContract(ts: seq<Topic>, s: set<Topic>)
    ensures |Without(ts, s)| <= |ts| && forall t :: t in Without(ts, s) <==> t in ts && t !in s
    ensures Distinct(ts) ==> Distinct(Without(ts, s))
  {
    if ts != [] {
      var n := |ts| - 1;
      WithoutContract(ts[..n], s);
      assert ts == ts[..n] + [ts[n]];
      if Distinct(ts) {
        DistinctInit(ts[..n], ts[n]);
        DistinctSnoc(Without(ts[..n], s), ts[n]);
      }
    }
  }

  lemma PrefixContract(ts: seq<Topic>, n: nat)
    ensures |Prefix(ts, n)| <= n && forall t | t in Prefix(ts, n) :: t in ts
    ensures Distinct(ts) ==> Distinct(Prefix(ts, n))
  {
  }

  /** A class as the scan delivers it: no topic is listed twice. */
  predicate WellFormed(k: Class) {
    Distinct(k.unleased) && Distinct(k.stale) && forall t | t in k.unleased :: t !in k.stale
  }

  /** What the scan hands to the claim: for rows the query returned, one per topic, each
      class `Classify` computes is well-formed and a true account of the class's topics. */
  lemma ScanFeedsTheClaim(rows: seq<Candidate>, dflt: int, explicit: bool, leases: Leases, sessions: Sessions,
                          me: Instance, at: Tick)
    requires Distinct(TopicsIn(rows))
    requires forall c | c in rows :: c == QueryRow(c.topic, c.expiration, leases, sessions, me, at.now, at.staleCutoff)
    ensures var mine := InClass(rows, dflt, explicit);
            && WellFormed(ClassOf(mine))
            && IsClass(ClassOf(mine), Elements(TopicsIn(mine)), leases, sessions, me, at.now, at.staleCutoff)
  {
    var mine := InClass(rows, dflt, explicit);
    InClassContract(rows, dflt, explicit);
    ClassOfIsTrue(mine, leases, sessions, me, at.now, at.staleCutoff);
    TrueClassIsWellFormed(ClassOf(mine), Elements(TopicsIn(mine)), leases, sessions, me, at);
  }

  /** The unleased and the stale topics of a true account cannot meet. */
  lemma TrueClassIsWellFormed(k: Class, topics: set<Topic>, leases: Leases, sessions: Sessions, me: Instance, at: Tick)
    requires IsClass(k, topics, leases, sessions, me, at.now, at.staleCutoff)
    ensures WellFormed(k)
  {
    forall t | t in k.unleased
      ensures t !in k.stale
    {
      assert t in Elements(k.unleased);
      assert t in k.stale ==> t in Elements(k.stale);
    }
  }

  lemma InsertedContract(k: Class, budget: nat, leases: Leases, trouble: Trouble)
    ensures |Inserted(k, budget, leases, trouble)| <= budget
    ensures Distinct(k.unleased) ==> Distinct(Inserted(k, budget, leases, trouble))
    ensures forall t | t in Inserted(k, budget, leases, trouble) :: t in k.unleased && t !in leases
  {
    var prefix := Prefix(k.unleased, budget);
    PrefixContract(k.unleased, budget);
    WithoutContract(prefix, leases.Keys);
  }

  lemma ClaimedContract(k: Class, left: nat, leases: Leases, sessions: Sessions, at: Tick, trouble: Trouble)
    ensures |Claimed(k, left, leases, sessions, at, trouble)| <= left
    ensures Distinct(k.stale) ==> Distinct(Claimed(k, left, leases, sessions, at, trouble))
    ensures forall t | t in Claimed(k, left, leases, sessions, at, trouble) ::
              t in k.stale && t in leases && LeaseExpired(leases[t], sessions, at.now, at.staleCutoff)
  {
    var prefix := Prefix(k.stale, left);
    PrefixContract(k.stale, left);
    KeepContract(prefix, ExpiredRows(leases, sessions, at) - trouble.busy);
  }

  /** Whatever else is going on, a claim wins topics of its own two lists, each of them
      without a lease or with an expired one, no topic twice, and never more than its
      budget. */
  lemma WinsContract(k: Class, budget: nat, leases: Leases, sessions: Sessions, at: Tick, trouble: Trouble)
    ensures |Wins(k, budget, leases, sessions, at, trouble)| <= budget
    ensures WellFormed(k) ==> Distinct(Wins(k, budget, leases, sessions, at, trouble))
    ensures forall t | t in Wins(k, budget, leases, sessions, at, trouble) ::
              || (t in k.unleased && t !in leases)
              || (t in k.stale && t in leases && LeaseExpired(leases[t], sessions, at.now, at.staleCutoff))
  {
    InsertedContract(k, budget, leases, trouble);
    var left := budget - |Inserted(k, budget, leases, trouble)|;
    ClaimedContract(k, left, leases, sessions, at, trouble);
    if WellFormed(k) {
      DistinctAppend(Inserted(k, budget, leases, trouble), Claimed(k, left, leases, sessions, at, trouble));
    }
  }

  /** What goes wrong costs only its own half: a failed insert wins no unleased topic, a failed
      takeover no stale one, and a row locked by someone else is never taken over. */
  lemma TroubleCostsItsHalf(k: Class, budget: nat, leases: Leases, sessions: Sessions, at: Tick, trouble: Trouble)
    ensures forall t | t in Wins(k, budget, leases, sessions, at, trouble) ::
              && (t !in leases ==> !trouble.insertFails)
              && (t in leases ==> !trouble.claimFails && t !in trouble.busy)
  {
    var left := budget - |Inserted(k, budget, leases, trouble)|;
    InsertedContract(k, budget, leases, trouble);
    ClaimedContract(k, left, leases, sessions, at, trouble);
    if left > 0 {
      KeepContract(Prefix(k.stale, left), ExpiredRows(leases, sessions, at) - trouble.busy);
    }
  }

  /** A claim leaves the instance with at most its fair share, or with one topic more
      than it had. */
  lemma FairShareBound(k: Class, instances: int, leases: Leases, sessions: Sessions, at: Tick, trouble: Trouble)
    ensures k.held + |Wins(k, Budget(k, instances), leases, sessions, at, trouble)|
            <= if Share(k, instances) > k.held then Share(k, instances) else k.held + 1
  {
    WinsContract(k, Budget(k, instances), leases, sessions, at, trouble);
  }

  /** The sessions CountLiveConsumerSessions counts for a class. */
  function LiveMembers(sessions: Sessions, dfltClass: bool, now: Time): set<Instance> {
    set i | i in sessions && sessions[i].expiresAt > now && (dfltClass ==> sessions[i].maintainsDefault)
  }

  /** Who shares a class: every live instance the explicit-TTL topics, and of those exactly the
      ones flagged as default maintainers the others; and nobody whose leases read expired. */
  lemma WhoShares(sessions: Sessions, now: Time, i: Instance)
    ensures var live := i in sessions && sessions[i].expiresAt > now;
            && (i in LiveMembers(sessions, false, now) <==> live)
            && (i in LiveMembers(sessions, true, now) <==> live && sessions[i].maintainsDefault)
            && (live ==> SessionExpired(i, sessions, now) == Some(false))
  {
  }

  /** The budget is the least number of topics, at least one, with which this instance and as
      many others holding as much could take the whole class. */
  lemma BudgetIsLeast(k: Class, instances: int)
    ensures var n, top := if instances < 1 then 1 else instances, k.held + Budget(k, instances);
            && Budget(k, instances) >= 1 && k.candidates <= top * n
            && (Budget(k, instances) > 1 ==> (top - 1) * n < k.candidates)
  {
    var n := if instances < 1 then 1 else instances;
    var share, top := Share(k, instances), k.held + Budget(k, instances);
    CeilDivBounds(k.candidates, n);
    assert share * n <= top * n by { MulMonotone(share, top, n); }
    assert (share - 1) * n == share * n - n;
  }

  lemma LeasedTo(leases: Leases, topics: seq<Topic>, won: set<Topic>, i: Instance, now: Time)
    requires forall t :: t in topics <==> t in won
    ensures leases + (map t | t in won :: LeaseRow(i, now)) == Leased(leases, topics, i, now)
  {
    assert (map t | t in won :: LeaseRow(i, now)) == (map t | t in topics :: LeaseRow(i, now));
  }

  /** The takeover statement does to the lease table what the maintenance-lease protocol's step
      does, rows locked by others being the busy ones. */
  lemma TakeOverIsOneStep(db: M.Db, i: Instance, topics: seq<Topic>, at: Tick)
    ensures M.Apply(db, M.TakeOver(i, Elements(topics), at.now, at.staleCutoff)).leases
            == Leased(db.leases, Keep(topics, ExpiredRows(db.leases, db.sessions, at) - db.locks.Keys), i, at.now)
  {
    var s := ExpiredRows(db.leases, db.sessions, at) - db.locks.Keys;
    KeepContract(topics, s);
    LeasedTo(db.leases, Keep(topics, s), M.Taken(db, Elements(topics), at.now, at.staleCutoff), i, at.now);
  }

  /** And so does the bulk insert. */
  lemma BulkInsertIsOneStep(db: M.Db, i: Instance, topics: seq<Topic>, now: Time)
    requires M.Enabled(db, M.BulkInsert(i, Elements(topics), now))
    ensures M.Apply(db, M.BulkInsert(i, Elements(topics), now)).leases
            == Leased(db.leases, Without(topics, db.leases.Keys), i, now)
  {
    var absent := set t | t in Elements(topics) && t !in db.leases;
    WithoutContract(topics, db.leases.Keys);
    LeasedTo(db.leases, Without(topics, db.leases.Keys), absent, i, now);
    assert (map t | t in Elements(topics) && t !in db.leases :: LeaseRow(i, now))
           == (map t | t in absent :: LeaseRow(i, now));
  }

  // ----- the claim as the code runs it --------------------------------------------------------

  lemma FilterStep(ts: seq<Topic>, n: nat, s: set<Topic>)
    requires n < |ts|
    ensures Keep(ts[..n + 1], s) == Keep(ts[..n], s) + if ts[n] in s then [ts[n]] else []
    ensures Without(ts[..n + 1], s) == Without(ts[..n], s) + if ts[n] in s then [] else [ts[n]]
  {
    assert ts[..n + 1][..n] == ts[..n];
  }

  lemma LeasedSnoc(leases: Leases, ts: seq<Topic>, t: Topic, holder: Instance, now: Time)
    ensures Leased(leases, ts + [t], holder, now) == Leased(leases, ts, holder, now)[t := LeaseRow(holder, now)]
    ensures Leased(leases, ts, holder, now).Keys == leases.Keys + Elements(ts)
  {
  }

  /** One row of the bulk insert. */
  lemma InsertStep(topics: seq<Topic>, n: nat, before: Leases, won: seq<Topic>, holder: Instance, now: Time)
    requires n < |topics| && Distinct(topics) && won == Without(topics[..n], before.Keys)
    ensures topics[n] in Leased(before, won, holder, now) <==> topics[n] in before
    ensures Without(topics[..n + 1], before.Keys) == if topics[n] in before then won else won + [topics[n]]
    ensures Leased(before, won + [topics[n]], holder, now)
            == Leased(before, won, holder, now)[topics[n] := LeaseRow(holder, now)]
  {
    FilterStep(topics, n, before.Keys);
    WithoutContract(topics[..n], before.Keys);
    LeasedSnoc(before, won, topics[n], holder, now);
    assert topics[n] !in topics[..n];
  }

  lemma LeasedTwice(leases: Leases, a: seq<Topic>, b: seq<Topic>, holder: Instance, now: Time)
    ensures Leased(Leased(leases, a, holder, now), b, holder, now) == Leased(leases, a + b, holder, now)
  {
  }

  class LeaseTable {
    var leases: Leases
    var sessions: Sessions

    /** INSERT ... ON CONFLICT DO NOTHING RETURNING topic. */
    method InsertMaintenanceLeases(topics: seq<Topic>, holder: Instance, now: Time) returns (won: seq<Topic>)
      requires Distinct(topics)
      modifies this`leases
      ensures won == Without(topics, old(leases).Keys)
      ensures leases == Leased(old(leases), won, holder, now)
    {
      var before := leases;
      won := [];
      for n := 0 to |topics|
        invariant won == Without(topics[..n], before.Keys)
        invariant leases == Leased(before, won, holder, now)
      {
        InsertStep(topics, n, before, won, holder, now);
        if topics[n] !in leases {
          leases := leases[topics[n] := LeaseRow(holder, now)];
          won := won + [topics[n]];
        }
      }
      assert topics[..|topics|] == topics;
    }

    /** The takeover of expired rows, skipping the ones somebody else has locked. */
    method ClaimMaintenanceLeases(topics: seq<Topic>, holder: Instance, at: Tick, busy: set<Topic>)
      returns (won: seq<Topic>)
      requires Distinct(topics)
      modifies this`leases
      ensures won == Keep(topics, ExpiredRows(old(leases), sessions, at) - busy)
      ensures leases == Leased(old(leases), won, holder, at.now)
    {
      var before := leases;
      won := [];
      for n := 0 to |topics|
        invariant won == Keep(topics[..n], ExpiredRows(before, sessions, at) - busy)
        invariant leases == Leased(before, won, holder, at.now)
      {
        FilterStep(topics, n, ExpiredRows(before, sessions, at) - busy);
        LeasedSnoc(before, won, topics[n], holder, at.now);
        var t := topics[n];
        if t in before && t !in busy && ClaimReadsExpired(before[t], sessions, at.now, at.staleCutoff) {
          leases := leases[t := LeaseRow(holder, at.now)];
          won := won + [t];
        }
      }
      assert topics[..|topics|] == topics;
    }

    /** The first half of claimClassShare. */
    method ClaimUnleased(k: Class, budget: nat, me: Instance, at: Tick, trouble: Trouble) returns (won: seq<Topic>)
      requires WellFormed(k)
      modifies this`leases
      ensures won == Inserted(k, budget, old(leases), trouble)
      ensures leases == Leased(old(leases), won, me, at.now)
    {
      won := [];
      if |k.unleased| > 0 && !trouble.insertFails {
        PrefixContract(k.unleased, budget);
        won := InsertMaintenanceLeases(Prefix(k.unleased, budget), me, at.now);
      }
    }

    /** The second half, with the budget the first half left. */
    method ClaimStale(k: Class, left: int, me: Instance, at: Tick, trouble: Trouble) returns (won: seq<Topic>)
      requires WellFormed(k)
      modifies this`leases
      ensures won == Claimed(k, left, old(leases), sessions, at, trouble)
      ensures leases == Leased(old(leases), won, me, at.now)
    {
      won := [];
      if left > 0 && |k.stale| > 0 && !trouble.claimFails {
        PrefixContract(k.stale, left);
        won := ClaimMaintenanceLeases(Prefix(k.stale, left), me, at, trouble.busy);
      }
    }

    /** claimClassShare, its two lists already in the order the shuffle gave them. */
    method ClaimClassShare(k: Class, instances: int, me: Instance, at: Tick, trouble: Trouble) returns (won: seq<Topic>)
      requires WellFormed(k)
      modifies this`leases
      ensures won == Wins(k, Budget(k, instances), old(leases), sessions, at, trouble)
      ensures leases == Leased(old(leases), won, me, at.now)
    {
      var budget := Budget(k, instances);
      if |k.unleased| + |k.stale| == 0 {
        return [];
      }
      ghost var before := leases;
      won := ClaimUnleased(k, budget, me, at, trouble);
      InsertedContract(k, budget, before, trouble);
      ClaimedUnaffected(k, budget - |won|, before, won, me, sessions, at, trouble);
      var more := ClaimStale(k, budget - |won|, me, at, trouble);
      LeasedTwice(before, won, more, me, at.now);
      won := won + more;
    }

    /** claimTopics: explicit-TTL candidates are divided among all live sessions, default-TTL
        candidates among those flagged as default maintainers. */
    method ClaimTopics(explicitClass: Class, dfltClass: Class, countFails: bool, me: Instance, at: Tick,
                       trouble: Trouble)
      returns (won: seq<Topic>)
      requires WellFormed(explicitClass) && WellFormed(dfltClass)
      modifies this`leases
      ensures won == if countFails then [] else
                ClaimResult(explicitClass, dfltClass, old(leases), sessions, me, at, trouble)
      ensures countFails ==> won == [] && leases == old(leases)
      ensures leases == Leased(old(leases), won, me, at.now)
    {
      if |explicitClass.unleased| + |explicitClass.stale| + |dfltClass.unleased| + |dfltClass.stale| == 0 {
        NothingToClaim(explicitClass, dfltClass, leases, sessions, me, at, trouble);
        return [];
      }
      if countFails {
        return [];
      }
      ghost var before := leases;
      won := ClaimClassShare(explicitClass, |LiveMembers(sessions, false, at.now)|, me, at, trouble);
      var more := ClaimClassShare(dfltClass, |LiveMembers(sessions, true, at.now)|, me, at, trouble);
      LeasedTwice(before, won, more, me, at.now);
      won := won + more;
    }
  }

  /** The two classes claimed one after the other. */
  function ClaimResult(explicitClass: Class, dfltClass: Class, leases: Leases, sessions: Sessions, me: Instance,
                       at: Tick, trouble: Trouble): seq<Topic>
  {
    var instances := |LiveMembers(sessions, false, at.now)|;
    var maintainers := |LiveMembers(sessions, true, at.now)|;
    var first := Wins(explicitClass, Budget(explicitClass, instances), leases, sessions, at, trouble);
    first + Wins(dfltClass, Budget(dfltClass, maintainers), Leased(leases, first, me, at.now), sessions, at, trouble)
  }

  lemma NothingToClaim(explicitClass: Class, dfltClass: Class, leases: Leases, sessions: Sessions, me: Instance,
                       at: Tick, trouble: Trouble)
    requires explicitClass.unleased == explicitClass.stale == dfltClass.unleased == dfltClass.stale == []
    ensures ClaimResult(explicitClass, dfltClass, leases, sessions, me, at, trouble) == []
  {
  }

  /** Winning other topics first does not change which of `ts` can be taken over. */
  lemma {:induction false} StaleUnaffected(leases: Leases, won: seq<Topic>, me: Instance, at: Tick, sessions: Sessions,
                                           ts: seq<Topic>, busy: set<Topic>)
    requires forall t | t in ts :: t !in won
    ensures Keep(ts, ExpiredRows(Leased(leases, won, me, at.now), sessions, at) - busy)
            == Keep(ts, ExpiredRows(leases, sessions, at) - busy)
  {
    if ts != [] {
      var n := |ts| - 1;
      StaleUnaffected(leases, won, me, at, sessions, ts[..n], busy);
      assert ts[n] !in won;
    }
  }

  lemma ClaimedUnaffected(k: Class, left: nat, leases: Leases, won: seq<Topic>, me: Instance, sessions: Sessions,
                          at: Tick, trouble: Trouble)
    requires WellFormed(k) && forall t | t in won :: t in k.unleased
    ensures Claimed(k, left, Leased(leases, won, me, at.now), sessions, at, trouble)
            == Claimed(k, left, leases, sessions, at, trouble)
  {
    PrefixContract(k.stale, left);
    StaleUnaffected(leases, won, me, at, sessions, Prefix(k.stale, left), trouble.busy);
  }
}
