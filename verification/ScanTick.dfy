/** scanTopics from the candidate rows on: what the classification hands to the claim, and
    what both hand to the loops. */
module ScanTick {
  import opened Tables
  import opened TopicScan
  import opened FairShare
  import D = Dormancy
  import L = Loops

  /** The query and the classification agree on TTLs: the query keeps no row the loop would
      skip for want of one, and both use the same. */
  lemma QueryAndLoopAgree(a: D.Activity, c: Candidate, dflt: int)
    requires c.expiration == a.expiration
    ensures var nanos := if dflt > 0 then Some(dflt) else None;
            && (D.Ttl(a, nanos) > 0 <==> Ttl(c, dflt) > 0)
            && (Ttl(c, dflt) > 0 ==> D.Ttl(a, nanos) == Ttl(c, dflt))
  {
  }

  /** `k'` is `k` with its two lists in another order: what claimClassShare's shuffle makes. */
  ghost predicate Shuffled(k: Class, k': Class) {
    && k'.candidates == k.candidates && k'.held == k.held
    && multiset(k'.unleased) == multiset(k.unleased) && multiset(k'.stale) == multiset(k.stale)
  }

  lemma {:induction false} DistinctIffCounted(ts: seq<Topic>)
    ensures Distinct(ts) <==> forall t :: multiset(ts)[t] <= 1
  {
    if ts != [] {
      var n := |ts| - 1;
      var last := ts[n];
      DistinctIffCounted(ts[..n]);
      assert ts == ts[..n] + [last];
      assert multiset(ts) == multiset(ts[..n]) + multiset{last};
      if Distinct(ts) {
        DistinctInit(ts[..n], last);
      }
      if forall t :: multiset(ts)[t] <= 1 {
        forall t
          ensures multiset(ts[..n])[t] <= 1
        {
          assert multiset(ts)[t] <= 1;
        }
        assert multiset(ts)[last] <= 1;
        DistinctSnoc(ts[..n], last);
      }
    }
  }

  lemma SameList(a: seq<Topic>, b: seq<Topic>)
    requires multiset(a) == multiset(b)
    ensures forall t :: t in a <==> t in b
    ensures Distinct(a) <==> Distinct(b)
  {
    DistinctIffCounted(a);
    DistinctIffCounted(b);
    forall t
      ensures t in a <==> t in b
    {
      assert t in a <==> t in multiset(a);
      assert t in b <==> t in multiset(b);
    }
  }

  /** Shuffling keeps a class ready for the claim. */
  lemma ShuffledStaysWellFormed(k: Class, k': Class)
    requires WellFormed(k) && Shuffled(k, k')
    ensures WellFormed(k')
  {
    SameList(k.unleased, k'.unleased);
    SameList(k.stale, k'.stale);
  }

  /** The topic has a row of this class with a TTL that this instance does not hold. */
  ghost predicate Claimable(rows: seq<Candidate>, dflt: int, explicit: bool, t: Topic) {
    exists c :: c in rows && c.topic == t && Ttl(c, dflt) > 0 && c.expiration.Some? == explicit && !c.heldByMe
  }

  lemma WinsAreClaimable(rows: seq<Candidate>, dflt: int, explicit: bool, k: Class, budget: nat, leases: Leases,
                         sessions: Sessions, at: Tick, trouble: Trouble)
    requires Shuffled(ClassOf(InClass(rows, dflt, explicit)), k)
    ensures forall t | t in Wins(k, budget, leases, sessions, at, trouble) :: Claimable(rows, dflt, explicit, t)
  {
    var mine := InClass(rows, dflt, explicit);
    InClassContract(rows, dflt, explicit);
    SelectContract(mine, UNLEASED);
    SelectContract(mine, STALE);
    SameList(ClassOf(mine).unleased, k.unleased);
    SameList(ClassOf(mine).stale, k.stale);
    WinsContract(k, budget, leases, sessions, at, trouble);
    forall t | t in Wins(k, budget, leases, sessions, at, trouble)
      ensures Claimable(rows, dflt, explicit, t)
    {
      var c :| c in mine && c.topic == t && !c.heldByMe;
      assert c in rows;
    }
  }

  lemma ClassIsWellFormed(rows: seq<Candidate>, dflt: int, explicit: bool, k: Class)
    requires Distinct(TopicsIn(rows)) && Shuffled(ClassOf(InClass(rows, dflt, explicit)), k)
    ensures WellFormed(k)
  {
    var mine := InClass(rows, dflt, explicit);
    InClassContract(rows, dflt, explicit);
    SelectContract(mine, UNLEASED);
    SelectContract(mine, STALE);
    forall t | t in Select(mine, UNLEASED)
      ensures t !in Select(mine, STALE)
    {
      if c, d :| c in mine && c.topic == t && c.unleased && d in mine && d.topic == t && !d.unleased {
        OneRowPerTopic(mine, c, d);
      }
    }
    ShuffledStaysWellFormed(ClassOf(mine), k);
  }

  /** The topics a tick ends up with: those held, and whatever the claim wins. */
  function TickTopics(rows: seq<Candidate>, dflt: int, won: seq<Topic>): seq<Topic> {
    HeldOf(rows, dflt) + won
  }

  lemma CandidatesHaveTtls(rows: seq<Candidate>, dflt: int)
    ensures forall t | t in HeldOf(rows, dflt) || Claimable(rows, dflt, true, t) || Claimable(rows, dflt, false, t) ::
              t in TtlsOf(rows, dflt) && TtlsOf(rows, dflt)[t] > 0
  {
    var held := (c: Candidate) => Ttl(c, dflt) > 0 && c.heldByMe;
    SelectContract(rows, held);
    TtlsOfContract(rows, dflt);
    forall t | t in HeldOf(rows, dflt) || Claimable(rows, dflt, true, t) || Claimable(rows, dflt, false, t)
      ensures t in TtlsOf(rows, dflt)
    {
      assert HeldOf(rows, dflt) == Select(rows, held);
      var c :| c in rows && c.topic == t && Ttl(c, dflt) > 0;
    }
  }

  /** What the claim wins has a TTL: every topic the tick hands to the loops, held or won,
      has a positive entry in the TTL table it hands over with them. */
  lemma EveryTickTopicHasATtl(rows: seq<Candidate>, dflt: int, k: Class, d: Class, leases: Leases, sessions: Sessions,
                              me: Instance, at: Tick, trouble: Trouble)
    requires Shuffled(ClassOf(InClass(rows, dflt, true)), k) && Shuffled(ClassOf(InClass(rows, dflt, false)), d)
    ensures forall t | t in TickTopics(rows, dflt, ClaimResult(k, d, leases, sessions, me, at, trouble)) ::
              t in TtlsOf(rows, dflt) && TtlsOf(rows, dflt)[t] > 0
  {
    var first := Wins(k, Budget(k, |LiveMembers(sessions, false, at.now)|), leases, sessions, at, trouble);
    WinsAreClaimable(rows, dflt, true, k, Budget(k, |LiveMembers(sessions, false, at.now)|), leases, sessions, at,
                     trouble);
    WinsAreClaimable(rows, dflt, false, d, Budget(d, |LiveMembers(sessions, true, at.now)|),
                     Leased(leases, first, me, at.now), sessions, at, trouble);
    CandidatesHaveTtls(rows, dflt);
  }

  /** No topic is won twice, nor won while already held: on rows with each topic once, held
      topics and wins of both classes are all distinct. */
  lemma TickTopicsAreDistinct(rows: seq<Candidate>, dflt: int, k: Class, d: Class, leases: Leases, sessions: Sessions,
                              me: Instance, at: Tick, trouble: Trouble)
    requires Distinct(TopicsIn(rows))
    requires Shuffled(ClassOf(InClass(rows, dflt, true)), k) && Shuffled(ClassOf(InClass(rows, dflt, false)), d)
    ensures Distinct(TickTopics(rows, dflt, ClaimResult(k, d, leases, sessions, me, at, trouble)))
  {
    var instances, maintainers := |LiveMembers(sessions, false, at.now)|, |LiveMembers(sessions, true, at.now)|;
    var a := Wins(k, Budget(k, instances), leases, sessions, at, trouble);
    var b := Wins(d, Budget(d, maintainers), Leased(leases, a, me, at.now), sessions, at, trouble);
    var held := (c: Candidate) => Ttl(c, dflt) > 0 && c.heldByMe;
    ClassIsWellFormed(rows, dflt, true, k);
    ClassIsWellFormed(rows, dflt, false, d);
    WinsContract(k, Budget(k, instances), leases, sessions, at, trouble);
    WinsContract(d, Budget(d, maintainers), Leased(leases, a, me, at.now), sessions, at, trouble);
    WinsAreClaimable(rows, dflt, true, k, Budget(k, instances), leases, sessions, at, trouble);
    WinsAreClaimable(rows, dflt, false, d, Budget(d, maintainers), Leased(leases, a, me, at.now), sessions, at,
                     trouble);
    SelectContract(rows, held);
    forall t | Claimable(rows, dflt, true, t)
      ensures !Claimable(rows, dflt, false, t)
    {
      NotBothClasses(rows, dflt, t);
    }
    DistinctAppend(a, b);
    forall t | t in HeldOf(rows, dflt)
      ensures t !in a + b
    {
      HeldIsNotClaimable(rows, dflt, t);
    }
    DistinctAppend(HeldOf(rows, dflt), a + b);
  }

  /** The same for a tick whose claim failed. */
  lemma HeldAreDistinct(rows: seq<Candidate>, dflt: int)
    requires Distinct(TopicsIn(rows))
    ensures Distinct(TickTopics(rows, dflt, []))
    ensures forall t | t in TickTopics(rows, dflt, []) :: t in TtlsOf(rows, dflt) && TtlsOf(rows, dflt)[t] > 0
  {
    assert TickTopics(rows, dflt, []) == HeldOf(rows, dflt);
    SelectContract(rows, (c: Candidate) => Ttl(c, dflt) > 0 && c.heldByMe);
    CandidatesHaveTtls(rows, dflt);
  }

  lemma NotBothClasses(rows: seq<Candidate>, dflt: int, t: Topic)
    requires Distinct(TopicsIn(rows))
    ensures !(Claimable(rows, dflt, true, t) && Claimable(rows, dflt, false, t))
  {
    if c, d :| c in rows && c.topic == t && c.expiration.Some? && d in rows && d.topic == t && d.expiration.None? {
      OneRowPerTopic(rows, c, d);
    }
  }

  lemma HeldIsNotClaimable(rows: seq<Candidate>, dflt: int, t: Topic)
    requires Distinct(TopicsIn(rows)) && t in HeldOf(rows, dflt)
    ensures !Claimable(rows, dflt, true, t) && !Claimable(rows, dflt, false, t)
  {
    SelectContract(rows, (c: Candidate) => Ttl(c, dflt) > 0 && c.heldByMe);
    var c :| c in rows && c.topic == t && c.heldByMe;
    if d :| d in rows && d.topic == t && !d.heldByMe {
      OneRowPerTopic(rows, c, d);
    }
  }

  /** The first half of the tick: classify and claim.  The lease table is as it is when the
      claim runs, whatever became of it since the query. */
  method ClaimCandidates(rows: seq<Candidate>, dflt: int, shuffle: Class -> Class, countFails: bool, me: Instance,
                         at: Tick, trouble: Trouble, table: LeaseTable)
    returns (ttls: map<Topic, int>, held: seq<Topic>, won: seq<Topic>)
    requires Distinct(TopicsIn(rows)) && forall k :: Shuffled(k, shuffle(k))
    modifies table`leases
    ensures ttls == TtlsOf(rows, dflt) && held == TickTopics(rows, dflt, won) && Distinct(held)
    ensures forall t | t in held :: t in ttls && ttls[t] > 0
    ensures table.leases == Leased(old(table.leases), won, me, at.now)
  {
    var explicitClass, dfltClass;
    ttls, held, explicitClass, dfltClass := Classify(rows, dflt);
    var k, d := shuffle(explicitClass), shuffle(dfltClass);
    ClassIsWellFormed(rows, dflt, true, k);
    ClassIsWellFormed(rows, dflt, false, d);
    EveryTickTopicHasATtl(rows, dflt, k, d, table.leases, table.sessions, me, at, trouble);
    TickTopicsAreDistinct(rows, dflt, k, d, table.leases, table.sessions, me, at, trouble);
    HeldAreDistinct(rows, dflt);
    won := table.ClaimTopics(k, d, countFails, me, at, trouble);
    held := held + won;
  }

  predicate HasRunningLoop(r: L.Registry, t: Topic) {
    t in r.managed && r.managed[t] < |r.loops|
    && r.loops[r.managed[t]].topic == t && r.loops[r.managed[t]].phase != L.Closed
  }

  /** The loop is for a topic with a row in the scan, and its TTL is the positive one that row
      calls for. */
  ghost predicate RunsOnItsTtl(rows: seq<Candidate>, dflt: int, l: L.Loop) {
    l.ttl > 0
    && exists c :: c in rows && c.topic == l.topic && l.ttl == if c.expiration.Some? then c.expiration.value else dflt
  }

  /** What a reconcile after a reap starts, given the tick's topics. */
  lemma TickStartsTheRightLoops(r: L.Registry, rows: seq<Candidate>, dflt: int, held: seq<Topic>)
    requires L.Inv(r) && Distinct(TopicsIn(rows))
    requires forall t | t in held :: t in TtlsOf(rows, dflt) && TtlsOf(rows, dflt)[t] > 0
    ensures var reaped := L.Reap(r);
            var r' := L.Reconcile(reaped, TtlsOf(rows, dflt), held);
            && L.Inv(reaped) && reaped.loops == r.loops && L.Inv(r')
            && (forall t | t in held :: HasRunningLoop(r', t))
            && (forall id | |r.loops| <= id < |r'.loops| ::
                  RunsOnItsTtl(rows, dflt, r'.loops[id]) && r'.loops[id].topic in held)
  {
    var ttls, reaped := TtlsOf(rows, dflt), L.Reap(r);
    forall t
      ensures L.Inv(reaped)
      ensures t in held ==> HasRunningLoop(L.Reconcile(reaped, ttls, held), t)
    {
      L.HeldTopicsHaveRunningLoops(r, ttls, held, t);
    }
    L.HeldTopicsHaveRunningLoops(r, ttls, held, "");
    L.ReconcileContract(reaped, ttls, held);
    var r' := L.Reconcile(reaped, ttls, held);
    forall id | |r.loops| <= id < |r'.loops|
      ensures RunsOnItsTtl(rows, dflt, r'.loops[id])
    {
      TtlsOfContract(rows, dflt);
      var c :| c in rows && c.topic == r'.loops[id].topic;
      OwnTtlWins(rows, dflt, c);
    }
  }

  /** scanTopics with the rows its query returns: reap, classify, claim, reconcile.  No topic is
      won twice or while held, and every topic held or won has a running loop afterwards.
      Every loop the tick starts is for such a topic; it runs with the expiration of the
      topic's own row if that has one, and otherwise with the instance's default. */
  method ScanTopics(rows: seq<Candidate>, dflt: int, shuffle: Class -> Class, countFails: bool, me: Instance, at: Tick,
                    trouble: Trouble, table: LeaseTable, scanner: L.Scanner)
    returns (won: seq<Topic>)
    requires Distinct(TopicsIn(rows)) && forall k :: Shuffled(k, shuffle(k))
    requires L.Inv(scanner.View())
    modifies table`leases, scanner
    ensures table.leases == Leased(old(table.leases), won, me, at.now)
    ensures Distinct(TickTopics(rows, dflt, won))
    ensures L.Inv(scanner.View())
    ensures scanner.View() == L.Reconcile(L.Reap(old(scanner.View())), TtlsOf(rows, dflt), TickTopics(rows, dflt, won))
    ensures forall t | t in won :: HasRunningLoop(scanner.View(), t)
    ensures forall c | c in rows && c.heldByMe && (if c.expiration.Some? then c.expiration.value else dflt) > 0 ::
              HasRunningLoop(scanner.View(), c.topic)
    ensures forall id | |old(scanner.loops)| <= id < |scanner.loops| ::
              RunsOnItsTtl(rows, dflt, scanner.loops[id]) && scanner.loops[id].topic in TickTopics(rows, dflt, won)
  {
    ghost var before := scanner.View();
    scanner.ReapExitedLoops();
    var ttls, held;
    ttls, held, won := ClaimCandidates(rows, dflt, shuffle, countFails, me, at, trouble, table);
    TickStartsTheRightLoops(before, rows, dflt, held);
    SelectContract(rows, (c: Candidate) => Ttl(c, dflt) > 0 && c.heldByMe);
    scanner.ReconcileLoops(ttls, held);
  }
}
