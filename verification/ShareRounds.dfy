/** What uncontended scans add up to: a full round from an empty lease table covers every
    candidate evenly, and repeated scans converge. */
module ShareRounds {
  import opened Tables
  import opened TopicScan
  import opened FairShare

  /** One scan of one class with nobody interfering: a true account of the tables as of
      `scan`, claims at `claim`, and no trouble; the lists are in any order. */
  ghost predicate Scans(topics: set<Topic>, sessions: Sessions, instances: int, before: Leases, after: Leases,
                        me: Instance, scan: Tick, claim: Tick, k: Class)
  {
    && IsClass(k, topics, before, sessions, me, scan.now, scan.staleCutoff)
    && scan.now <= claim.now && scan.staleCutoff <= claim.staleCutoff
    && after == Leased(before, Wins(k, Budget(k, instances), before, sessions, claim, NO_TROUBLE), me, claim.now)
  }

  function Min(a: nat, b: nat): nat {
    if a < b then a else b
  }

  lemma {:induction false} KeepAll(ts: seq<Topic>, s: set<Topic>)
    requires forall t | t in ts :: t in s
    ensures Keep(ts, s) == ts
  {
    if ts != [] {
      var n := |ts| - 1;
      assert ts == ts[..n] + [ts[n]];
      KeepAll(ts[..n], s);
    }
  }

  lemma {:induction false} WithoutNone(ts: seq<Topic>, s: set<Topic>)
    requires forall t | t in ts :: t !in s
    ensures Without(ts, s) == ts
  {
    if ts != [] {
      var n := |ts| - 1;
      assert ts == ts[..n] + [ts[n]];
      WithoutNone(ts[..n], s);
    }
  }

  lemma ListsMatch(k: Class, topics: set<Topic>, leases: Leases, sessions: Sessions, me: Instance, at: Tick, t: Topic)
    requires IsClass(k, topics, leases, sessions, me, at.now, at.staleCutoff)
    ensures t in k.unleased <==> t in UnleasedSet(topics, leases)
    ensures t in k.stale <==> t in StaleSet(topics, leases, sessions, me, at.now, at.staleCutoff)
  {
    assert t in k.unleased <==> t in Elements(k.unleased);
    assert t in k.stale <==> t in Elements(k.stale);
  }

  lemma InsertedUncontended(k: Class, budget: nat, topics: set<Topic>, leases: Leases, sessions: Sessions, me: Instance,
                            at: Tick)
    requires IsClass(k, topics, leases, sessions, me, at.now, at.staleCutoff)
    ensures Inserted(k, budget, leases, NO_TROUBLE) == Prefix(k.unleased, budget)
  {
    forall t | t in Prefix(k.unleased, budget)
      ensures t !in leases.Keys
    {
      PrefixContract(k.unleased, budget);
      ListsMatch(k, topics, leases, sessions, me, at, t);
    }
    WithoutNone(Prefix(k.unleased, budget), leases.Keys);
  }

  lemma ClaimedUncontended(k: Class, left: nat, topics: set<Topic>, leases: Leases, sessions: Sessions, me: Instance,
                           scan: Tick, claim: Tick)
    requires IsClass(k, topics, leases, sessions, me, scan.now, scan.staleCutoff)
    requires scan.now <= claim.now && scan.staleCutoff <= claim.staleCutoff
    ensures Claimed(k, left, leases, sessions, claim, NO_TROUBLE) == if left == 0 then [] else Prefix(k.stale, left)
  {
    var prefix := Prefix(k.stale, left);
    var expired := ExpiredRows(leases, sessions, claim);
    forall t | t in prefix
      ensures t in expired
    {
      PrefixContract(k.stale, left);
      ListsMatch(k, topics, leases, sessions, me, scan, t);
    }
    assert expired - NO_TROUBLE.busy == expired;
    KeepAll(prefix, expired);
  }

  /** An uncontended claim wins its whole budget, or everything there is to win. */
  lemma WinsUncontended(k: Class, budget: nat, topics: set<Topic>, leases: Leases, sessions: Sessions, me: Instance,
                        scan: Tick, claim: Tick)
    requires IsClass(k, topics, leases, sessions, me, scan.now, scan.staleCutoff)
    requires scan.now <= claim.now && scan.staleCutoff <= claim.staleCutoff
    ensures |Wins(k, budget, leases, sessions, claim, NO_TROUBLE)| == Min(budget, |k.unleased| + |k.stale|)
  {
    InsertedUncontended(k, budget, topics, leases, sessions, me, scan);
    ClaimedUncontended(k, budget - |Prefix(k.unleased, budget)|, topics, leases, sessions, me, scan, claim);
  }

  // ----- convergence ---------------------------------------------------------------------------

  /** The candidates without a live lease. */
  function Claimable(topics: set<Topic>, leases: Leases, sessions: Sessions, at: Tick): set<Topic> {
    set t | t in topics && (t in leases ==> LeaseExpired(leases[t], sessions, at.now, at.staleCutoff))
  }

  predicate SessionExpiredAt(i: Instance, sessions: Sessions, now: Time) {
    i in sessions && sessions[i].expiresAt < now
  }

  lemma StrictlySmaller(a: set<Topic>, b: set<Topic>, t: Topic)
    requires a <= b && t in b && t !in a
    ensures |a| < |b|
  {
    SubsetSize(a, b - {t});
  }

  lemma {:induction false} SubsetSize(a: set<Topic>, b: set<Topic>)
    requires a <= b
    ensures |a| <= |b|
  {
    if t :| t in a {
      SubsetSize(a - {t}, b - {t});
    }
  }

  lemma WonRows(topics: set<Topic>, sessions: Sessions, instances: int, before: Leases, after: Leases,
                me: Instance, at: Tick, k: Class, t: Topic)
    requires Scans(topics, sessions, instances, before, after, me, at, at, k) && at.staleCutoff <= at.now
    requires t in topics
    ensures var won := Wins(k, Budget(k, instances), before, sessions, at, NO_TROUBLE);
            && (t in won ==> t in Claimable(topics, before, sessions, at))
            && (t in Claimable(topics, after, sessions, at) <==>
                if t in won then SessionExpiredAt(me, sessions, at.now)
                else t in Claimable(topics, before, sessions, at))
  {
    var won := Wins(k, Budget(k, instances), before, sessions, at, NO_TROUBLE);
    WinsContract(k, Budget(k, instances), before, sessions, at, NO_TROUBLE);
    if t in won {
      assert after[t] == LeaseRow(me, at.now);
    } else {
      assert t in after <==> t in before;
    }
  }

  /** A scan that sees a claimable topic strictly reduces the number of claimable topics,
      unless the claimant's own session has expired: what such an instance wins is at
      once claimable again. */
  lemma ScanReducesClaimable(topics: set<Topic>, sessions: Sessions, instances: int, before: Leases, after: Leases,
                             me: Instance, at: Tick, k: Class)
    requires Scans(topics, sessions, instances, before, after, me, at, at, k) && at.staleCutoff <= at.now
    requires k.unleased != [] || k.stale != []
    ensures |Claimable(topics, after, sessions, at)| < |Claimable(topics, before, sessions, at)|
            <==> !SessionExpiredAt(me, sessions, at.now)
  {
    var won := Wins(k, Budget(k, instances), before, sessions, at, NO_TROUBLE);
    WinsUncontended(k, Budget(k, instances), topics, before, sessions, me, at, at);
    WinsContract(k, Budget(k, instances), before, sessions, at, NO_TROUBLE);
    var t := won[0];
    assert t in won;
    ListsMatch(k, topics, before, sessions, me, at, t);
    forall u | u in topics {
      WonRows(topics, sessions, instances, before, after, me, at, k, u);
    }
    if SessionExpiredAt(me, sessions, at.now) {
      assert Claimable(topics, after, sessions, at) == Claimable(topics, before, sessions, at);
    } else {
      StrictlySmaller(Claimable(topics, after, sessions, at), Claimable(topics, before, sessions, at), t);
    }
  }

  /** With candidates and verdicts fixed, `n` scans by instances with live sessions leave
      at least `n` fewer claimable topics, down to none. */
  lemma {:induction false} ScansConverge(topics: set<Topic>, sessions: Sessions, instances: seq<int>, ls: seq<Leases>,
                                         mes: seq<Instance>, at: Tick, ks: seq<Class>, n: nat)
    requires |ls| == |mes| + 1 == |ks| + 1 == |instances| + 1 && n <= |mes| && at.staleCutoff <= at.now
    requires forall j | 0 <= j < n :: mes[j] in sessions && sessions[mes[j]].expiresAt >= at.now
    requires forall j | 0 <= j < n :: Scans(topics, sessions, instances[j], ls[j], ls[j + 1], mes[j], at, at, ks[j])
    ensures |Claimable(topics, ls[n], sessions, at)| + n <= |Claimable(topics, ls[0], sessions, at)|
            || Claimable(topics, ls[n], sessions, at) == {}
  {
    if n > 0 {
      var j := n - 1;
      ScansConverge(topics, sessions, instances, ls, mes, at, ks, j);
      var k, before := ks[j], ls[j];
      assert Scans(topics, sessions, instances[j], before, ls[n], mes[j], at, at, k);
      forall t | t in Claimable(topics, before, sessions, at)
        ensures t in k.unleased || t in k.stale
      {
        ListsMatch(k, topics, before, sessions, mes[j], at, t);
      }
      if k.unleased != [] || k.stale != [] {
        ScanReducesClaimable(topics, sessions, instances[j], before, ls[n], mes[j], at, k);
      } else {
        forall t | t in topics {
          WonRows(topics, sessions, instances[j], before, ls[n], mes[j], at, k, t);
        }
        assert Claimable(topics, ls[n], sessions, at) == {};
      }
    }
  }

  // ----- one round from empty --------------------------------------------------------------------

  function LeasedSet(topics: set<Topic>, leases: Leases): set<Topic> {
    set t | t in topics && t in leases
  }

  /** After `n` scans: only scanners hold candidates, nobody more than the fair share
      `q`, and `total` of them are leased. */
  ghost predicate RoundInv(topics: set<Topic>, leases: Leases, mes: seq<Instance>, n: nat, q: nat, total: nat)
    requires n <= |mes|
  {
    && (forall t | t in topics && t in leases :: leases[t].holder in mes[..n])
    && (forall i | i in mes[..n] :: |HeldSet(topics, leases, i)| <= q)
    && |LeasedSet(topics, leases)| == total <= |topics|
  }

  lemma UnionSize(a: set<Topic>, b: set<Topic>)
    requires a !! b
    ensures |a + b| == |a| + |b|
  {
  }

  lemma SplitTopics(topics: set<Topic>, leases: Leases)
    ensures |topics| == |UnleasedSet(topics, leases)| + |LeasedSet(topics, leases)|
  {
    UnionSize(UnleasedSet(topics, leases), LeasedSet(topics, leases));
    assert topics == UnleasedSet(topics, leases) + LeasedSet(topics, leases);
  }

  lemma PositiveFactor(c: nat, d: nat)
    requires c * d >= 1
    ensures c >= 1
  {
  }

  lemma CeilDivPositive(n: nat, d: nat)
    requires d >= 1 && n >= 1
    ensures CeilDiv(n, d) >= 1
  {
    CeilDivBounds(n, d);
    PositiveFactor(CeilDiv(n, d), d);
  }

  lemma FreshBudget(k: Class, instances: nat)
    requires instances >= 1 && k.held == 0
    ensures Budget(k, instances) == if k.candidates == 0 then 1 else CeilDiv(k.candidates, instances)
  {
    if k.candidates == 0 {
      CeilDivUnique(0, instances, 0);
    } else {
      CeilDivPositive(k.candidates, instances);
    }
  }

  lemma FirstBudget(topics: set<Topic>, sessions: Sessions, instances: nat, before: Leases, after: Leases,
                    me: Instance, scan: Tick, claim: Tick, k: Class)
    requires instances >= 1 && Scans(topics, sessions, instances, before, after, me, scan, claim, k)
    requires forall t | t in topics && t in before :: before[t].holder != me
    ensures Budget(k, instances) == if |topics| == 0 then 1 else CeilDiv(|topics|, instances)
  {
    assert HeldSet(topics, before, me) == {};
    FreshBudget(k, instances);
  }

  /** The first scan of an instance that holds nothing, while every holder is live, takes
      the next share of the unleased topics and no stale ones. */
  lemma FreshScan(topics: set<Topic>, sessions: Sessions, instances: nat, before: Leases, after: Leases,
                  me: Instance, scan: Tick, claim: Tick, k: Class, budget: nat) returns (won: seq<Topic>)
    requires Scans(topics, sessions, instances, before, after, me, scan, claim, k) && budget == Budget(k, instances)
    requires forall t | t in topics && t in before ::
               before[t].holder in sessions && sessions[before[t].holder].expiresAt >= scan.now
    ensures Distinct(won) && after == Leased(before, won, me, claim.now)
    ensures |won| == Min(budget, |UnleasedSet(topics, before)|)
    ensures forall t | t in won :: t in topics && t !in before
  {
    won := Wins(k, budget, before, sessions, claim, NO_TROUBLE);
    WinsUncontended(k, budget, topics, before, sessions, me, scan, claim);
    WinsContract(k, budget, before, sessions, claim, NO_TROUBLE);
    if k.stale != [] {
      ListsMatch(k, topics, before, sessions, me, scan, k.stale[0]);
      assert false;
    }
    DistinctSize(k.unleased);
    forall t | t in k.unleased
      ensures t in topics && t !in before
    {
      ListsMatch(k, topics, before, sessions, me, scan, t);
    }
  }

  /** What winning distinct unleased topics does to the counts. */
  lemma LeasedCount(topics: set<Topic>, before: Leases, won: seq<Topic>, me: Instance, now: Time)
    requires Distinct(won) && forall t | t in won :: t in topics && t !in before
    ensures |LeasedSet(topics, Leased(before, won, me, now))| == |LeasedSet(topics, before)| + |won|
  {
    DistinctSize(won);
    UnionSize(LeasedSet(topics, before), Elements(won));
    assert LeasedSet(topics, Leased(before, won, me, now)) == LeasedSet(topics, before) + Elements(won);
  }

  lemma HeldCount(topics: set<Topic>, before: Leases, won: seq<Topic>, me: Instance, now: Time)
    requires Distinct(won) && forall t | t in won :: t in topics && t !in before
    requires HeldSet(topics, before, me) == {}
    ensures |HeldSet(topics, Leased(before, won, me, now), me)| == |won|
  {
    DistinctSize(won);
    assert HeldSet(topics, Leased(before, won, me, now), me) == Elements(won);
  }

  lemma OthersHold(topics: set<Topic>, before: Leases, won: seq<Topic>, me: Instance, now: Time, i: Instance)
    requires i != me && forall t | t in won :: t !in before
    ensures HeldSet(topics, Leased(before, won, me, now), i) == HeldSet(topics, before, i)
  {
  }

  lemma ShareArithmetic(n: nat, q: nat, c: nat, budget: nat)
    requires budget == if c == 0 then 1 else q
    ensures Min(n * q, c) + Min(budget, c - Min(n * q, c)) == Min((n + 1) * q, c)
    ensures Min(budget, c - Min(n * q, c)) <= q
  {
    assert (n + 1) * q == n * q + q;
  }

  lemma RoundHolders(topics: set<Topic>, before: Leases, won: seq<Topic>, mes: seq<Instance>, n: nat, now: Time, q: nat)
    requires n < |mes| && mes[n] !in mes[..n] && Distinct(won) && |won| <= q
    requires forall t | t in won :: t in topics && t !in before
    requires forall t | t in topics && t in before :: before[t].holder in mes[..n]
    requires forall i | i in mes[..n] :: |HeldSet(topics, before, i)| <= q
    ensures var after := Leased(before, won, mes[n], now);
            && (forall t | t in topics && t in after :: after[t].holder in mes[..n + 1])
            && (forall i | i in mes[..n + 1] :: |HeldSet(topics, after, i)| <= q)
  {
    var me := mes[n];
    assert forall i :: i in mes[..n + 1] <==> i in mes[..n] || i == me;
    assert HeldSet(topics, before, me) == {};
    HeldCount(topics, before, won, me, now);
    forall i | i in mes[..n] {
      OthersHold(topics, before, won, me, now, i);
    }
  }

  lemma RoundStep(topics: set<Topic>, sessions: Sessions, before: Leases, after: Leases, mes: seq<Instance>, n: nat,
                  scan: Tick, claim: Tick, k: Class, q: nat, total: nat, budget: nat)
    requires n < |mes| && mes[n] !in mes[..n] && budget == Budget(k, |mes|)
    requires Scans(topics, sessions, |mes|, before, after, mes[n], scan, claim, k)
    requires forall i | i in mes :: i in sessions && sessions[i].expiresAt >= scan.now
    requires RoundInv(topics, before, mes, n, q, total) && Min(budget, |topics| - total) <= q
    ensures RoundInv(topics, after, mes, n + 1, q, total + Min(budget, |topics| - total))
  {
    assert forall i | i in mes[..n] :: i in mes;
    var won := FreshScan(topics, sessions, |mes|, before, after, mes[n], scan, claim, k, budget);
    SplitTopics(topics, before);
    LeasedCount(topics, before, won, mes[n], claim.now);
    RoundHolders(topics, before, won, mes, n, claim.now, q);
  }

  /** Live instances scan in turn, each dividing by the number of live members. */
  ghost predicate IsRound(topics: set<Topic>, sessions: Sessions, dfltClass: bool, ls: seq<Leases>,
                          mes: seq<Instance>, scans: seq<Tick>, claims: seq<Tick>, ks: seq<Class>)
  {
    && |mes| >= 1 && |ls| == |mes| + 1 && |scans| == |claims| == |ks| == |mes|
    && (forall m, n | 0 <= m < n < |mes| :: mes[m] != mes[n])
    && (forall j | 0 <= j < |mes| :: LiveMembers(sessions, dfltClass, scans[j].now) == set i | i in mes)
    && (forall j | 0 <= j < |mes| ::
          Scans(topics, sessions, |LiveMembers(sessions, dfltClass, scans[j].now)|, ls[j], ls[j + 1],
                mes[j], scans[j], claims[j], ks[j]))
  }

  lemma RoundScan(topics: set<Topic>, sessions: Sessions, dfltClass: bool, ls: seq<Leases>, mes: seq<Instance>,
                  scans: seq<Tick>, claims: seq<Tick>, ks: seq<Class>, j: nat)
    requires IsRound(topics, sessions, dfltClass, ls, mes, scans, claims, ks) && j < |mes|
    ensures Scans(topics, sessions, |mes|, ls[j], ls[j + 1], mes[j], scans[j], claims[j], ks[j])
    ensures forall i | i in mes :: i in sessions && sessions[i].expiresAt >= scans[j].now
    ensures mes[j] !in mes[..j]
  {
    var live := LiveMembers(sessions, dfltClass, scans[j].now);
    InstancesCount(mes, live);
    assert forall i | i in mes :: i in live;
  }

  lemma RoundShare(topics: set<Topic>, sessions: Sessions, before: Leases, after: Leases, mes: seq<Instance>, n: nat,
                   scan: Tick, claim: Tick, k: Class, q: nat)
    requires n < |mes| && mes[n] !in mes[..n] && q == CeilDiv(|topics|, |mes|)
    requires Scans(topics, sessions, |mes|, before, after, mes[n], scan, claim, k)
    requires forall i | i in mes :: i in sessions && sessions[i].expiresAt >= scan.now
    requires RoundInv(topics, before, mes, n, q, Min(n * q, |topics|))
    ensures RoundInv(topics, after, mes, n + 1, q, Min((n + 1) * q, |topics|))
  {
    FirstBudget(topics, sessions, |mes|, before, after, mes[n], scan, claim, k);
    var total, budget := Min(n * q, |topics|), Budget(k, |mes|);
    ShareArithmetic(n, q, |topics|, budget);
    RoundStep(topics, sessions, before, after, mes, n, scan, claim, k, q, total, budget);
  }

  lemma {:induction false} RoundPrefix(topics: set<Topic>, sessions: Sessions, dfltClass: bool, ls: seq<Leases>,
                                       mes: seq<Instance>, scans: seq<Tick>, claims: seq<Tick>, ks: seq<Class>,
                                       n: nat, q: nat)
    requires IsRound(topics, sessions, dfltClass, ls, mes, scans, claims, ks) && n <= |mes|
    requires forall t | t in topics :: t !in ls[0]
    requires q == CeilDiv(|topics|, |mes|)
    ensures RoundInv(topics, ls[n], mes, n, q, Min(n * q, |topics|))
  {
    if n == 0 {
      assert LeasedSet(topics, ls[0]) == {};
    } else {
      var j := n - 1;
      RoundPrefix(topics, sessions, dfltClass, ls, mes, scans, claims, ks, j, q);
      RoundScan(topics, sessions, dfltClass, ls, mes, scans, claims, ks, j);
      RoundShare(topics, sessions, ls[j], ls[n], mes, j, scans[j], claims[j], ks[j], q);
    }
  }

  /** N live instances that scan in turn from a lease table without any of the C
      candidates lease all of them, and none ends up with more than ceil(C / N). */
  lemma RoundCoversFairly(topics: set<Topic>, sessions: Sessions, dfltClass: bool, ls: seq<Leases>,
                          mes: seq<Instance>, scans: seq<Tick>, claims: seq<Tick>, ks: seq<Class>)
    requires IsRound(topics, sessions, dfltClass, ls, mes, scans, claims, ks)
    requires forall t | t in topics :: t !in ls[0]
    ensures forall t | t in topics :: t in ls[|mes|] && ls[|mes|][t].holder in mes
    ensures forall i | i in mes :: |HeldSet(topics, ls[|mes|], i)| <= CeilDiv(|topics|, |mes|)
  {
    RoundPrefix(topics, sessions, dfltClass, ls, mes, scans, claims, ks, |mes|, CeilDiv(|topics|, |mes|));
    CeilDivBounds(|topics|, |mes|);
    assert mes[..|mes|] == mes;
    AllLeased(topics, ls[|mes|]);
  }

  lemma {:induction false} InstancesCount(mes: seq<Instance>, s: set<Instance>)
    requires forall m, n | 0 <= m < n < |mes| :: mes[m] != mes[n]
    requires s == set i | i in mes
    ensures |s| == |mes|
  {
    if mes != [] {
      var n := |mes| - 1;
      InstancesCount(mes[..n], s - {mes[n]});
    }
  }

  lemma AllLeased(topics: set<Topic>, leases: Leases)
    requires |LeasedSet(topics, leases)| == |topics|
    ensures forall t | t in topics :: t in leases
  {
    SplitTopics(topics, leases);
    assert UnleasedSet(topics, leases) == {};
    assert forall t | t in topics :: t in leases || t in UnleasedSet(topics, leases);
  }
}
