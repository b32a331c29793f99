/** One scanner tick: the candidate rows of the scan query, sorted into the two
    fair-share classes with their held, unleased and stale topics. */
module TopicScan {
  import opened Tables

  type Leases = map<Topic, LeaseRow>

  function Elements(ts: seq<Topic>): set<Topic> {
    set t | t in ts
  }

  // ----- one scan's candidates ---------------------------------------------------------

  /** A row of GetMaintenanceCandidateTopics. */
  datatype Candidate = Candidate(topic: Topic, expiration: Option<int>, heldByMe: bool, unleased: bool,
                                 leaseExpired: bool)

  /** claimClass. */
  datatype Class = Class(candidates: nat, held: nat, unleased: seq<Topic>, stale: seq<Topic>)

  /** The TTL that applies: the row's own, else the instance's default (0 for none). */
  function Ttl(c: Candidate, dflt: int): int {
    if c.expiration.Some? then c.expiration.value else dflt
  }

  /** The rows of one class that count, in order. */
  function InClass(rows: seq<Candidate>, dflt: int, explicit: bool): seq<Candidate> {
    if rows == [] then []
    else
      var c := rows[|rows| - 1];
      InClass(rows[..|rows| - 1], dflt, explicit)
      + if Ttl(c, dflt) > 0 && c.expiration.Some? == explicit then [c] else []
  }

  /** Topics of the rows that fall to `p`. */
  function Select(rows: seq<Candidate>, p: Candidate -> bool): seq<Topic> {
    if rows == [] then []
    else Select(rows[..|rows| - 1], p) + if p(rows[|rows| - 1]) then [rows[|rows| - 1].topic] else []
  }

  const ANY := (c: Candidate) => true
  const HELD := (c: Candidate) => c.heldByMe
  const UNLEASED := (c: Candidate) => !c.heldByMe && c.unleased
  const STALE := (c: Candidate) => !c.heldByMe && !c.unleased && c.leaseExpired

  /** A class as the scan is meant to fill it: held rows first, then rows without a
      lease, then rows whose lease has expired; a live lease of another falls to none. */
  ghost function ClassOf(rows: seq<Candidate>): Class {
    Class(|rows|, |Select(rows, HELD)|, Select(rows, UNLEASED), Select(rows, STALE))
  }

  lemma InClassStep(rows: seq<Candidate>, n: nat, dflt: int, explicit: bool)
    requires n < |rows|
    ensures InClass(rows[..n + 1], dflt, explicit)
            == if Ttl(rows[n], dflt) > 0 && rows[n].expiration.Some? == explicit
               then InClass(rows[..n], dflt, explicit) + [rows[n]]
               else InClass(rows[..n], dflt, explicit)
  {
    assert rows[..n + 1][..n] == rows[..n];
  }

  lemma SelectStep(rows: seq<Candidate>, c: Candidate, p: Candidate -> bool)
    ensures Select(rows + [c], p) == Select(rows, p) + if p(c) then [c.topic] else []
  {
    assert (rows + [c])[..|rows|] == rows;
  }

  /** The switch of scanTopics, for one row. */
  function AddTo(k: Class, c: Candidate): Class {
    var k := k.(candidates := k.candidates + 1);
    if c.heldByMe then k.(held := k.held + 1)
    else if c.unleased then k.(unleased := k.unleased + [c.topic])
    else if c.leaseExpired then k.(stale := k.stale + [c.topic])
    else k
  }

  lemma AddToClass(rows: seq<Candidate>, c: Candidate)
    ensures ClassOf(rows + [c]) == AddTo(ClassOf(rows), c)
  {
    SelectStep(rows, c, HELD);
    SelectStep(rows, c, UNLEASED);
    SelectStep(rows, c, STALE);
  }

  /** The TTL table and the held topics the scan hands to reconcileLoops. */
  function TtlsOf(rows: seq<Candidate>, dflt: int): map<Topic, int> {
    if rows == [] then map[]
    else
      var c := rows[|rows| - 1];
      var before := TtlsOf(rows[..|rows| - 1], dflt);
      if Ttl(c, dflt) > 0 then before[c.topic := Ttl(c, dflt)] else before
  }

  function HeldOf(rows: seq<Candidate>, dflt: int): seq<Topic> {
    Select(rows, (c: Candidate) => Ttl(c, dflt) > 0 && c.heldByMe)
  }

  lemma {:induction false} TtlsOfContract(rows: seq<Candidate>, dflt: int)
    ensures forall t :: t in TtlsOf(rows, dflt) <==> exists c :: c in rows && c.topic == t && Ttl(c, dflt) > 0
    ensures forall t | t in TtlsOf(rows, dflt) ::
              TtlsOf(rows, dflt)[t] > 0
              && exists c :: c in rows && c.topic == t && TtlsOf(rows, dflt)[t] == Ttl(c, dflt)
  {
    if rows != [] {
      var n := |rows| - 1;
      TtlsOfContract(rows[..n], dflt);
      assert forall c :: c in rows <==> c in rows[..n] || c == rows[n];
    }
  }

  /** Whose TTL counts: a row's own expiration whenever it has one, positive or not, and only
      otherwise the instance's default.  A topic without a positive one has no entry. */
  lemma OwnTtlWins(rows: seq<Candidate>, dflt: int, c: Candidate)
    requires Distinct(TopicsIn(rows)) && c in rows
    ensures var ttls := TtlsOf(rows, dflt);
            var own := c.expiration.Some?;
            && (c.topic in ttls <==> (own && c.expiration.value > 0) || (!own && dflt > 0))
            && (c.topic in ttls ==> ttls[c.topic] == if own then c.expiration.value else dflt)
  {
    TtlsOfContract(rows, dflt);
    forall d | d in rows && d.topic == c.topic
      ensures d == c
    {
      OneRowPerTopic(rows, c, d);
    }
  }

  lemma ScanRowStep(rows: seq<Candidate>, n: nat, dflt: int)
    requires n < |rows|
    ensures TtlsOf(rows[..n + 1], dflt)
            == if Ttl(rows[n], dflt) > 0 then TtlsOf(rows[..n], dflt)[rows[n].topic := Ttl(rows[n], dflt)]
               else TtlsOf(rows[..n], dflt)
    ensures HeldOf(rows[..n + 1], dflt)
            == if Ttl(rows[n], dflt) > 0 && rows[n].heldByMe then HeldOf(rows[..n], dflt) + [rows[n].topic]
               else HeldOf(rows[..n], dflt)
  {
    assert rows[..n + 1][..n] == rows[..n];
  }

  /** The classification loop of scanTopics. */
  method Classify(rows: seq<Candidate>, dflt: int)
    returns (ttls: map<Topic, int>, held: seq<Topic>, explicitClass: Class, dfltClass: Class)
    ensures explicitClass == ClassOf(InClass(rows, dflt, true))
    ensures dfltClass == ClassOf(InClass(rows, dflt, false))
    ensures ttls == TtlsOf(rows, dflt) && held == HeldOf(rows, dflt)
  {
    ttls, held := map[], [];
    explicitClass, dfltClass := Class(0, 0, [], []), Class(0, 0, [], []);
    for n := 0 to |rows|
      invariant explicitClass == ClassOf(InClass(rows[..n], dflt, true))
      invariant dfltClass == ClassOf(InClass(rows[..n], dflt, false))
      invariant ttls == TtlsOf(rows[..n], dflt) && held == HeldOf(rows[..n], dflt)
    {
      var c := rows[n];
      InClassStep(rows, n, dflt, true);
      InClassStep(rows, n, dflt, false);
      ScanRowStep(rows, n, dflt);
      if Ttl(c, dflt) <= 0 {
        continue;
      }
      ttls := ttls[c.topic := Ttl(c, dflt)];
      if c.expiration.Some? {
        AddToClass(InClass(rows[..n], dflt, true), c);
        explicitClass := AddTo(explicitClass, c);
      } else {
        AddToClass(InClass(rows[..n], dflt, false), c);
        dfltClass := AddTo(dfltClass, c);
      }
      if c.heldByMe {
        held := held + [c.topic];
      }
    }
    assert rows[..|rows|] == rows;
  }

  // ----- what a class says about the tables ------------------------------------------------

  /** The row the query returns for topic `t`. */
  function QueryRow(t: Topic, expiration: Option<int>, leases: Leases, sessions: Sessions, me: Instance,
                    now: Time, staleCutoff: Time): Candidate
  {
    var l := if t in leases then Some(leases[t]) else None;
    Candidate(t, expiration, l.Some? && l.value.holder == me, l.None?, ScanReadsExpired(l, sessions, now, staleCutoff))
  }

  function HeldSet(topics: set<Topic>, leases: Leases, me: Instance): set<Topic> {
    set t | t in topics && t in leases && leases[t].holder == me
  }

  function UnleasedSet(topics: set<Topic>, leases: Leases): set<Topic> {
    set t | t in topics && t !in leases
  }

  function StaleSet(topics: set<Topic>, leases: Leases, sessions: Sessions, me: Instance, now: Time, staleCutoff: Time)
    : set<Topic>
  {
    set t | t in topics && t in leases && leases[t].holder != me && LeaseExpired(leases[t], sessions, now, staleCutoff)
  }

  /** `k` is a true account of the candidate topics: counts and lists match the tables. */
  ghost predicate IsClass(k: Class, topics: set<Topic>, leases: Leases, sessions: Sessions, me: Instance,
                          now: Time, staleCutoff: Time)
  {
    && k.candidates == |topics| && k.held == |HeldSet(topics, leases, me)|
    && Distinct(k.unleased) && Elements(k.unleased) == UnleasedSet(topics, leases)
    && Distinct(k.stale) && Elements(k.stale) == StaleSet(topics, leases, sessions, me, now, staleCutoff)
  }

  function TopicsIn(rows: seq<Candidate>): seq<Topic> {
    Select(rows, ANY)
  }

  /** Select keeps order, and lists exactly the topics of the rows `p` picks. */
  lemma {:induction false} SelectContract(rows: seq<Candidate>, p: Candidate -> bool)
    ensures forall t :: t in Select(rows, p) <==> exists c :: c in rows && c.topic == t && p(c)
    ensures Distinct(TopicsIn(rows)) ==> Distinct(Select(rows, p))
  {
    if rows != [] {
      var n := |rows| - 1;
      var c := rows[n];
      SelectContract(rows[..n], p);
      SelectContract(rows[..n], ANY);
      assert forall d :: d in rows <==> d in rows[..n] || d == c;
      assert TopicsIn(rows) == TopicsIn(rows[..n]) + [c.topic];
      if Distinct(TopicsIn(rows)) {
        DistinctInit(TopicsIn(rows[..n]), c.topic);
        assert forall t | t in Select(rows[..n], p) :: t in TopicsIn(rows[..n]);
        DistinctSnoc(Select(rows[..n], p), c.topic);
      }
    }
  }

  /** A row falls to exactly one of held, unleased, stale and neither: held by this instance
      first, then without a lease, then with one that reads expired. */
  lemma WhereARowFalls(rows: seq<Candidate>, c: Candidate)
    requires Distinct(TopicsIn(rows)) && c in rows
    ensures c.topic in Select(rows, HELD) <==> c.heldByMe
    ensures c.topic in ClassOf(rows).unleased <==> !c.heldByMe && c.unleased
    ensures c.topic in ClassOf(rows).stale <==> !c.heldByMe && !c.unleased && c.leaseExpired
  {
    SelectContract(rows, HELD);
    SelectContract(rows, UNLEASED);
    SelectContract(rows, STALE);
    forall d | d in rows && d.topic == c.topic
      ensures d == c
    {
      OneRowPerTopic(rows, c, d);
    }
  }

  lemma {:induction false} DistinctSize(ts: seq<Topic>)
    requires Distinct(ts)
    ensures |Elements(ts)| == |ts|
  {
    if ts != [] {
      var n := |ts| - 1;
      DistinctSize(ts[..n]);
      assert Elements(ts) == Elements(ts[..n]) + {ts[n]};
    }
  }

  /** For rows the query really returned, one per topic, the classification is a true
      account of the tables. */
  lemma ClassOfIsTrue(rows: seq<Candidate>, leases: Leases, sessions: Sessions, me: Instance, now: Time,
                      staleCutoff: Time)
    requires Distinct(TopicsIn(rows))
    requires forall c | c in rows :: c == QueryRow(c.topic, c.expiration, leases, sessions, me, now, staleCutoff)
    ensures IsClass(ClassOf(rows), Elements(TopicsIn(rows)), leases, sessions, me, now, staleCutoff)
  {
    SelectContract(rows, ANY);
    SelectContract(rows, HELD);
    SelectContract(rows, UNLEASED);
    SelectContract(rows, STALE);
    var topics := Elements(TopicsIn(rows));
    assert Elements(Select(rows, HELD)) == HeldSet(topics, leases, me);
    assert Elements(Select(rows, UNLEASED)) == UnleasedSet(topics, leases);
    assert Elements(Select(rows, STALE)) == StaleSet(topics, leases, sessions, me, now, staleCutoff);
    DistinctSize(Select(rows, HELD));
    DistinctSize(TopicsIn(rows));
    SelectLength(rows);
  }

  lemma {:induction false} SelectLength(rows: seq<Candidate>)
    ensures |TopicsIn(rows)| == |rows|
  {
    if rows != [] {
      SelectLength(rows[..|rows| - 1]);
    }
  }

  /** A class's rows are some of the scan's rows, each topic still at most once. */
  lemma {:induction false} InClassContract(rows: seq<Candidate>, dflt: int, explicit: bool)
    ensures forall c :: c in InClass(rows, dflt, explicit)
                        <==> c in rows && Ttl(c, dflt) > 0 && c.expiration.Some? == explicit
    ensures forall c | c in rows ::
              c in InClass(rows, dflt, explicit)
              <==> if explicit then c.expiration.Some? && c.expiration.value > 0 else c.expiration.None? && dflt > 0
    ensures Distinct(TopicsIn(rows)) ==> Distinct(TopicsIn(InClass(rows, dflt, explicit)))
  {
    if rows != [] {
      var n := |rows| - 1;
      var c := rows[n];
      assert rows == rows[..n] + [c];
      InClassContract(rows[..n], dflt, explicit);
      var before := InClass(rows[..n], dflt, explicit);
      assert forall d :: d in rows <==> d in rows[..n] || d == c;
      assert InClass(rows, dflt, explicit) == before || InClass(rows, dflt, explicit) == before + [c];
      if Distinct(TopicsIn(rows)) {
        SelectStep(rows[..n], c, ANY);
        DistinctInit(TopicsIn(rows[..n]), c.topic);
        SelectStep(before, c, ANY);
        SelectContract(before, ANY);
        SelectContract(rows[..n], ANY);
        assert forall d | d in before :: d.topic in TopicsIn(rows[..n]);
        DistinctSnoc(TopicsIn(before), c.topic);
      }
    }
  }

  /** With each topic at most once, a topic has one row. */
  lemma {:induction false} OneRowPerTopic(rows: seq<Candidate>, c: Candidate, d: Candidate)
    requires Distinct(TopicsIn(rows)) && c in rows && d in rows && c.topic == d.topic
    ensures c == d
  {
    var n := |rows| - 1;
    var last := rows[n];
    assert rows == rows[..n] + [last];
    SelectStep(rows[..n], last, ANY);
    DistinctInit(TopicsIn(rows[..n]), last.topic);
    SelectContract(rows[..n], ANY);
    assert forall x | x in rows[..n] :: x.topic in TopicsIn(rows[..n]);
    if c != last && d != last {
      OneRowPerTopic(rows[..n], c, d);
    }
  }
}
