/** When may maintenance stop watching a topic?  The insert trigger's gated activity stamp,
    the scanner's activity window, the final cleanup pass, and the slack between them. */
module Dormancy {
  import opened Tables
  import Messages
  import LooseScan

  type Key = Messages.Key

  /** The granularity of the activity stamp: 30 seconds, in nanoseconds. */
  const GATE: Time := 30_000_000_000

  /** topics, the two maintenance columns. */
  datatype Activity = Activity(expiration: Option<int>, lastInsertedAt: Option<Time>)

  /** `messages` maps each stored row to its inserted_at. */
  datatype State = State(topics: map<Topic, Activity>, messages: map<Key, Time>)

  datatype Step =
    /** One insert transaction of time `now`, as of its commit.  `skipped` are the known
        topics its trigger leaves alone: those whose rows are locked during the bump, and
        those another transaction registers between the trigger's look for new topics and
        its ON CONFLICT DO NOTHING. */
    | Insert(rows: set<Key>, now: Time, skipped: set<Topic>)
    | FlushBump(t: Topic, now: Time)
    | EnsureTopic(t: Topic, expiration: Option<int>, now: Time)
    | Remove(rows: set<Key>)

  // ----- what the statements do ---------------------------------------------------------

  /** The stamp is missing or more than 30 seconds older than `now`. */
  predicate Due(last: Option<Time>, now: Time) {
    last.None? || last.value < now - GATE
  }

  function Bumped(a: Activity, now: Time): Activity {
    if Due(a.lastInsertedAt, now) then a.(lastInsertedAt := Some(now)) else a
  }

  /** topics_insert_trigger_fn: bump the batch's existing topics, register the others. */
  function Trigger(topics: map<Topic, Activity>, batch: set<Topic>, now: Time, skipped: set<Topic>)
    : map<Topic, Activity>
  {
    map t | t in topics.Keys + batch ::
      if t !in topics then Activity(None, Some(now))
      else if t in batch && t !in skipped then Bumped(topics[t], now)
      else topics[t]
  }

  /** DeleteExpiredMessages. */
  function DeleteExpired(messages: map<Key, Time>, t: Topic, cutoff: Time): map<Key, Time> {
    map k | k in messages && !(k.topic == t && messages[k] < cutoff) :: messages[k]
  }

  predicate Enabled(s: State, step: Step) {
    match step
    case Insert(rows, _, _) => rows !! s.messages.Keys
    case FlushBump(t, _) => true
    case EnsureTopic(_, _, _) => true
    case Remove(rows) => true
  }

  function Apply(s: State, step: Step): State
    requires Enabled(s, step)
  {
    match step
    case Insert(rows, now, skipped) =>
      State.State(Trigger(s.topics, Messages.TopicsOf(rows), now, skipped), s.messages + map k | k in rows :: now)
    case FlushBump(t, now) =>
      if t in s.topics then s.(topics := s.topics[t := Bumped(s.topics[t], now)]) else s
    case EnsureTopic(t, expiration, now) =>
      var a := if t in s.topics then s.topics[t].(expiration := Coalesce(s.topics[t].expiration, expiration))
               else Activity(expiration, Some(now));
      s.(topics := s.topics[t := a])
    case Remove(rows) => s.(messages := s.messages - rows)
  }

  /** A topic's TTL for an instance with the given default; 0 when it has none. */
  function Ttl(a: Activity, dflt: Option<int>): int {
    var ttl := Coalesce(a.expiration, dflt);
    if ttl.Some? then ttl.value else 0
  }

  /** GetMaintenanceCandidateTopics keeps the topic. */
  predicate Candidate(a: Activity, dflt: Option<int>, included: bool, now: Time, slack: Time) {
    Ttl(a, dflt) > 0
    && (included || a.lastInsertedAt.None? || now - a.lastInsertedAt.value < Ttl(a, dflt) + slack)
  }

  // ----- the stamp covers the messages ----------------------------------------------------

  /** The message's topic is known and stamped, and the message is newer than the stamp by
      at most the gate plus `lag`. */
  predicate KeyCovered(s: State, k: Key, lag: Time)
    requires k in s.messages
  {
    && k.topic in s.topics && s.topics[k.topic].lastInsertedAt.Some?
    && s.messages[k] <= s.topics[k.topic].lastInsertedAt.value + GATE + lag
  }

  predicate TopicCovered(s: State, t: Topic, lag: Time) {
    forall k | k in s.messages && k.topic == t :: KeyCovered(s, k, lag)
  }

  predicate Covered(s: State, lag: Time) {
    forall k | k in s.messages :: KeyCovered(s, k, lag)
  }

  predicate Stamped(s: State) {
    forall t | t in s.topics :: s.topics[t].lastInsertedAt.Some?
  }

  /** No step forgets a topic, clears a stamp or moves one back; and a stamp moves only once it
      is more than 30 seconds old. */
  lemma StampsOnlyGrow(s: State, step: Step, t: Topic)
    requires Enabled(s, step) && t in s.topics && s.topics[t].lastInsertedAt.Some?
    ensures t in Apply(s, step).topics && Apply(s, step).topics[t].lastInsertedAt.Some?
    ensures var before, after := s.topics[t].lastInsertedAt.value, Apply(s, step).topics[t].lastInsertedAt.value;
            after == before || after > before + 30_000_000_000
  {
  }

  /** What an insert does to the tables: its messages and nothing else come in, at its time;
      every topic of theirs is known afterwards, a new one without a TTL and stamped with
      the insert's time; a topic not among them, or one it skips, is as it was. */
  lemma WhatAnInsertDoes(s: State, rows: set<Key>, now: Time, skipped: set<Topic>, k: Key, t: Topic)
    requires Enabled(s, Insert(rows, now, skipped))
    ensures var s' := Apply(s, Insert(rows, now, skipped));
            && (k in s'.messages <==> k in s.messages || k in rows)
            && (k in s'.messages ==> s'.messages[k] == if k in rows then now else s.messages[k])
            && (k in rows ==> k.topic in s'.topics)
            && (k in rows && k.topic !in s.topics ==> s'.topics[k.topic] == Activity(None, Some(now)))
            && (t in s.topics ==> t in s'.topics && s'.topics[t].expiration == s.topics[t].expiration)
            && (t in s.topics && (t in skipped || forall l | l in rows :: l.topic != t) ==> s'.topics[t] == s.topics[t])
  {
    assert k in rows ==> k.topic in Messages.TopicsOf(rows);
  }

  /** A cleanup pass is one of the removals, and leaves the stamps alone. */
  lemma PassIsARemoval(s: State, t: Topic, cutoff: Time)
    ensures var victims := set k | k in s.messages && k.topic == t && s.messages[k] < cutoff;
            Apply(s, Remove(victims)) == s.(messages := DeleteExpired(s.messages, t, cutoff))
  {
  }

  /** The bump an insert skipped for `t`, if any, could wait: the stamp is older than the
      insert by at most the gate plus `lag`. */
  predicate SkipWithin(s: State, step: Step, t: Topic, lag: Time) {
    step.Insert? && t in Messages.TopicsOf(step.rows) && t in step.skipped && t in s.topics ==>
      s.topics[t].lastInsertedAt.Some? && step.now <= s.topics[t].lastInsertedAt.value + GATE + lag
  }

  predicate SkipsWithin(s: State, step: Step, lag: Time) {
    step.Insert? ==> forall t | t in step.skipped :: SkipWithin(s, step, t, lag)
  }

  /** One of the new messages is covered exactly when its topic's skipped bump could wait. */
  lemma InsertCoversKey(s: State, step: Step, k: Key, lag: Time)
    requires Stamped(s) && Enabled(s, step) && step.Insert? && k in step.rows && lag >= 0
    ensures k in Apply(s, step).messages && Apply(s, step).messages[k] == step.now
    ensures KeyCovered(Apply(s, step), k, lag) <==> SkipWithin(s, step, k.topic, lag)
  {
    assert k.topic in Messages.TopicsOf(step.rows);
  }

  /** An insert leaves its messages covered exactly when every bump it skipped could wait. */
  lemma InsertCoversItself(s: State, step: Step, lag: Time)
    requires Stamped(s) && Enabled(s, step) && step.Insert? && lag >= 0
    ensures (forall k | k in step.rows :: k in Apply(s, step).messages && KeyCovered(Apply(s, step), k, lag))
            <==> SkipsWithin(s, step, lag)
  {
    forall k | k in step.rows
      ensures k in Apply(s, step).messages
      ensures KeyCovered(Apply(s, step), k, lag) <==> SkipWithin(s, step, k.topic, lag)
    {
      InsertCoversKey(s, step, k, lag);
    }
    if forall k | k in step.rows :: k in Apply(s, step).messages && KeyCovered(Apply(s, step), k, lag) {
      forall t | t in step.skipped && t in Messages.TopicsOf(step.rows)
        ensures SkipWithin(s, step, t, lag)
      {
        var k :| k in step.rows && k.topic == t;
        assert KeyCovered(Apply(s, step), k, lag);
      }
    } else {
      var k :| k in step.rows && !KeyCovered(Apply(s, step), k, lag);
      assert !SkipWithin(s, step, k.topic, lag) && k.topic in step.skipped;
    }
  }

  const EMPTY := State(map[], map[])

  ghost predicate IsRun(ss: seq<State>, steps: seq<Step>) {
    && |ss| == |steps| + 1 && ss[0] == EMPTY
    && forall k | 0 <= k < |steps| :: Enabled(ss[k], steps[k]) && ss[k + 1] == Apply(ss[k], steps[k])
  }

  /** Every topics row of every run carries a stamp. */
  lemma {:induction false} AlwaysStamped(ss: seq<State>, steps: seq<Step>, n: nat)
    requires IsRun(ss, steps) && n < |ss|
    ensures Stamped(ss[n])
  {
    if n > 0 {
      AlwaysStamped(ss, steps, n - 1);
      assert ss[n] == Apply(ss[n - 1], steps[n - 1]);
    }
  }

  lemma {:induction false} StampPersists(ss: seq<State>, steps: seq<Step>, a: nat, b: nat, t: Topic, stamp: Time)
    requires IsRun(ss, steps) && a <= b < |ss|
    requires t in ss[a].topics && ss[a].topics[t].lastInsertedAt.Some? && ss[a].topics[t].lastInsertedAt.value >= stamp
    ensures t in ss[b].topics && ss[b].topics[t].lastInsertedAt.Some? && ss[b].topics[t].lastInsertedAt.value >= stamp
  {
    if a < b {
      StampPersists(ss, steps, a, b - 1, t, stamp);
      assert ss[b] == Apply(ss[b - 1], steps[b - 1]);
      StampsOnlyGrow(ss[b - 1], steps[b - 1], t);
    }
  }

  /** A message that is not as it was at `a` was inserted in between. */
  lemma {:induction false} InsertedBetween(ss: seq<State>, steps: seq<Step>, a: nat, b: nat, k: Key) returns (j: nat)
    requires IsRun(ss, steps) && a <= b < |ss| && k in ss[b].messages
    requires !(k in ss[a].messages && ss[a].messages[k] == ss[b].messages[k])
    ensures a <= j < b && steps[j].Insert? && k in steps[j].rows && steps[j].now == ss[b].messages[k]
  {
    var d := b - 1;
    assert ss[b] == Apply(ss[d], steps[d]);
    if k in ss[d].messages && ss[d].messages[k] == ss[b].messages[k] {
      j := InsertedBetween(ss, steps, a, d, k);
    } else {
      j := d;
    }
  }

  /** What the flush path gives back.  The lock that made an insert skip its bump belongs to
      a ProcessMessages transaction begun at `begun`; once that transaction's own bump has
      committed, every message of the topic inserted up to `lag` after its begin is covered
      with that lag, and stays so. */
  lemma FlushBumpCompensates(ss: seq<State>, steps: seq<Step>, b: nat, n: nat, begun: Time, k: Key, lag: Time)
    requires IsRun(ss, steps) && b < n < |ss| && steps[b] == FlushBump(k.topic, begun) && k.topic in ss[b].topics
    requires k in ss[n].messages && ss[n].messages[k] <= begun + lag
    ensures KeyCovered(ss[n], k, lag)
  {
    MakeUpLasts(ss, steps, b, n, k.topic, begun);
  }

  /** The step tries to stamp `t`: a flush's bump, or a producer's that is not skipped. */
  predicate Bumps(step: Step, t: Topic) {
    || (step.FlushBump? && step.t == t)
    || (step.Insert? && t in Messages.TopicsOf(step.rows) && t !in step.skipped)
  }

  /** The bump leaves a stamp at most 30 seconds older than `since`: it began no earlier, or
      it was due and began at most 30 seconds earlier. */
  predicate MakesUp(s: State, step: Step, t: Topic, since: Time) {
    && t in s.topics && Bumps(step, t)
    && (since <= step.now || (since <= step.now + GATE && Due(s.topics[t].lastInsertedAt, step.now)))
  }

  lemma MakeUpLasts(ss: seq<State>, steps: seq<Step>, b: nat, n: nat, t: Topic, since: Time)
    requires IsRun(ss, steps) && b < n < |ss| && MakesUp(ss[b], steps[b], t, since)
    ensures t in ss[n].topics && ss[n].topics[t].lastInsertedAt.Some?
    ensures ss[n].topics[t].lastInsertedAt.value >= since - GATE
  {
    AlwaysStamped(ss, steps, b);
    assert ss[b + 1] == Apply(ss[b], steps[b]);
    StampPersists(ss, steps, b + 1, n, t, since - GATE);
  }

  /** A stamp gets past a mark only by a bump that makes up for it. */
  lemma {:induction false} RaisedBetween(ss: seq<State>, steps: seq<Step>, a: nat, n: nat, t: Topic, since: Time)
    returns (b: nat)
    requires IsRun(ss, steps) && a <= n < |ss| && t in ss[a].topics && t in ss[n].topics
    requires Stamped(ss[a]) && ss[a].topics[t].lastInsertedAt.value < since - GATE
    requires Stamped(ss[n]) && ss[n].topics[t].lastInsertedAt.value >= since - GATE
    ensures a <= b < n && MakesUp(ss[b], steps[b], t, since)
  {
    var c := n - 1;
    assert ss[n] == Apply(ss[c], steps[c]);
    AlwaysStamped(ss, steps, c);
    StampPersists(ss, steps, a, c, t, ss[a].topics[t].lastInsertedAt.value);
    if ss[c].topics[t].lastInsertedAt.value >= since - GATE {
      b := RaisedBetween(ss, steps, a, c, t, since);
    } else {
      b := c;
    }
  }

  /** Step `j` inserted a message of `t` that is still stored at `n`. */
  ghost predicate StillThere(ss: seq<State>, steps: seq<Step>, j: nat, n: nat, t: Topic)
    requires j < |steps| && n < |ss|
  {
    steps[j].Insert? && exists k :: Remains(ss[n], steps[j], k) && k.topic == t
  }

  predicate Remains(s: State, step: Step, k: Key) {
    step.Insert? && k in step.rows && k in s.messages && s.messages[k] == step.now
  }

  /** If step `j` skipped a bump of `t`, it could wait, or by state `n` another transaction's
      bump has made up for it. */
  ghost predicate SkipHarmless(ss: seq<State>, steps: seq<Step>, j: nat, n: nat, t: Topic, lag: Time)
    requires j < n <= |steps| < |ss| && steps[j].Insert?
  {
    || SkipWithin(ss[j], steps[j], t, lag)
    || exists b :: j < b < n && MakesUp(ss[b], steps[b], t, steps[j].now - lag)
  }

  /** No insert of a still stored message of `t` skipped a bump that did harm. */
  ghost predicate SkipsHarmless(ss: seq<State>, steps: seq<Step>, n: nat, t: Topic, lag: Time)
    requires n <= |steps| < |ss|
  {
    forall j | 0 <= j < n && StillThere(ss, steps, j, n, t) :: SkipHarmless(ss, steps, j, n, t, lag)
  }

  lemma MessageIsCovered(ss: seq<State>, steps: seq<Step>, j: nat, n: nat, k: Key, lag: Time)
    requires IsRun(ss, steps) && j < n < |ss| && lag >= 0 && Remains(ss[n], steps[j], k)
    ensures KeyCovered(ss[n], k, lag) <==> SkipHarmless(ss, steps, j, n, k.topic, lag)
  {
    var t, since := k.topic, steps[j].now - lag;
    assert ss[j + 1] == Apply(ss[j], steps[j]);
    AlwaysStamped(ss, steps, j);
    AlwaysStamped(ss, steps, j + 1);
    AlwaysStamped(ss, steps, n);
    InsertCoversKey(ss[j], steps[j], k, lag);
    var stamp := ss[j + 1].topics[t].lastInsertedAt.value;
    StampPersists(ss, steps, j + 1, n, t, stamp);
    if b :| j < b < n && MakesUp(ss[b], steps[b], t, since) {
      MakeUpLasts(ss, steps, b, n, t, since);
    }
    if KeyCovered(ss[n], k, lag) && stamp < since - GATE {
      var b := RaisedBetween(ss, steps, j + 1, n, t, since);
    }
  }

  /** Exactly when a topic's stamp can be trusted at a state: all its messages are at most the
      gate plus `lag` newer than the stamp, in whatever order the transactions' times come,
      if and only if every bump that an insert of one of them skipped was overdue by at most
      `lag` or has been made up for, by a flush or by another producer. */
  lemma EveryMessageIsCovered(ss: seq<State>, steps: seq<Step>, n: nat, t: Topic, lag: Time)
    requires IsRun(ss, steps) && n < |ss| && lag >= 0
    ensures TopicCovered(ss[n], t, lag) <==> SkipsHarmless(ss, steps, n, t, lag)
  {
    if SkipsHarmless(ss, steps, n, t, lag) {
      forall k | k in ss[n].messages && k.topic == t
        ensures KeyCovered(ss[n], k, lag)
      {
        var j := InsertedBetween(ss, steps, 0, n, k);
        assert Remains(ss[n], steps[j], k);
        MessageIsCovered(ss, steps, j, n, k, lag);
      }
    }
    if TopicCovered(ss[n], t, lag) {
      forall j | 0 <= j < n && StillThere(ss, steps, j, n, t)
        ensures SkipHarmless(ss, steps, j, n, t, lag)
      {
        var k :| Remains(ss[n], steps[j], k) && k.topic == t;
        MessageIsCovered(ss, steps, j, n, k, lag);
      }
    }
  }

  /** Exactly when they can be trusted throughout: in a run every message is at every moment
      at most the gate plus `lag` newer than its topic's stamp if and only if no insert skips
      a bump that is overdue by more than `lag`. */
  lemma CoveredIffSkipsCouldWait(ss: seq<State>, steps: seq<Step>, lag: Time)
    requires IsRun(ss, steps) && lag >= 0
    ensures (forall n | 0 <= n < |ss| :: Covered(ss[n], lag))
            <==> (forall j | 0 <= j < |steps| :: SkipsWithin(ss[j], steps[j], lag))
  {
    if forall j | 0 <= j < |steps| :: SkipsWithin(ss[j], steps[j], lag) {
      forall n, k | 0 <= n < |ss| && k in ss[n].messages
        ensures KeyCovered(ss[n], k, lag)
      {
        var j := InsertedBetween(ss, steps, 0, n, k);
        assert Remains(ss[n], steps[j], k) && SkipWithin(ss[j], steps[j], k.topic, lag);
        MessageIsCovered(ss, steps, j, n, k, lag);
      }
    }
    if forall n | 0 <= n < |ss| :: Covered(ss[n], lag) {
      forall j | 0 <= j < |steps|
        ensures SkipsWithin(ss[j], steps[j], lag)
      {
        AlwaysStamped(ss, steps, j);
        assert Covered(ss[j + 1], lag) && ss[j + 1] == Apply(ss[j], steps[j]);
        if steps[j].Insert? {
          InsertCoversItself(ss[j], steps[j], lag);
        }
      }
    }
  }

  // ----- a topic's TTL ------------------------------------------------------------------------

  /** Ensuring a topic gives it a TTL if it has none, registering it if it is new. */
  lemma EnsureSetsTheTtl(s: State, t: Topic, ttl: int, now: Time)
    ensures var s' := Apply(s, EnsureTopic(t, Some(ttl), now));
            t in s'.topics
            && s'.topics[t].expiration == if t in s.topics && s.topics[t].expiration.Some? then s.topics[t].expiration
                                          else Some(ttl)
  {
  }

  /** A TTL, once in the table, never changes, whatever TTLs other instances come with. */
  lemma {:induction false} TtlIsWrittenOnce(ss: seq<State>, steps: seq<Step>, a: nat, b: nat, t: Topic)
    requires IsRun(ss, steps) && a <= b < |ss| && t in ss[a].topics && ss[a].topics[t].expiration.Some?
    ensures t in ss[b].topics && ss[b].topics[t].expiration == ss[a].topics[t].expiration
  {
    if a < b {
      TtlIsWrittenOnce(ss, steps, a, b - 1, t);
      assert ss[b] == Apply(ss[b - 1], steps[b - 1]);
    }
  }

  /** The candidate query on the columns themselves: a topic's own TTL counts whatever the
      default, the default only where there is none, and never one that is not positive;
      the topic stays while its stamp is missing or younger than TTL plus slack. */
  lemma CandidateRule(expiration: Option<int>, stamp: Option<Time>, dflt: Option<int>, included: bool, now: Time,
                      slack: Time)
    ensures var active := (ttl: int) => ttl > 0 && (included || stamp.None? || now < stamp.value + ttl + slack);
            Candidate(Activity(expiration, stamp), dflt, included, now, slack)
            <==> if expiration.Some? then active(expiration.value) else dflt.Some? && active(dflt.value)
  {
  }

  // ----- dropping a topic is sound ------------------------------------------------------------

  /** A covered message of a topic the scan drops as inactive is past its TTL, even on a
      clock `skew` behind the scan's, if the slack exceeds the gate plus the lag and the
      skew. */
  lemma DroppedMeansExpired(s: State, k: Key, dflt: Option<int>, now: Time, slack: Time, lag: Time, skew: Time)
    requires k in s.messages && KeyCovered(s, k, lag) && slack > GATE + lag + skew
    requires Ttl(s.topics[k.topic], dflt) > 0 && !Candidate(s.topics[k.topic], dflt, false, now, slack)
    ensures s.messages[k] < now - skew - Ttl(s.topics[k.topic], dflt)
  {
  }

  /** A cleanup pass with this cutoff leaves nothing of the topic. */
  predicate EmptiedBy(messages: map<Key, Time>, t: Topic, cutoff: Time) {
    forall k | k in DeleteExpired(messages, t, cutoff) :: k.topic != t
  }

  /** If the scan of `s` at `now` drops the topic, a final pass with the scan's TTL, on a clock
      at most `skew` behind the scan's, deletes all its messages. */
  predicate DropIsSafe(s: State, t: Topic, dflt: Option<int>, slack: Time, skew: Time, now: Time, clock: Time)
    requires t in s.topics
  {
    !Candidate(s.topics[t], dflt, false, now, slack) && now <= clock + skew ==>
      EmptiedBy(s.messages, t, clock - Ttl(s.topics[t], dflt))
  }

  ghost predicate SafeToDrop(s: State, t: Topic, dflt: Option<int>, slack: Time, skew: Time)
    requires t in s.topics
  {
    forall now, clock :: DropIsSafe(s, t, dflt, slack, skew, now, clock)
  }

  lemma CoveredIsSafe(s: State, t: Topic, dflt: Option<int>, slack: Time, lag: Time, skew: Time)
    requires t in s.topics && Ttl(s.topics[t], dflt) > 0 && TopicCovered(s, t, lag) && slack > GATE + lag + skew
    ensures SafeToDrop(s, t, dflt, slack, skew)
  {
    forall now, clock
      ensures DropIsSafe(s, t, dflt, slack, skew, now, clock)
    {
      if !Candidate(s.topics[t], dflt, false, now, slack) && now <= clock + skew {
        forall k | k in s.messages && k.topic == t
          ensures s.messages[k] < clock - Ttl(s.topics[t], dflt)
        {
          DroppedMeansExpired(s, k, dflt, now, slack, lag, skew);
        }
      }
    }
  }

  /** Dropping is safe exactly when the stamp covers the messages with less lag than the
      slack has to spare. */
  lemma SafeIffCovered(s: State, t: Topic, dflt: Option<int>, slack: Time, skew: Time)
    requires Stamped(s) && t in s.topics && Ttl(s.topics[t], dflt) > 0
    ensures SafeToDrop(s, t, dflt, slack, skew) <==> TopicCovered(s, t, slack - skew - GATE - 1)
  {
    var ttl, lag := Ttl(s.topics[t], dflt), slack - skew - GATE - 1;
    if TopicCovered(s, t, lag) {
      CoveredIsSafe(s, t, dflt, slack, lag, skew);
    }
    if SafeToDrop(s, t, dflt, slack, skew) {
      var now := s.topics[t].lastInsertedAt.value + ttl + slack;
      assert !Candidate(s.topics[t], dflt, false, now, slack);
      assert DropIsSafe(s, t, dflt, slack, skew, now, now - skew);
      assert EmptiedBy(s.messages, t, now - skew - ttl);
      forall k | k in s.messages && k.topic == t
        ensures KeyCovered(s, k, lag)
      {
        assert k !in DeleteExpired(s.messages, t, now - skew - ttl);
      }
    }
  }

  /** Exactly when dropping a topic is safe: in any run, at any state, with a slack that covers
      the gate and the clock skew, if and only if no insert of a message still stored skipped
      a bump overdue by the slack to spare that nobody has made up for. */
  lemma SafeIffSkipsHarmless(ss: seq<State>, steps: seq<Step>, a: nat, t: Topic, dflt: Option<int>, slack: Time,
                             skew: Time)
    requires IsRun(ss, steps) && a < |ss| && slack > GATE + skew
    requires t in ss[a].topics && Ttl(ss[a].topics[t], dflt) > 0
    ensures SafeToDrop(ss[a], t, dflt, slack, skew) <==> SkipsHarmless(ss, steps, a, t, slack - skew - GATE - 1)
  {
    AlwaysStamped(ss, steps, a);
    SafeIffCovered(ss[a], t, dflt, slack, skew);
    EveryMessageIsCovered(ss, steps, a, t, slack - skew - GATE - 1);
  }

  /** The whole exit: if the scan at state `a` drops `t`, then a final pass at any later state,
      with the TTL the scan used and a clock at most `skew` behind the scan's reading, deletes
      every message of `t` that was there at the scan; what it leaves was inserted since. */
  lemma DormancyIsSound(ss: seq<State>, steps: seq<Step>, a: nat, b: nat, t: Topic, dflt: Option<int>,
                        now: Time, later: Time, slack: Time, lag: Time, skew: Time, k: Key)
    requires IsRun(ss, steps) && a <= b < |ss|
    requires now <= later + skew && lag >= 0 && slack > GATE + lag + skew
    requires SkipsHarmless(ss, steps, a, t, lag)
    requires t in ss[a].topics && Ttl(ss[a].topics[t], dflt) > 0
    requires !Candidate(ss[a].topics[t], dflt, false, now, slack)
    requires k.topic == t && k in DeleteExpired(ss[b].messages, t, later - Ttl(ss[a].topics[t], dflt))
    ensures exists j :: a <= j < b && steps[j].Insert? && k in steps[j].rows
  {
    EveryMessageIsCovered(ss, steps, a, t, lag);
    if k in ss[a].messages {
      DroppedMeansExpired(ss[a], k, dflt, now, slack, lag, skew);
    }
    var j := InsertedBetween(ss, steps, a, b, k);
  }

  /** The rollover the trigger is built for: of two producers inserting at once on an idle
      topic, the one that skips is made up for by the one that bumps. */
  lemma RolloverIsHarmless(t: Topic, ttl: int, idle: Time) returns (ss: seq<State>, steps: seq<Step>)
    requires idle > GATE
    ensures var k, l := Messages.Key(t, 0), Messages.Key(t, 1);
            steps == [EnsureTopic(t, Some(ttl), 0), Insert({k}, idle + 1, {t}), Insert({l}, idle, {})]
    ensures IsRun(ss, steps) && !SkipWithin(ss[1], steps[1], t, 0) && SkipsHarmless(ss, steps, 3, t, 0)
  {
    var k, l := Messages.Key(t, 0), Messages.Key(t, 1);
    assert Messages.TopicsOf({k}) == {t} && Messages.TopicsOf({l}) == {t};
    steps := [EnsureTopic(t, Some(ttl), 0), Insert({k}, idle + 1, {t}), Insert({l}, idle, {})];
    var s1 := State(map[t := Activity(Some(ttl), Some(0))], map[]);
    var s2 := State(s1.topics, map[k := idle + 1]);
    var s3 := State(map[t := Activity(Some(ttl), Some(idle))], map[k := idle + 1, l := idle]);
    ss := [EMPTY, s1, s2, s3];
    assert Apply(EMPTY, steps[0]) == s1;
    assert Apply(s1, steps[1]) == s2;
    assert Apply(s2, steps[2]) == s3;
    EveryMessageIsCovered(ss, steps, 3, t, 0);
  }

  // ----- a later insert brings the topic back ---------------------------------------------------

  /** After an insert whose bump was not skipped, the topic is a candidate of every scan up
      to TTL + slack - 30 seconds after it, whatever was skipped before and whatever
      happens in between. */
  lemma InsertReactivates(ss: seq<State>, steps: seq<Step>, a: nat, b: nat, t: Topic, dflt: Option<int>,
                          now: Time, slack: Time)
    requires IsRun(ss, steps) && a < b < |ss|
    requires steps[a].Insert? && t in Messages.TopicsOf(steps[a].rows) && t !in steps[a].skipped
    requires t in ss[b].topics ==> Ttl(ss[b].topics[t], dflt) > 0
    requires t in ss[b].topics ==> now - steps[a].now < Ttl(ss[b].topics[t], dflt) + slack - GATE
    ensures t in ss[b].topics && Candidate(ss[b].topics[t], dflt, false, now, slack)
  {
    AlwaysStamped(ss, steps, a);
    assert ss[a + 1] == Apply(ss[a], steps[a]);
    StampPersists(ss, steps, a + 1, b, t, steps[a].now - GATE);
  }

  /** The catch-up sweep depends on no stamp: whatever was skipped, a scan that includes the
      topics the recursive query listed at an earlier state `m` keeps every topic that had
      a message then and has a TTL now. */
  lemma CatchUpFindsEveryMessage(ss: seq<State>, steps: seq<Step>, m: nat, n: nat, k: Key, listed: seq<Topic>,
                                 dflt: Option<int>, now: Time, slack: Time)
    requires IsRun(ss, steps) && m <= n < |ss| && k in ss[m].messages
    requires LooseScan.IsDistinctTopics(listed, ss[m].messages.Keys)
    ensures k.topic in ss[n].topics
    ensures Candidate(ss[n].topics[k.topic], dflt, k.topic in listed, now, slack)
            <==> Ttl(ss[n].topics[k.topic], dflt) > 0
  {
    var j := InsertedBetween(ss, steps, 0, m, k);
    AlwaysStamped(ss, steps, j + 1);
    assert ss[j + 1] == Apply(ss[j], steps[j]) && k.topic in Messages.TopicsOf(steps[j].rows);
    StampPersists(ss, steps, j + 1, n, k.topic, ss[j + 1].topics[k.topic].lastInsertedAt.value);
    assert k.topic in Messages.TopicsOf(ss[m].messages.Keys);
  }

  // ----- how much slack, and what a skipped bump costs --------------------------------------------

  /** With this slack, dropping any topic of this TTL is safe. */
  ghost predicate DropsOnlyExpired(s: State, ttl: int, slack: Time, skew: Time) {
    forall t | t in s.topics && Ttl(s.topics[t], None) == ttl :: SafeToDrop(s, t, None, slack, skew)
  }

  lemma EnoughSlack(s: State, ttl: int, slack: Time, lag: Time, skew: Time)
    requires ttl > 0 && Covered(s, lag) && slack > GATE + lag + skew
    ensures DropsOnlyExpired(s, ttl, slack, skew)
  {
    forall t | t in s.topics && Ttl(s.topics[t], None) == ttl
      ensures SafeToDrop(s, t, None, slack, skew)
    {
      CoveredIsSafe(s, t, None, slack, lag, skew);
    }
  }

  /** A topic stamped at 0 with one message as far ahead of the stamp as the lag allows. */
  function Furthest(ttl: int, lag: Time): State {
    State(map["t" := Activity(Some(ttl), Some(0))], map[Messages.Key("t", 0) := GATE + lag])
  }

  lemma TooLittleSlack(ttl: int, slack: Time, lag: Time, skew: Time)
    requires ttl > 0 && slack <= GATE + lag + skew
    ensures Covered(Furthest(ttl, lag), lag) && !DropsOnlyExpired(Furthest(ttl, lag), ttl, slack, skew)
  {
    var s := Furthest(ttl, lag);
    var k := Messages.Key("t", 0);
    SafeIffCovered(s, "t", None, slack, skew);
    assert k in s.messages && !KeyCovered(s, k, slack - skew - GATE - 1);
  }

  /** For every TTL, lag and clock skew, dropping inactive topics is sound for all tables
      covered with that lag exactly when the slack exceeds the 30-second gate plus both. */
  lemma SlackMustExceedTheGate(ttl: int, slack: Time, lag: Time, skew: Time)
    requires ttl > 0
    ensures slack > GATE + lag + skew <==> forall s: State | Covered(s, lag) :: DropsOnlyExpired(s, ttl, slack, skew)
  {
    if slack > GATE + lag + skew {
      forall s: State | Covered(s, lag)
        ensures DropsOnlyExpired(s, ttl, slack, skew)
      {
        EnoughSlack(s, ttl, slack, lag, skew);
      }
    } else {
      TooLittleSlack(ttl, slack, lag, skew);
    }
  }

  /** No skipped bump of the run was overdue by more than `lag`. */
  ghost predicate RunSkipsWithin(ss: seq<State>, steps: seq<Step>, lag: Time) {
    IsRun(ss, steps) && forall j | 0 <= j < |steps| :: SkipsWithin(ss[j], steps[j], lag)
  }

  lemma FurthestIsReached(ttl: int, lag: Time) returns (ss: seq<State>, steps: seq<Step>)
    requires lag >= 0
    ensures RunSkipsWithin(ss, steps, lag) && ss[|steps|] == Furthest(ttl, lag)
  {
    var k := Messages.Key("t", 0);
    steps := [EnsureTopic("t", Some(ttl), 0), Insert({k}, GATE + lag, {"t"})];
    var s1 := Apply(EMPTY, steps[0]);
    var s2 := Apply(s1, steps[1]);
    ss := [EMPTY, s1, s2];
    assert s2.topics == s1.topics && s2 == Furthest(ttl, lag);
  }

  /** The threshold is no artefact of unreachable tables: it is the same over the states
      that runs with so much lag reach. */
  lemma SlackThresholdIsReached(ttl: int, slack: Time, lag: Time, skew: Time)
    requires ttl > 0 && lag >= 0
    ensures slack > GATE + lag + skew
            <==> forall ss, steps | RunSkipsWithin(ss, steps, lag) :: DropsOnlyExpired(ss[|steps|], ttl, slack, skew)
  {
    if slack > GATE + lag + skew {
      forall ss, steps | RunSkipsWithin(ss, steps, lag)
        ensures DropsOnlyExpired(ss[|steps|], ttl, slack, skew)
      {
        CoveredIffSkipsCouldWait(ss, steps, lag);
        assert Covered(ss[|steps|], lag);
        EnoughSlack(ss[|steps|], ttl, slack, lag, skew);
      }
    } else {
      var ss, steps := FurthestIsReached(ttl, lag);
      TooLittleSlack(ttl, slack, lag, skew);
    }
  }

  /** One skipped bump can strand a message: for any TTL and any slack over the gate there
      is a covered table and an insert whose due bump is skipped, after which the scan
      drops the topic at the very time of the insert. */
  lemma SkippedBumpStrandsAMessage(t: Topic, ttl: int, slack: Time)
    requires ttl > 0 && slack > GATE
    ensures exists s: State, k: Key, now: Time ::
              Stamped(s) && Covered(s, 0) && k !in s.messages && k.topic == t
              && var s' := Apply(s, Insert({k}, now, {t}));
                 k in s'.messages && s'.messages[k] == now && t in s'.topics && Ttl(s'.topics[t], None) == ttl
                 && !Candidate(s'.topics[t], None, false, now, slack)
  {
    var k := Messages.Key(t, 0);
    var now := ttl + slack;
    var s := State(map[t := Activity(Some(ttl), Some(0))], map[]);
    var s' := Apply(s, Insert({k}, now, {t}));
    assert k in s'.messages && s'.messages[k] == now && t in s'.topics && s'.topics[t] == s.topics[t];
    assert Stamped(s) && Covered(s, 0) && k !in s.messages;
  }
}
