/** The messages table under producers, ProcessMessages and maintenance deletes, any
    number of each at once: no message is lost, duplicated or removed without cause. */
module Messages {
  import opened Tables

  type TxId = nat

  /** The primary key of a message. */
  datatype Key = Key(topic: Topic, id: nat)

  /** The topics that hold messages. */
  function TopicsOf(rows: set<Key>): set<Topic> {
    set k | k in rows :: k.topic
  }

  datatype Tx =
    /** ProcessMessages holding its batch; `writes` is what the flusher has written
        through Tx(), one record per message, once Flush has returned nil. */
    | Flushing(topic: Topic, batch: seq<Key>, flushed: bool, writes: seq<Key>)
    /** runMaintenance after DeleteExpiredMessages, before its commit. */
    | Expiring(topic: Topic, cutoff: Time, victims: set<Key>)

  /** `stored` maps each committed row to its inserted_at.  The last four fields are
      history: every message ever committed, what removed each removed one, and the
      flusher's committed writes. */
  datatype State = State(stored: map<Key, Time>, locks: map<Key, TxId>, txs: map<TxId, Tx>,
                         inserted: map<Key, Time>, delivered: set<Key>, expired: map<Key, Time>, relayed: seq<Key>)

  datatype Step =
    | Insert(rows: map<Key, Time>)
    | Acquire(x: TxId, topic: Topic, limit: nat, batch: seq<Key>)
    | Flush(x: TxId)
    | CommitBatch(x: TxId)
    | DeleteExpired(x: TxId, topic: Topic, cutoff: Time)
    | CommitExpired(x: TxId)
    | Abort(x: TxId)

  /** A row SKIP LOCKED does not skip. */
  predicate Free(s: State, topic: Topic, k: Key) {
    k in s.stored && k !in s.locks && k.topic == topic
  }

  /** AcquireMessagesByTopic: the unlocked rows of the topic with the lowest ids, in
      ascending order, as many as the limit allows. */
  ghost predicate IsBatch(s: State, topic: Topic, limit: nat, batch: seq<Key>) {
    && |batch| <= limit
    && (forall n | 0 <= n < |batch| :: Free(s, topic, batch[n]))
    && (forall m, n | 0 <= m < n < |batch| :: batch[m].id < batch[n].id)
    && (forall k | Free(s, topic, k) && k !in batch ::
          |batch| == limit && forall n | 0 <= n < |batch| :: batch[n].id < k.id)
  }

  /** The rows DeleteExpiredMessages deletes. */
  function Victims(s: State, topic: Topic, cutoff: Time): set<Key> {
    set k | k in s.stored && k.topic == topic && s.stored[k] < cutoff
  }

  ghost predicate Enabled(s: State, step: Step) {
    match step
    case Insert(rows) => rows.Keys !! s.inserted.Keys
    case Acquire(x, topic, limit, batch) => x !in s.txs && IsBatch(s, topic, limit, batch)
    case Flush(x) => x in s.txs && s.txs[x].Flushing? && !s.txs[x].flushed && s.txs[x].batch != []
    case CommitBatch(x) => x in s.txs && s.txs[x].Flushing? && (s.txs[x].flushed || s.txs[x].batch == [])
    case DeleteExpired(x, topic, cutoff) => x !in s.txs && Victims(s, topic, cutoff) !! s.locks.Keys
    case CommitExpired(x) => x in s.txs && s.txs[x].Expiring?
    case Abort(x) => x in s.txs
  }

  function Lock(s: State, x: TxId, rows: set<Key>): State {
    s.(locks := s.locks + map k | k in rows :: x)
  }

  /** End transaction `x`: its row locks go with it. */
  function End(s: State, x: TxId): State {
    s.(txs := s.txs - {x}, locks := map k | k in s.locks && s.locks[k] != x :: s.locks[k])
  }

  function Apply(s: State, step: Step): State
    requires Enabled(s, step)
  {
    match step
    case Insert(rows) => s.(stored := s.stored + rows, inserted := s.inserted + rows)
    case Acquire(x, topic, _, batch) =>
      Lock(s, x, set k | k in batch).(txs := s.txs[x := Flushing(topic, batch, false, [])])
    case Flush(x) =>
      s.(txs := s.txs[x := s.txs[x].(flushed := true, writes := s.txs[x].batch)])
    case CommitBatch(x) =>
      var gone := set k | k in s.txs[x].batch;
      End(s, x).(stored := s.stored - gone, delivered := s.delivered + gone, relayed := s.relayed + s.txs[x].writes)
    case DeleteExpired(x, topic, cutoff) =>
      var victims := Victims(s, topic, cutoff);
      Lock(s, x, victims).(txs := s.txs[x := Expiring(topic, cutoff, victims)])
    case CommitExpired(x) =>
      var tx := s.txs[x];
      End(s, x).(stored := s.stored - tx.victims, expired := s.expired + map k | k in tx.victims :: tx.cutoff)
    case Abort(x) => End(s, x)
  }

  // ----- the invariant -------------------------------------------------------------

  /** The rows a transaction has locked. */
  function Locked(tx: Tx): set<Key> {
    match tx
    case Flushing(_, batch, _, _) => set k | k in batch
    case Expiring(_, _, victims) => victims
  }

  /** The rows a transaction works on are still stored, and locked by it. */
  predicate HoldsRows(s: State, x: TxId)
    requires x in s.txs
  {
    forall k | k in Locked(s.txs[x]) :: k in s.stored && k in s.locks && s.locks[k] == x
  }

  predicate TxOk(s: State, x: TxId)
    requires x in s.txs
  {
    && HoldsRows(s, x)
    && match s.txs[x]
       case Flushing(topic, batch, flushed, writes) =>
         && Distinct(batch) && (forall k | k in batch :: k.topic == topic)
         && writes == if flushed then batch else []
       case Expiring(topic, cutoff, victims) =>
         forall k | k in victims :: k.topic == topic && k in s.stored && s.stored[k] < cutoff
  }

  /** Stored, delivered and expired divide up the messages ever committed. */
  predicate Partition(s: State) {
    && (forall k | k in s.inserted :: k in s.stored || k in s.delivered || k in s.expired)
    && (forall k | k in s.stored :: k in s.inserted && k !in s.delivered && k !in s.expired)
    && (forall k | k in s.delivered :: k in s.inserted && k !in s.expired)
    && (forall k | k in s.expired :: k in s.inserted)
  }

  /** The flusher's committed writes are the delivered messages, each once. */
  predicate RelayMatches(s: State) {
    Distinct(s.relayed) && (set k | k in s.relayed) == s.delivered
  }

  predicate Inv(s: State) {
    && (forall x | x in s.txs :: TxOk(s, x))
    && (forall k | k in s.stored :: k in s.inserted && s.inserted[k] == s.stored[k])
    && (forall k | k in s.expired :: k in s.inserted && s.inserted[k] < s.expired[k])
    && Partition(s) && RelayMatches(s)
  }

  const EMPTY := State(map[], map[], map[], map[], {}, map[], [])

  lemma StepKeepsRows(s: State, step: Step, x: TxId)
    requires Inv(s) && Enabled(s, step) && x in Apply(s, step).txs
    ensures HoldsRows(Apply(s, step), x)
  {
    if x in s.txs {
      assert TxOk(s, x);
      if step.CommitBatch? || step.CommitExpired? {
        assert TxOk(s, step.x);
      }
    }
  }

  lemma StepKeepsTx(s: State, step: Step, x: TxId)
    requires Inv(s) && Enabled(s, step) && x in Apply(s, step).txs
    ensures TxOk(Apply(s, step), x)
  {
    StepKeepsRows(s, step, x);
    if x in s.txs {
      assert TxOk(s, x);
    }
  }

  lemma StepKeepsPartition(s: State, step: Step)
    requires Inv(s) && Enabled(s, step)
    ensures Partition(Apply(s, step))
  {
    if step.CommitBatch? || step.CommitExpired? {
      assert TxOk(s, step.x);
      assert forall k | k in Locked(s.txs[step.x]) :: k in s.stored;
    }
  }

  lemma StepKeepsRelay(s: State, step: Step)
    requires Inv(s) && Enabled(s, step)
    ensures RelayMatches(Apply(s, step))
  {
    if step.CommitBatch? {
      var tx := s.txs[step.x];
      assert TxOk(s, step.x) && tx.writes == tx.batch;
      assert forall k | k in tx.batch :: k in Locked(tx) && k in s.stored.Keys;
      assert forall k | k in s.relayed :: k in s.delivered;
      DistinctAppend(s.relayed, tx.writes);
    }
  }

  lemma StepKeepsInv(s: State, step: Step)
    requires Inv(s) && Enabled(s, step)
    ensures Inv(Apply(s, step))
  {
    forall x | x in Apply(s, step).txs {
      StepKeepsTx(s, step, x);
    }
    StepKeepsPartition(s, step);
    StepKeepsRelay(s, step);
  }

  ghost predicate IsRun(ss: seq<State>, steps: seq<Step>) {
    && |ss| == |steps| + 1 && ss[0] == EMPTY
    && forall k | 0 <= k < |steps| :: Enabled(ss[k], steps[k]) && ss[k + 1] == Apply(ss[k], steps[k])
  }

  lemma {:induction false} RunKeepsInv(ss: seq<State>, steps: seq<Step>, n: nat)
    requires IsRun(ss, steps) && n < |ss|
    ensures Inv(ss[n])
  {
    if n > 0 {
      RunKeepsInv(ss, steps, n - 1);
      StepKeepsInv(ss[n - 1], steps[n - 1]);
    }
  }

  // ----- what the two reads pick --------------------------------------------------------

  /** AcquireMessagesByTopic leaves no choice: with the same rows locked there is one answer. */
  lemma {:induction false} BatchIsUnique(s: State, topic: Topic, limit: nat, a: seq<Key>, b: seq<Key>)
    requires IsBatch(s, topic, limit, a) && IsBatch(s, topic, limit, b)
    ensures a == b
  {
    BatchPrefix(s, topic, limit, a, b, |a|);
    BatchPrefix(s, topic, limit, b, a, |b|);
    assert a[..|a|] == a && b[..|b|] == b;
  }

  lemma {:induction false} BatchPrefix(s: State, topic: Topic, limit: nat, a: seq<Key>, b: seq<Key>, n: nat)
    requires IsBatch(s, topic, limit, a) && IsBatch(s, topic, limit, b) && n <= |a|
    ensures n <= |b| && b[..n] == a[..n]
  {
    if n > 0 {
      var m := n - 1;
      BatchPrefix(s, topic, limit, a, b, m);
      assert Free(s, topic, a[m]);
      assert forall j | 0 <= j < m :: b[j] == b[..m][j] == a[..m][j] == a[j];
      assert m < |b|;
      NextIsNext(s, topic, limit, b, a, m);
      NextIsNext(s, topic, limit, a, b, m);
      assert Free(s, topic, b[m]) && a[m] == b[m];
      assert b[..n] == b[..m] + [b[m]] && a[..n] == a[..m] + [a[m]];
    }
  }

  /** If `a` and `b` agree before `m`, `b[m]` is not ahead of `a[m]`. */
  lemma NextIsNext(s: State, topic: Topic, limit: nat, b: seq<Key>, a: seq<Key>, m: nat)
    requires IsBatch(s, topic, limit, a) && IsBatch(s, topic, limit, b) && m < |a| && m < |b|
    requires b[..m] == a[..m]
    ensures a[m].id <= b[m].id
  {
    assert Free(s, topic, b[m]);
    assert forall j | 0 <= j < m :: a[j] == a[..m][j] == b[..m][j] == b[j];
  }

  /** DeleteExpiredMessages picks a stored message if and only if it is of the pass's topic and
      older than its cutoff; and it holds exactly those until it ends. */
  lemma PassPicksTheExpired(s: State, x: TxId, topic: Topic, cutoff: Time, k: Key)
    requires Enabled(s, DeleteExpired(x, topic, cutoff)) && k in s.stored
    ensures var s' := Apply(s, DeleteExpired(x, topic, cutoff));
            && k in s'.stored
            && (k in s'.txs[x].victims <==> k.topic == topic && s.stored[k] < cutoff)
            && (k in s'.txs[x].victims ==> k in s'.locks && s'.locks[k] == x)
  {
  }

  // ----- the theorems ----------------------------------------------------------------

  /** The step commits a ProcessMessages of `k`'s topic whose Flush returned nil on a batch
      holding `k`. */
  predicate DeliversKey(s: State, step: Step, k: Key) {
    && step.CommitBatch? && step.x in s.txs && s.txs[step.x].Flushing? && s.txs[step.x].topic == k.topic
    && s.txs[step.x].flushed && k in s.txs[step.x].batch
  }

  /** The step commits a maintenance pass of `k`'s topic for which `k` was past the TTL it used. */
  predicate ExpiresKey(s: State, step: Step, k: Key) {
    && step.CommitExpired? && step.x in s.txs && s.txs[step.x].Expiring? && s.txs[step.x].topic == k.topic
    && k in s.txs[step.x].victims && k in s.stored && s.stored[k] < s.txs[step.x].cutoff
  }

  /** The fate of one message over one step: it leaves the table only by being
      delivered or expired, and a removed message neither returns nor is removed again. */
  lemma StepFate(s: State, step: Step, k: Key)
    requires Inv(s) && Enabled(s, step) && k in s.inserted
    ensures k in Apply(s, step).inserted
    ensures k in s.stored && k !in Apply(s, step).stored <==> DeliversKey(s, step, k) || ExpiresKey(s, step, k)
    ensures k in Apply(s, step).delivered <==> k in s.delivered || DeliversKey(s, step, k)
    ensures k in Apply(s, step).expired.Keys <==> k in s.expired.Keys || ExpiresKey(s, step, k)
  {
  }

  /** Over every interleaving, each message ever committed is in exactly one of three
      states: still stored, delivered, or expired. */
  lemma Conservation(ss: seq<State>, steps: seq<Step>, n: nat, k: Key)
    requires IsRun(ss, steps) && n < |ss|
    ensures k in ss[n].inserted <==> k in ss[n].stored || k in ss[n].delivered || k in ss[n].expired
    ensures !(k in ss[n].stored && k in ss[n].delivered)
    ensures !(k in ss[n].stored && k in ss[n].expired)
    ensures !(k in ss[n].delivered && k in ss[n].expired)
  {
    RunKeepsInv(ss, steps, n);
  }

  /** A removed message was removed by exactly one step of the run, of the matching kind. */
  lemma {:induction false} RemovedOnce(ss: seq<State>, steps: seq<Step>, n: nat, k: Key) returns (d: nat)
    requires IsRun(ss, steps) && n < |ss|
    requires k in ss[n].delivered || k in ss[n].expired
    ensures d < n
    ensures if k in ss[n].delivered then DeliversKey(ss[d], steps[d], k) else ExpiresKey(ss[d], steps[d], k)
    ensures forall e | 0 <= e < n && e != d :: !DeliversKey(ss[e], steps[e], k) && !ExpiresKey(ss[e], steps[e], k)
  {
    d := n - 1;
    RunKeepsInv(ss, steps, d);
    Conservation(ss, steps, n, k);
    if k in ss[d].inserted {
      StepFate(ss[d], steps[d], k);
    }
    if k in ss[d].delivered || k in ss[d].expired {
      d := RemovedOnce(ss, steps, d, k);
      Conservation(ss, steps, n - 1, k);
    } else {
      NotRemovedYet(ss, steps, d, k);
    }
  }

  lemma {:induction false} NotRemovedYet(ss: seq<State>, steps: seq<Step>, n: nat, k: Key)
    requires IsRun(ss, steps) && n < |ss|
    requires k !in ss[n].delivered && k !in ss[n].expired
    ensures forall e | 0 <= e < n :: !DeliversKey(ss[e], steps[e], k) && !ExpiresKey(ss[e], steps[e], k)
  {
    if n > 0 {
      var d := n - 1;
      RunKeepsInv(ss, steps, d);
      if k in ss[d].inserted {
        StepFate(ss[d], steps[d], k);
      }
      NotRemovedYet(ss, steps, d, k);
    }
  }

  /** A flusher that writes only through Tx() commits exactly one write per delivered
      message and none for any other. */
  lemma RelayedExactlyOnce(ss: seq<State>, steps: seq<Step>, n: nat, k: Key)
    requires IsRun(ss, steps) && n < |ss|
    ensures multiset(ss[n].relayed)[k] == if k in ss[n].delivered then 1 else 0
  {
    RunKeepsInv(ss, steps, n);
    DistinctCounts(ss[n].relayed, k);
    assert k in ss[n].delivered <==> k in ss[n].relayed;
  }

  lemma {:induction false} DistinctCounts(ks: seq<Key>, k: Key)
    requires Distinct(ks)
    ensures multiset(ks)[k] == if k in ks then 1 else 0
  {
    if ks != [] {
      var last := |ks| - 1;
      DistinctCounts(ks[..last], k);
      assert ks == ks[..last] + [ks[last]];
    }
  }
}
