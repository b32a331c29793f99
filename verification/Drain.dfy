/** Draining a quiet topic: ProcessMessages and the loop that runs it until empty. */
module Drain {
  import opened Tables

  type Payload = string
  datatype Message = Message(id: nat, payload: Payload)

  // ----- the order the query reads in ------------------------------------------------

  lemma {:induction false} LeastExists(ids: set<nat>)
    requires ids != {}
    ensures exists m :: m in ids && forall i | i in ids :: m <= i
  {
    var i :| i in ids;
    var rest := ids - {i};
    if rest == {} {
      assert ids == {i};
    } else {
      LeastExists(rest);
      var least :| least in rest && forall j | j in rest :: least <= j;
      assert forall j | j in ids :: j == i || j in rest;
      var m := if i < least then i else least;
      assert m in ids && forall j | j in ids :: m <= j;
    }
  }

  /** The lowest id of a non-empty set. */
  function Least(ids: set<nat>): (m: nat)
    requires ids != {}
    ensures m in ids && forall i | i in ids :: m <= i
  {
    LeastExists(ids);
    var m :| m in ids && forall i | i in ids :: m <= i;
    m
  }

  /** ORDER BY id ASC over the rows of one topic. */
  function Ordered(rows: map<nat, Payload>): seq<Message> {
    if rows.Keys == {} then []
    else
      var m := Least(rows.Keys);
      [Message(m, rows[m])] + Ordered(rows - {m})
  }

  /** Ordered lists exactly the rows, in strictly ascending id order. */
  lemma {:induction false} OrderedIsTheTable(rows: map<nat, Payload>)
    ensures forall m, n | 0 <= m < n < |Ordered(rows)| :: Ordered(rows)[m].id < Ordered(rows)[n].id
    ensures forall x :: x in Ordered(rows) <==> x.id in rows && rows[x.id] == x.payload
    ensures |Ordered(rows)| == |rows|
  {
    if rows.Keys != {} {
      var m := Least(rows.Keys);
      OrderedIsTheTable(rows - {m});
      var rest := Ordered(rows - {m});
      assert forall n | 0 <= n < |rest| :: rest[n] in rest;
      assert rows.Keys == (rows - {m}).Keys + {m};
      assert |rows| == |rows.Keys| && |rows - {m}| == |(rows - {m}).Keys|;
    }
  }

  function Take(s: seq<Message>, limit: nat): seq<Message> {
    if |s| <= limit then s else s[..limit]
  }

  function Drop(s: seq<Message>, limit: nat): seq<Message> {
    if |s| <= limit then [] else s[limit..]
  }

  /** The ids of a batch. */
  function Ids(batch: seq<Message>): set<nat> {
    set x | x in batch :: x.id
  }

  /** Deleting the first batch of the table leaves the rest of its order. */
  lemma {:induction false} DeleteFirst(rows: map<nat, Payload>, limit: nat)
    ensures Ordered(rows - Ids(Take(Ordered(rows), limit))) == Drop(Ordered(rows), limit)
  {
    var all := Ordered(rows);
    if limit == 0 || rows.Keys == {} {
      assert rows - Ids(Take(all, limit)) == rows;
    } else {
      var m := Least(rows.Keys);
      var rest := Ordered(rows - {m});
      DeleteFirst(rows - {m}, limit - 1);
      assert all == [Message(m, rows[m])] + rest;
      assert Take(all, limit) == [Message(m, rows[m])] + Take(rest, limit - 1);
      assert Ids(Take(all, limit)) == {m} + Ids(Take(rest, limit - 1)) by {
        assert forall x :: x in Take(all, limit) <==> x == Message(m, rows[m]) || x in Take(rest, limit - 1);
      }
      assert rows - Ids(Take(all, limit)) == (rows - {m}) - Ids(Take(rest, limit - 1));
      assert Drop(all, limit) == Drop(rest, limit - 1);
    }
  }

  // ----- batches -----------------------------------------------------------------------

  /** `s` cut into consecutive batches of `limit`, the last one possibly shorter. */
  function Batches(s: seq<Message>, limit: nat): seq<seq<Message>>
    requires limit >= 1
    decreases |s|
  {
    if s == [] then [] else [Take(s, limit)] + Batches(Drop(s, limit), limit)
  }

  function Concat(ss: seq<seq<Message>>): seq<Message> {
    if ss == [] then [] else ss[0] + Concat(ss[1..])
  }

  lemma ConcatCons(b: seq<Message>, bs: seq<seq<Message>>)
    ensures Concat([b] + bs) == b + Concat(bs)
  {
    assert ([b] + bs)[1..] == bs;
  }

  lemma TakeDrop(s: seq<Message>, limit: nat)
    ensures Take(s, limit) + Drop(s, limit) == s
  {
  }

  /** The batches put back together are the sequence. */
  lemma {:induction false} BatchesConcat(s: seq<Message>, limit: nat)
    requires limit >= 1
    ensures Concat(Batches(s, limit)) == s
    decreases |s|
  {
    if s != [] {
      TakeDrop(s, limit);
      BatchesConcat(Drop(s, limit), limit);
      ConcatCons(Take(s, limit), Batches(Drop(s, limit), limit));
    }
  }

  /** Every batch is non-empty, and all but the last are full. */
  lemma {:induction false} BatchesFull(s: seq<Message>, limit: nat, n: nat)
    requires limit >= 1 && n < |Batches(s, limit)|
    ensures 1 <= |Batches(s, limit)[n]| <= limit
    ensures n < |Batches(s, limit)| - 1 ==> |Batches(s, limit)[n]| == limit
    decreases |s|
  {
    if n > 0 {
      BatchesFull(Drop(s, limit), limit, n - 1);
    }
  }

  /** There are ceil(n / limit) batches. */
  lemma {:induction false} BatchesCount(s: seq<Message>, limit: nat)
    requires limit >= 1
    ensures |Batches(s, limit)| == CeilDiv(|s|, limit)
    decreases |s|
  {
    if s == [] {
      CeilDivUnique(0, limit, 0);
    } else {
      var rest := Drop(s, limit);
      BatchesCount(rest, limit);
      CountStep(|s|, limit, |rest|, |Batches(rest, limit)|);
    }
  }

  lemma CountStep(n: nat, limit: nat, rest: nat, batches: nat)
    requires limit >= 1 && n >= 1 && rest == (if n <= limit then 0 else n - limit) && batches == CeilDiv(rest, limit)
    ensures batches + 1 == CeilDiv(n, limit)
  {
    CeilDivBounds(rest, limit);
    if rest == 0 {
      CeilDivUnique(0, limit, 0);
    }
    assert (batches + 1) * limit == batches * limit + limit;
    CeilDivUnique(n, limit, batches + 1);
  }

  // ----- the loop ----------------------------------------------------------------------

  /** Where a ProcessMessages call goes wrong: its ctx has ended, no flusher is registered,
      the access check refuses, or a statement, the flusher or the commit fails. */
  datatype Fault = NoFault | CtxEnded | NoFlusher | AtBegin | AtCheck | AtRead | AtFlush | AtDelete | AtBump | AtCommit

  /** The fault makes the call return an error; an empty read goes straight to its commit. */
  predicate Strikes(f: Fault, emptyRead: bool) {
    f != NoFault && !(emptyRead && f in {AtFlush, AtDelete, AtBump})
  }

  /** Faults that strike when Flush has already returned nil. */
  predicate StrikesAfterFlush(f: Fault) {
    f in {AtDelete, AtBump, AtCommit}
  }

  /** The fault in store for the `n`-th call of a pass. */
  function FaultOf(faults: seq<Fault>, n: nat): Fault {
    if n < |faults| then faults[n] else NoFault
  }

  /** One topic's rows, the batches the consumer's flusher has taken, those among them whose
      transaction committed, and how often a read came back empty. */
  datatype Ledger = Ledger(rows: map<nat, Payload>, flushes: seq<seq<Message>>, committed: seq<seq<Message>>,
                           emptyReads: nat)

  /** What one ProcessMessages call does: it takes the next batch in id order.  Any error
      leaves the rows as they were; the flusher may have taken the batch by then.  An empty
      read changes nothing. */
  ghost predicate Called(l: Ledger, l': Ledger, limit: nat, fault: Fault, batch: seq<Message>, failed: bool) {
    var next := Take(Ordered(l.rows), limit);
    && failed == Strikes(fault, next == [])
    && batch == (if failed then [] else next)
    && l'.flushes == (if next != [] && (!failed || StrikesAfterFlush(fault)) then l.flushes + [next] else l.flushes)
    && l'.committed == (if batch != [] then l.committed + [next] else l.committed)
    && l'.emptyReads == (if !failed && next == [] then l.emptyReads + 1 else l.emptyReads)
    && l'.rows == (if failed then l.rows else l.rows - Ids(next))
  }

  lemma EmptyRead(rows: map<nat, Payload>, limit: nat)
    requires limit >= 1
    ensures Take(Ordered(rows), limit) == [] <==> rows == map[]
    ensures rows - Ids([]) == rows
  {
    assert rows.Keys == {} <==> rows == map[];
  }

  /** What each fault means for a call that finds messages: without one it succeeds, and with
      any it fails and takes back all it did to the table; the flusher keeps the batch it was
      handed only if the fault struck after it had returned nil.  A call that finds none
      fails by the faults it can still meet. */
  lemma FaultsUndoTheCall(l: Ledger, l': Ledger, limit: nat, fault: Fault, batch: seq<Message>, failed: bool)
    requires limit >= 1 && Called(l, l', limit, fault, batch, failed)
    ensures failed ==> fault != NoFault
    ensures failed || fault != NoFault ==> l'.rows == l.rows && l'.committed == l.committed
    ensures l.rows != map[] ==>
              && (failed <==> fault != NoFault)
              && |l'.committed| == |l.committed| + (if fault == NoFault then 1 else 0)
              && |l'.flushes| == |l.flushes| + (if fault in {NoFault, AtDelete, AtBump, AtCommit} then 1 else 0)
    ensures l.rows == map[] ==>
              && (failed <==> fault in {CtxEnded, NoFlusher, AtBegin, AtCheck, AtRead, AtCommit})
              && l'.rows == l.rows && l'.flushes == l.flushes && l'.committed == l.committed
  {
    EmptyRead(l.rows, limit);
  }

  /** `n` batches of a pass that began at `l0` have committed and none has failed. */
  ghost predicate PassSoFar(l0: Ledger, l: Ledger, limit: nat, faults: seq<Fault>, n: nat)
    requires limit >= 1
  {
    var batches := Batches(Ordered(l0.rows), limit);
    && n <= |batches| && batches[n..] == Batches(Ordered(l.rows), limit)
    && l.committed == l0.committed + batches[..n] && l.flushes == l0.flushes + batches[..n]
    && l.emptyReads == l0.emptyReads
    && forall k | 0 <= k < n :: !Strikes(FaultOf(faults, k), false)
  }

  /** How a pass over a quiet topic ends.  `n` batches have committed: the first `n` of the
      topic's messages cut up in ascending id order, and exactly the rest is left.  It
      fails if and only if a fault strikes one of its calls, `n` is then the first that
      does, and the flusher has taken the next batch without its commit only if that fault
      struck after the flush.  Otherwise the topic ends empty after ceil(size / limit)
      flushes and one empty read. */
  ghost predicate PassEnded(l0: Ledger, l: Ledger, limit: nat, faults: seq<Fault>, n: nat, failed: bool)
    requires limit >= 1
  {
    var batches := Batches(Ordered(l0.rows), limit);
    && n <= |batches| && l.committed == l0.committed + batches[..n]
    && Ordered(l.rows) == Concat(batches[n..])
    && (forall k | 0 <= k < n :: !Strikes(FaultOf(faults, k), false))
    && failed == Strikes(FaultOf(faults, n), n == |batches|)
    && l.flushes == l0.flushes + batches[..n]
                    + (if n < |batches| && StrikesAfterFlush(FaultOf(faults, n)) then [batches[n]] else [])
    && l.emptyReads == (if failed then l0.emptyReads else l0.emptyReads + 1)
    && (!failed ==> n == CeilDiv(|l0.rows|, limit) && l.rows == map[])
  }

  lemma NextBatch(l0: Ledger, l: Ledger, limit: nat, faults: seq<Fault>, n: nat)
    requires limit >= 1 && PassSoFar(l0, l, limit, faults, n)
    ensures var batches := Batches(Ordered(l0.rows), limit);
            && Ordered(l.rows) == Concat(batches[n..])
            && (Ordered(l.rows) == [] <==> n == |batches|)
            && (n < |batches| ==> batches[n] == Take(Ordered(l.rows), limit)
                                  && batches[n + 1..] == Batches(Drop(Ordered(l.rows), limit), limit))
  {
    var batches := Batches(Ordered(l0.rows), limit);
    BatchesConcat(Ordered(l.rows), limit);
    if n < |batches| {
      assert batches[n..][0] == batches[n] && batches[n..][1..] == batches[n + 1..];
    }
  }

  lemma Snoc(a: seq<seq<Message>>, b: seq<seq<Message>>, x: seq<Message>)
    ensures a + (b + [x]) == a + b + [x]
  {
  }

  lemma PassStep(l0: Ledger, l: Ledger, l': Ledger, limit: nat, faults: seq<Fault>, n: nat, batch: seq<Message>)
    requires limit >= 1 && PassSoFar(l0, l, limit, faults, n)
    requires Called(l, l', limit, FaultOf(faults, n), batch, false) && batch != []
    ensures PassSoFar(l0, l', limit, faults, n + 1)
    ensures |Ordered(l'.rows)| < |Ordered(l.rows)|
  {
    var batches := Batches(Ordered(l0.rows), limit);
    NextBatch(l0, l, limit, faults, n);
    DeleteFirst(l.rows, limit);
    assert Ordered(l'.rows) == Drop(Ordered(l.rows), limit);
    assert batches[..n + 1] == batches[..n] + [batch];
    Snoc(l0.committed, batches[..n], batch);
    Snoc(l0.flushes, batches[..n], batch);
  }

  lemma PassEnds(l0: Ledger, l: Ledger, l': Ledger, limit: nat, faults: seq<Fault>, n: nat, batch: seq<Message>,
                 failed: bool)
    requires limit >= 1 && PassSoFar(l0, l, limit, faults, n)
    requires Called(l, l', limit, FaultOf(faults, n), batch, failed) && batch == []
    ensures PassEnded(l0, l', limit, faults, n, failed)
  {
    NextBatch(l0, l, limit, faults, n);
    BatchesCount(Ordered(l0.rows), limit);
    OrderedIsTheTable(l0.rows);
    OrderedIsTheTable(l.rows);
    if !failed {
      assert l.rows == map[] && l'.rows == map[];
    }
  }

  /** Which faults end a pass: it succeeds when none is in store, a failed one has met a fault
      in the call after its last committed batch, and no call before that had one. */
  lemma PassFailsAtAFault(l0: Ledger, l: Ledger, limit: nat, faults: seq<Fault>, n: nat, failed: bool)
    requires limit >= 1 && PassEnded(l0, l, limit, faults, n, failed)
    ensures (forall k | 0 <= k < |faults| :: faults[k] == NoFault) ==> !failed
    ensures failed ==> n < |faults| && faults[n] != NoFault
    ensures forall k | 0 <= k < n && k < |faults| :: faults[k] == NoFault
    ensures n < |faults| && faults[n] != NoFault && l.rows != map[] ==> failed
  {
    forall k | 0 <= k < n && k < |faults|
      ensures faults[k] == NoFault
    {
      assert !Strikes(FaultOf(faults, k), false);
    }
  }

  lemma {:induction false} ConcatAppend(a: seq<seq<Message>>, b: seq<seq<Message>>)
    ensures Concat(a + b) == Concat(a) + Concat(b)
  {
    if a == [] {
      assert a + b == b;
    } else {
      ConcatAppend(a[1..], b);
      assert a + b == [a[0]] + (a[1..] + b) && (a + b)[1..] == a[1..] + b;
    }
  }

  lemma CutConcat(batches: seq<seq<Message>>, n: nat)
    requires n <= |batches|
    ensures Concat(batches[..n]) + Concat(batches[n..]) == Concat(batches)
  {
    ConcatAppend(batches[..n], batches[n..]);
    assert batches[..n] + batches[n..] == batches;
  }

  lemma Tail(a: seq<seq<Message>>, b: seq<seq<Message>>)
    ensures |a| <= |a + b| && (a + b)[..|a|] == a && (a + b)[|a|..] == b
  {
  }

  /** However a pass ends, what it committed followed by what it left is the topic as it was. */
  lemma PassConserves(l0: Ledger, l: Ledger, limit: nat, faults: seq<Fault>, n: nat, failed: bool)
    requires limit >= 1 && PassEnded(l0, l, limit, faults, n, failed)
    ensures |l0.committed| <= |l.committed| && l.committed[..|l0.committed|] == l0.committed
    ensures Concat(l.committed[|l0.committed|..]) + Ordered(l.rows) == Ordered(l0.rows)
  {
    var batches := Batches(Ordered(l0.rows), limit);
    BatchesConcat(Ordered(l0.rows), limit);
    CutConcat(batches, n);
    Tail(l0.committed, batches[..n]);
  }

  /** A failed pass is finished by a later one: wherever the first stopped, the two together
      commit every message once, in ascending id order. */
  lemma RetryFinishesTheJob(l0: Ledger, l1: Ledger, l2: Ledger, limit: nat, faults: seq<Fault>, n: nat,
                            retryLimit: nat, retryFaults: seq<Fault>, m: nat)
    requires limit >= 1 && PassEnded(l0, l1, limit, faults, n, true)
    requires retryLimit >= 1 && PassEnded(l1, l2, retryLimit, retryFaults, m, false)
    ensures |l0.committed| <= |l2.committed| && l2.committed[..|l0.committed|] == l0.committed
    ensures Concat(l2.committed[|l0.committed|..]) == Ordered(l0.rows)
  {
    PassConserves(l0, l1, limit, faults, n, true);
    PassConserves(l1, l2, retryLimit, retryFaults, m, false);
    assert l2.committed[|l0.committed|..] == l1.committed[|l0.committed|..] + l2.committed[|l1.committed|..];
    ConcatAppend(l1.committed[|l0.committed|..], l2.committed[|l1.committed|..]);
    assert l2.committed[..|l0.committed|] == l1.committed[..|l0.committed|];
  }

  /** The messages table as one quiet consumer sees it, and what its flusher was handed. */
  class Store {
    var messages: map<Topic, map<nat, Payload>>
    var flushes: seq<seq<Message>>
    var committed: seq<seq<Message>>
    var emptyReads: nat

    function Rows(t: Topic): map<nat, Payload>
      reads this
    {
      if t in messages then messages[t] else map[]
    }

    ghost function View(t: Topic): Ledger
      reads this
    {
      Ledger(Rows(t), flushes, committed, emptyReads)
    }

    /** Lock a batch in id order, flush it, delete it, commit; an empty read only commits. */
    method ProcessMessages(t: Topic, batchSize: nat, fault: Fault) returns (batch: seq<Message>, failed: bool)
      requires batchSize >= 1
      modifies this
      ensures Called(old(View(t)), View(t), batchSize, fault, batch, failed)
      ensures failed || fault != NoFault ==> messages == old(messages) && committed == old(committed)
      ensures old(Rows(t)) != map[] ==> (failed <==> fault != NoFault)
      ensures forall u | u != t :: Rows(u) == old(Rows(u))
    {
      EmptyRead(Rows(t), batchSize);
      if fault == NoFlusher || fault == CtxEnded || fault == AtBegin || fault == AtCheck || fault == AtRead {
        return [], true;
      }
      var locked := Take(Ordered(Rows(t)), batchSize);
      if |locked| == 0 {
        if fault == AtCommit {
          return [], true;
        }
        emptyReads := emptyReads + 1;
        return [], false;
      }
      if fault == AtFlush {
        return [], true;
      }
      flushes := flushes + [locked];
      if fault == AtDelete || fault == AtBump || fault == AtCommit {
        return [], true;
      }
      messages := messages[t := Rows(t) - Ids(locked)];
      committed := committed + [locked];
      return locked, false;
    }

    /** processTopicUntilEmpty on a quiet topic, with a fault in store for each of its calls. */
    method ProcessTopicUntilEmpty(t: Topic, batchSize: nat, faults: seq<Fault>) returns (n: nat, failed: bool)
      requires batchSize >= 1
      modifies this
      ensures PassEnded(old(View(t)), View(t), batchSize, faults, n, failed)
      ensures forall u | u != t :: Rows(u) == old(Rows(u))
    {
      n := 0;
      while FaultOf(faults, n) != CtxEnded
        invariant PassSoFar(old(View(t)), View(t), batchSize, faults, n)
        invariant forall u | u != t :: Rows(u) == old(Rows(u))
        decreases |Ordered(Rows(t))|
      {
        ghost var before := View(t);
        var batch;
        batch, failed := ProcessMessages(t, batchSize, FaultOf(faults, n));
        if failed || |batch| == 0 {
          PassEnds(old(View(t)), before, View(t), batchSize, faults, n, batch, failed);
          return;
        }
        PassStep(old(View(t)), before, View(t), batchSize, faults, n, batch);
        n := n + 1;
      }
      failed := true;
      PassEnds(old(View(t)), View(t), View(t), batchSize, faults, n, [], true);
    }
  }
}
