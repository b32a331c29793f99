/** One instance's maintenance goroutines: the scanner that starts, cancels and reaps them,
    and the loops themselves with their dormancy exit, interleaved. */
module Loops {
  import opened Tables

  /** Where a loop's goroutine is: looping, in one of the three steps of the dormancy exit,
      or gone with its `done` closed. */
  datatype Phase = Looping | FinalPass | Verifying | Releasing | Closed

  /** managedTopic, plus what its goroutine was started with. */
  datatype Loop = Loop(topic: Topic, ttl: int, cancelled: bool, dormant: bool, phase: Phase)

  /** `managed` names loops by their index in `loops`, which keeps every loop ever started. */
  datatype Registry = Registry(managed: map<Topic, nat>, loops: seq<Loop>)

  const EMPTY := Registry(map[], [])

  // ----- the scanner's two passes ---------------------------------------------------------

  /** What the first loop of reconcileLoops does to one managed loop. */
  function Judge(l: Loop, ttls: map<Topic, int>, held: seq<Topic>): Loop {
    if l.topic !in ttls then l.(dormant := true, cancelled := true)
    else if l.topic !in held then l.(cancelled := true)
    else l
  }

  function CancelPass(r: Registry, ttls: map<Topic, int>, held: seq<Topic>): Registry {
    r.(loops := seq(|r.loops|, id requires 0 <= id < |r.loops| =>
      var l := r.loops[id];
      if l.topic in r.managed && r.managed[l.topic] == id then Judge(l, ttls, held) else l))
  }

  /** Start a loop for `t` unless one is managed already. */
  function StartOne(r: Registry, ttls: map<Topic, int>, t: Topic): Registry {
    if t in r.managed then r
    else
      var ttl := if t in ttls then ttls[t] else 0;
      Registry(r.managed[t := |r.loops|], r.loops + [Loop(t, ttl, false, false, Looping)])
  }

  function StartAll(r: Registry, ttls: map<Topic, int>, held: seq<Topic>): Registry {
    if held == [] then r else StartOne(StartAll(r, ttls, held[..|held| - 1]), ttls, held[|held| - 1])
  }

  function Reconcile(r: Registry, ttls: map<Topic, int>, held: seq<Topic>): Registry {
    StartAll(CancelPass(r, ttls, held), ttls, held)
  }

  predicate IsClosed(r: Registry, id: nat) {
    id < |r.loops| && r.loops[id].phase == Closed
  }

  /** reapExitedLoops. */
  function Reap(r: Registry): Registry {
    r.(managed := map t | t in r.managed && !IsClosed(r, r.managed[t]) :: r.managed[t])
  }

  // ----- the loops --------------------------------------------------------------------------

  /** A loop leaves its cycle only once cancelled, and takes the dormancy exit if it is
      marked dormant by then.  `clean` says that the step went well: the final pass
      committed, the topic was found empty. */
  predicate CanRun(r: Registry, id: nat) {
    id < |r.loops| && r.loops[id].phase != Closed && (r.loops[id].phase == Looping ==> r.loops[id].cancelled)
  }

  function RunLoop(r: Registry, id: nat, clean: bool): Registry
    requires CanRun(r, id)
  {
    var l := r.loops[id];
    var next := match l.phase
      case Looping => if l.dormant then FinalPass else Closed
      case FinalPass => if clean then Verifying else Closed
      case Verifying => if clean then Releasing else Closed
      case Releasing => Closed
      case Closed => Closed;
    r.(loops := r.loops[id := l.(phase := next)])
  }

  datatype Step =
    | ReapStep
    | ReconcileStep(ttls: map<Topic, int>, held: seq<Topic>)
    | ShutDown
    | LoopStep(id: nat, clean: bool)

  predicate Enabled(r: Registry, step: Step) {
    step.LoopStep? ==> CanRun(r, step.id)
  }

  function Apply(r: Registry, step: Step): Registry
    requires Enabled(r, step)
  {
    match step
    case ReapStep => Reap(r)
    case ReconcileStep(ttls, held) => Reconcile(r, ttls, held)
    case ShutDown => r.(loops := seq(|r.loops|, id requires 0 <= id < |r.loops| => r.loops[id].(cancelled := true)))
    case LoopStep(id, clean) => RunLoop(r, id, clean)
  }

  // ----- the invariant ----------------------------------------------------------------------

  /** Every loop still running is the one its topic's entry names. */
  predicate Inv(r: Registry) {
    && (forall t | t in r.managed :: r.managed[t] < |r.loops| && r.loops[r.managed[t]].topic == t)
    && (forall id | 0 <= id < |r.loops| && r.loops[id].phase != Closed ::
          r.loops[id].topic in r.managed && r.managed[r.loops[id].topic] == id)
    && (forall id | 0 <= id < |r.loops| :: ExitOk(r.loops[id]))
  }

  /** A loop that has left its cycle was cancelled, and the cleanup and lease writes of the
      dormancy exit are made only by loops marked dormant. */
  predicate ExitOk(l: Loop) {
    match l.phase
    case Looping => true
    case Closed => l.cancelled
    case _ => l.cancelled && l.dormant
  }

  /** What starting loops on top of `r` may have done by the time it reaches `r'`. */
  ghost predicate Started(r: Registry, r': Registry, ttls: map<Topic, int>, held: seq<Topic>) {
    && |r'.loops| >= |r.loops| && (forall id | 0 <= id < |r.loops| :: r'.loops[id] == r.loops[id])
    && (forall t | t in r.managed :: t in r'.managed && r'.managed[t] == r.managed[t])
    && (forall t | t in r'.managed && t !in r.managed :: |r.loops| <= r'.managed[t])
    && (forall t | t in held :: t in r'.managed)
    && (forall id | |r.loops| <= id < |r'.loops| ::
          var l := r'.loops[id];
          l.topic in held && l.topic !in r.managed && !l.cancelled && !l.dormant && l.phase == Looping
          && l.ttl == if l.topic in ttls then ttls[l.topic] else 0)
  }

  lemma StartOneContract(r: Registry, r': Registry, ttls: map<Topic, int>, held: seq<Topic>, t: Topic)
    requires Inv(r') && Started(r, r', ttls, held)
    ensures Started(r, StartOne(r', ttls, t), ttls, held + [t])
  {
  }

  lemma StartOneKeepsInv(r: Registry, ttls: map<Topic, int>, t: Topic)
    requires Inv(r)
    ensures Inv(StartOne(r, ttls, t))
  {
  }

  lemma {:induction false} StartAllContract(r: Registry, ttls: map<Topic, int>, held: seq<Topic>)
    requires Inv(r)
    ensures Inv(StartAll(r, ttls, held)) && Started(r, StartAll(r, ttls, held), ttls, held)
  {
    if held != [] {
      var n := |held| - 1;
      StartAllContract(r, ttls, held[..n]);
      StartOneKeepsInv(StartAll(r, ttls, held[..n]), ttls, held[n]);
      StartOneContract(r, StartAll(r, ttls, held[..n]), ttls, held[..n], held[n]);
      assert held == held[..n] + [held[n]];
    }
  }

  lemma CancelPassKeepsInv(r: Registry, ttls: map<Topic, int>, held: seq<Topic>)
    requires Inv(r)
    ensures Inv(CancelPass(r, ttls, held))
  {
  }

  /** After a reconcile: every managed loop whose topic left the candidates is cancelled
      as dormant, every one no longer held is cancelled, no other old loop changes, every
      held topic has a loop, and new loops start, with the scan's TTL, only for topics
      without an entry. */
  lemma ReconcileContract(r: Registry, ttls: map<Topic, int>, held: seq<Topic>)
    requires Inv(r)
    ensures var r' := Reconcile(r, ttls, held);
            && Inv(r') && |r'.loops| >= |r.loops|
            && (forall id | 0 <= id < |r.loops| ::
                  r'.loops[id] == if r.loops[id].topic in r.managed && r.managed[r.loops[id].topic] == id
                                  then Judge(r.loops[id], ttls, held) else r.loops[id])
            && (forall t | t in r.managed :: t in r'.managed && r'.managed[t] == r.managed[t])
            && (forall t | t in r'.managed && t !in r.managed :: |r.loops| <= r'.managed[t])
            && (forall t | t in held :: t in r'.managed)
            && (forall id | |r.loops| <= id < |r'.loops| ::
                  var l := r'.loops[id];
                  l.topic in held && l.topic !in r.managed && !l.cancelled && !l.dormant && l.phase == Looping
                  && l.ttl == if l.topic in ttls then ttls[l.topic] else 0)
  {
    CancelPassKeepsInv(r, ttls, held);
    StartAllContract(CancelPass(r, ttls, held), ttls, held);
  }

  /** What becomes of each managed loop: a topic that is no candidate any more ends its loop as
      dormant; one that is, but is no longer held, ends its loop without that mark; the
      loops of all other topics, and loops no entry names, are left alone. */
  lemma WhichLoopsStop(r: Registry, ttls: map<Topic, int>, held: seq<Topic>, id: nat)
    requires Inv(r) && id < |r.loops|
    ensures id < |Reconcile(r, ttls, held).loops|
    ensures var l, l' := r.loops[id], Reconcile(r, ttls, held).loops[id];
            var managed := l.topic in r.managed && r.managed[l.topic] == id;
            && l'.topic == l.topic && l'.ttl == l.ttl && l'.phase == l.phase
            && (managed && l.topic !in ttls ==> l'.cancelled && l'.dormant)
            && (managed && l.topic in ttls && l.topic !in held ==> l'.cancelled && l'.dormant == l.dormant)
            && (!managed || (l.topic in ttls && l.topic in held) ==> l' == l)
  {
    ReconcileContract(r, ttls, held);
  }

  lemma StepKeepsInv(r: Registry, step: Step)
    requires Inv(r) && Enabled(r, step)
    ensures Inv(Apply(r, step))
  {
    if step.ReconcileStep? {
      ReconcileContract(r, step.ttls, step.held);
    }
  }

  ghost predicate IsRun(rs: seq<Registry>, steps: seq<Step>) {
    && |rs| == |steps| + 1 && rs[0] == EMPTY
    && forall k | 0 <= k < |steps| :: Enabled(rs[k], steps[k]) && rs[k + 1] == Apply(rs[k], steps[k])
  }

  lemma {:induction false} RunKeepsInv(rs: seq<Registry>, steps: seq<Step>, k: nat)
    requires IsRun(rs, steps) && k < |rs|
    ensures Inv(rs[k])
  {
    if k > 0 {
      RunKeepsInv(rs, steps, k - 1);
      StepKeepsInv(rs[k - 1], steps[k - 1]);
    }
  }

  // ----- the theorems -------------------------------------------------------------------------

  /** Under any interleaving of scans, cancels, dormancy exits and reaps, two loops of one
      topic are never both running, and the running one is the one recorded. */
  lemma OneLoopPerTopic(rs: seq<Registry>, steps: seq<Step>, k: nat, a: nat, b: nat)
    requires IsRun(rs, steps) && k < |rs| && a < |rs[k].loops| && b < |rs[k].loops|
    requires rs[k].loops[a].topic == rs[k].loops[b].topic
    requires rs[k].loops[a].phase != Closed && rs[k].loops[b].phase != Closed
    ensures a == b
    ensures rs[k].loops[a].topic in rs[k].managed && rs[k].managed[rs[k].loops[a].topic] == a
  {
    RunKeepsInv(rs, steps, k);
  }

  /** When a step starts a loop for a topic, every earlier loop of that topic has closed its
      `done`, and with it finished its dormancy exit and lease release. */
  lemma NewLoopWaitsForTheOld(rs: seq<Registry>, steps: seq<Step>, k: nat, newer: nat, earlier: nat)
    requires IsRun(rs, steps) && k < |steps|
    requires |rs[k].loops| <= newer < |rs[k + 1].loops| && earlier < |rs[k].loops|
    requires rs[k + 1].loops[newer].topic == rs[k].loops[earlier].topic
    ensures steps[k].ReconcileStep? && rs[k].loops[earlier].phase == Closed
    ensures rs[k + 1].loops[earlier].phase == Closed
  {
    RunKeepsInv(rs, steps, k);
    assert rs[k + 1] == Apply(rs[k], steps[k]);
    ReconcileContract(rs[k], steps[k].ttls, steps[k].held);
  }

  /** The step before `Verifying` is the final pass, and before `Releasing` the check. */
  function Before(p: Phase): Phase
    requires p in {Verifying, Releasing}
  {
    if p == Verifying then FinalPass else Verifying
  }

  /** A loop in the later half of the dormancy exit got there by a step of its own that
      went well. */
  lemma {:induction false} CameFrom(rs: seq<Registry>, steps: seq<Step>, k: nat, id: nat) returns (a: nat)
    requires IsRun(rs, steps) && k < |rs| && id < |rs[k].loops| && rs[k].loops[id].phase in {Verifying, Releasing}
    ensures a < k && steps[a] == LoopStep(id, true)
    ensures id < |rs[a].loops| && rs[a].loops[id].phase == Before(rs[k].loops[id].phase)
  {
    var c := k - 1;
    RunKeepsInv(rs, steps, c);
    assert Enabled(rs[c], steps[c]) && rs[k] == Apply(rs[c], steps[c]);
    if steps[c].ReconcileStep? {
      ReconcileContract(rs[c], steps[c].ttls, steps[c].held);
    }
    if steps[c].LoopStep? && steps[c].id == id {
      a := c;
    } else {
      assert rs[c].loops[id].phase == rs[k].loops[id].phase;
      a := CameFrom(rs, steps, c, id);
    }
  }

  /** The step is a reconcile that finds `t` among the managed topics and not among the
      candidates. */
  predicate FindsDormant(r: Registry, step: Step, t: Topic) {
    step.ReconcileStep? && t in r.managed && t !in step.ttls
  }

  /** A loop is marked dormant only by a scan that no longer has its topic as a candidate. */
  lemma {:induction false} MarkedBy(rs: seq<Registry>, steps: seq<Step>, k: nat, id: nat) returns (m: nat)
    requires IsRun(rs, steps) && k < |rs| && id < |rs[k].loops| && rs[k].loops[id].dormant
    ensures m < k && FindsDormant(rs[m], steps[m], rs[k].loops[id].topic)
    ensures id < |rs[m].loops| && rs[m].managed[rs[k].loops[id].topic] == id
  {
    var c := k - 1;
    RunKeepsInv(rs, steps, c);
    assert Enabled(rs[c], steps[c]) && rs[k] == Apply(rs[c], steps[c]);
    if steps[c].ReconcileStep? {
      ReconcileContract(rs[c], steps[c].ttls, steps[c].held);
      if id < |rs[c].loops| {
        WhichLoopsStop(rs[c], steps[c].ttls, steps[c].held, id);
      }
    }
    if id < |rs[c].loops| && rs[c].loops[id].dormant {
      assert rs[c].loops[id].topic == rs[k].loops[id].topic;
      m := MarkedBy(rs, steps, c, id);
    } else {
      m := c;
    }
  }

  /** A plain shutdown or lost lease makes a loop exit without writing: the final pass and
      the release are reached only by loops that a scan found dormant.  And a loop that is
      about to release its lease has, earlier in the run, first been found dormant, then
      made a final pass that committed and then found the topic empty. */
  lemma OnlyDormantLoopsRelease(rs: seq<Registry>, steps: seq<Step>, k: nat, id: nat)
    requires IsRun(rs, steps) && k < |rs| && id < |rs[k].loops|
    ensures rs[k].loops[id].phase != Looping ==> rs[k].loops[id].cancelled
    ensures rs[k].loops[id].phase in {FinalPass, Verifying, Releasing} ==>
              rs[k].loops[id].dormant
              && exists m :: 0 <= m < k && FindsDormant(rs[m], steps[m], rs[k].loops[id].topic)
    ensures rs[k].loops[id].phase == Releasing ==>
              exists a, b :: 0 <= a < b < k && steps[a] == steps[b] == LoopStep(id, true)
                             && id < |rs[a].loops| && rs[a].loops[id].phase == FinalPass && rs[a].loops[id].dormant
                             && id < |rs[b].loops| && rs[b].loops[id].phase == Verifying
  {
    RunKeepsInv(rs, steps, k);
    if rs[k].loops[id].phase in {FinalPass, Verifying, Releasing} {
      var m := MarkedBy(rs, steps, k, id);
    }
    if rs[k].loops[id].phase == Releasing {
      var b := CameFrom(rs, steps, k, id);
      var a := CameFrom(rs, steps, b, id);
      RunKeepsInv(rs, steps, a);
      assert ExitOk(rs[a].loops[id]);
    }
  }

  /** Which step closes a loop: of one not marked dormant, its exit from the cycle; of a dormant
      one, a final pass or an empty check that did not go well, or the release. */
  lemma HowALoopCloses(rs: seq<Registry>, steps: seq<Step>, k: nat, id: nat)
    requires IsRun(rs, steps) && k < |steps| && id < |rs[k].loops| && id < |rs[k + 1].loops|
    requires rs[k].loops[id].phase != Closed && rs[k + 1].loops[id].phase == Closed
    ensures steps[k].LoopStep? && steps[k].id == id && rs[k].loops[id].cancelled
    ensures rs[k].loops[id].phase == Looping <==> !rs[k].loops[id].dormant
    ensures rs[k].loops[id].dormant ==> rs[k].loops[id].phase == Releasing || !steps[k].clean
  {
    RunKeepsInv(rs, steps, k);
    assert Enabled(rs[k], steps[k]) && rs[k + 1] == Apply(rs[k], steps[k]);
    if steps[k].ReconcileStep? {
      WhichLoopsStop(rs[k], steps[k].ttls, steps[k].held, id);
    }
  }

  function StepsLeft(p: Phase): nat {
    match p
    case Looping => 4
    case FinalPass => 3
    case Verifying => 2
    case Releasing => 1
    case Closed => 0
  }

  /** A cancelled loop cannot get stuck: it can always take a step, and each one, whether it goes
      well or not, brings it nearer to closing its `done`. */
  lemma CancelledLoopsClose(r: Registry, id: nat, clean: bool)
    requires id < |r.loops| && r.loops[id].cancelled && r.loops[id].phase != Closed
    ensures CanRun(r, id)
    ensures var l, l' := r.loops[id], RunLoop(r, id, clean).loops[id];
            l'.cancelled && StepsLeft(l'.phase) < StepsLeft(l.phase)
  {
  }

  /** Reaping drops exactly the entries whose loop has closed, so after a tick that reaps and
      reconciles every topic to be held has an entry whose loop is still running, a fresh
      one if the old one had closed. */
  lemma HeldTopicsHaveRunningLoops(r: Registry, ttls: map<Topic, int>, held: seq<Topic>, t: Topic)
    requires Inv(r)
    ensures t in Reap(r).managed <==> t in r.managed && r.loops[r.managed[t]].phase != Closed
    ensures Inv(Reap(r)) && Inv(Reconcile(Reap(r), ttls, held))
    ensures t in held ==>
              var r' := Reconcile(Reap(r), ttls, held);
              t in r'.managed && r'.loops[r'.managed[t]].topic == t && r'.loops[r'.managed[t]].phase != Closed
  {
    var c := Reap(r);
    ReconcileContract(c, ttls, held);
    var r' := Reconcile(c, ttls, held);
    if t in held && r'.managed[t] < |c.loops| {
      WhichLoopsStop(c, ttls, held, r'.managed[t]);
    }
  }

  /** A loop keeps its topic and the TTL it was started with, and its exit never goes back. */
  lemma {:induction false} LoopKeepsItsTtl(rs: seq<Registry>, steps: seq<Step>, a: nat, b: nat, id: nat)
    requires IsRun(rs, steps) && a <= b < |rs| && id < |rs[a].loops|
    ensures id < |rs[b].loops|
    ensures rs[b].loops[id].topic == rs[a].loops[id].topic && rs[b].loops[id].ttl == rs[a].loops[id].ttl
    ensures rs[a].loops[id].phase == Closed ==> rs[b].loops[id].phase == Closed
    ensures rs[a].loops[id].cancelled ==> rs[b].loops[id].cancelled
  {
    if a < b {
      var k := b - 1;
      LoopKeepsItsTtl(rs, steps, a, k, id);
      RunKeepsInv(rs, steps, k);
      if steps[k].ReconcileStep? {
        ReconcileContract(rs[k], steps[k].ttls, steps[k].held);
      }
    }
  }

  /** If every reconcile names a positive TTL for each topic it holds, no loop ever runs with
      any other: none deletes live messages for want of one. */
  lemma {:induction false} EveryLoopHasATtl(rs: seq<Registry>, steps: seq<Step>, k: nat, id: nat)
    requires IsRun(rs, steps) && k < |rs| && id < |rs[k].loops|
    requires forall j | 0 <= j < k && steps[j].ReconcileStep? ::
               forall t | t in steps[j].held :: t in steps[j].ttls && steps[j].ttls[t] > 0
    ensures rs[k].loops[id].ttl > 0
  {
    if k > 0 {
      var c := k - 1;
      assert Enabled(rs[c], steps[c]) && rs[k] == Apply(rs[c], steps[c]);
      RunKeepsInv(rs, steps, c);
      if steps[c].ReconcileStep? {
        ReconcileContract(rs[c], steps[c].ttls, steps[c].held);
      }
      if id < |rs[c].loops| {
        EveryLoopHasATtl(rs, steps, c, id);
      }
    }
  }

  // ----- the scanner's code ---------------------------------------------------------------------

  class Scanner {
    var managed: map<Topic, nat>
    var loops: seq<Loop>

    function View(): Registry
      reads this
    {
      Registry(managed, loops)
    }

    method ReapExitedLoops()
      requires Inv(View())
      modifies this`managed
      ensures View() == Reap(old(View()))
    {
      var todo := managed.Keys;
      while todo != {}
        invariant todo <= managed.Keys <= old(managed).Keys
        invariant forall t | t in old(managed) ::
                    if t in managed then managed[t] == old(managed)[t] && (t in todo || !IsClosed(View(), managed[t]))
                    else IsClosed(View(), old(managed)[t])
        decreases todo
      {
        var t :| t in todo;
        todo := todo - {t};
        if loops[managed[t]].phase == Closed {
          managed := managed - {t};
        }
      }
    }

    /** The first loop of reconcileLoops, over the managed entries in any order. */
    method CancelLoops(ttls: map<Topic, int>, held: seq<Topic>)
      requires Inv(View())
      modifies this`loops
      ensures View() == CancelPass(old(View()), ttls, held)
    {
      ghost var before := loops;
      var todo := managed.Keys;
      while todo != {}
        invariant todo <= managed.Keys && |loops| == |before|
        invariant forall id | 0 <= id < |loops| ::
                    loops[id] == if before[id].topic in managed && before[id].topic !in todo
                                    && managed[before[id].topic] == id
                                 then Judge(before[id], ttls, held) else before[id]
        decreases todo
      {
        var t :| t in todo;
        todo := todo - {t};
        var mt := managed[t];
        if t !in ttls {
          loops := loops[mt := loops[mt].(dormant := true, cancelled := true)];
        } else if t !in held {
          loops := loops[mt := loops[mt].(cancelled := true)];
        }
      }
    }

    method ReconcileLoops(ttls: map<Topic, int>, held: seq<Topic>)
      requires Inv(View())
      modifies this
      ensures View() == Reconcile(old(View()), ttls, held) && Inv(View())
    {
      ReconcileContract(View(), ttls, held);
      CancelLoops(ttls, held);
      ghost var judged := View();
      for n := 0 to |held|
        invariant View() == StartAll(judged, ttls, held[..n])
      {
        assert held[..n + 1][..n] == held[..n];
        var t := held[n];
        if t !in managed {
          var ttl := if t in ttls then ttls[t] else 0;
          managed := managed[t := |loops|];
          loops := loops + [Loop(t, ttl, false, false, Looping)];
        }
      }
      assert held[..|held|] == held;
    }
  }
}
