/** The per-topic goroutines that turn the end of an AcquireTopic context into one
    grace-period expiry write: their interleaved steps, and the in-process registry
    whose Start and Stop drive them. */
module LeaseWatcher {
  import opened Tables

  /** What cancelled a watch first; later causes are ignored. */
  datatype Cause = CtxEnded | Stopped

  /** Where a watcher goroutine is: blocked on its context, inside onCancel, about to
      compare-and-delete its map entry, about to close `done`, or gone. */
  datatype Phase = Waiting | Firing | Cleaning | Cleaned | Done

  /** `fired` counts the calls of onCancel this handle has made. */
  datatype Handle = Handle(cause: Option<Cause>, phase: Phase, fired: nat)

  /** One topic's view of the registry: the map entry, and every handle ever started
      for the topic, a handle's identity being its index. */
  datatype Watch = Watch(running: Option<nat>, handles: seq<Handle>)

  /** Start's last two lines: install a fresh handle and spawn its goroutine. */
  function Store(w: Watch): Watch {
    Watch(Some(|w.handles|), w.handles + [Handle(None, Waiting, 0)])
  }

  /** The map half of LoadAndDelete; what it returns is the old `running`. */
  function Unmap(w: Watch): Watch {
    w.(running := None)
  }

  /** Cancelling a context records only the first cause. */
  function Cancel(w: Watch, h: nat, cause: Cause): Watch
    requires h < |w.handles|
  {
    if w.handles[h].cause.None? then w.(handles := w.handles[h := w.handles[h].(cause := Some(cause))]) else w
  }

  /** The goroutine's next step can be taken: only the wait for the context blocks. */
  predicate CanRun(w: Watch, h: nat) {
    h < |w.handles| && w.handles[h].phase != Done && (w.handles[h].phase == Waiting ==> w.handles[h].cause.Some?)
  }

  /** The goroutine's body, one step at a time; the defers run last-in first-out. */
  function Run(w: Watch, h: nat): Watch
    requires CanRun(w, h)
  {
    var x := w.handles[h];
    match x.phase
    case Waiting =>
      if x.cause.value == Stopped then w.(handles := w.handles[h := x.(phase := Cleaning)])
      else w.(handles := w.handles[h := x.(phase := Firing, fired := x.fired + 1)])
    case Firing => w.(handles := w.handles[h := x.(phase := Cleaning)])
    case Cleaning =>
      Watch(if w.running == Some(h) then None else w.running, w.handles[h := x.(phase := Cleaned)])
    case Cleaned => w.(handles := w.handles[h := x.(phase := Done)])
  }

  datatype Step =
    | StoreStep
    | UnmapStep
    | CancelStep(h: nat, cause: Cause)
    | RunStep(h: nat)

  predicate Enabled(w: Watch, step: Step) {
    match step
    case StoreStep => true
    case UnmapStep => true
    case CancelStep(h, _) => h < |w.handles|
    case RunStep(h) => CanRun(w, h)
  }

  function Apply(w: Watch, step: Step): Watch
    requires Enabled(w, step)
  {
    match step
    case StoreStep => Store(w)
    case UnmapStep => Unmap(w)
    case CancelStep(h, cause) => Cancel(w, h, cause)
    case RunStep(h) => Run(w, h)
  }

  // ----- the contract, under any interleaving of any callers ---------------------

  /** A handle fires at most once, and by the time it is past firing it has fired
      exactly once if its context ended first and never if it was stopped first. */
  predicate FiresAsPromised(x: Handle) {
    match x.phase
    case Waiting => x.fired == 0
    case Firing => x.cause == Some(CtxEnded) && x.fired == 1
    case _ => x.cause.Some? && x.fired == if x.cause.value == CtxEnded then 1 else 0
  }

  predicate Inv(w: Watch) {
    && (w.running.Some? ==> w.running.value < |w.handles|)
    && (forall h | 0 <= h < |w.handles| :: FiresAsPromised(w.handles[h]))
    && (forall h | 0 <= h < |w.handles| && w.handles[h].phase in {Cleaned, Done} :: w.running != Some(h))
  }

  const EMPTY := Watch(None, [])

  lemma StepKeepsInv(w: Watch, step: Step)
    requires Inv(w) && Enabled(w, step)
    ensures Inv(Apply(w, step))
  {
  }

  ghost predicate IsRun(ws: seq<Watch>, steps: seq<Step>) {
    && |ws| == |steps| + 1 && ws[0] == EMPTY
    && forall k | 0 <= k < |steps| :: Enabled(ws[k], steps[k]) && ws[k + 1] == Apply(ws[k], steps[k])
  }

  /** Whatever callers do, overlapping or not: every handle fires as promised, and a
      closed `done` means the handle is out of the map. */
  lemma {:induction false} WatcherContract(ws: seq<Watch>, steps: seq<Step>, k: nat)
    requires IsRun(ws, steps) && k < |ws|
    ensures Inv(ws[k])
    ensures forall h | 0 <= h < |ws[k].handles| && ws[k].handles[h].phase == Done :: ws[k].running != Some(h)
  {
    if k > 0 {
      WatcherContract(ws, steps, k - 1);
      StepKeepsInv(ws[k - 1], steps[k - 1]);
    }
  }

  /** A goroutine's own step takes only its own entry out of the map, so a late
      cleanup never removes a newer handle. */
  lemma CleanupSparesOthers(w: Watch, h: nat)
    requires Inv(w) && CanRun(w, h)
    ensures Run(w, h).running != w.running ==> w.running == Some(h) && w.handles[h].phase == Cleaning
    ensures forall g | 0 <= g < |w.handles| && g != h :: Run(w, h).handles[g] == w.handles[g]
  {
  }

  // ----- Stop, run to completion --------------------------------------------------

  /** Steps left in a goroutine's body once it has been cancelled. */
  function StepsLeft(x: Handle): nat {
    match x.phase
    case Waiting => 4
    case Firing => 3
    case Cleaning => 2
    case Cleaned => 1
    case Done => 0
  }

  /** Let goroutine `h` run until it exits. */
  function Finish(w: Watch, h: nat): Watch
    requires h < |w.handles| && w.handles[h].cause.Some?
    decreases if h < |w.handles| then StepsLeft(w.handles[h]) else 0
  {
    if w.handles[h].phase == Done then w else Finish(Run(w, h), h)
  }

  /** Stop as one call with nothing else going on: unmap, cancel, wait for `done`. */
  function StopResult(w: Watch): Watch
    requires Inv(w)
  {
    if w.running.None? then w else Finish(Cancel(Unmap(w), w.running.value, Stopped), w.running.value)
  }

  /** A finished goroutine is Done, and its fate is settled by its first cause. */
  lemma {:induction false} FinishSettles(w: Watch, h: nat)
    requires Inv(w) && h < |w.handles| && w.handles[h].cause.Some?
    ensures var w' := Finish(w, h);
            && Inv(w') && |w'.handles| == |w.handles|
            && w'.running == (if w.running == Some(h) then None else w.running)
            && w'.handles[h] == Handle(w.handles[h].cause, Done, if w.handles[h].cause == Some(CtxEnded) then 1 else 0)
            && forall g | 0 <= g < |w.handles| && g != h :: w'.handles[g] == w.handles[g]
    decreases if h < |w.handles| then StepsLeft(w.handles[h]) else 0
  {
    if w.handles[h].phase != Done {
      StepKeepsInv(w, RunStep(h));
      FinishSettles(Run(w, h), h);
    }
  }

  /** Stop leaves no map entry, its handle is Done, and onCancel ran for it once if
      the context had ended first and not at all otherwise. */
  lemma StopContract(w: Watch)
    requires Inv(w)
    ensures Inv(StopResult(w)) && StopResult(w).running.None?
    ensures w.running.Some? ==>
              var h := w.running.value;
              var first := Coalesce(w.handles[h].cause, Some(Stopped)).value;
              && |StopResult(w).handles| == |w.handles|
              && StopResult(w).handles[h] == Handle(Some(first), Done, if first == CtxEnded then 1 else 0)
              && forall g | 0 <= g < |w.handles| && g != h :: StopResult(w).handles[g] == w.handles[g]
  {
    if w.running.Some? {
      FinishSettles(Cancel(Unmap(w), w.running.value, Stopped), w.running.value);
    }
  }

  /** Why callers must not overlap: of two Stops for one topic only the first finds
      the entry; the second has nothing to wait for and returns while onCancel is
      still running. */
  lemma OverlappingStopsDoNotBothWait()
    ensures exists ws: seq<Watch>, steps: seq<Step> ::
              && IsRun(ws, steps) && |steps| == 5
              && steps[3] == UnmapStep && ws[3].running.Some?
              && steps[4] == UnmapStep && ws[4].running.None?
              && |ws[5].handles| == 1 && ws[5].handles[0].phase == Firing
  {
    var steps := [StoreStep, CancelStep(0, CtxEnded), RunStep(0), UnmapStep, UnmapStep];
    var w1 := Apply(EMPTY, steps[0]);
    var w2 := Apply(w1, steps[1]);
    var w3 := Apply(w2, steps[2]);
    var w4 := Apply(w3, steps[3]);
    var ws := [EMPTY, w1, w2, w3, w4, Apply(w4, steps[4])];
    assert IsRun(ws, steps);
  }

  // ----- the registry --------------------------------------------------------------

  /** leaseWatcher: the `running` map, and per topic the handles started so far. */
  class Registry {
    var running: map<Topic, nat>
    var started: map<Topic, seq<Handle>>

    ghost function View(t: Topic): Watch
      reads this
    {
      Watch(if t in running then Some(running[t]) else None, if t in started then started[t] else [])
    }

    ghost predicate Valid()
      reads this
    {
      forall t :: Inv(View(t))
    }

    constructor ()
      ensures Valid() && forall t :: View(t) == EMPTY
    {
      running, started := map[], map[];
    }

    /** Every other topic's watch is as it was. */
    twostate predicate OthersKept(t: Topic)
      reads this
    {
      forall u | u != t :: View(u) == old(View(u))
    }

    /** running.LoadAndDelete. */
    method LoadAndDelete(t: Topic) returns (h: Option<nat>)
      requires Valid()
      modifies this`running
      ensures Valid() && h == old(View(t)).running && View(t) == Unmap(old(View(t)))
      ensures OthersKept(t)
    {
      h := if t in running then Some(running[t]) else None;
      running := running - {t};
      assert View(t) == Unmap(old(View(t))) && OthersKept(t);
    }

    /** Cancel handle `h`'s context: by Stop, or because the context passed to Start ended. */
    method CancelHandle(t: Topic, h: nat, cause: Cause)
      requires Valid() && h < |View(t).handles|
      modifies this`started
      ensures Valid() && View(t) == Cancel(old(View(t)), h, cause)
      ensures OthersKept(t)
    {
      StepKeepsInv(View(t), CancelStep(h, cause));
      if started[t][h].cause.None? {
        started := started[t := started[t][h := started[t][h].(cause := Some(cause))]];
      }
      assert View(t) == Cancel(old(View(t)), h, cause) && OthersKept(t);
    }

    /** One step of goroutine `h` of topic `t`. */
    method RunGoroutine(t: Topic, h: nat)
      requires Valid() && CanRun(View(t), h)
      modifies this
      ensures Valid() && View(t) == Run(old(View(t)), h)
      ensures OthersKept(t)
    {
      StepKeepsInv(View(t), RunStep(h));
      var x := started[t][h];
      match x.phase {
        case Waiting =>
          x := if x.cause.value == Stopped then x.(phase := Cleaning) else x.(phase := Firing, fired := x.fired + 1);
        case Firing =>
          x := x.(phase := Cleaning);
        case Cleaning =>
          if t in running && running[t] == h {
            running := running - {t};
          }
          x := x.(phase := Cleaned);
        case Cleaned =>
          x := x.(phase := Done);
      }
      started := started[t := started[t][h := x]];
      assert View(t) == Run(old(View(t)), h) && OthersKept(t);
    }

    method Stop(t: Topic) returns (stopped: bool)
      requires Valid()
      modifies this
      ensures Valid() && View(t) == StopResult(old(View(t)))
      ensures stopped == old(View(t)).running.Some?
      ensures OthersKept(t)
    {
      var h := LoadAndDelete(t);
      if h.None? {
        return false;
      }
      CancelHandle(t, h.value, Stopped);
      AwaitDone(t, h.value);
      return true;
    }

    /** `<-handle.done`: the cancelled goroutine runs until it exits. */
    method AwaitDone(t: Topic, h: nat)
      requires Valid() && h < |View(t).handles| && View(t).handles[h].cause.Some?
      modifies this
      ensures Valid() && View(t) == Finish(old(View(t)), h)
      ensures OthersKept(t)
    {
      while started[t][h].phase != Done
        invariant Valid() && h < |View(t).handles| && View(t).handles[h].cause.Some?
        invariant Finish(View(t), h) == Finish(old(View(t)), h)
        invariant OthersKept(t)
        decreases StepsLeft(View(t).handles[h])
      {
        RunGoroutine(t, h);
      }
    }

    method Start(t: Topic)
      requires Valid()
      modifies this
      ensures Valid() && View(t) == Store(StopResult(old(View(t))))
      ensures OthersKept(t)
    {
      var _ := Stop(t);
      ghost var stopped := View(t);
      StepKeepsInv(stopped, StoreStep);
      var handles := if t in started then started[t] else [];
      started := started[t := handles + [Handle(None, Waiting, 0)]];
      running := running[t := |handles|];
      assert View(t) == Store(stopped) && OthersKept(t);
    }
  }
}
