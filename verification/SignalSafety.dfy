/** What a signal does to the host: when the cleanup gives it back, and when it ruins what it should
    have released. */
module SignalSafety {
  import opened Options
  import opened HostState
  import opened CleanupProtocol
  import opened ImagePipeline

  // ---------------------------------------------------------------- the two threads

  /** Only a build that is still running can have a mount in flight, and only the handler can run
      callbacks meanwhile. */
  predicate Threads(s: State) {
    && (s.pipeline.Building? ==> !s.stopped)
    && (MountInFlight(s) ==> s.pipeline.Building?)
    && (s.raced ==> s.signal.SUnwinding? || s.signal.SFinished?)
    && (s.raced ==> s.unwindings != [] && |s.acquisitions| > s.unwindings[0].pushedBefore)
  }

  lemma CallbackKeepsThreads(s: State, t: Thread)
    requires Invariant(s) && Threads(s) && Enabled(s, Callback(t))
    ensures Threads(Apply(s, Callback(t)))
  {
    assert s.unwindings[0].pushedBefore <= Last(s).pushedBefore == s.pushed;
    assert Apply(s, Callback(t)).unwindings[0].pushedBefore == s.unwindings[0].pushedBefore;
  }

  lemma LockKeepsThreads(s: State, t: Thread)
    requires Invariant(s) && Threads(s) && Enabled(s, Lock(t))
    ensures Threads(Apply(s, Lock(t)))
  {
    assert s.unwindings != [] ==> Apply(s, Lock(t)).unwindings[0] == s.unwindings[0];
  }

  lemma BuildStepsKeepThreads(s: State, step: Step)
    requires Invariant(s) && Threads(s) && Enabled(s, step)
    requires step.Acquire? || step.Push? || step.Return? || step.StopNotify?
    ensures Threads(Apply(s, step))
  {
  }

  lemma SignalStepsKeepThreads(s: State, step: Step)
    requires Threads(s) && Enabled(s, step) && (step.Deliver? || step.Receive?)
    ensures Threads(Apply(s, step))
  {
  }

  lemma EndStepsKeepThreads(s: State, step: Step)
    requires Mutex(s) && Threads(s) && Enabled(s, step) && (step.Unlock? || step.Exit? || step.Kill?)
    ensures Threads(Apply(s, step))
  {
  }

  // ---------------------------------------------------------------- the host while nothing has raced

  /** The part of the invariant that counts callbacks. */
  predicate Shape(s: State) {
    && |s.fns| <= s.pushed <= |s.acquisitions|
    && (s.holder.Some? ==> s.unwindings != [] && |Last(s).ran| <= |s.fns|)
  }

  lemma InvariantShape(s: State)
    requires Invariant(s)
    ensures Shape(s)
  {
  }

  /** How many callbacks of the present stack have not run. */
  function Remaining(s: State): nat
    requires Shape(s)
  {
    |s.fns| - if s.holder.Some? then |Last(s).ran| else 0
  }

  /** Of the acquisitions, `remaining` from number `lowest` on, and those from number `pushed` on. */
  function Live(acquisitions: seq<Acquisition>, lowest: nat, remaining: nat, pushed: nat): seq<Acquisition>
    requires lowest + remaining <= pushed <= |acquisitions|
  {
    acquisitions[lowest..lowest + remaining] + acquisitions[pushed..]
  }

  /** The acquisitions not released so far, in order: those whose callback is still to be run, and the
      one in flight. */
  function Outstanding(s: State): seq<Acquisition>
    requires Shape(s)
  {
    Live(s.acquisitions, s.pushed - |s.fns|, Remaining(s), s.pushed)
  }

  /** The host is the one that the outstanding acquisitions alone would have led to. */
  predicate Nested(initial: Host, s: State)
    requires Shape(s)
  {
    && AllPossible(initial, Outstanding(s))
    && s.host == AllAcquired(initial, Outstanding(s))
  }

  lemma LiveIsTail(acquisitions: seq<Acquisition>, lowest: nat, remaining: nat, pushed: nat)
    requires lowest + remaining <= pushed <= |acquisitions|
    ensures lowest + remaining == pushed ==> Live(acquisitions, lowest, remaining, pushed) == acquisitions[lowest..]
    ensures remaining == 0 ==> Live(acquisitions, lowest, remaining, pushed) == acquisitions[pushed..]
  {
  }

  lemma LiveGrows(acquisitions: seq<Acquisition>, a: Acquisition, lowest: nat, remaining: nat, pushed: nat)
    requires lowest + remaining <= pushed <= |acquisitions|
    ensures Live(acquisitions + [a], lowest, remaining, pushed) == Live(acquisitions, lowest, remaining, pushed) + [a]
  {
  }

  lemma AcquireKeepsNested(initial: Host, s: State, a: Acquisition)
    requires Shape(s) && Enabled(s, Acquire(a)) && Nested(initial, s)
    ensures Shape(Apply(s, Acquire(a))) && Nested(initial, Apply(s, Acquire(a)))
  {
    OutstandingGrows(s, a);
    AcquireLast(initial, Outstanding(s), a);
  }

  lemma OutstandingGrows(s: State, a: Acquisition)
    requires Shape(s) && Enabled(s, Acquire(a))
    ensures Shape(Apply(s, Acquire(a))) && Outstanding(Apply(s, Acquire(a))) == Outstanding(s) + [a]
  {
    CountsStay(s, a);
    LiveGrows(s.acquisitions, a, s.pushed - |s.fns|, Remaining(s), s.pushed);
  }

  lemma CountsStay(s: State, a: Acquisition)
    requires Shape(s) && Enabled(s, Acquire(a))
    ensures var next := Apply(s, Acquire(a));
            && Shape(next) && Remaining(next) == Remaining(s)
            && next.fns == s.fns && next.pushed == s.pushed && next.acquisitions == s.acquisitions + [a]
  {
  }

  lemma PushKeepsNested(initial: Host, s: State)
    requires Shape(s) && Enabled(s, Push) && Nested(initial, s)
    ensures Shape(Apply(s, Push)) && Nested(initial, Apply(s, Push))
  {
    var lowest := s.pushed - |s.fns|;
    LiveIsTail(s.acquisitions, lowest, |s.fns|, s.pushed);
    LiveIsTail(s.acquisitions, lowest, |s.fns| + 1, s.pushed + 1);
  }

  lemma LockKeepsNested(initial: Host, s: State, t: Thread)
    requires Shape(s) && Enabled(s, Lock(t)) && Nested(initial, s)
    ensures Shape(Apply(s, Lock(t))) && Nested(initial, Apply(s, Lock(t)))
  {
  }

  lemma NothingRemains(s: State, t: Thread)
    requires Shape(s) && Enabled(s, Unlock(t))
    ensures var next := Apply(s, Unlock(t));
            && Shape(next) && Remaining(s) == 0 && Remaining(next) == 0 && next.fns == []
            && next.host == s.host && next.pushed == s.pushed && next.acquisitions == s.acquisitions
  {
  }

  lemma UnlockKeepsNested(initial: Host, s: State, t: Thread)
    requires Shape(s) && Enabled(s, Unlock(t)) && Nested(initial, s)
    ensures Shape(Apply(s, Unlock(t))) && Nested(initial, Apply(s, Unlock(t)))
  {
    NothingRemains(s, t);
    LiveIsTail(s.acquisitions, s.pushed - |s.fns|, 0, s.pushed);
    LiveIsTail(s.acquisitions, s.pushed, 0, s.pushed);
  }

  lemma OtherStepsKeepNested(initial: Host, s: State, step: Step)
    requires Shape(s) && Enabled(s, step) && Nested(initial, s)
    requires step.Return? || step.StopNotify? || step.Deliver? || step.Receive? || step.Exit? || step.Kill?
    ensures Shape(Apply(s, step)) && Nested(initial, Apply(s, step))
  {
  }

  /** The callback that runs next belongs to the last of those remaining. */
  lemma NextIsLast(s: State, t: Thread)
    requires Invariant(s) && Shape(s) && Enabled(s, Callback(t))
    ensures Remaining(s) >= 1 && Next(s) == s.pushed - |s.fns| + Remaining(s) - 1
  {
  }

  lemma OneFewerRemaining(s: State, t: Thread)
    requires Shape(s) && Enabled(s, Callback(t))
    ensures var next := Apply(s, Callback(t));
            && Shape(next) && Remaining(next) == Remaining(s) - 1
            && next.fns == s.fns && next.pushed == s.pushed && next.acquisitions == s.acquisitions
  {
  }

  lemma LastOfLive(acquisitions: seq<Acquisition>, lowest: nat, remaining: nat, pushed: nat)
    requires lowest + remaining <= pushed <= |acquisitions| && remaining >= 1
    ensures var below, above := acquisitions[lowest..lowest + remaining - 1], acquisitions[pushed..];
            && Live(acquisitions, lowest, remaining, pushed) == below + [acquisitions[lowest + remaining - 1]] + above
            && Live(acquisitions, lowest, remaining - 1, pushed) == below + above
  {
    assert acquisitions[lowest..lowest + remaining] ==
           acquisitions[lowest..lowest + remaining - 1] + [acquisitions[lowest + remaining - 1]];
  }

  /** What is outstanding before the next callback: what will be left, what it releases, and what is in
      flight. */
  lemma NextIsOutstanding(s: State, t: Thread) returns (below: seq<Acquisition>, above: seq<Acquisition>)
    requires Shape(s) && Enabled(s, Callback(t))
    requires Remaining(s) >= 1 && Next(s) == s.pushed - |s.fns| + Remaining(s) - 1
    ensures Outstanding(s) == below + [s.acquisitions[Next(s)]] + above
    ensures above == s.acquisitions[s.pushed..]
    ensures Shape(Apply(s, Callback(t))) && Outstanding(Apply(s, Callback(t))) == below + above
  {
    OneFewerRemaining(s, t);
    LastOfLive(s.acquisitions, s.pushed - |s.fns|, Remaining(s), s.pushed);
    below := s.acquisitions[s.pushed - |s.fns|..Next(s)];
    above := s.acquisitions[s.pushed..];
  }

  /** Releasing an acquisition with nothing above it, or with one that is no mount. */
  lemma ReleaseFromNest(initial: Host, below: seq<Acquisition>, x: Acquisition, above: seq<Acquisition>)
    requires Valid(initial) && AllPossible(initial, below + [x] + above) && |above| <= 1
    requires above != [] ==> !above[0].MountOn?
    ensures var h := AllAcquired(initial, below + [x] + above);
            && SafeNow(h, ReleaseOf(x))
            && Released(h, ReleaseOf(x)) == AllAcquired(initial, below + above)
            && AllPossible(initial, below + above)
  {
    AcquireLast(initial, below, x);
    var h := AllAcquired(initial, below);
    if above == [] {
      assert below + [x] + above == below + [x] && below + above == below;
      AcquiredStaysValid(initial, below);
      ReleaseUndoes(h, x);
    } else {
      var y := above[0];
      assert above == [y];
      AcquireLast(initial, below + [x], y);
      AcquiredStaysValid(initial, below);
      ReleaseBelow(h, x, y);
      AcquireLast(initial, below, y);
    }
  }

  lemma CallbackKeepsNested(initial: Host, s: State, t: Thread)
    requires Valid(initial) && Invariant(s) && Shape(s) && Enabled(s, Callback(t))
    requires Nested(initial, s) && !MountInFlight(s)
    ensures SafeNow(s.host, ReleaseOf(s.acquisitions[Next(s)]))
    ensures Shape(Apply(s, Callback(t))) && Nested(initial, Apply(s, Callback(t)))
  {
    NextIsLast(s, t);
    var below, above := NextIsOutstanding(s, t);
    ReleaseFromNest(initial, below, s.acquisitions[Next(s)], above);
  }

  predicate Facts(initial: Host, s: State) {
    Invariant(s) && Shape(s) && Threads(s) && (!s.raced ==> Nested(initial, s))
  }

  lemma StepKeepsNested(initial: Host, s: State, step: Step)
    requires Valid(initial) && Invariant(s) && Shape(s) && Enabled(s, step) && Nested(initial, s)
    requires step.Callback? ==> !MountInFlight(s)
    ensures Shape(Apply(s, step)) && Nested(initial, Apply(s, step))
  {
    match step
    case Acquire(a) => AcquireKeepsNested(initial, s, a);
    case Push => PushKeepsNested(initial, s);
    case Lock(t) => LockKeepsNested(initial, s, t);
    case Unlock(t) => UnlockKeepsNested(initial, s, t);
    case Callback(t) => CallbackKeepsNested(initial, s, t);
    case _ => OtherStepsKeepNested(initial, s, step);
  }

  lemma StepKeepsThreads(s: State, step: Step)
    requires Invariant(s) && Threads(s) && Enabled(s, step)
    ensures Threads(Apply(s, step))
  {
    match step
    case Callback(t) => CallbackKeepsThreads(s, t);
    case Lock(t) => LockKeepsThreads(s, t);
    case Deliver => SignalStepsKeepThreads(s, step);
    case Receive => SignalStepsKeepThreads(s, step);
    case Unlock(_) => EndStepsKeepThreads(s, step);
    case Exit(_) => EndStepsKeepThreads(s, step);
    case Kill => EndStepsKeepThreads(s, step);
    case _ => BuildStepsKeepThreads(s, step);
  }

  lemma RacedOnlyByCallback(s: State, step: Step)
    requires Enabled(s, step)
    ensures Apply(s, step).raced == (s.raced || (step.Callback? && MountInFlight(s)))
  {
  }

  lemma StepKeepsFacts(initial: Host, s: State, step: Step)
    requires Valid(initial) && Facts(initial, s) && Enabled(s, step)
    ensures Facts(initial, Apply(s, step))
  {
    StepKeepsInvariant(s, step);
    InvariantShape(Apply(s, step));
    StepKeepsThreads(s, step);
    RacedOnlyByCallback(s, step);
    if !Apply(s, step).raced {
      StepKeepsNested(initial, s, step);
    }
  }

  lemma {:induction false} EveryRunKeepsFacts(initial: Host, s: State, run: seq<Step>)
    requires Valid(initial) && Facts(initial, s) && CanRun(s, run)
    ensures Facts(initial, After(s, run))
    decreases |run|
  {
    if run != [] {
      StepKeepsFacts(initial, s, run[0]);
      EveryRunKeepsFacts(initial, Apply(s, run[0]), run[1..]);
    }
  }

  lemma ReachableFacts(initial: Host, s: State)
    requires Valid(initial) && Reachable(initial, s)
    ensures Facts(initial, s)
  {
    var run :| CanRun(Start(initial), run) && After(Start(initial), run) == s;
    StartInvariant(initial);
    assert Outstanding(Start(initial)) == [];
    EveryRunKeepsFacts(initial, Start(initial), run);
  }

  // ---------------------------------------------------------------- what holds without a race

  /** However deeply the acquisitions nest and however the two threads interleave: while no callback has
      run with a mount in flight, every callback runs at a safe moment, unless a mount is in flight right
      then. */
  lemma CallbacksAreSafe(initial: Host, s: State, t: Thread)
    requires Valid(initial) && Reachable(initial, s) && Enabled(s, Callback(t))
    requires !s.raced && !MountInFlight(s)
    ensures SafeNow(s.host, ReleaseOf(s.acquisitions[Next(s)]))
  {
    ReachableFacts(initial, s);
    CallbackKeepsNested(initial, s, t);
  }

  /** Everything acquired has been pushed, and every callback has run. */
  predicate AllReleased(s: State) {
    |s.acquisitions| == s.pushed && AllCompleted(s)
  }

  lemma NothingOutstanding(initial: Host, s: State)
    requires Reachable(initial, s) && Shape(s)
    ensures Outstanding(s) == [] <==> AllReleased(s)
  {
    ReachableInvariant(initial, s);
    AllCompletedExactly(initial, s);
    assert |Outstanding(s)| == Remaining(s) + (|s.acquisitions| - s.pushed);
  }

  /** Then the host is as it was found if and only if everything acquired has been pushed and every
      callback has run; and nothing is ruined. */
  lemma RestoredUnlessRaced(initial: Host, s: State)
    requires Valid(initial) && Reachable(initial, s) && !s.raced
    ensures s.host == initial <==> AllReleased(s)
    ensures s.host.ruined == initial.ruined
  {
    ReachableFacts(initial, s);
    NothingOutstanding(initial, s);
    AcquiringGrows(initial, Outstanding(s));
  }

  /** If everything ever acquired had been pushed before the first unwinding took the mutex, then whoever
      ends the process, and whatever the interleaving, the host is left exactly as it was found. */
  lemma ExitRestoresHost(initial: Host, s: State, t: Thread)
    requires Valid(initial) && Reachable(initial, s) && s.end == Some(Exited(t))
    requires s.unwindings != [] && s.unwindings[0].pushedBefore == |s.acquisitions|
    ensures !s.raced && s.host == initial
  {
    ReachableFacts(initial, s);
    ExitOnlyAfterCleanup(initial, s, t);
    RestoredUnlessRaced(initial, s);
  }

  /** The numbers below n, from the top down. */
  predicate CountsDown(ids: seq<nat>, n: nat) {
    |ids| == n && forall i | 0 <= i < n :: ids[i] == n - 1 - i
  }

  /** All callbacks that ran, in the order they ran: the unwindings never overlap. */
  function AllRan(us: seq<Unwinding>): seq<nat> {
    if us == [] then [] else AllRan(us[..|us| - 1]) + us[|us| - 1].ran
  }

  lemma AllRanOfOne(u: Unwinding)
    ensures AllRan([u]) == u.ran
  {
    assert [u][..0] == [];
  }

  lemma AllRanOfTwo(u: Unwinding, v: Unwinding)
    ensures AllRan([u, v]) == u.ran + v.ran
  {
    assert [u, v][..1] == [u];
    AllRanOfOne(u);
  }

  /** In that case the callbacks of both unwindings together ran from the last to the first. */
  lemma RanFromLastToFirst(initial: Host, s: State, t: Thread)
    requires Reachable(initial, s) && s.end == Some(Exited(t))
    requires s.unwindings != [] && s.unwindings[0].pushedBefore == |s.acquisitions|
    ensures CountsDown(AllRan(s.unwindings), |s.acquisitions|)
  {
    ReachableInvariant(initial, s);
    var us := s.unwindings;
    if |us| == 1 {
      AllRanOfOne(us[0]);
      assert us == [us[0]];
    } else {
      AllRanOfTwo(us[0], us[1]);
      assert us == [us[0], us[1]];
      assert us[1].ran == [];
    }
  }

  /** Without a signal nothing races, and the host is given back at the end if and only if the build did
      not return with something acquired and not pushed. */
  lemma WithoutSignal(initial: Host, s: State)
    requires Valid(initial) && Reachable(initial, s) && s.signal.Listening?
    ensures !s.raced
    ensures s.end == Some(Exited(Pipeline)) ==> (s.host == initial <==> |s.acquisitions| == s.pushed)
  {
    ReachableFacts(initial, s);
    RestoredUnlessRaced(initial, s);
    if s.end == Some(Exited(Pipeline)) {
      ExitOnlyAfterCleanup(initial, s, Pipeline);
    }
  }

  // ---------------------------------------------------------------- what a race does

  /** The pipeline has come some way through what it acquires for this layout. */
  predicate InPlan(s: State, l: Layout, root: Path) {
    s.acquisitions <= ImagePipeline.Acquisitions(l, root)
  }

  predicate IsMounted(h: Host, dev: Device, dir: Path) {
    exists i | 0 <= i < |h.mounts| :: h.mounts[i] == Mount(dev, dir)
  }

  /** A partition is mounted in flight, and the handler still has the detaching of its device to run. */
  predicate Stuck(s: State) {
    && MountInFlight(s) && |s.acquisitions| == s.pushed + 1
    && s.acquisitions[s.pushed].dev.Nbd?
    && IsMounted(s.host, s.acquisitions[s.pushed].dev, s.acquisitions[s.pushed].dir)
    && s.pipeline.Building? && !s.stopped && s.end.None?
    && s.signal.SUnwinding? && s.holder == Some(Signal)
    && |s.fns| == s.pushed && s.unwindings != [] && |Last(s).ran| < |s.fns|
  }

  lemma PlanShape(l: Layout, root: Path, i: nat)
    requires i < |ImagePipeline.Acquisitions(l, root)|
    ensures var a := ImagePipeline.Acquisitions(l, root)[i];
            && (a.Attach? <==> i == 0) && (a.MakeTemp? <==> i == 1)
            && (a.MountOn? ==> a.dev.Nbd? && |a.dir| == |root| + i - 2)
  {
  }

  lemma ReleaseKeepsMount(h: Host, r: Release, dev: Device, dir: Path)
    requires IsMounted(h, dev, dir) && (r.Unmount? ==> r.dir != dir)
    ensures IsMounted(Released(h, r), dev, dir)
  {
    var i :| 0 <= i < |h.mounts| && h.mounts[i] == Mount(dev, dir);
    var after := Released(h, r).mounts;
    if r.Unmount? && after != h.mounts {
      var gone := MountedAt(h.mounts, r.dir);
      assert after[if i < gone then i else i - 1] == Mount(dev, dir);
    } else {
      assert after[i] == Mount(dev, dir);
    }
  }

  lemma DetachingRuins(h: Host, dev: Device, dir: Path)
    requires IsMounted(h, dev, dir) && dev.Nbd?
    ensures dev in Released(h, Detach).ruined
  {
  }

  lemma RuinStays(h: Host, r: Release)
    ensures h.ruined <= Released(h, r).ruined
  {
  }

  /** As long as the handler is stuck with that mount it can only go on to the detaching, which ruins the
      partition. */
  lemma StuckUntilRuined(s: State, t: Thread, l: Layout, root: Path)
    requires Invariant(s) && Shape(s) && InPlan(s, l, root) && Stuck(s) && Enabled(s, Callback(t))
    ensures Stuck(Apply(s, Callback(t))) || Apply(s, Callback(t)).host.ruined != {}
  {
    NextIsLast(s, t);
    OneFewerRemaining(s, t);
    var id, y := Next(s), s.acquisitions[s.pushed];
    PlanShape(l, root, id);
    PlanShape(l, root, s.pushed);
    if id == 0 {
      DetachingRuins(s.host, y.dev, y.dir);
    } else {
      ReleaseKeepsMount(s.host, ReleaseOf(s.acquisitions[id]), y.dev, y.dir);
    }
  }

  lemma {:induction false} NeverAttached(h: Host, acquisitions: seq<Acquisition>)
    requires !h.attached && forall i | 0 <= i < |acquisitions| :: !acquisitions[i].Attach?
    ensures !AllAcquired(h, acquisitions).attached
    decreases |acquisitions|
  {
    if acquisitions != [] {
      NeverAttached(Acquired(h, acquisitions[0]), acquisitions[1..]);
    }
  }

  /** Where a mount of a partition is the last thing outstanding, so is the attaching of its device. */
  lemma AttachIsOutstanding(initial: Host, below: seq<Acquisition>, y: Acquisition) returns (i: nat)
    requires !initial.attached && AllPossible(initial, below + [y]) && y.MountOn? && y.dev.Nbd?
    ensures i < |below| && below[i].Attach?
    ensures IsMounted(AllAcquired(initial, below + [y]), y.dev, y.dir)
  {
    AcquireLast(initial, below, y);
    var h := AllAcquired(initial, below);
    assert Acquired(h, y).mounts[|h.mounts|] == Mount(y.dev, y.dir);
    if forall i | 0 <= i < |below| :: !below[i].Attach? {
      NeverAttached(initial, below);
    }
    i :| 0 <= i < |below| && below[i].Attach?;
  }

  /** The first callback that runs with a mount in flight finds the handler stuck with it. */
  lemma FirstRaceIsStuck(initial: Host, s: State, t: Thread, l: Layout, root: Path)
    requires !initial.attached && Facts(initial, s) && !s.raced && InPlan(s, l, root)
    requires MountInFlight(s) && Enabled(s, Callback(t))
    ensures Stuck(s)
  {
    PlanShape(l, root, s.pushed);
    MountStandsOnAttach(initial, s, l, root);
  }

  lemma MountStandsOnAttach(initial: Host, s: State, l: Layout, root: Path)
    requires !initial.attached && Shape(s) && Nested(initial, s) && InPlan(s, l, root)
    requires |s.acquisitions| == s.pushed + 1
    requires var y := s.acquisitions[s.pushed]; y.MountOn? && y.dev.Nbd?
    ensures |s.fns| == s.pushed
    ensures var y := s.acquisitions[s.pushed]; IsMounted(s.host, y.dev, y.dir)
  {
    var lowest, y := s.pushed - |s.fns|, s.acquisitions[s.pushed];
    var below := s.acquisitions[lowest..lowest + Remaining(s)];
    assert s.acquisitions[s.pushed..] == [y];
    var i := AttachIsOutstanding(initial, below, y);
    PlanShape(l, root, lowest + i);
    assert s.acquisitions[lowest + i].Attach?;
  }

  /** The device was free when the pipeline attached it, and a race has ruined something or leaves the
      handler stuck. */
  predicate Doom(initial: Host, s: State, l: Layout, root: Path) {
    && (s.acquisitions != [] && s.acquisitions[0].Attach? ==> !initial.attached)
    && (s.raced && InPlan(s, l, root) ==> s.host.ruined != {} || Stuck(s))
  }

  lemma AcquireKeepsDoom(initial: Host, s: State, a: Acquisition, l: Layout, root: Path)
    requires Facts(initial, s) && Doom(initial, s, l, root) && Enabled(s, Acquire(a))
    ensures Doom(initial, Apply(s, Acquire(a)), l, root)
  {
    if s.acquisitions == [] {
      assert Outstanding(s) == [];
    } else {
      assert Apply(s, Acquire(a)).acquisitions[0] == s.acquisitions[0];
    }
  }

  lemma CallbackKeepsDoom(initial: Host, s: State, t: Thread, l: Layout, root: Path)
    requires Facts(initial, s) && Doom(initial, s, l, root) && Enabled(s, Callback(t))
    ensures Doom(initial, Apply(s, Callback(t)), l, root)
  {
    RuinStays(s.host, ReleaseOf(s.acquisitions[Next(s)]));
    if InPlan(s, l, root) && Apply(s, Callback(t)).raced && s.host.ruined == {} {
      RacingIsStuck(initial, s, t, l, root);
      StuckUntilRuined(s, t, l, root);
    }
  }

  lemma RacingIsStuck(initial: Host, s: State, t: Thread, l: Layout, root: Path)
    requires Facts(initial, s) && Doom(initial, s, l, root) && Enabled(s, Callback(t))
    requires InPlan(s, l, root) && (s.raced || MountInFlight(s)) && s.host.ruined == {}
    ensures Stuck(s)
  {
    PlanShape(l, root, 0);
    if !s.raced {
      FirstRaceIsStuck(initial, s, t, l, root);
    }
  }

  lemma OtherStepsLeaveTheHost(s: State, step: Step)
    requires Enabled(s, step) && !step.Acquire? && !step.Callback?
    ensures var next := Apply(s, step);
            next.host == s.host && next.acquisitions == s.acquisitions && next.raced == s.raced
  {
  }

  /** Only a signal can arrive meanwhile. */
  lemma StuckStays(s: State, step: Step)
    requires Stuck(s) && Enabled(s, step) && !step.Acquire? && !step.Callback?
    ensures Stuck(Apply(s, step))
  {
    match step {
      case Push => case Return => case StopNotify => case Deliver => case Receive =>
      case Lock(_) => case Unlock(_) => case Exit(_) => case Kill => case _ =>
    }
  }

  lemma OtherStepsKeepDoom(initial: Host, s: State, step: Step, l: Layout, root: Path)
    requires Doom(initial, s, l, root) && Enabled(s, step) && !step.Acquire? && !step.Callback?
    ensures Doom(initial, Apply(s, step), l, root)
  {
    OtherStepsLeaveTheHost(s, step);
    if Stuck(s) { StuckStays(s, step); }
  }

  lemma StepKeepsDoom(initial: Host, s: State, step: Step, l: Layout, root: Path)
    requires Facts(initial, s) && Doom(initial, s, l, root) && Enabled(s, step)
    ensures Doom(initial, Apply(s, step), l, root)
  {
    match step
    case Acquire(a) => AcquireKeepsDoom(initial, s, a, l, root);
    case Callback(t) => CallbackKeepsDoom(initial, s, t, l, root);
    case _ => OtherStepsKeepDoom(initial, s, step, l, root);
  }

  lemma {:induction false} EveryRunKeepsDoom(initial: Host, s: State, run: seq<Step>, l: Layout, root: Path)
    requires Valid(initial) && Facts(initial, s) && Doom(initial, s, l, root) && CanRun(s, run)
    ensures Doom(initial, After(s, run), l, root)
    decreases |run|
  {
    if run != [] {
      StepKeepsDoom(initial, s, run[0], l, root);
      StepKeepsFacts(initial, s, run[0]);
      EveryRunKeepsDoom(initial, Apply(s, run[0]), run[1..], l, root);
    }
  }

  lemma ReachableDoom(initial: Host, s: State, l: Layout, root: Path)
    requires Valid(initial) && Reachable(initial, s)
    ensures Doom(initial, s, l, root)
  {
    var run :| CanRun(Start(initial), run) && After(Start(initial), run) == s;
    StartInvariant(initial);
    assert Outstanding(Start(initial)) == [];
    EveryRunKeepsDoom(initial, Start(initial), run, l, root);
  }

  /** For what the pipeline acquires, on every run and at every moment: the host is as it was found if and
      only if no callback has run with a mount in flight, everything acquired has been pushed, and every
      callback has run. And once the process has ended, however it ended, something is ruined if and only
      if some callback ran with a mount in flight. */
  lemma RestoredExactly(initial: Host, s: State, l: Layout, root: Path)
    requires Valid(initial) && initial.ruined == {}
    requires Reachable(initial, s) && InPlan(s, l, root)
    ensures s.host == initial <==> !s.raced && AllReleased(s)
    ensures s.end.Some? ==> (s.host.ruined != {} <==> s.raced)
  {
    ReachableFacts(initial, s);
    ReachableDoom(initial, s, l, root);
    if !s.raced {
      RestoredUnlessRaced(initial, s);
    } else {
      PlanShape(l, root, 0);
    }
  }

  // ---------------------------------------------------------------- a signal that ruins the image

  /** No signal has come, and the pipeline has acquired and pushed exactly this much. */
  predicate Undisturbed(initial: Host, s: State, acquisitions: seq<Acquisition>) {
    && s.end.None? && s.pipeline.Building? && s.signal.Listening? && !s.stopped && s.holder.None?
    && s.unwindings == []
    && s.acquisitions == acquisitions && s.pushed == |s.fns| == |acquisitions|
    && (forall i | 0 <= i < |s.fns| :: s.fns[i] == i)
    && s.host == AllAcquired(initial, acquisitions)
  }

  /** Whatever can be acquired from this host, one after the other, some run acquires and pushes. */
  lemma {:induction false} BuildGoesOn(initial: Host, acquisitions: seq<Acquisition>) returns (s: State)
    requires AllPossible(initial, acquisitions)
    ensures Reachable(initial, s) && Undisturbed(initial, s, acquisitions)
    decreases |acquisitions|
  {
    if acquisitions == [] {
      ReachableStart(initial);
      s := Start(initial);
    } else {
      var init, a := acquisitions[..|acquisitions| - 1], acquisitions[|acquisitions| - 1];
      assert acquisitions == init + [a];
      AcquireLast(initial, init, a);
      s := BuildGoesOn(initial, init);
      s := AcquireAndPush(initial, s, a);
    }
  }

  /** The host after the first four acquisitions of the plan. */
  lemma FirstFour(initial: Host, l: Layout, root: Path)
    requires Valid(initial) && !initial.attached && FreshTemp(initial, root)
    ensures var acquired := ImagePipeline.Acquisitions(l, root)[..4];
            && AllPossible(initial, acquired)
            && Releases(acquired[..3]) == [Detach, RemoveTree(root), Unmount(root)]
            && AllAcquired(initial, acquired) ==
               Host(true, initial.mounts + [Mount(RootPartition(l), root)] + [Mount(BootPartition(l), root + ["boot"])],
                    initial.temps + {root}, initial.ruined)
  {
    var plan := ImagePipeline.Acquisitions(l, root);
    assert plan[..4][..3] == [Attach, MakeTemp(root), MountOn(RootPartition(l), root)];
    assert plan[..4] == [Attach, MakeTemp(root), MountOn(RootPartition(l), root)] + [plan[3]];
    AcquireLast(initial, [Attach, MakeTemp(root), MountOn(RootPartition(l), root)], plan[3]);
    AcquireLast(initial, [Attach, MakeTemp(root)], MountOn(RootPartition(l), root));
    assert [Attach, MakeTemp(root)] + [MountOn(RootPartition(l), root)] ==
           [Attach, MakeTemp(root), MountOn(RootPartition(l), root)];
    AcquireLast(initial, [Attach], MakeTemp(root));
    assert [Attach] + [MakeTemp(root)] == [Attach, MakeTemp(root)];
    assert [Attach][1..] == [];
  }

  /** The handler, the first to unwind, holds the mutex and has run `ran` of its callbacks. */
  predicate Handling(s: State, acquisitions: seq<Acquisition>, pushed: nat, ran: nat) {
    && s.end.None? && s.holder == Some(Signal)
    && s.acquisitions == acquisitions && |s.fns| == pushed <= |acquisitions|
    && (forall i | 0 <= i < |s.fns| :: s.fns[i] == i)
    && |s.unwindings| == 1 && |s.unwindings[0].ran| == ran
  }

  lemma RunCallback(initial: Host, s: State, acquisitions: seq<Acquisition>, pushed: nat, ran: nat)
      returns (next: State)
    requires Reachable(initial, s) && Handling(s, acquisitions, pushed, ran) && ran < pushed
    ensures Reachable(initial, next) && Handling(next, acquisitions, pushed, ran + 1)
    ensures next.host == Released(s.host, ReleaseOf(acquisitions[pushed - 1 - ran]))
  {
    assert Next(s) == pushed - 1 - ran;
    ReachableStep(initial, s, Callback(Signal));
    next := Apply(s, Callback(Signal));
  }

  lemma UnwoundOneMore(h: Host, acquisitions: seq<Acquisition>, n: nat)
    requires 1 <= n <= |acquisitions|
    ensures Unwound(h, Releases(acquisitions[..n])) ==
            Unwound(Released(h, ReleaseOf(acquisitions[n - 1])), Releases(acquisitions[..n - 1]))
  {
    var fns := Releases(acquisitions[..n]);
    assert fns[..n - 1] == Releases(acquisitions[..n - 1]);
  }

  /** With nothing in the way the handler unwinds the rest of its stack. */
  lemma {:induction false} RunCallbacks(initial: Host, s: State, acquisitions: seq<Acquisition>, pushed: nat, ran: nat)
      returns (next: State)
    requires Reachable(initial, s) && Handling(s, acquisitions, pushed, ran) && ran <= pushed
    ensures Reachable(initial, next) && Handling(next, acquisitions, pushed, pushed)
    ensures next.host == Unwound(s.host, Releases(acquisitions[..pushed - ran]))
    decreases pushed - ran
  {
    next := s;
    if ran < pushed {
      next := RunCallback(initial, s, acquisitions, pushed, ran);
      next := RunCallbacks(initial, next, acquisitions, pushed, ran + 1);
      UnwoundOneMore(s.host, acquisitions, pushed - ran);
    }
  }

  /** And exits when it has run them all. */
  lemma HandlerExits(initial: Host, s: State, acquisitions: seq<Acquisition>, pushed: nat) returns (next: State)
    requires Reachable(initial, s) && Handling(s, acquisitions, pushed, pushed)
    ensures Reachable(initial, next) && next.end == Some(Exited(Signal))
    ensures next.host == s.host && next.acquisitions == acquisitions
  {
    ReachableStep(initial, s, Unlock(Signal));
    ReachableStep(initial, Apply(s, Unlock(Signal)), Exit(Signal));
    next := Apply(Apply(s, Unlock(Signal)), Exit(Signal));
  }

  /** A signal may arrive between any acquisition and its push; the handler then unwinds everything below
      it and exits. */
  lemma SignalInFlight(initial: Host, acquisitions: seq<Acquisition>) returns (s: State)
    requires acquisitions != [] && AllPossible(initial, acquisitions)
    ensures Reachable(initial, s) && s.end == Some(Exited(Signal)) && s.acquisitions == acquisitions
    ensures s.host == Unwound(AllAcquired(initial, acquisitions), Releases(acquisitions[..|acquisitions| - 1]))
  {
    var pushed := |acquisitions| - 1;
    var init, a := acquisitions[..pushed], acquisitions[pushed];
    assert acquisitions == init + [a];
    AcquireLast(initial, init, a);
    s := BuildGoesOn(initial, init);
    ReachableStep(initial, s, Acquire(a));
    s := HandlerLocks(initial, Apply(s, Acquire(a)));
    s := RunCallbacks(initial, s, acquisitions, pushed, 0);
    s := HandlerExits(initial, s, acquisitions, pushed);
  }

  /** With /boot mounted the root is busy, so its tree is deleted while it is mounted. */
  lemma BusyRootIsRuined(h: Host, root: Path, dev: Device, boot: Device)
    requires |h.mounts| >= 2 && h.mounts[|h.mounts| - 2] == Mount(dev, root)
    requires h.mounts[|h.mounts| - 1] == Mount(boot, root + ["boot"])
    ensures Released(h, Unmount(root)) == h
    ensures Released(h, RemoveTree(root)).temps == h.temps && dev in Released(h, RemoveTree(root)).ruined
  {
    var n := |h.mounts|;
    assert AtOrUnder(h.mounts[n - 1].dir, root) && AtOrUnder(h.mounts[n - 2].dir, root);
    assert MountedAt(h.mounts, root) == n - 2;
    assert Busy(h.mounts, n - 2, root);
    assert h.mounts[n - 2].dev in DevicesUnder(h.mounts, root);
  }

  lemma UnwoundLast(h: Host, fns: seq<Release>, r: Release)
    ensures Unwound(h, fns + [r]) == Unwound(Released(h, r), fns)
  {
    assert (fns + [r])[..|fns|] == fns;
  }

  lemma UnwoundThree(h: Host, a: Release, b: Release, c: Release)
    ensures Unwound(h, [a, b, c]) == Released(Released(Released(h, c), b), a)
  {
    assert [a, b, c] == [a, b] + [c] && [a, b] == [a] + [b] && [a] == [] + [a];
    UnwoundLast(h, [a, b], c);
    UnwoundLast(Released(h, c), [a], b);
    UnwoundLast(Released(Released(h, c), b), [], a);
  }

  lemma BusyRootStaysRuined(h: Host, root: Path, dev: Device, boot: Device)
    requires |h.mounts| >= 2 && h.mounts[|h.mounts| - 2] == Mount(dev, root)
    requires h.mounts[|h.mounts| - 1] == Mount(boot, root + ["boot"])
    ensures var end := Unwound(h, [Detach, RemoveTree(root), Unmount(root)]);
            dev in end.ruined && end.temps == h.temps
  {
    BusyRootIsRuined(h, root, dev, boot);
    RuinStays(Released(h, RemoveTree(root)), Detach);
    UnwoundThree(h, Detach, RemoveTree(root), Unmount(root));
  }

  /** A signal that arrives between the mount of /boot and its push, on any host and for either layout:
      the handler deletes the tree of the root partition while it is mounted, leaves the temp directory
      behind, and exits. */
  lemma SignalCanRuinRoot(initial: Host, l: Layout, root: Path) returns (s: State)
    requires Valid(initial) && !initial.attached && FreshTemp(initial, root)
    ensures Reachable(initial, s) && InPlan(s, l, root) && s.end == Some(Exited(Signal))
    ensures RootPartition(l) in s.host.ruined && root in s.host.temps
  {
    var acquired := ImagePipeline.Acquisitions(l, root)[..4];
    FirstFour(initial, l, root);
    s := SignalInFlight(initial, acquired);
    BusyRootStaysRuined(AllAcquired(initial, acquired), root, RootPartition(l), BootPartition(l));
  }
}
