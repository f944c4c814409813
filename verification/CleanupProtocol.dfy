/** The race between the pipeline thread and the signal goroutine of cmd/void-initfs/main.go over one
    cleanup stack (cleanup.go) and the host they both act on, step by step: every acquisition, every push
    and every callback is a step of its own. A callback is known by the number of pushes before it;
    callback number k releases acquisition number k. */
module CleanupProtocol {
  import opened Options
  import opened HostState
  import CleanupStack

  datatype Thread = Pipeline | Signal

  /** What the pipeline thread is doing: running the build; past `return`, with `signal.Stop` still to
      run; waiting for the mutex; unwinding; done with `unwind` and on its way out of `main`. */
  datatype PipelineAt = Building | Returning | PWaiting | PUnwinding | PFinished

  /** The signal goroutine: blocked on the channel, waiting for the mutex, unwinding, about to exit. */
  datatype SignalAt = Listening | SWaiting | SUnwinding | SFinished

  datatype End = Exited(who: Thread) | Killed

  /** One call of `unwind` from the moment it holds the mutex: who, the stack it found, how many
      callbacks had been pushed by then, and the callbacks it has completed. */
  datatype Unwinding = Unwinding(who: Thread, stack: seq<nat>, pushedBefore: nat, ran: seq<nat>)

  /** The host, everything acquired so far, and whether some callback has run between a mount and the
      push of its unmount; then the stack and the two threads. */
  datatype State = State(
    host: Host, acquisitions: seq<Acquisition>, raced: bool,
    fns: seq<nat>, pushed: nat, holder: Option<Thread>,
    pipeline: PipelineAt, signal: SignalAt,
    pending: bool, stopped: bool,
    unwindings: seq<Unwinding>, end: Option<End>)

  function Start(host: Host): State {
    State(host, [], false, [], 0, None, Building, Listening, false, false, [], None)
  }

  datatype Step =
    | Acquire(a: Acquisition)  // the pipeline acquires something, its release not pushed yet
    | Push              // push: lock, append, unlock
    | Return            // the pipeline function returns, with or without an error
    | StopNotify        // deferred signal.Stop
    | Deliver           // a signal arrives and is buffered
    | Receive           // the goroutine takes it from the channel
    | Lock(t: Thread)   // unwind acquires the mutex
    | Callback(t: Thread)
    | Unlock(t: Thread)
    | Exit(t: Thread)   // os.Exit, or main returning
    | Kill              // a signal after signal.Stop meets the default disposition

  predicate WaitsForLock(s: State, t: Thread) {
    if t.Pipeline? then s.pipeline.PWaiting? else s.signal.SWaiting?
  }

  predicate HasUnwound(s: State, t: Thread) {
    if t.Pipeline? then s.pipeline.PFinished? else s.signal.SFinished?
  }

  /** The unwinding in progress. */
  function Last(s: State): Unwinding
    requires s.unwindings != []
  {
    s.unwindings[|s.unwindings| - 1]
  }

  /** The last of the unwindings with one more callback run. */
  function OneRan(us: seq<Unwinding>, id: nat): seq<Unwinding>
    requires us != []
  {
    us[|us| - 1 := us[|us| - 1].(ran := us[|us| - 1].ran + [id])]
  }

  /** An acquisition has been made and its release is not pushed yet. */
  predicate InFlight(s: State) {
    |s.acquisitions| > s.pushed
  }

  predicate MountInFlight(s: State) {
    InFlight(s) && s.acquisitions[|s.acquisitions| - 1].MountOn?
  }

  /** The callback that the unwinding in progress runs next. */
  function Next(s: State): nat
    requires s.unwindings != [] && |Last(s).ran| < |s.fns|
  {
    s.fns[|s.fns| - 1 - |Last(s).ran|]
  }

  /** The pipeline never returns between a mount or a new directory and its push; only attaching can
      fail after it has taken effect. */
  predicate CanReturn(s: State) {
    s.pipeline.Building? && (InFlight(s) ==> s.acquisitions[|s.acquisitions| - 1].Attach?)
  }

  predicate Enabled(s: State, step: Step) {
    && s.end.None?
    && match step
       case Acquire(a) => s.pipeline.Building? && |s.acquisitions| == s.pushed && Possible(s.host, a)
       case Push => s.pipeline.Building? && |s.acquisitions| == s.pushed + 1 && s.holder.None?
       case Return => CanReturn(s)
       case StopNotify => s.pipeline.Returning?
       case Deliver => !s.stopped
       case Receive => s.signal.Listening? && s.pending
       case Lock(t) => WaitsForLock(s, t) && s.holder.None?
       case Callback(t) =>
         s.holder == Some(t) && s.unwindings != [] && |Last(s).ran| < |s.fns| && Next(s) < |s.acquisitions|
       case Unlock(t) => s.holder == Some(t) && s.unwindings != [] && |Last(s).ran| == |s.fns|
       case Exit(t) => HasUnwound(s, t)
       case Kill => s.stopped
  }

  function Apply(s: State, step: Step): State
    requires Enabled(s, step)
  {
    match step
    case Acquire(a) => s.(host := Acquired(s.host, a), acquisitions := s.acquisitions + [a])
    case Push => s.(fns := s.fns + [s.pushed], pushed := s.pushed + 1)
    case Return => s.(pipeline := Returning)
    case StopNotify => s.(pipeline := PWaiting, stopped := true)
    case Deliver => s.(pending := true)
    case Receive => s.(signal := SWaiting, pending := false)
    case Lock(t) =>
      var locked := s.(holder := Some(t), unwindings := s.unwindings + [Unwinding(t, s.fns, s.pushed, [])]);
      if t.Pipeline? then locked.(pipeline := PUnwinding) else locked.(signal := SUnwinding)
    case Callback(t) =>
      s.(host := Released(s.host, ReleaseOf(s.acquisitions[Next(s)])),
         raced := s.raced || MountInFlight(s),
         unwindings := OneRan(s.unwindings, Next(s)))
    case Unlock(t) =>
      var free := s.(holder := None, fns := []);
      if t.Pipeline? then free.(pipeline := PFinished) else free.(signal := SFinished)
    case Exit(t) => s.(end := Some(Exited(t)))
    case Kill => s.(end := Some(Killed))
  }

  /** A run: every step is enabled where it is taken. */
  predicate CanRun(s: State, run: seq<Step>)
    decreases |run|
  {
    run == [] || (Enabled(s, run[0]) && CanRun(Apply(s, run[0]), run[1..]))
  }

  function After(s: State, run: seq<Step>): State
    requires CanRun(s, run)
    decreases |run|
  {
    if run == [] then s else After(Apply(s, run[0]), run[1..])
  }

  // ---------------------------------------------------------------- the invariant

  function Range(lo: nat, hi: nat): (r: seq<nat>)
    requires lo <= hi
    ensures |r| == hi - lo && forall i | 0 <= i < |r| :: r[i] == lo + i
  {
    seq(hi - lo, i requires 0 <= i => lo + i)
  }

  function Count(b: bool): nat { if b then 1 else 0 }

  /** Callbacks below this number have been on the stack of some unwinding. */
  function Taken(s: State): nat {
    if s.unwindings == [] then 0 else Last(s).pushedBefore
  }

  /** The unwinding found exactly the callbacks from `lo` up to those pushed by then, and has run them,
      or is running them, from the last pushed down. */
  predicate InOrder(u: Unwinding, lo: nat) {
    && lo <= u.pushedBefore
    && u.stack == Range(lo, u.pushedBefore)
    && |u.ran| <= |u.stack|
    && forall a | 0 <= a < |u.ran| :: u.ran[a] == u.pushedBefore - 1 - a
  }

  predicate Finished(u: Unwinding) {
    |u.ran| == |u.stack|
  }

  /** The stacks found partition the callbacks in the order they were pushed. */
  predicate Chain(us: seq<Unwinding>) {
    && |us| <= 2
    && (|us| >= 1 ==> InOrder(us[0], 0))
    && (|us| == 2 ==> InOrder(us[1], us[0].pushedBefore) && Finished(us[0]))
  }

  lemma ChainGrows(us: seq<Unwinding>, u: Unwinding)
    requires Chain(us) && |us| < 2
    requires us == [] ==> InOrder(u, 0)
    requires us != [] ==> InOrder(u, us[0].pushedBefore) && Finished(us[0])
    ensures Chain(us + [u])
  {
    assert us + [u] == if us == [] then [u] else [us[0], u];
  }

  lemma ChainRuns(us: seq<Unwinding>, id: nat)
    requires Chain(us) && us != []
    requires var u := us[|us| - 1]; |u.ran| < |u.stack| && id == u.pushedBefore - 1 - |u.ran|
    ensures Chain(OneRan(us, id))
  {
  }

  /** Each thread unwinds at most once. */
  predicate Partition(s: State) {
    && |s.unwindings| == Count(s.pipeline.PUnwinding? || s.pipeline.PFinished?)
                       + Count(s.signal.SUnwinding? || s.signal.SFinished?)
    && Chain(s.unwindings)
    && Taken(s) <= s.pushed <= |s.acquisitions| <= s.pushed + 1
    && s.fns == if s.holder.Some? && s.unwindings != [] then Last(s).stack else Range(Taken(s), s.pushed)
  }

  predicate Mutex(s: State) {
    && (s.holder == Some(Pipeline) <==> s.pipeline.PUnwinding?)
    && (s.holder == Some(Signal) <==> s.signal.SUnwinding?)
    && (s.holder.Some? ==> s.unwindings != [] && Last(s).who == s.holder.value && Taken(s) == s.pushed)
    && (s.holder.None? && s.unwindings != [] ==> Finished(Last(s)))
  }

  /** The thread's unwinding is over; for the pipeline thread, nothing has been pushed since. */
  predicate Over(s: State, t: Thread, i: nat) {
    && i < |s.unwindings| && s.unwindings[i].who == t && Finished(s.unwindings[i])
    && (t.Pipeline? ==> s.unwindings[i].pushedBefore == s.pushed)
  }

  predicate Endings(s: State) {
    && (s.pipeline.PFinished? ==> Over(s, Pipeline, 0) || Over(s, Pipeline, 1))
    && (s.signal.SFinished? ==> Over(s, Signal, 0) || Over(s, Signal, 1))
    && (s.end.Some? && s.end.value.Exited? ==> HasUnwound(s, s.end.value.who))
  }

  predicate Invariant(s: State) {
    Partition(s) && Mutex(s) && Endings(s)
  }

  lemma PushKeeps(s: State)
    requires Invariant(s) && Enabled(s, Push)
    ensures Invariant(Apply(s, Push))
  {
    assert Apply(s, Push).fns == Range(Taken(s), s.pushed + 1);
  }

  lemma LockKeepsPartition(s: State, t: Thread)
    requires Invariant(s) && Enabled(s, Lock(t))
    ensures Partition(Apply(s, Lock(t)))
  {
    ChainGrows(s.unwindings, Unwinding(t, s.fns, s.pushed, []));
  }

  lemma LockKeepsMutex(s: State, t: Thread)
    requires Invariant(s) && Enabled(s, Lock(t))
    ensures Mutex(Apply(s, Lock(t)))
  {
  }

  lemma LockKeepsEndings(s: State, t: Thread)
    requires Invariant(s) && Enabled(s, Lock(t))
    ensures Endings(Apply(s, Lock(t)))
  {
    var us := s.unwindings;
    assert us != [] ==> Apply(s, Lock(t)).unwindings[0] == us[0];
  }

  lemma CallbackKeepsChain(s: State, t: Thread)
    requires Invariant(s) && Enabled(s, Callback(t))
    ensures var next := Apply(s, Callback(t));
            && Chain(next.unwindings) && |next.unwindings| == |s.unwindings|
            && Taken(next) == Taken(s) && Last(next).stack == Last(s).stack
  {
    ChainRuns(s.unwindings, Next(s));
  }

  lemma CallbackKeepsPartition(s: State, t: Thread)
    requires Invariant(s) && Enabled(s, Callback(t))
    ensures Partition(Apply(s, Callback(t)))
  {
    CallbackKeepsChain(s, t);
  }

  lemma CallbackKeepsTheRest(s: State, t: Thread)
    requires Invariant(s) && Enabled(s, Callback(t))
    ensures Mutex(Apply(s, Callback(t))) && Endings(Apply(s, Callback(t)))
  {
  }

  lemma UnlockKeeps(s: State, t: Thread)
    requires Invariant(s) && Enabled(s, Unlock(t))
    ensures Invariant(Apply(s, Unlock(t)))
  {
    assert Apply(s, Unlock(t)).fns == Range(s.pushed, s.pushed);
    assert Over(Apply(s, Unlock(t)), t, |s.unwindings| - 1);
  }

  /** A step that leaves the stack, the mutex and the unwindings alone. */
  lemma BuildStepsKeep(s: State, step: Step)
    requires Invariant(s) && Enabled(s, step)
    requires step.Acquire? || step.Return? || step.StopNotify?
    ensures Invariant(Apply(s, step))
  {
  }

  lemma DeliverKeeps(s: State)
    requires Invariant(s) && Enabled(s, Deliver)
    ensures Invariant(Apply(s, Deliver))
  {
  }

  lemma ReceiveKeeps(s: State)
    requires Invariant(s) && Enabled(s, Receive)
    ensures Invariant(Apply(s, Receive))
  {
  }

  lemma ExitKeepsStack(s: State, t: Thread)
    requires Partition(s) && Mutex(s) && Enabled(s, Exit(t))
    ensures Partition(Apply(s, Exit(t))) && Mutex(Apply(s, Exit(t)))
  {
  }

  lemma ExitKeepsEndings(s: State, t: Thread)
    requires Endings(s) && Enabled(s, Exit(t))
    ensures Endings(Apply(s, Exit(t)))
  {
  }

  lemma KillKeeps(s: State)
    requires Invariant(s) && Enabled(s, Kill)
    ensures Invariant(Apply(s, Kill))
  {
  }

  lemma StepKeepsInvariant(s: State, step: Step)
    requires Invariant(s) && Enabled(s, step)
    ensures Invariant(Apply(s, step))
  {
    match step
    case Push => PushKeeps(s);
    case Lock(t) => LockKeepsPartition(s, t); LockKeepsMutex(s, t); LockKeepsEndings(s, t);
    case Callback(t) => CallbackKeepsPartition(s, t); CallbackKeepsTheRest(s, t);
    case Unlock(t) => UnlockKeeps(s, t);
    case Deliver => DeliverKeeps(s);
    case Receive => ReceiveKeeps(s);
    case Exit(t) => ExitKeepsStack(s, t); ExitKeepsEndings(s, t);
    case Kill => KillKeeps(s);
    case _ => BuildStepsKeep(s, step);
  }

  lemma StartInvariant(host: Host)
    ensures Invariant(Start(host))
  {
    assert Range(0, 0) == [];
  }

  /** What holds after every run, whatever the interleaving. */
  lemma {:induction false} EveryRunKeepsInvariant(s: State, run: seq<Step>)
    requires Invariant(s) && CanRun(s, run)
    ensures Invariant(After(s, run))
    decreases |run|
  {
    if run != [] {
      StepKeepsInvariant(s, run[0]);
      EveryRunKeepsInvariant(Apply(s, run[0]), run[1..]);
    }
  }

  /** A state that some run from this host leads to. */
  ghost predicate Reachable(initial: Host, s: State) {
    exists run :: CanRun(Start(initial), run) && After(Start(initial), run) == s
  }

  lemma ReachableInvariant(initial: Host, s: State)
    requires Reachable(initial, s)
    ensures Invariant(s)
  {
    var run :| CanRun(Start(initial), run) && After(Start(initial), run) == s;
    StartInvariant(initial);
    EveryRunKeepsInvariant(Start(initial), run);
  }

  lemma {:induction false} LastStep(s: State, run: seq<Step>, step: Step)
    requires CanRun(s, run) && Enabled(After(s, run), step)
    ensures CanRun(s, run + [step]) && After(s, run + [step]) == Apply(After(s, run), step)
    decreases |run|
  {
    var more := run + [step];
    if run == [] {
      assert more[1..] == [];
    } else {
      assert more[1..] == run[1..] + [step];
      LastStep(Apply(s, run[0]), run[1..], step);
    }
  }

  lemma ReachableStep(initial: Host, s: State, step: Step)
    requires Reachable(initial, s) && Enabled(s, step)
    ensures Reachable(initial, Apply(s, step))
  {
    var run :| CanRun(Start(initial), run) && After(Start(initial), run) == s;
    LastStep(Start(initial), run, step);
  }

  lemma ReachableStart(initial: Host)
    ensures Reachable(initial, Start(initial))
  {
    assert CanRun(Start(initial), []);
  }

  // ---------------------------------------------------------------- what follows

  predicate Completed(us: seq<Unwinding>, id: nat) {
    exists i | 0 <= i < |us| :: id in us[i].ran
  }

  /** Every callback ever pushed has run. */
  predicate AllCompleted(s: State) {
    forall id: nat | id < s.pushed :: Completed(s.unwindings, id)
  }

  /** No callback runs twice, over all unwindings of a run; and within one unwinding they run in exact
      reverse order of pushing, starting from the last one pushed before it took the mutex. */
  lemma NoCallbackTwiceAndLastFirst(initial: Host, s: State)
    requires Reachable(initial, s)
    ensures var us := s.unwindings;
            && (forall i, j, id | 0 <= i < j < |us| && id in us[i].ran :: id !in us[j].ran)
            && (forall i, a | 0 <= i < |us| && 0 <= a < |us[i].ran| :: us[i].ran[a] == us[i].pushedBefore - 1 - a)
  {
    ReachableInvariant(initial, s);
  }

  /** An unwinding that has let go of the mutex has run exactly the stack it found, reversed, as
      `CleanupStack.Stack.Unwind` does. */
  lemma FinishedUnwindingRanTheStack(initial: Host, s: State, i: nat)
    requires Reachable(initial, s) && i < |s.unwindings|
    requires s.holder.None? || i < |s.unwindings| - 1
    ensures s.unwindings[i].ran == CleanupStack.Reversed(s.unwindings[i].stack)
  {
    ReachableInvariant(initial, s);
    RanReversed(s.unwindings[i], if i == 0 then 0 else s.unwindings[0].pushedBefore);
  }

  lemma RanReversed(u: Unwinding, lo: nat)
    requires InOrder(u, lo) && Finished(u)
    ensures u.ran == CleanupStack.Reversed(u.stack)
  {
  }

  // ---------------------------------------------------------------- which callbacks have run

  /** In order, the callbacks that have run are the top of the stack that was found. */
  lemma RanIsTop(u: Unwinding, lo: nat, id: nat)
    requires InOrder(u, lo)
    ensures id in u.ran <==> u.pushedBefore - |u.ran| <= id < u.pushedBefore
  {
    if u.pushedBefore - |u.ran| <= id < u.pushedBefore {
      assert u.ran[u.pushedBefore - 1 - id] == id;
    }
  }

  /** At any moment a callback has run exactly if an earlier unwinding found it, or the last one did and
      has come down to it. */
  lemma CompletedExactly(initial: Host, s: State, id: nat)
    requires Reachable(initial, s)
    ensures Completed(s.unwindings, id) <==>
            && s.unwindings != []
            && var u := Last(s);
               id < u.pushedBefore - |u.stack| || u.pushedBefore - |u.ran| <= id < u.pushedBefore
  {
    ReachableInvariant(initial, s);
    var us := s.unwindings;
    if |us| >= 1 {
      RanIsTop(us[0], 0, id);
    }
    if |us| == 2 {
      RanIsTop(us[1], us[0].pushedBefore, id);
    }
  }

  /** The last unwinding to take the mutex has run everything, and nothing was pushed after it. */
  predicate LastUnwindingGotAll(s: State) {
    s.unwindings != [] && Last(s).pushedBefore == s.pushed && Finished(Last(s))
  }

  /** Every callback ever pushed has run if and only if nothing was pushed, or the last unwinding is over
      and nothing was pushed after it took the mutex. This is so at every moment, and so however the
      process ends. */
  lemma AllCompletedExactly(initial: Host, s: State)
    requires Reachable(initial, s)
    ensures AllCompleted(s) <==> s.pushed == 0 || LastUnwindingGotAll(s)
  {
    ReachableInvariant(initial, s);
    if LastUnwindingGotAll(s) {
      forall id: nat | id < s.pushed ensures Completed(s.unwindings, id) {
        CompletedExactly(initial, s, id);
      }
    } else if s.pushed > 0 {
      var missing: nat := if s.unwindings == [] || Last(s).pushedBefore < s.pushed then s.pushed - 1
                          else Last(s).pushedBefore - |Last(s).stack|;
      CompletedExactly(initial, s, missing);
      assert !Completed(s.unwindings, missing);
    }
  }

  /** When a thread ends the process, its own unwinding is over. */
  lemma ExitedHasUnwound(initial: Host, s: State, t: Thread) returns (i: nat)
    requires Reachable(initial, s) && s.end == Some(Exited(t))
    ensures Over(s, t, i)
    ensures forall id: nat | id < s.unwindings[i].pushedBefore :: Completed(s.unwindings, id)
  {
    ReachableInvariant(initial, s);
    i := if Over(s, t, 0) then 0 else 1;
    forall id: nat | id < s.unwindings[i].pushedBefore ensures Completed(s.unwindings, id) {
      CompletedExactly(initial, s, id);
    }
  }

  /** When a thread ends the process, every callback pushed before that thread's own unwinding took the
      mutex has completed, hence every one pushed before the first unwinding of all; when it is the
      pipeline thread that ends it, every callback ever pushed has. */
  lemma ExitOnlyAfterCleanup(initial: Host, s: State, t: Thread)
    requires Reachable(initial, s) && s.end == Some(Exited(t))
    ensures && s.unwindings != []
            && (forall id: nat | id < s.unwindings[0].pushedBefore :: Completed(s.unwindings, id))
            && (exists i | 0 <= i < |s.unwindings| :: s.unwindings[i].who == t &&
                  forall id: nat | id < s.unwindings[i].pushedBefore :: Completed(s.unwindings, id))
            && (t.Pipeline? ==> AllCompleted(s))
  {
    ReachableInvariant(initial, s);
    var i := ExitedHasUnwound(initial, s, t);
    assert s.unwindings[0].pushedBefore <= s.unwindings[i].pushedBefore;
  }

  /** A callback is lost when a thread ends the process if and only if it was pushed after the last
      unwinding took the mutex, or that unwinding has not come down to it; then it was pushed after the
      handler's unwinding took the mutex, and it was the handler that ended the process. */
  lemma LostExactly(initial: Host, s: State, t: Thread, id: nat)
    requires Reachable(initial, s) && s.end == Some(Exited(t)) && id < s.pushed
    ensures s.unwindings != []
    ensures var u := Last(s);
            !Completed(s.unwindings, id) <==>
            id >= u.pushedBefore || u.pushedBefore - |u.stack| <= id < u.pushedBefore - |u.ran|
    ensures !Completed(s.unwindings, id) ==>
              && t.Signal?
              && exists i | 0 <= i < |s.unwindings| :: s.unwindings[i].who.Signal? && id >= s.unwindings[i].pushedBefore
  {
    ReachableInvariant(initial, s);
    CompletedExactly(initial, s, id);
    ExitOnlyAfterCleanup(initial, s, t);
    var i := ExitedHasUnwound(initial, s, t);
  }

  /** A signal that kills the process after `signal.Stop` loses nothing if and only if the stack is empty
      then, or the unwinding in progress is through with it. */
  lemma KillLosesTheStack(initial: Host, s: State)
    requires Reachable(initial, s) && s.end == Some(Killed)
    ensures AllCompleted(s) <==> s.fns == [] || (s.holder.Some? && s.unwindings != [] && |Last(s).ran| == |s.fns|)
  {
    ReachableInvariant(initial, s);
    AllCompletedExactly(initial, s);
  }

  // ---------------------------------------------------------------- runs in which callbacks are lost

  /** The state after one more push, the acquisition made just before. */
  lemma AcquireAndPush(initial: Host, s: State, a: Acquisition) returns (next: State)
    requires Reachable(initial, s) && Enabled(s, Acquire(a)) && s.holder.None?
    ensures Reachable(initial, next)
    ensures next == s.(host := Acquired(s.host, a), acquisitions := s.acquisitions + [a],
                       fns := s.fns + [s.pushed], pushed := s.pushed + 1)
  {
    ReachableStep(initial, s, Acquire(a));
    ReachableStep(initial, Apply(s, Acquire(a)), Push);
    next := Apply(Apply(s, Acquire(a)), Push);
  }

  /** The handler takes the mutex. */
  lemma HandlerLocks(initial: Host, s: State) returns (next: State)
    requires Reachable(initial, s) && s.end.None? && !s.stopped && s.signal.Listening? && s.holder.None?
    ensures Reachable(initial, next)
    ensures next == s.(pending := false, signal := SUnwinding, holder := Some(Signal),
                       unwindings := s.unwindings + [Unwinding(Signal, s.fns, s.pushed, [])])
  {
    ReachableStep(initial, s, Deliver);
    var caught := Apply(s, Deliver);
    ReachableStep(initial, caught, Receive);
    ReachableStep(initial, Apply(caught, Receive), Lock(Signal));
    next := Apply(Apply(caught, Receive), Lock(Signal));
  }

  /** The pipeline returns and takes the mutex. */
  lemma PipelineLocks(initial: Host, s: State) returns (next: State)
    requires Reachable(initial, s) && s.end.None? && CanReturn(s) && s.holder.None?
    ensures Reachable(initial, next)
    ensures next == s.(stopped := true, pipeline := PUnwinding, holder := Some(Pipeline),
                       unwindings := s.unwindings + [Unwinding(Pipeline, s.fns, s.pushed, [])])
  {
    ReachableStep(initial, s, Return);
    var returned := Apply(s, Return);
    ReachableStep(initial, returned, StopNotify);
    ReachableStep(initial, Apply(returned, StopNotify), Lock(Pipeline));
    next := Apply(Apply(returned, StopNotify), Lock(Pipeline));
  }

  /** The build goes on after the handler's unwind: it attaches the device and pushes its release. */
  lemma LatePush(initial: Host) returns (s: State)
    requires !initial.attached
    ensures Reachable(initial, s)
    ensures s == State(Acquired(initial, Attach), [Attach], false, [0], 1, None, Building, SFinished, false, false,
                       [Unwinding(Signal, [], 0, [])], None)
  {
    ReachableStart(initial);
    s := HandlerLocks(initial, Start(initial));
    ReachableStep(initial, s, Unlock(Signal));
    s := AcquireAndPush(initial, Apply(s, Unlock(Signal)), Attach);
  }

  /** Such a loss can happen: the build goes on pushing between the handler's unwind and its exit. */
  lemma LatePushCanBeLost(initial: Host) returns (s: State)
    requires !initial.attached
    ensures Reachable(initial, s) && s.end == Some(Exited(Signal))
    ensures s.pushed == 1 && !Completed(s.unwindings, 0)
  {
    s := LatePush(initial);
    ReachableStep(initial, s, Exit(Signal));
    s := Apply(s, Exit(Signal));
  }

  /** And need not happen: the pipeline's own unwind may run the late callback before the handler exits. */
  lemma LatePushCanBeCaught(initial: Host) returns (s: State)
    requires !initial.attached
    ensures Reachable(initial, s) && s.end == Some(Exited(Signal))
    ensures s.pushed == 1 && |s.unwindings| == 2 && s.unwindings[0] == Unwinding(Signal, [], 0, [])
    ensures AllCompleted(s)
  {
    s := LatePush(initial);
    s := PipelineLocks(initial, s);
    ReachableStep(initial, s, Callback(Pipeline));
    s := Apply(s, Callback(Pipeline));
    ReachableStep(initial, s, Exit(Signal));
    s := Apply(s, Exit(Signal));
    AllCompletedExactly(initial, s);
  }

  /** After signal.Stop a signal kills the process in the middle of the deferred unwind, so the promise
      about exits is not one about signals that come that late. */
  lemma LateSignalCanInterruptCleanup(initial: Host) returns (s: State)
    requires !initial.attached
    ensures Reachable(initial, s) && s.end == Some(Killed)
    ensures s.pushed == 1 && !Completed(s.unwindings, 0)
  {
    ReachableStart(initial);
    s := AcquireAndPush(initial, Start(initial), Attach);
    s := PipelineLocks(initial, s);
    ReachableStep(initial, s, Kill);
    s := Apply(s, Kill);
  }

  /** As long as the process has not ended some thread can take a step without a new signal. */
  lemma NoDeadlock(initial: Host, s: State)
    requires Reachable(initial, s) && s.end.None?
    ensures exists step: Step :: !step.Deliver? && !step.Kill? && !step.Receive? && Enabled(s, step)
  {
    ReachableInvariant(initial, s);
    var step := if s.holder.Some? then
                  (if |Last(s).ran| < |s.fns| then Callback(s.holder.value) else Unlock(s.holder.value))
                else
                  match s.pipeline
                  case Building => if InFlight(s) then Push else Return
                  case Returning => StopNotify
                  case PWaiting => Lock(Pipeline)
                  case _ => Exit(Pipeline);
    assert Enabled(s, step);
  }
}
