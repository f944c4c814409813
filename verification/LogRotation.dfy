/** What one rotation does to the segments, what a failed one does to the writer, and how much history
    a run without failures retains. */
module LogRotation {
  import opened Options
  import opened LogState
  import opened LogHistory

  // ---------------------------------------------------------------- one rotation

  /** The existing segments, oldest first. */
  function Existing(slots: Slots): seq<Bytes> {
    if slots == [] then []
    else Existing(slots[1..]) + (if slots[0].Some? then [slots[0].value] else [])
  }

  lemma {:induction false} ExistingLast(slots: Slots)
    requires slots != []
    ensures var last := slots[|slots| - 1];
            Existing(slots) == (if last.Some? then [last.value] else []) + Existing(slots[..|slots| - 1])
  {
    if |slots| > 1 {
      ExistingLast(slots[1..]);
      assert slots[1..][..|slots| - 2] == slots[..|slots| - 1][1..];
    }
  }

  lemma {:induction false} ExistingSkips(slots: Slots, gap: nat)
    requires gap <= |slots|
    ensures Existing(Inserted(slots, gap, None)) == Existing(slots)
  {
    if gap == 0 {
      assert Inserted(slots, gap, None)[1..] == slots;
    } else {
      ExistingSkips(slots[1..], gap - 1);
      assert Inserted(slots, gap, None)[1..] == Inserted(slots[1..], gap - 1, None);
    }
  }

  /** Whatever slots are missing and whichever operation fails: the existing segments keep their
      contents and their order, and the only one that can go is the one in the last slot. */
  lemma RotationLosesOnlyTheOldest(slots: Slots, failAt: Option<nat>)
    requires |slots| >= 2
    ensures Existing(Rotated(slots, failAt).slots) ==
            if failAt == Some(0) then Existing(slots) else Existing(slots[..|slots| - 1])
    ensures Existing(slots) ==
            (if slots[|slots| - 1].Some? then [slots[|slots| - 1].value] else []) + Existing(slots[..|slots| - 1])
  {
    ExistingLast(slots);
    if failAt != Some(0) {
      var gap := GapOf(slots, failAt);
      GapSplits(slots, gap, None);
      ExistingSkips(slots[..|slots| - 1], gap);
    }
  }

  /** Slot by slot: below the slot where a failed rotation stopped nothing has moved, above it every
      slot has moved up by exactly one; a full rotation moves them all. */
  lemma RotationMovesByOne(slots: Slots, failAt: Option<nat>, k: nat)
    requires |slots| >= 2 && k < |slots|
    ensures var stop := if failAt.None? || failAt.value >= |slots| then 0 else |slots| - failAt.value;
            Rotated(slots, failAt).slots[k] ==
            if k < stop then slots[k] else if k == stop then None else slots[k - 1]
  {
  }

  // ---------------------------------------------------------------- a failed rotation latches

  /** Events of one writer: no new boot among them. */
  predicate SameWriter(events: seq<Event>) {
    forall e | e in events :: !e.Boot?
  }

  /** Once its handle is closed, a writer never changes a segment again and every `Write` through it
      reports an error, for the rest of its life. */
  lemma {:induction false} ClosedHandleLatches(limits: Limits, log: Log, events: seq<Event>)
    requires Valid(limits, log) && log.writer.On? && !log.writer.open && SameWriter(events)
    ensures Run(limits, log, events) == log
    ensures forall line, faults :: !AfterWrite(limits, Run(limits, log, events), line, faults).ok
    decreases |events|
  {
    if events != [] {
      assert events[0] in events;
      assert Step(limits, log, events[0]) == log;
      ClosedHandleLatches(limits, log, events[1..]);
    }
  }

  /** A rotation fails exactly when the handle was closed already or one of its operations fails; then
      that `Write` and every later one through the same writer report an error, and no segment changes
      any more. */
  lemma FailedRotationLatches(limits: Limits, log: Log, line: Bytes, faults: WriteFaults, events: seq<Event>)
    requires Valid(limits, log) && log.writer.On? && SameWriter(events)
    requires log.writer.size > 0 && log.writer.size + |line| > limits.max
    ensures !AfterRotate(limits, log, faults).writer.open <==>
              !log.writer.open || faults.close || !Rotated(log.slots, faults.rotate).ok || faults.reopen
    ensures var w := AfterWrite(limits, log, line, faults);
            !AfterRotate(limits, log, faults).writer.open ==>
              && !w.ok && w.n == 0
              && Run(limits, w.log, events) == w.log
              && forall l, f :: !AfterWrite(limits, Run(limits, w.log, events), l, f).ok
  {
    var w := AfterWrite(limits, log, line, faults);
    if !AfterRotate(limits, log, faults).writer.open {
      ClosedHandleLatches(limits, w.log, events);
    }
  }

  /** And the segments it leaves are those that were there, in order, the last slot's perhaps missing. */
  lemma FailedRotationKeepsSegments(limits: Limits, log: Log, line: Bytes, faults: WriteFaults)
    requires Valid(limits, log) && log.writer.On?
    requires log.writer.size > 0 && log.writer.size + |line| > limits.max
    requires !AfterRotate(limits, log, faults).writer.open
    ensures var after := AfterWrite(limits, log, line, faults).log.slots;
            Existing(after) == Existing(log.slots) || Existing(after) == Existing(log.slots[..|log.slots| - 1])
  {
    RotationLosesOnlyTheOldest(log.slots, faults.rotate);
  }

  // ---------------------------------------------------------------- what a write and a boot do

  /** A write through an open handle that meets no failure before the file itself: as many bytes of the
      line as the file takes are there afterwards, behind what the active file had, or at the start of a
      fresh one with every other segment moved up by one. */
  lemma WriteAppendsTheLine(limits: Limits, log: Log, line: Bytes, f: WriteFaults)
    requires Valid(limits, log) && log.writer.On? && log.writer.open
    requires !f.close && f.rotate.None? && !f.reopen
    ensures var r := AfterWrite(limits, log, line, f);
            var n := if f.accepted <= |line| then f.accepted else |line|;
            var size := |log.slots[0].value|;
            && r.n == n && (r.ok <==> f.accepted >= |line|)
            && r.log.slots == (if size > 0 && size + |line| > limits.max
                               then [Some(line[..n])] + log.slots[..|log.slots| - 1]
                               else log.slots[0 := Some(log.slots[0].value + line[..n])])
            && r.log.writer == On(true, |r.log.slots[0].value|)
  {
    if log.writer.size > 0 && log.writer.size + |line| > limits.max {
      FreshActiveFile(log.slots);
      FirstBytes([Some([])] + log.slots[..|log.slots| - 1], line, if f.accepted <= |line| then f.accepted else |line|);
    }
  }

  lemma FreshActiveFile(slots: Slots)
    requires |slots| >= 2
    ensures Touched(WithGap(slots, 0, None)) == [Some([])] + slots[..|slots| - 1]
  {
  }

  lemma FirstBytes(slots: Slots, line: Bytes, n: nat)
    requires slots != [] && slots[0] == Some([]) && n <= |line|
    ensures slots[0 := Some(slots[0].value + line[..n])] == [Some(line[..n])] + slots[1..]
  {
    assert [] + line[..n] == line[..n];
  }

  /** A boot that meets no failure: a full active file is moved up with all the others and replaced by an
      empty one, any other is gone on with, a missing one is created. */
  lemma BootOpensTheLog(limits: Limits, slots: Slots)
    requires limits.backups >= 1 && |slots| == limits.backups + 1
    ensures var log := AfterOpen(limits, slots, OpenFaults(false, false, None, false, false));
            && log.slots == (if slots[0].None? then slots[0 := Some([])]
                             else if |slots[0].value| >= limits.max then [Some([])] + slots[..|slots| - 1]
                             else slots)
            && log.writer == On(true, |log.slots[0].value|)
  {
    FreshActiveFile(slots);
  }

  /** Whatever fails: a boot that cannot make the directory, or does not see a full active file, moves
      nothing; at most it creates a missing active file. */
  lemma BootMovesOnlyFullFiles(limits: Limits, slots: Slots, faults: OpenFaults)
    requires limits.backups >= 1 && |slots| == limits.backups + 1
    requires faults.mkdir || faults.stat || slots[0].None? || |slots[0].value| < limits.max
    ensures var after := AfterOpen(limits, slots, faults).slots;
            && (after == slots || (slots[0].None? && after == slots[0 := Some([])]))
            && (faults.mkdir || faults.open ==> after == slots)
  {
  }

  // ---------------------------------------------------------------- how much history is retained

  /** Nothing fails, the file takes every line whole, and no line is longer than `longest`. */
  predicate Quiet(e: Event, longest: nat) {
    match e
    case Boot(f) => f == OpenFaults(false, false, None, false, false)
    case Write(line, f) =>
      |line| <= longest && |line| <= f.accepted && !f.close && f.rotate.None? && !f.reopen
    case Close => true
  }

  function Size(slot: Option<Bytes>): nat {
    if slot.Some? then |slot.value| else 0
  }

  /** Backups are filled from slot 1 up, each within the bounds, and the active slot is within the
      limit; before the first boot there is nothing at all. */
  predicate Packed(limits: Limits, log: Log, longest: nat)
    requires Valid(limits, log) && longest <= limits.max
  {
    && (forall k | 0 <= k < |log.slots| :: Size(log.slots[k]) <= limits.max)
    && (forall k | 1 <= k < |log.slots| && log.slots[k].Some? ::
          && Size(log.slots[k]) >= limits.max - longest + 1
          && log.slots[k - 1].Some?)
    && (log.writer.Off? ==> Clean(log.slots))
  }

  /** Either all of `appended` is still there, or the last slot is taken. */
  predicate NothingLostEarly(slots: Slots, appended: Bytes) {
    Text(slots) == appended || (slots != [] && slots[|slots| - 1].Some?)
  }

  lemma {:induction false} TextLast(slots: Slots)
    requires slots != []
    ensures var last := slots[|slots| - 1];
            Text(slots) == (if last.Some? then last.value else []) + Text(slots[..|slots| - 1])
  {
    if |slots| > 1 {
      TextLast(slots[1..]);
      assert slots[1..][..|slots| - 2] == slots[..|slots| - 1][1..];
    }
  }

  lemma FullRotationKeepsPacked(limits: Limits, log: Log, longest: nat, appended: Bytes)
    requires 1 <= longest <= limits.max && Valid(limits, log) && Packed(limits, log, longest)
    requires log.slots[0].Some? && Size(log.slots[0]) >= limits.max - longest + 1
    requires NothingLostEarly(log.slots, appended)
    ensures var after := Log(Touched(WithGap(log.slots, 0, None)), On(true, 0));
            Valid(limits, after) && Packed(limits, after, longest) && NothingLostEarly(after.slots, appended)
  {
    var slots := log.slots;
    var after := Touched(WithGap(slots, 0, None));
    assert after == [Some([])] + slots[..|slots| - 1];
    forall k | 1 <= k < |slots| ensures after[k] == slots[k - 1] {}
    TextLast(slots);
    assert after[1..] == slots[..|slots| - 1];
    if slots[|slots| - 1].Some? {
      FilledBelow(limits, log, longest, |slots| - 1);
    }
  }

  lemma {:induction false} FilledBelow(limits: Limits, log: Log, longest: nat, k: nat)
    requires longest <= limits.max && Valid(limits, log) && Packed(limits, log, longest)
    requires k < |log.slots| && log.slots[k].Some?
    ensures forall j | 0 <= j <= k :: log.slots[j].Some?
  {
    if k > 0 {
      FilledBelow(limits, log, longest, k - 1);
    }
  }

  lemma QuietWriteKeepsPacked(limits: Limits, log: Log, line: Bytes, f: WriteFaults, longest: nat, appended: Bytes)
    requires 1 <= longest <= limits.max && Valid(limits, log) && Quiet(Write(line, f), longest)
    requires Packed(limits, log, longest) && NothingLostEarly(log.slots, appended) && log.writer.On?
    ensures var r := AfterWrite(limits, log, line, f);
            && Packed(limits, r.log, longest)
            && NothingLostEarly(r.log.slots, appended + line[..r.n])
  {
    var ready := log;
    if log.writer.size > 0 && log.writer.size + |line| > limits.max && log.writer.open {
      FullRotationKeepsPacked(limits, log, longest, appended);
      ready := AfterRotate(limits, log, f);
    }
    if ready.writer.open {
      AppendKeepsPacked(limits, ready, line, f.accepted, longest, appended);
      assert line[..|line|] == line;
    } else {
      assert appended + line[..0] == appended;
    }
  }

  lemma QuietStepKeepsPacked(limits: Limits, log: Log, e: Event, longest: nat, appended: Bytes)
    requires 1 <= longest <= limits.max && Valid(limits, log) && Quiet(e, longest)
    requires Packed(limits, log, longest) && NothingLostEarly(log.slots, appended)
    ensures Packed(limits, Step(limits, log, e), longest)
    ensures NothingLostEarly(Step(limits, log, e).slots, appended + Chunk(limits, log, e))
  {
    assert appended + [] == appended;
    match e
    case Boot(f) =>
      if log.slots[0].Some? && Size(log.slots[0]) >= limits.max {
        FullRotationKeepsPacked(limits, log, longest, appended);
      }
    case Write(line, f) =>
      if log.writer.On? {
        QuietWriteKeepsPacked(limits, log, line, f, longest, appended);
      }
    case Close =>
  }

  lemma AppendKeepsPacked(limits: Limits, log: Log, line: Bytes, accepted: nat, longest: nat, appended: Bytes)
    requires 1 <= longest <= limits.max && Valid(limits, log) && log.writer.On? && log.writer.open
    requires |line| <= longest && |line| <= accepted
    requires log.writer.size == 0 || log.writer.size + |line| <= limits.max
    requires Packed(limits, log, longest) && NothingLostEarly(log.slots, appended)
    ensures var r := AfterAppend(limits, log, line, accepted);
            Packed(limits, r.log, longest) && NothingLostEarly(r.log.slots, appended + line)
  {
    var slots := AfterAppend(limits, log, line, accepted).log.slots;
    assert line[..|line|] == line;
    assert slots[1..] == log.slots[1..];
    assert Text(slots) == Text(log.slots) + line;
  }

  lemma ConcatCons(c: Bytes, rest: seq<Bytes>)
    ensures Concat((if c == [] then [] else [c]) + rest) == c + Concat(rest)
  {
    if c == [] {
      assert [] + rest == rest;
    } else {
      ConcatAppend([c], rest);
      assert Concat([c]) == [] + c;
    }
  }

  lemma {:induction false} QuietRunKeepsPacked(limits: Limits, log: Log, events: seq<Event>, longest: nat, appended: Bytes)
    requires 1 <= longest <= limits.max && Valid(limits, log)
    requires forall e | e in events :: Quiet(e, longest)
    requires Packed(limits, log, longest) && NothingLostEarly(log.slots, appended)
    ensures Packed(limits, Run(limits, log, events), longest)
    ensures NothingLostEarly(Run(limits, log, events).slots, appended + Concat(Chunks(limits, log, events)))
    decreases |events|
  {
    if events == [] {
      assert appended + [] == appended;
    } else {
      var c, next := Chunk(limits, log, events[0]), Step(limits, log, events[0]);
      assert events[0] in events;
      QuietStepKeepsPacked(limits, log, events[0], longest, appended);
      QuietRunKeepsPacked(limits, next, events[1..], longest, appended + c);
      var rest := Chunks(limits, next, events[1..]);
      ConcatCons(c, rest);
      SeqAssoc(appended, c, Concat(rest));
    }
  }

  lemma {:induction false} TextAtMost(slots: Slots, most: nat)
    requires forall k | 0 <= k < |slots| :: Size(slots[k]) <= most
    ensures |Text(slots)| <= |slots| * most
  {
    if slots != [] {
      TextAtMost(slots[1..], most);
      assert |slots| * most == |slots[1..]| * most + most;
    }
  }

  lemma {:induction false} TextAtLeast(slots: Slots, least: nat)
    requires forall k | 0 <= k < |slots| :: Size(slots[k]) >= least
    ensures |Text(slots)| >= |slots| * least
  {
    if slots != [] {
      TextAtLeast(slots[1..], least);
      assert |slots| * least == |slots[1..]| * least + least;
    }
  }

  /** A packed log whose last slot is taken holds at least so much. */
  lemma PackedHoldsAtLeast(limits: Limits, log: Log, longest: nat)
    requires 1 <= longest <= limits.max && Valid(limits, log) && Packed(limits, log, longest)
    requires log.slots[|log.slots| - 1].Some?
    ensures |Text(log.slots)| >= limits.backups * (limits.max - longest + 1)
  {
    var slots, least := log.slots, limits.max - longest + 1;
    FilledBelow(limits, log, longest, |slots| - 1);
    assert forall k | 0 <= k < |slots| - 1 :: slots[1..][k] == slots[k + 1];
    TextAtLeast(slots[1..], least);
    assert |slots[1..]| == limits.backups;
  }

  /** And any packed log holds at most so much. */
  lemma PackedHoldsAtMost(limits: Limits, log: Log, longest: nat)
    requires longest <= limits.max && Valid(limits, log) && Packed(limits, log, longest)
    ensures |Text(log.slots)| <= (limits.backups + 1) * limits.max
  {
    TextAtMost(log.slots, limits.max);
  }

  /** The lines handed to `Write` while there is an open handle, one after the other: a boot opens one, a
      close ends it. */
  function Logged(events: seq<Event>, open: bool): Bytes {
    if events == [] then []
    else
      match events[0]
      case Boot(_) => Logged(events[1..], true)
      case Write(line, _) => (if open then line else []) + Logged(events[1..], open)
      case Close => Logged(events[1..], false)
  }

  predicate HasHandle(log: Log) {
    log.writer.On? && log.writer.open
  }

  lemma QuietStepLogs(limits: Limits, log: Log, e: Event, longest: nat)
    requires Valid(limits, log) && Quiet(e, longest)
    ensures Chunk(limits, log, e) == if e.Write? && HasHandle(log) then e.line else []
    ensures HasHandle(Step(limits, log, e)) == (e.Boot? || (e.Write? && HasHandle(log)))
  {
    match e
    case Boot(_) => BootOpensTheLog(limits, log.slots);
    case Write(line, f) =>
      if HasHandle(log) {
        WriteAppendsTheLine(limits, log, line, f);
        assert line[..|line|] == line;
      }
    case Close =>
  }

  /** Without failures everything handed over is appended, and nothing else. */
  lemma {:induction false} QuietRunLogs(limits: Limits, log: Log, events: seq<Event>, longest: nat)
    requires Valid(limits, log) && forall e | e in events :: Quiet(e, longest)
    ensures Concat(Chunks(limits, log, events)) == Logged(events, HasHandle(log))
    decreases |events|
  {
    if events != [] {
      assert events[0] in events;
      var c, next := Chunk(limits, log, events[0]), Step(limits, log, events[0]);
      QuietStepLogs(limits, log, events[0], longest);
      QuietRunLogs(limits, next, events[1..], longest);
      ConcatCons(c, Chunks(limits, next, events[1..]));
      assert [] + Logged(events[1..], HasHandle(next)) == Logged(events[1..], HasHandle(next));
    }
  }

  lemma RetainedChunks(limits: Limits, log: Log, events: seq<Event>, longest: nat)
    requires 1 <= longest <= limits.max
    requires Valid(limits, log) && log.writer.Off? && Clean(log.slots)
    requires forall e | e in events :: Quiet(e, longest)
    ensures var slots := Run(limits, log, events).slots;
            && (|| Text(slots) == Concat(Chunks(limits, log, events))
                || |Text(slots)| >= limits.backups * (limits.max - longest + 1))
            && |Text(slots)| <= (limits.backups + 1) * limits.max
  {
    EmptyText(log.slots);
    QuietRunKeepsPacked(limits, log, events, longest, []);
    var end := Run(limits, log, events);
    PackedHoldsAtMost(limits, end, longest);
    assert [] + Concat(Chunks(limits, log, events)) == Concat(Chunks(limits, log, events));
    if end.slots[|end.slots| - 1].Some? {
      PackedHoldsAtLeast(limits, end, longest);
    }
  }

  lemma TextIsEndOfChunks(limits: Limits, log: Log, events: seq<Event>)
    requires Valid(limits, log) && Clean(log.slots)
    ensures IsSuffix(Text(Run(limits, log, events).slots), Concat(Chunks(limits, log, events)))
  {
    EveryRunFromEmptyDirectory(limits, log, events);
    RecentTextIsSuffix(limits.max, Run(limits, log, events).slots, Chunks(limits, log, events));
  }

  /** In any run without failures from an empty directory, with lines of at most `longest` bytes: the
      segments read oldest to newest are the end of all lines logged; it is all of them, or at least
      `backups * (max - longest + 1)` bytes; and never more than `(backups + 1) * max`. */
  lemma RetainedHistory(limits: Limits, log: Log, events: seq<Event>, longest: nat)
    requires 1 <= longest <= limits.max
    requires Valid(limits, log) && log.writer.Off? && Clean(log.slots)
    requires forall e | e in events :: Quiet(e, longest)
    ensures var slots := Run(limits, log, events).slots;
            && IsSuffix(Text(slots), Logged(events, false))
            && (|| Text(slots) == Logged(events, false)
                || |Text(slots)| >= limits.backups * (limits.max - longest + 1))
            && |Text(slots)| <= (limits.backups + 1) * limits.max
  {
    QuietRunLogs(limits, log, events, longest);
    TextIsEndOfChunks(limits, log, events);
    RetainedChunks(limits, log, events, longest);
  }

  /** With the limits of the code: five backups, 50 MiB each. */
  lemma RetainedVlogHistory(log: Log, events: seq<Event>, longest: nat)
    requires 1 <= longest <= 52428800
    requires Valid(VLOG_LIMITS, log) && log.writer.Off? && Clean(log.slots)
    requires forall e | e in events :: Quiet(e, longest)
    ensures var slots := Run(VLOG_LIMITS, log, events).slots;
            && IsSuffix(Text(slots), Logged(events, false))
            && (|| Text(slots) == Logged(events, false)
                || |Text(slots)| >= 5 * (52428800 - longest + 1))
            && |Text(slots)| <= 6 * 52428800
  {
    RetainedHistory(VLOG_LIMITS, log, events, longest);
  }

  lemma {:induction false} EmptyText(slots: Slots)
    requires Clean(slots)
    ensures Text(slots) == []
  {
    if slots != [] {
      EmptyText(slots[1..]);
    }
  }

  /** The threshold at boot: when the active file could be looked at, the writer starts with room left in
      it; and exactly which failures leave no writer. */
  lemma BootLeavesRoom(limits: Limits, slots: Slots, faults: OpenFaults)
    requires limits.backups >= 1 && |slots| == limits.backups + 1 && limits.max > 0
    ensures var log := AfterOpen(limits, slots, faults);
            && (log.writer.On? && !faults.stat ==> log.writer.size < limits.max)
            && (log.writer.Off? <==>
                  || faults.mkdir || faults.open || faults.fstat
                  || (!faults.stat && slots[0].Some? && |slots[0].value| >= limits.max && !Rotated(slots, faults.rotate).ok))
  {
  }
}
