/** What every run of the rotating log keeps: the segments, oldest first, are the tail of everything
    ever appended, and no chunk is ever split over two of them. */
module LogHistory {
  import opened Options
  import opened LogState

  // ---------------------------------------------------------------- chunks grouped by slot

  function Concat(chunks: seq<Bytes>): Bytes {
    if chunks == [] then [] else Concat(chunks[..|chunks| - 1]) + chunks[|chunks| - 1]
  }

  lemma {:induction false} ConcatAppend(a: seq<Bytes>, b: seq<Bytes>)
    ensures Concat(a + b) == Concat(a) + Concat(b)
  {
    if b == [] {
      assert a + b == a;
    } else {
      ConcatAppend(a, b[..|b| - 1]);
      InitOfConcat(a, b);
      SeqAssoc(Concat(a), Concat(b[..|b| - 1]), b[|b| - 1]);
    }
  }

  lemma InitOfConcat<T>(a: seq<T>, b: seq<T>)
    requires b != []
    ensures (a + b)[..|a + b| - 1] == a + b[..|b| - 1] && (a + b)[|a + b| - 1] == b[|b| - 1]
  {
  }

  lemma SeqAssoc<T>(a: seq<T>, b: seq<T>, c: seq<T>)
    ensures a + b + c == a + (b + c)
  {
  }

  /** All chunks of all slots, oldest slot first. */
  function Oldest<T>(groups: seq<seq<T>>): seq<T> {
    if groups == [] then [] else Oldest(groups[1..]) + groups[0]
  }

  lemma OldestNewest<T>(groups: seq<seq<T>>, g: seq<T>)
    requires groups != []
    ensures Oldest(groups[0 := groups[0] + g]) == Oldest(groups) + g
  {
    assert groups[0 := groups[0] + g][1..] == groups[1..];
  }

  /** Opening a gap only drops what the oldest slot held. */
  lemma OldestGap<T>(groups: seq<seq<T>>, gap: nat)
    requires gap < |groups|
    ensures Oldest(groups) == groups[|groups| - 1] + Oldest(WithGap(groups, gap, []))
  {
    GapSplits(groups, gap, []);
    OldestSkips(groups[..|groups| - 1], gap);
    OldestLast(groups);
  }

  lemma {:induction false} OldestLast<T>(groups: seq<seq<T>>)
    requires groups != []
    ensures Oldest(groups) == groups[|groups| - 1] + Oldest(groups[..|groups| - 1])
  {
    if |groups| > 1 {
      OldestLast(groups[1..]);
      assert groups[1..][..|groups| - 2] == groups[..|groups| - 1][1..];
    }
  }

  lemma GapSplits<T>(slots: seq<T>, gap: nat, empty: T)
    requires gap < |slots|
    ensures WithGap(slots, gap, empty) == Inserted(slots[..|slots| - 1], gap, empty)
  {
  }

  function Inserted<T>(slots: seq<T>, at: nat, e: T): seq<T>
    requires at <= |slots|
  {
    slots[..at] + [e] + slots[at..]
  }

  lemma {:induction false} OldestSkips<T>(groups: seq<seq<T>>, gap: nat)
    requires gap <= |groups|
    ensures Oldest(Inserted(groups, gap, [])) == Oldest(groups)
  {
    if gap == 0 {
      assert Inserted(groups, gap, [])[1..] == groups;
    } else {
      OldestSkips(groups[1..], gap - 1);
      assert Inserted(groups, gap, [])[1..] == Inserted(groups[1..], gap - 1, []);
    }
  }

  predicate IsSuffix<T(==)>(s: seq<T>, whole: seq<T>) {
    |s| <= |whole| && whole[|whole| - |s|..] == s
  }

  // ---------------------------------------------------------------- the invariant

  /** Slot by slot, the chunks it is made of; no chunk is empty. */
  ghost predicate Grouped(slots: Slots, groups: seq<seq<Bytes>>) {
    && |groups| == |slots|
    && forall i | 0 <= i < |slots| ::
         && (slots[i].None? ==> groups[i] == [])
         && (slots[i].Some? ==> slots[i].value == Concat(groups[i]))
         && [] !in groups[i]
  }

  /** A segment larger than the limit is a single chunk. */
  ghost predicate Bounded(max: nat, groups: seq<seq<Bytes>>) {
    forall i | 0 <= i < |groups| :: |groups[i]| <= 1 || |Concat(groups[i])| <= max
  }

  ghost predicate Explains(max: nat, slots: Slots, history: seq<Bytes>, groups: seq<seq<Bytes>>) {
    Grouped(slots, groups) && Bounded(max, groups) && IsSuffix(Oldest(groups), history)
  }

  /** The slots hold whole chunks: exactly the last ones of the history, in order. */
  ghost predicate Recent(max: nat, slots: Slots, history: seq<Bytes>) {
    exists groups :: Explains(max, slots, history, groups)
  }

  lemma GapStaysGrouped(max: nat, slots: Slots, groups: seq<seq<Bytes>>, gap: nat)
    requires gap < |slots| && Grouped(slots, groups) && Bounded(max, groups)
    ensures Grouped(WithGap(slots, gap, None), WithGap(groups, gap, []))
    ensures Bounded(max, WithGap(groups, gap, []))
  {
    var after, moved := WithGap(slots, gap, None), WithGap(groups, gap, []);
    assert after[gap] == None && moved[gap] == [];
    forall i | 0 <= i < |slots| && i != gap
      ensures var j := if i < gap then i else i - 1;
              after[i] == slots[j] && moved[i] == groups[j]
    {
    }
  }

  lemma GapStaysRecent(max: nat, slots: Slots, history: seq<Bytes>, gap: nat)
    requires gap < |slots| && Recent(max, slots, history)
    ensures Recent(max, WithGap(slots, gap, None), history)
  {
    var groups :| Explains(max, slots, history, groups);
    GapStaysGrouped(max, slots, groups, gap);
    OldestGap(groups, gap);
    SuffixTrans(groups[|groups| - 1], Oldest(WithGap(groups, gap, [])), history);
    assert Explains(max, WithGap(slots, gap, None), history, WithGap(groups, gap, []));
  }

  lemma SuffixTrans<T>(dropped: seq<T>, kept: seq<T>, whole: seq<T>)
    requires IsSuffix(dropped + kept, whole)
    ensures IsSuffix(kept, whole)
  {
    assert whole[|whole| - |kept|..] == (dropped + kept)[|dropped|..];
  }

  lemma RotateStaysRecent(max: nat, slots: Slots, history: seq<Bytes>, failAt: Option<nat>)
    requires |slots| >= 2 && Recent(max, slots, history)
    ensures Recent(max, Rotated(slots, failAt).slots, history)
  {
    if failAt != Some(0) {
      GapStaysRecent(max, slots, history, GapOf(slots, failAt));
    }
  }

  lemma TouchStaysRecent(max: nat, slots: Slots, history: seq<Bytes>)
    requires |slots| >= 1 && Recent(max, slots, history)
    ensures Recent(max, Touched(slots), history)
  {
    var groups :| Explains(max, slots, history, groups);
    assert Explains(max, Touched(slots), history, groups);
  }

  lemma AppendStaysRecent(max: nat, slots: Slots, history: seq<Bytes>, chunk: Bytes)
    requires |slots| >= 1 && Recent(max, slots, history) && slots[0].Some? && chunk != []
    requires slots[0].value == [] || |slots[0].value| + |chunk| <= max
    ensures Recent(max, slots[0 := Some(slots[0].value + chunk)], history + [chunk])
  {
    var groups :| Explains(max, slots, history, groups);
    var grown := groups[0 := groups[0] + [chunk]];
    OldestNewest(groups, [chunk]);
    ConcatAppend(groups[0], [chunk]);
    assert Concat([chunk]) == chunk;
    if groups[0] != [] {
      NonEmptyChunks(groups[0]);
    }
    var whole := history + [chunk];
    assert whole[|whole| - |Oldest(grown)|..] == history[|history| - |Oldest(groups)|..] + [chunk];
    assert Explains(max, slots[0 := Some(slots[0].value + chunk)], whole, grown);
  }

  lemma NonEmptyChunks(chunks: seq<Bytes>)
    requires [] !in chunks && chunks != []
    ensures Concat(chunks) != []
  {
    assert chunks[|chunks| - 1] in chunks;
  }

  // ---------------------------------------------------------------- every run

  lemma OpenStaysRecent(limits: Limits, slots: Slots, faults: OpenFaults, history: seq<Bytes>)
    requires limits.backups >= 1 && |slots| == limits.backups + 1 && Recent(limits.max, slots, history)
    ensures Recent(limits.max, AfterOpen(limits, slots, faults).slots, history)
  {
    RotateStaysRecent(limits.max, slots, history, faults.rotate);
    TouchStaysRecent(limits.max, slots, history);
    TouchStaysRecent(limits.max, Rotated(slots, faults.rotate).slots, history);
  }

  lemma WriteStaysRecent(limits: Limits, log: Log, line: Bytes, faults: WriteFaults, history: seq<Bytes>)
    requires Valid(limits, log) && log.writer.On? && Recent(limits.max, log.slots, history)
    ensures var r := AfterWrite(limits, log, line, faults);
            Recent(limits.max, r.log.slots, if r.n == 0 then history else history + [line[..r.n]])
  {
    RotateStaysRecent(limits.max, log.slots, history, faults.rotate);
    TouchStaysRecent(limits.max, Rotated(log.slots, faults.rotate).slots, history);
    var rotates := log.writer.size > 0 && log.writer.size + |line| > limits.max;
    var ready := if rotates then AfterRotate(limits, log, faults) else log;
    var r := AfterWrite(limits, log, line, faults);
    if r.n > 0 {
      AppendStaysRecent(limits.max, ready.slots, history, line[..r.n]);
    } else if ready.writer.open {
      assert ready.slots[0].value + line[..r.n] == ready.slots[0].value;
      assert ready.slots[0 := Some(ready.slots[0].value + line[..r.n])] == ready.slots;
    }
  }

  lemma StepStaysRecent(limits: Limits, log: Log, e: Event, history: seq<Bytes>)
    requires Valid(limits, log) && Recent(limits.max, log.slots, history)
    ensures var c := Chunk(limits, log, e);
            Recent(limits.max, Step(limits, log, e).slots, if c == [] then history else history + [c])
  {
    match e
    case Boot(faults) => OpenStaysRecent(limits, log.slots, faults, history);
    case Write(line, faults) =>
      if log.writer.On? { WriteStaysRecent(limits, log, line, faults, history); }
    case Close =>
  }

  /** For every sequence of boots, writes and closes, whatever fails and however short the writes:
      the directory goes on holding the last chunks ever appended, whole and in order, and a segment
      over the limit is a single chunk. */
  lemma {:induction false} EveryRunStaysRecent(limits: Limits, log: Log, events: seq<Event>, history: seq<Bytes>)
    requires Valid(limits, log) && Recent(limits.max, log.slots, history)
    ensures Recent(limits.max, Run(limits, log, events).slots, history + Chunks(limits, log, events))
    decreases |events|
  {
    if events == [] {
      assert history + [] == history;
    } else {
      var c := Chunk(limits, log, events[0]);
      var next := Step(limits, log, events[0]);
      var rest := Chunks(limits, next, events[1..]);
      StepStaysRecent(limits, log, events[0], history);
      if c == [] {
        EveryRunStaysRecent(limits, next, events[1..], history);
        SeqAssoc(history, [], rest);
        assert history + [] == history;
      } else {
        EveryRunStaysRecent(limits, next, events[1..], history + [c]);
        SeqAssoc(history, [c], rest);
      }
    }
  }

  // ---------------------------------------------------------------- what it means for the reader

  /** All bytes of the log, oldest segment first. */
  function Text(slots: Slots): Bytes {
    if slots == [] then []
    else Text(slots[1..]) + (if slots[0].Some? then slots[0].value else [])
  }

  lemma {:induction false} TextOfGroups(slots: Slots, groups: seq<seq<Bytes>>)
    requires Grouped(slots, groups)
    ensures Text(slots) == Concat(Oldest(groups))
  {
    if slots != [] {
      assert Grouped(slots[1..], groups[1..]);
      TextOfGroups(slots[1..], groups[1..]);
      ConcatAppend(Oldest(groups[1..]), groups[0]);
    }
  }

  /** The segments read oldest to newest are a suffix of everything ever appended. */
  lemma RecentTextIsSuffix(max: nat, slots: Slots, history: seq<Bytes>)
    requires Recent(max, slots, history)
    ensures IsSuffix(Text(slots), Concat(history))
  {
    var groups :| Explains(max, slots, history, groups);
    TextOfGroups(slots, groups);
    var kept := |history| - |Oldest(groups)|;
    ConcatAppend(history[..kept], history[kept..]);
    assert history == history[..kept] + history[kept..];
  }

  lemma CleanIsRecent(max: nat, slots: Slots)
    requires Clean(slots)
    ensures Recent(max, slots, [])
  {
    var groups: seq<seq<Bytes>> := seq(|slots|, _ => []);
    NothingInEmptyGroups(groups);
    assert Explains(max, slots, [], groups);
  }

  /** In a run from an empty directory the segments are whole chunks of that run and nothing else. */
  lemma EveryRunFromEmptyDirectory(limits: Limits, log: Log, events: seq<Event>)
    requires Valid(limits, log) && Clean(log.slots)
    ensures Recent(limits.max, Run(limits, log, events).slots, Chunks(limits, log, events))
  {
    CleanIsRecent(limits.max, log.slots);
    EveryRunStaysRecent(limits, log, events, []);
    assert [] + Chunks(limits, log, events) == Chunks(limits, log, events);
  }

  lemma {:induction false} NothingInEmptyGroups(groups: seq<seq<Bytes>>)
    requires forall k | 0 <= k < |groups| :: groups[k] == []
    ensures Oldest(groups) == []
  {
    if groups != [] {
      NothingInEmptyGroups(groups[1..]);
    }
  }

  /** Any directory can be the first one: each segment already there counts as one chunk. */
  lemma AnyDirectoryIsRecent(max: nat, slots: Slots) returns (history: seq<Bytes>)
    ensures Recent(max, slots, history) && Concat(history) == Text(slots)
  {
    var groups := seq(|slots|, i requires 0 <= i < |slots| =>
      if slots[i].None? || slots[i].value == [] then [] else [slots[i].value]);
    history := Oldest(groups);
    forall i | 0 <= i < |slots|
      ensures slots[i].Some? ==> slots[i].value == Concat(groups[i])
      ensures [] !in groups[i]
    {
      if slots[i].Some? && slots[i].value != [] {
        assert Concat([slots[i].value]) == slots[i].value;
      }
    }
    TextOfGroups(slots, groups);
    assert Explains(max, slots, history, groups);
  }

  /** From any directory at all, after any run, the log reads as the tail of what was there followed
      by what the run appended. */
  lemma EveryRunKeepsATail(limits: Limits, log: Log, events: seq<Event>)
    requires Valid(limits, log)
    ensures IsSuffix(Text(Run(limits, log, events).slots),
                     Text(log.slots) + Concat(Chunks(limits, log, events)))
  {
    var history := AnyDirectoryIsRecent(limits.max, log.slots);
    var appended := Chunks(limits, log, events);
    EveryRunStaysRecent(limits, log, events, history);
    RecentTextIsSuffix(limits.max, Run(limits, log, events).slots, history + appended);
    ConcatAppend(history, appended);
  }
}
