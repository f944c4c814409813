/** The rotating log of internal/vlog/rotate.go as a state machine over a directory of numbered
    segments. Slot 0 is the active file, slot k is the file with suffix ".k". Every file operation
    may fail; an event names the failures it meets. */
module LogState {
  import opened Options

  type Bytes = seq<bv8>
  type Slots = seq<Option<Bytes>>

  /** `maxLogSize` and `maxLogBackups`. */
  datatype Limits = Limits(max: nat, backups: nat)

  const VLOG_LIMITS := Limits(50 * 1024 * 1024, 5)

  /** A directory without any segment. */
  predicate Clean(slots: Slots) {
    forall k | 0 <= k < |slots| :: slots[k].None?
  }

  // ---------------------------------------------------------------- rotation

  /** Slot `gap` emptied by moving it and everything older up by one; the oldest slot is gone. */
  function WithGap<T>(slots: seq<T>, gap: nat, empty: T): seq<T>
    requires gap < |slots|
  {
    slots[..gap] + [empty] + slots[gap..|slots| - 1]
  }

  /** Where the gap is when a rotation ends: at slot 0, or where the failing rename left it. */
  function GapOf(slots: Slots, failAt: Option<nat>): (gap: nat)
    requires |slots| >= 2 && failAt != Some(0)
    ensures gap < |slots|
  {
    if failAt.None? || failAt.value >= |slots| then 0 else |slots| - failAt.value
  }

  datatype RotateResult = RotateResult(slots: Slots, ok: bool)

  /** The effect of `rotateLogFile`. Operation 0 removes the oldest slot; operation k, for k from 1 to
      `backups`, renames slot `backups - k` to the one above. `failAt` is the operation that fails. */
  function Rotated(slots: Slots, failAt: Option<nat>): RotateResult
    requires |slots| >= 2
  {
    if failAt == Some(0) then RotateResult(slots, false)
    else RotateResult(WithGap(slots, GapOf(slots, failAt), None), failAt.None? || failAt.value >= |slots|)
  }

  // ---------------------------------------------------------------- states and events

  /** `Off`: the logger has no file and logs to stderr only. `On`: a writer whose handle is open or
      closed, with the size it keeps in memory. */
  datatype Writer = Off | On(open: bool, size: nat)

  datatype Log = Log(slots: Slots, writer: Writer)

  /** The failures met while opening; `rotate` is the rotation step that fails. */
  datatype OpenFaults = OpenFaults(mkdir: bool, stat: bool, rotate: Option<nat>, open: bool, fstat: bool)

  /** The failures met by one `Write`; `accepted` bounds the bytes the file takes. */
  datatype WriteFaults = WriteFaults(close: bool, rotate: Option<nat>, reopen: bool, accepted: nat)

  datatype Event =
    | Boot(opening: OpenFaults)
    | Write(line: Bytes, writing: WriteFaults)
    | Close

  /** A log that the code can be in: while the handle is open, the active file exists and the size
      kept in memory is its length. */
  predicate Valid(limits: Limits, log: Log) {
    && limits.backups >= 1
    && |log.slots| == limits.backups + 1
    && (log.writer.On? && log.writer.open ==>
          log.slots[0].Some? && log.writer.size == |log.slots[0].value|)
  }

  /** Opening for appending creates a missing file. */
  function Touched(slots: Slots): (r: Slots)
    requires |slots| >= 1
    ensures |r| == |slots| && r[0].Some?
  {
    if slots[0].Some? then slots else slots[0 := Some([])]
  }

  /** `openRotatingWriter`, as `New` uses it: a failure leaves the logger without a file. */
  function AfterOpen(limits: Limits, slots: Slots, faults: OpenFaults): (r: Log)
    requires limits.backups >= 1 && |slots| == limits.backups + 1
    ensures Valid(limits, r)
  {
    if faults.mkdir then Log(slots, Off)
    else
      var full := !faults.stat && slots[0].Some? && |slots[0].value| >= limits.max;
      var r := if full then Rotated(slots, faults.rotate) else RotateResult(slots, true);
      if !r.ok || faults.open then Log(r.slots, Off)
      else
        var ready := Touched(r.slots);
        Log(ready, if faults.fstat then Off else On(true, |ready[0].value|))
  }

  datatype WriteResult = WriteResult(log: Log, n: nat, ok: bool)

  /** The active file takes the first `accepted` bytes of the line; a short write is an error. */
  function AfterAppend(limits: Limits, log: Log, line: Bytes, accepted: nat): (r: WriteResult)
    requires Valid(limits, log) && log.writer.On? && log.writer.open
    ensures Valid(limits, r.log) && r.n <= |line| && r.ok == (r.n == |line|)
  {
    var n := if accepted <= |line| then accepted else |line|;
    var slots := log.slots[0 := Some(log.slots[0].value + line[..n])];
    WriteResult(Log(slots, On(true, log.writer.size + n)), n, n == |line|)
  }

  /** `rotate`: the handle is closed whatever happens, and open again only after full success. */
  function AfterRotate(limits: Limits, log: Log, faults: WriteFaults): (r: Log)
    requires Valid(limits, log) && log.writer.On?
    ensures Valid(limits, r) && r.writer.On?
  {
    var closed := On(false, log.writer.size);
    if !log.writer.open || faults.close then Log(log.slots, closed)
    else
      var r := Rotated(log.slots, faults.rotate);
      if !r.ok || faults.reopen then Log(r.slots, closed)
      else Log(Touched(r.slots), On(true, 0))
  }

  /** `Write`. */
  function AfterWrite(limits: Limits, log: Log, line: Bytes, faults: WriteFaults): (r: WriteResult)
    requires Valid(limits, log) && log.writer.On?
    ensures Valid(limits, r.log) && r.log.writer.On? && r.n <= |line|
    ensures r.ok ==> r.n == |line| && r.log.writer.open
  {
    var ready := if log.writer.size > 0 && log.writer.size + |line| > limits.max
                 then AfterRotate(limits, log, faults) else log;
    if ready.writer.open then AfterAppend(limits, ready, line, faults.accepted)
    else WriteResult(ready, 0, false)
  }

  // ---------------------------------------------------------------- runs

  function Step(limits: Limits, log: Log, e: Event): (r: Log)
    requires Valid(limits, log)
    ensures Valid(limits, r)
  {
    match e
    case Boot(faults) => AfterOpen(limits, log.slots, faults)
    case Write(line, faults) =>
      if log.writer.Off? then log else AfterWrite(limits, log, line, faults).log
    case Close => if log.writer.Off? then log else log.(writer := log.writer.(open := false))
  }

  /** The bytes that the event puts into a file, as the chunk it is. */
  function Chunk(limits: Limits, log: Log, e: Event): Bytes
    requires Valid(limits, log)
  {
    if e.Write? && log.writer.On? then e.line[..AfterWrite(limits, log, e.line, e.writing).n] else []
  }

  function Run(limits: Limits, log: Log, events: seq<Event>): (r: Log)
    requires Valid(limits, log)
    ensures Valid(limits, r)
    decreases |events|
  {
    if events == [] then log else Run(limits, Step(limits, log, events[0]), events[1..])
  }

  /** The non-empty chunks that a run appends, in the order it appends them. */
  function Chunks(limits: Limits, log: Log, events: seq<Event>): seq<Bytes>
    requires Valid(limits, log)
    decreases |events|
  {
    if events == [] then []
    else
      var c := Chunk(limits, log, events[0]);
      (if c == [] then [] else [c]) + Chunks(limits, Step(limits, log, events[0]), events[1..])
  }
}
