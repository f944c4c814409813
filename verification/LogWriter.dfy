/** The writer itself: internal/vlog/rotate.go and the parts of vlog.go that drive it, working in
    place on a directory of segments. */
module LogWriter {
  import opened Options
  import opened LogState

  datatype Outcome = Done | NotExist | Failed

  lemma OldestRemoved(slots: Slots)
    requires |slots| >= 1
    ensures slots[|slots| - 1 := None] == WithGap(slots, |slots| - 1, None)
  {
  }

  /** Moving the slot below a gap up into it moves the gap down; so does finding that slot missing. */
  lemma GapMovesDown(slots: Slots, n: nat)
    requires n + 1 < |slots|
    ensures var g := WithGap(slots, n + 1, None);
            && g[n + 1].None?
            && g[n + 1 := g[n]][n := None] == WithGap(slots, n, None)
            && (g[n].None? ==> g == WithGap(slots, n, None))
  {
  }

  /** The log directory. */
  class LogDir {
    var slots: Slots
    ghost var overwrites: nat  // renames that replaced an existing segment

    method Remove(k: nat, fails: bool) returns (r: Outcome)
      requires k < |slots|
      modifies `slots
      ensures r == if fails then Failed else if old(slots)[k].None? then NotExist else Done
      ensures slots == if fails then old(slots) else old(slots)[k := None]
    {
      if fails { return Failed; }
      if slots[k].None? { return NotExist; }
      slots := slots[k := None];
      return Done;
    }

    /** Rename replaces whatever is at the destination. */
    method Rename(src: nat, dst: nat, fails: bool) returns (r: Outcome)
      requires src < |slots| && dst < |slots| && src != dst
      modifies this
      ensures r == if fails then Failed else if old(slots)[src].None? then NotExist else Done
      ensures slots == if r.Done? then old(slots)[dst := old(slots)[src]][src := None] else old(slots)
      ensures overwrites == old(overwrites) + if r.Done? && old(slots)[dst].Some? then 1 else 0
    {
      if fails { return Failed; }
      if slots[src].None? { return NotExist; }
      if slots[dst].Some? { overwrites := overwrites + 1; }
      slots := slots[dst := slots[src]][src := None];
      return Done;
    }

    method OpenForAppend(fails: bool) returns (ok: bool)
      requires |slots| >= 1
      modifies `slots
      ensures ok == !fails
      ensures slots == if ok then Touched(old(slots)) else old(slots)
    {
      if fails { return false; }
      if slots[0].None? { slots := slots[0 := Some([])]; }
      return true;
    }

    /** Removing the oldest slot opens a gap there; a missing one is no failure. */
    method RemoveOldest(fails: bool) returns (ok: bool)
      requires |slots| >= 1
      modifies `slots
      ensures ok == !fails
      ensures slots == if ok then WithGap(old(slots), |old(slots)| - 1, None) else old(slots)
    {
      OldestRemoved(slots);
      var r := Remove(|slots| - 1, fails);
      ok := !r.Failed?;
    }

    /** One rename of the rotation: slot n moves up into the gap above it. A missing slot is no
        failure, and the rename never meets a taken slot. */
    method MoveUp(n: nat, fails: bool, ghost before: Slots) returns (ok: bool)
      requires n + 1 < |before| && slots == WithGap(before, n + 1, None)
      modifies this
      ensures ok == !fails
      ensures slots == WithGap(before, if ok then n else n + 1, None)
      ensures overwrites == old(overwrites)
    {
      GapMovesDown(before, n);
      var r := Rename(n, n + 1, fails);
      ok := !r.Failed?;
    }

    /** A rename that fails at slot n leaves the gap right above. */
    static lemma StoppedAt(before: Slots, n: nat)
      requires |before| >= 2 && n + 1 < |before|
      ensures Rotated(before, Some(|before| - 1 - n)) == RotateResult(WithGap(before, n + 1, None), false)
    {
    }

    static lemma NotStopped(before: Slots, failAt: Option<nat>)
      requires |before| >= 2 && (failAt.None? || failAt.value >= |before|)
      ensures Rotated(before, failAt) == RotateResult(WithGap(before, 0, None), true)
    {
    }

    /** `rotateLogFile`. */
    method RotateLogFile(failAt: Option<nat>) returns (ok: bool)
      requires |slots| >= 2
      modifies this
      ensures RotateResult(slots, ok) == Rotated(old(slots), failAt)
      ensures overwrites == old(overwrites)
    {
      ghost var before := slots;
      var maxLogBackups := |slots| - 1;
      ok := RemoveOldest(failAt == Some(0));
      if !ok { return; }
      for n := maxLogBackups downto 1
        invariant slots == WithGap(before, n, None)
        invariant failAt.None? || failAt.value > maxLogBackups - n
        invariant overwrites == old(overwrites)
      {
        ok := MoveUp(n, failAt == Some(maxLogBackups - n), before);
        if !ok {
          StoppedAt(before, n);
          return;
        }
      }
      ok := MoveUp(0, failAt == Some(maxLogBackups), before);
      if ok { NotStopped(before, failAt); } else { StoppedAt(before, 0); }
    }
  }

  class RotatingWriter {
    const limits: Limits
    const dir: LogDir
    var open: bool
    var size: nat

    constructor (limits: Limits, dir: LogDir, size: nat)
      ensures this.limits == limits && this.dir == dir && this.open && this.size == size
    {
      this.limits, this.dir, this.open, this.size := limits, dir, true, size;
    }

    /** The log as the state machine sees it. */
    ghost function State(): Log
      reads this, dir
    {
      Log(dir.slots, On(open, size))
    }

    /** `Close`: the handle is closed even when closing reports an error or has been done before. */
    method Close(fails: bool) returns (ok: bool)
      modifies `open
      ensures ok == (old(open) && !fails)
      ensures !open
    {
      ok := open && !fails;
      open := false;
    }

    method Rotate(faults: WriteFaults) returns (ok: bool)
      requires Valid(limits, State())
      modifies this, dir
      ensures State() == AfterRotate(limits, old(State()), faults)
      ensures ok == open
      ensures dir.overwrites == old(dir.overwrites)
    {
      ok := Close(faults.close);
      if !ok { return; }
      ok := dir.RotateLogFile(faults.rotate);
      if !ok { return; }
      ok := dir.OpenForAppend(faults.reopen);
      if !ok { return; }
      open := true;
      size := 0;
    }

    method Write(p: Bytes, faults: WriteFaults) returns (n: nat, ok: bool)
      requires Valid(limits, State())
      modifies this, dir
      ensures WriteResult(State(), n, ok) == AfterWrite(limits, old(State()), p, faults)
      ensures dir.overwrites == old(dir.overwrites)
    {
      if size > 0 && size + |p| > limits.max {
        var rotated := Rotate(faults);
        if !rotated {
          return 0, false;
        }
      }
      if !open {
        return 0, false;
      }
      n := if faults.accepted <= |p| then faults.accepted else |p|;
      dir.slots := dir.slots[0 := Some(dir.slots[0].value + p[..n])];
      size := size + n;
      ok := n == |p|;
    }
  }

  /** `openRotatingWriter`. */
  method OpenRotatingWriter(limits: Limits, dir: LogDir, faults: OpenFaults) returns (w: RotatingWriter?)
    requires limits.backups >= 1 && |dir.slots| == limits.backups + 1
    modifies dir
    ensures w != null ==> fresh(w) && w.limits == limits && w.dir == dir
    ensures AfterOpen(limits, old(dir.slots), faults) ==
              Log(dir.slots, if w == null then Off else On(w.open, w.size))
    ensures dir.overwrites == old(dir.overwrites)
  {
    if faults.mkdir { return null; }
    if !faults.stat && dir.slots[0].Some? && |dir.slots[0].value| >= limits.max {
      var rotated := dir.RotateLogFile(faults.rotate);
      if !rotated { return null; }
    }
    var ok := dir.OpenForAppend(faults.open);
    if !ok || faults.fstat { return null; }
    w := new RotatingWriter(limits, dir, |dir.slots[0].value|);
  }

  /** The file side of `vlog.Logger`. */
  class Logger {
    const limits: Limits
    const dir: LogDir
    var file: RotatingWriter?

    ghost predicate Consistent()
      reads this, file
    {
      file != null ==> file.dir == dir && file.limits == limits
    }

    ghost function State(): Log
      reads this, file, dir
    {
      Log(dir.slots, if file == null then Off else On(file.open, file.size))
    }

    /** `New` with a log path: a boot, whatever state the last one left the directory in. */
    constructor (limits: Limits, dir: LogDir, faults: OpenFaults, ghost before: Log)
      requires Valid(limits, before) && before.slots == dir.slots
      modifies dir
      ensures this.limits == limits && this.dir == dir && Consistent()
      ensures file != null ==> fresh(file)
      ensures State() == Step(limits, before, Boot(faults))
      ensures dir.overwrites == old(dir.overwrites)
    {
      this.limits, this.dir, this.file := limits, dir, null;
      new;
      file := OpenRotatingWriter(limits, dir, faults);
    }

    /** `logf`: one `Write` for the whole line, its result ignored. */
    method Logf(line: Bytes, faults: WriteFaults)
      requires Consistent() && Valid(limits, State())
      modifies file, dir
      ensures Consistent() && State() == Step(limits, old(State()), Event.Write(line, faults))
      ensures dir.overwrites == old(dir.overwrites)
    {
      if file != null {
        var _, _ := file.Write(line, faults);
      }
    }

    method Close(fails: bool)
      requires Consistent() && Valid(limits, State())
      modifies file
      ensures Consistent() && State() == Step(limits, old(State()), Event.Close)
    {
      if file != null {
        var _ := file.Close(fails);
      }
    }
  }
}
