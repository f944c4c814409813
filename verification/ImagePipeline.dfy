/** The build-or-reuse pipeline of cmd/void-initfs/main.go and image.go in a run without signals: any
    step may fail, and the deferred unwind gives the host back. */
module ImagePipeline {
  import opened Options
  import opened HostState
  import opened CleanupStack

  datatype Layout = Bios | Efi

  function PartitionCount(l: Layout): nat {
    if l.Efi? then 4 else 3
  }

  function RootPartition(l: Layout): Device { Nbd(PartitionCount(l)) }

  function BootPartition(l: Layout): Device { Nbd(PartitionCount(l) - 1) }

  function EfiPartition(): Device { Nbd(2) }

  /** A partition as `sgdisk` is told to make it: its number and its name. */
  datatype PartitionSpec = PartitionSpec(num: nat, name: string)

  /** `partitionSpecs`. */
  function PartitionSpecs(l: Layout): seq<PartitionSpec> {
    match l
    case Efi =>
      [PartitionSpec(1, "BIOS boot"), PartitionSpec(2, "EFI"), PartitionSpec(3, "boot"), PartitionSpec(4, "root")]
    case Bios => [PartitionSpec(1, "BIOS boot"), PartitionSpec(2, "boot"), PartitionSpec(3, "root")]
  }

  /** The partition with this name in the table. */
  predicate IsNamed(l: Layout, dev: Device, name: string) {
    exists i | 0 <= i < |PartitionSpecs(l)| ::
      dev == Nbd(PartitionSpecs(l)[i].num) && PartitionSpecs(l)[i].name == name
  }

  /** Everything a run with this layout ever acquires, in order. */
  function Acquisitions(l: Layout, root: Path): seq<Acquisition> {
    [Attach, MakeTemp(root), MountOn(RootPartition(l), root), MountOn(BootPartition(l), root + ["boot"])]
    + if l.Efi? then [MountOn(EfiPartition(), root + ["boot", "efi"])] else []
  }

  /** The releases of a complete run in the order they are pushed. */
  function Plan(l: Layout, root: Path): seq<Release> {
    Releases(Acquisitions(l, root))
  }

  /** The first k acquisitions have been made, in order and from `initial`, and exactly their releases
      have been pushed. */
  ghost predicate OnTrack(m: Machine, stack: Stack, l: Layout, root: Path, initial: Host, k: nat)
    reads m, stack
  {
    && k <= |Acquisitions(l, root)|
    && stack.fns == Releases(Acquisitions(l, root)[..k])
    && m.host == AllAcquired(initial, Acquisitions(l, root)[..k])
    && AllPossible(initial, Acquisitions(l, root)[..k])
  }

  lemma OneMoreAcquired(l: Layout, root: Path, initial: Host, k: nat)
    requires k < |Acquisitions(l, root)|
    requires AllPossible(initial, Acquisitions(l, root)[..k])
    requires Possible(AllAcquired(initial, Acquisitions(l, root)[..k]), Acquisitions(l, root)[k])
    ensures var as0, as1, a := Acquisitions(l, root)[..k], Acquisitions(l, root)[..k + 1], Acquisitions(l, root)[k];
            && AllPossible(initial, as1)
            && AllAcquired(initial, as1) == Acquired(AllAcquired(initial, as0), a)
            && Releases(as1) == Releases(as0) + [ReleaseOf(a)]
  {
    var all := Acquisitions(l, root);
    assert all[..k + 1] == all[..k] + [all[k]];
    AcquireLast(initial, all[..k], all[k]);
  }

  // ---------------------------------------------------------------- steps

  datatype AttachResult = AttachResult(host: Host, ok: bool)

  /** How `attachImage` ends when its first command is number `at`. */
  function AttachOutcome(h: Host, fails: nat -> bool, at: nat): AttachResult {
    if fails(at) || fails(at + 1) || h.attached then AttachResult(h, false)
    else AttachResult(Acquired(h, Attach), !fails(at + 2))
  }

  /** The one way to leave something behind: `qemu-nbd -c` succeeded, and the wait for the device size
      then timed out before anything was pushed. */
  predicate TimedOutAttached(h: Host, fails: nat -> bool, at: nat) {
    !fails(at) && !fails(at + 1) && !h.attached && fails(at + 2)
  }

  /** `attachImage`: modprobe, `qemu-nbd -c`, wait for the size. */
  method AttachImage(m: Machine) returns (ok: bool)
    requires !m.failed
    modifies m`host, m`clock, m`failed
    ensures AttachResult(m.host, ok) == AttachOutcome(old(m.host), m.fails, old(m.clock))
    ensures ok ==> !m.failed
    ensures !ok ==> m.failed || old(m.host.attached)
  {
    ok := m.Command();
    if !ok { return; }
    ok := m.Command();
    if !ok || m.host.attached { return false; }
    m.host := Acquired(m.host, Attach);
    ok := m.Command();
  }

  /** `mountAt`, as the acquisition number k of the run. */
  method MountAt(dev: Device, dir: Path, m: Machine, stack: Stack,
                 ghost l: Layout, ghost root: Path, ghost initial: Host, ghost k: nat) returns (ok: bool)
    requires OnTrack(m, stack, l, root, initial, k)
    requires k < |Acquisitions(l, root)| && Acquisitions(l, root)[k] == MountOn(dev, dir)
    requires dev.Nbd? ==> m.host.attached
    requires !m.failed
    modifies m`host, m`clock, m`failed, stack
    ensures OnTrack(m, stack, l, root, initial, if ok then k + 1 else k)
    ensures m.host == if ok then Acquired(old(m.host), MountOn(dev, dir)) else old(m.host)
    ensures ok == !m.failed
  {
    ok := m.Command();
    if !ok { return; }
    OneMoreAcquired(l, root, initial, k);
    m.host := Acquired(m.host, MountOn(dev, dir));
    stack.Push(Unmount(dir));
  }

  /** `mount`: temp directory, root, /boot and, for EFI, /boot/efi, each pushed as it succeeds. */
  method MountImage(l: Layout, m: Machine, stack: Stack, tmp: Path, ghost initial: Host)
      returns (ok: bool, ghost k: nat)
    requires OnTrack(m, stack, l, tmp, initial, 1) && m.host.attached && FreshTemp(m.host, tmp)
    requires !m.failed
    modifies m`host, m`clock, m`failed, stack
    ensures OnTrack(m, stack, l, tmp, initial, k)
    ensures ok ==> k == |Acquisitions(l, tmp)|
    ensures ok ==> m.host.mounts == initial.mounts + PlannedMounts(l, tmp)
    ensures ok == !m.failed
  {
    k := 1;
    ok := m.Command();
    if !ok { return; }
    OneMoreAcquired(l, tmp, initial, 1);
    m.host := Acquired(m.host, MakeTemp(tmp));
    stack.Push(RemoveTree(tmp));
    k := 2;

    ok := MountAt(RootPartition(l), tmp, m, stack, l, tmp, initial, 2);
    if !ok { return; }
    k := 3;

    ok := m.Command();  // mkdir boot
    if !ok { return; }
    ok := MountAt(BootPartition(l), tmp + ["boot"], m, stack, l, tmp, initial, 3);
    if !ok { return; }
    k := 4;

    if l.Efi? {
      ok := m.Command();  // mkdir boot/efi
      if !ok { return; }
      ok := MountAt(EfiPartition(), tmp + ["boot", "efi"], m, stack, l, tmp, initial, 4);
      k := if ok then 5 else 4;
      if !ok { return; }
    }
    WholePlanMounts(l, initial, tmp, k);
  }

  lemma WholePlanMounts(l: Layout, initial: Host, root: Path, k: nat)
    requires k == |Acquisitions(l, root)|
    ensures AllAcquired(initial, Acquisitions(l, root)[..k]).mounts == initial.mounts + PlannedMounts(l, root)
  {
    CompleteRunMounts(l, initial, root);
    assert Acquisitions(l, root)[..k] == Acquisitions(l, root);
  }

  /** A stretch of pipeline steps that acquire nothing; the first failure ends it. */
  method PlainSteps(n: nat, m: Machine) returns (ok: bool)
    requires !m.failed
    modifies m`clock, m`failed
    ensures ok <==> forall i | old(m.clock) <= i < old(m.clock) + n :: !m.fails(i)
    ensures ok == !m.failed
  {
    ok := true;
    for k := 0 to n
      invariant ok && !m.failed && m.clock == old(m.clock) + k
      invariant forall i | old(m.clock) <= i < old(m.clock) + k :: !m.fails(i)
    {
      ok := m.Command();
      if !ok { return; }
    }
  }

  datatype Config = Build(layout: Layout) | Reuse(requested: Option<Layout>, partitions: nat, reinstall: bool)

  /** `detectLayout`: the partition count decides, anything but 3 or 4 is refused. */
  function Detected(partitions: nat): Option<Layout> {
    if partitions == PartitionCount(Bios) then Some(Bios)
    else if partitions == PartitionCount(Efi) then Some(Efi)
    else None
  }

  /** An image whose partitions fit no layout, or not the one asked for. */
  predicate WrongLayout(requested: Option<Layout>, partitions: nat) {
    Detected(partitions).None? || (requested.Some? && requested != Detected(partitions))
  }

  predicate Refuses(cfg: Config) {
    cfg.Reuse? && WrongLayout(cfg.requested, cfg.partitions)
  }

  // ---------------------------------------------------------------- the pipeline

  /** A complete run lets go of children before parents, then of the temp directory, then of the
      device; a run that fails half-way lets go of the tail of this list. */
  lemma ReleaseOrder(root: Path)
    ensures Reversed(Plan(Efi, root)) ==
            [Unmount(root + ["boot", "efi"]), Unmount(root + ["boot"]), Unmount(root), RemoveTree(root), Detach]
    ensures Reversed(Plan(Bios, root)) ==
            [Unmount(root + ["boot"]), Unmount(root), RemoveTree(root), Detach]
  {
    assert |Plan(Efi, root)| == 5 && |Plan(Bios, root)| == 4;
  }

  /** The device files are those of the partitions with these names, names are given once, and an image is
      recognised by the length of its table. */
  lemma PartitionsByName(l: Layout)
    ensures IsNamed(l, RootPartition(l), "root") && IsNamed(l, BootPartition(l), "boot")
    ensures l.Efi? ==> IsNamed(l, EfiPartition(), "EFI")
    ensures forall dev, other, name | IsNamed(l, dev, name) && IsNamed(l, other, name) :: dev == other
    ensures forall n: nat :: Detected(n) == Some(l) <==> n == |PartitionSpecs(l)|
    ensures forall root: Path, m | m in PlannedMounts(l, root) ::
              IsNamed(l, m.dev, if m.dir == root then "root" else if m.dir == root + ["boot"] then "boot" else "EFI")
  {
    var specs := PartitionSpecs(l);
    var n := |specs|;
    assert specs[n - 1] == PartitionSpec(n, "root") && specs[n - 2] == PartitionSpec(n - 1, "boot");
    assert l.Efi? ==> specs[1] == PartitionSpec(2, "EFI");
    assert "BIOS boot"[0] == 'B' && "EFI"[0] == 'E' && "boot"[0] == 'b' && "root"[0] == 'r';
  }

  /** What a complete run has mounted, and where: the root partition, /boot inside it and, for EFI,
      /boot/efi inside that. */
  function PlannedMounts(l: Layout, root: Path): seq<Mount> {
    if l.Efi? then [Mount(Nbd(4), root), Mount(Nbd(3), root + ["boot"]), Mount(Nbd(2), root + ["boot", "efi"])]
    else [Mount(Nbd(3), root), Mount(Nbd(2), root + ["boot"])]
  }

  lemma CompleteRunMounts(l: Layout, h: Host, root: Path)
    ensures AllAcquired(h, Acquisitions(l, root)).mounts == h.mounts + PlannedMounts(l, root)
  {
    MountsOf(h, Acquisitions(l, root));
    var efi := [MountOn(Nbd(4), root), MountOn(Nbd(3), root + ["boot"]), MountOn(Nbd(2), root + ["boot", "efi"])];
    var bios := [MountOn(Nbd(3), root), MountOn(Nbd(2), root + ["boot"])];
    MountsOfThree(efi[0], efi[1], efi[2]);
    MountsOfTwo(bios[0], bios[1]);
    MountsAfterTwo(root, efi);
    MountsAfterTwo(root, bios);
    assert Acquisitions(Efi, root) == [Attach, MakeTemp(root)] + efi;
    assert Acquisitions(Bios, root) == [Attach, MakeTemp(root)] + bios;
  }

  /** The mounts among some acquisitions. */
  function MountsIn(acquisitions: seq<Acquisition>): seq<Mount> {
    if acquisitions == [] then []
    else
      var a := acquisitions[0];
      (if a.MountOn? then [Mount(a.dev, a.dir)] else []) + MountsIn(acquisitions[1..])
  }

  lemma {:induction false} MountsOf(h: Host, acquisitions: seq<Acquisition>)
    ensures AllAcquired(h, acquisitions).mounts == h.mounts + MountsIn(acquisitions)
    decreases |acquisitions|
  {
    if acquisitions != [] {
      MountsOf(Acquired(h, acquisitions[0]), acquisitions[1..]);
    }
  }

  lemma MountsInFirst(a: Acquisition, rest: seq<Acquisition>)
    ensures MountsIn([a] + rest) == (if a.MountOn? then [Mount(a.dev, a.dir)] else []) + MountsIn(rest)
  {
    assert ([a] + rest)[1..] == rest;
  }

  lemma MountsOfTwo(c: Acquisition, d: Acquisition)
    requires c.MountOn? && d.MountOn?
    ensures MountsIn([c, d]) == [Mount(c.dev, c.dir), Mount(d.dev, d.dir)]
  {
    MountsInFirst(d, []);
    MountsInFirst(c, [d]);
    assert [d] + [] == [d] && [c] + [d] == [c, d];
  }

  lemma MountsOfThree(c: Acquisition, d: Acquisition, e: Acquisition)
    requires c.MountOn? && d.MountOn? && e.MountOn?
    ensures MountsIn([c, d, e]) == [Mount(c.dev, c.dir), Mount(d.dev, d.dir), Mount(e.dev, e.dir)]
  {
    MountsOfTwo(d, e);
    MountsInFirst(c, [d, e]);
    assert [c] + [d, e] == [c, d, e];
  }

  lemma MountsAfterTwo(root: Path, mounts: seq<Acquisition>)
    ensures MountsIn([Attach, MakeTemp(root)] + mounts) == MountsIn(mounts)
  {
    MountsInFirst(MakeTemp(root), mounts);
    MountsInFirst(Attach, [MakeTemp(root)] + mounts);
    assert [Attach] + ([MakeTemp(root)] + mounts) == [Attach, MakeTemp(root)] + mounts;
  }

  /** Right after attaching and pushing the detach, or before anything at all. */
  lemma FirstOnTrack(l: Layout, root: Path, h: Host)
    ensures AllAcquired(h, Acquisitions(l, root)[..0]) == h && AllPossible(h, Acquisitions(l, root)[..0])
    ensures Releases(Acquisitions(l, root)[..0]) == []
    ensures Possible(h, Attach) ==>
              && AllAcquired(h, Acquisitions(l, root)[..1]) == Acquired(h, Attach)
              && AllPossible(h, Acquisitions(l, root)[..1])
              && Releases(Acquisitions(l, root)[..1]) == [Detach]
  {
    var all := Acquisitions(l, root);
    assert all[..0] == [] && all[0] == Attach;
    if Possible(h, Attach) {
      OneMoreAcquired(l, root, h, 0);
    }
  }

  /** `runBuild`. The ghost results tell how far the acquisitions came, and whether the device was left
      attached without anything pushed. */
  method RunBuild(l: Layout, m: Machine, stack: Stack, tmp: Path) returns (ok: bool, ghost k: nat, ghost leaked: bool)
    requires Valid(m.host) && FreshTemp(m.host, tmp) && stack.fns == []
    requires !m.failed
    modifies m`host, m`clock, m`failed, stack
    ensures leaked == (!m.fails(old(m.clock)) && TimedOutAttached(old(m.host), m.fails, old(m.clock) + 1))
    ensures !leaked ==> OnTrack(m, stack, l, tmp, old(m.host), k)
    ensures leaked ==> !ok && stack.fns == [] && m.host == Acquired(old(m.host), Attach)
    ensures ok ==> !m.failed
    ensures !ok ==> m.failed || old(m.host.attached)
    ensures ok ==> k == |Acquisitions(l, tmp)|
  {
    ghost var initial := m.host;
    k, leaked := 0, false;
    FirstOnTrack(l, tmp, initial);
    ok := m.Command();  // createImage
    if !ok { return; }
    ok := AttachImage(m);
    if !ok {
      leaked := TimedOutAttached(initial, m.fails, old(m.clock) + 1);
      return;
    }
    stack.Push(Detach);
    k := 1;
    ok := PlainSteps(2, m);  // partition, makeFilesystems
    if !ok { return; }
    ok, k := MountImage(l, m, stack, tmp, initial);
    if !ok { return; }
    ok := PlainSteps(9, m);  // installRepoKeys ... installBootloader
  }

  /** `runReuse`. */
  method RunReuse(requested: Option<Layout>, partitions: nat, reinstall: bool, m: Machine, stack: Stack, tmp: Path)
      returns (ok: bool, ghost l: Layout, ghost k: nat, ghost leaked: bool)
    requires Valid(m.host) && FreshTemp(m.host, tmp) && stack.fns == []
    requires !m.failed
    modifies m`host, m`clock, m`failed, stack
    ensures leaked == TimedOutAttached(old(m.host), m.fails, old(m.clock))
    ensures !leaked ==> OnTrack(m, stack, l, tmp, old(m.host), k)
    ensures leaked ==> !ok && stack.fns == [] && m.host == Acquired(old(m.host), Attach)
    ensures ok ==> !m.failed
    ensures !ok ==> m.failed || old(m.host.attached) || WrongLayout(requested, partitions)
    ensures ok ==> k == |Acquisitions(l, tmp)| && Detected(partitions) == Some(l)
    ensures ok ==> requested.None? || requested == Some(l)
  {
    ghost var initial := m.host;
    k, leaked := 0, false;
    l := if Detected(partitions).Some? then Detected(partitions).value else Bios;
    FirstOnTrack(l, tmp, initial);
    ok := AttachImage(m);
    if !ok {
      leaked := TimedOutAttached(initial, m.fails, old(m.clock));
      return;
    }
    stack.Push(Detach);
    k := 1;
    ok := PlainSteps(2, m);  // partprobe, udevadm settle
    if !ok { return; }
    var detected := Detected(partitions);
    if detected.None? || (requested.Some? && requested != detected) { return false, l, k, false; }
    ok, k := MountImage(detected.value, m, stack, tmp, initial);
    if !ok { return; }
    ok := PlainSteps(if reinstall then 3 else 2, m);
  }

  /** Attaching timed out in this run, whose preflight is command number `at`. */
  predicate LeavesAttached(cfg: Config, h: Host, fails: nat -> bool, at: nat) {
    && !fails(at)
    && (cfg.Build? ==> !fails(at + 1))
    && TimedOutAttached(h, fails, if cfg.Build? then at + 2 else at + 1)
  }

  /** Some of the releases, in the reverse of the order in which the plan acquires. */
  ghost predicate ReleasedInReverse(before: seq<Release>, after: seq<Release>, l: Layout, tmp: Path, k: nat) {
    k <= |Acquisitions(l, tmp)| && after == before + Reversed(Releases(Acquisitions(l, tmp)[..k]))
  }

  /** What the deferred unwind of a run on track leads to. */
  lemma OnTrackUnwinds(initial: Host, acquired: seq<Acquisition>)
    requires Valid(initial) && AllPossible(initial, acquired)
    ensures Unwound(AllAcquired(initial, acquired), Releases(acquired)) == initial
    ensures SafeUnwind(AllAcquired(initial, acquired), Releases(acquired))
  {
    NestedUnwindRestores(initial, acquired, []);
    assert [] + Releases(acquired) == Releases(acquired);
  }

  /** The body of `run`: preflight, then building or reusing. */
  method Pipeline(cfg: Config, m: Machine, stack: Stack, tmp: Path)
      returns (ok: bool, ghost l: Layout, ghost k: nat, ghost leaked: bool)
    requires Valid(m.host) && FreshTemp(m.host, tmp) && stack.fns == []
    requires !m.failed
    modifies m`host, m`clock, m`failed, stack
    ensures leaked == LeavesAttached(cfg, old(m.host), m.fails, old(m.clock))
    ensures !leaked ==> OnTrack(m, stack, l, tmp, old(m.host), k)
    ensures leaked ==> !ok && stack.fns == [] && m.host == Acquired(old(m.host), Attach)
    ensures ok ==> !m.failed
    ensures !ok ==> m.failed || old(m.host.attached) || Refuses(cfg)
    ensures ok ==> k == |Acquisitions(l, tmp)|
    ensures ok ==> if cfg.Build? then l == cfg.layout else Detected(cfg.partitions) == Some(l)
  {
    l, k, leaked := if cfg.Build? then cfg.layout else Bios, 0, false;
    FirstOnTrack(l, tmp, m.host);
    ok := m.Command();  // preflight
    if !ok { return; }
    match cfg
    case Build(layout) => ok, k, leaked := RunBuild(layout, m, stack, tmp);
    case Reuse(requested, partitions, reinstall) =>
      ok, l, k, leaked := RunReuse(requested, partitions, reinstall, m, stack, tmp);
  }

  /** `run`: the pipeline and the deferred unwind. The host is given back exactly as it was if and only
      if the wait for the device size did not time out right after `qemu-nbd -c`; every release ran at a
      safe moment, in the reverse of the order of acquisition. */
  method Run(cfg: Config, m: Machine, tmp: Path) returns (ok: bool, ghost l: Layout, ghost k: nat)
    requires Valid(m.host) && FreshTemp(m.host, tmp)
    requires !m.failed
    modifies m
    ensures m.host == old(m.host) <==> !LeavesAttached(cfg, old(m.host), m.fails, old(m.clock))
    ensures m.host != old(m.host) ==> !ok && m.host == Acquired(old(m.host), Attach)
    ensures m.unsafe == old(m.unsafe)
    ensures ok ==> !m.failed
    ensures !ok ==> m.failed || old(m.host.attached) || Refuses(cfg)
    ensures ReleasedInReverse(old(m.released), m.released, l, tmp, k)
    ensures ok ==> k == |Acquisitions(l, tmp)|
    ensures ok ==> if cfg.Build? then l == cfg.layout else Detected(cfg.partitions) == Some(l)
  {
    var stack := new Stack();
    ghost var initial := m.host;
    ghost var leaked;
    ok, l, k, leaked := Pipeline(cfg, m, stack, tmp);
    if leaked {
      k := 0;
      FirstOnTrack(l, tmp, initial);
    } else {
      OnTrackUnwinds(initial, Acquisitions(l, tmp)[..k]);
    }
    stack.Unwind(m);
  }
}
