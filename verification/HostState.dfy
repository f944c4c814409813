/** The host state that building an image changes: the nbd attachment, mounts and temp directories
    (cmd/void-initfs/image.go), what releasing them does, and why releasing in reverse order of
    acquisition is always safe and undoes everything. */
module HostState {

  type Path = seq<string>

  /** Partition n of the hardcoded nbd device, or some other device of the host. */
  datatype Device = Nbd(partition: nat) | Other(name: string)

  datatype Mount = Mount(dev: Device, dir: Path)

  /** `mounts` in the order they were made; `ruined` are the devices whose contents a badly timed
      release destroyed: their tree was deleted while mounted, or they were unplugged while mounted. */
  datatype Host = Host(attached: bool, mounts: seq<Mount>, temps: set<Path>, ruined: set<Device>)

  /** Partitions of the nbd device are mounted only while it is attached. */
  predicate Valid(h: Host) {
    h.attached || forall i | 0 <= i < |h.mounts| :: h.mounts[i].dev.Other?
  }

  predicate AtOrUnder(dir: Path, root: Path) {
    root <= dir
  }

  // ---------------------------------------------------------------- releases

  datatype Release = Detach | RemoveTree(root: Path) | Unmount(dir: Path)

  /** The position of the topmost mount at `dir`, or -1. */
  function MountedAt(mounts: seq<Mount>, dir: Path): (i: int)
    ensures -1 <= i < |mounts|
    ensures i >= 0 ==> mounts[i].dir == dir
    ensures forall j | i < j < |mounts| :: mounts[j].dir != dir
  {
    if mounts == [] then -1
    else if mounts[|mounts| - 1].dir == dir then |mounts| - 1
    else MountedAt(mounts[..|mounts| - 1], dir)
  }

  /** Something was mounted below `dir` after the mount at position i: the kernel says busy. */
  predicate Busy(mounts: seq<Mount>, i: int, dir: Path) {
    exists j | 0 <= j < |mounts| :: j > i && AtOrUnder(mounts[j].dir, dir)
  }

  function DevicesUnder(mounts: seq<Mount>, root: Path): set<Device> {
    set i | 0 <= i < |mounts| && AtOrUnder(mounts[i].dir, root) :: mounts[i].dev
  }

  function NbdDevices(mounts: seq<Mount>): set<Device> {
    set i | 0 <= i < |mounts| && mounts[i].dev.Nbd? :: mounts[i].dev
  }

  /** What a release does whenever it is run: `umount` of a busy or absent mount fails and is only
      logged, deleting a tree deletes what is mounted in it, and detaching does not ask. */
  function Released(h: Host, r: Release): Host {
    match r
    case Detach => h.(attached := false, ruined := h.ruined + NbdDevices(h.mounts))
    case RemoveTree(root) =>
      var lost := DevicesUnder(h.mounts, root);
      if lost == {} then h.(temps := h.temps - {root}) else h.(ruined := h.ruined + lost)
    case Unmount(dir) =>
      var i := MountedAt(h.mounts, dir);
      if i < 0 || Busy(h.mounts, i, dir) then h
      else h.(mounts := h.mounts[..i] + h.mounts[i + 1..])
  }

  /** The release is run at a safe moment: nothing below an unmounted directory, nothing mounted at or
      below a deleted tree, no partition mounted when the device is detached. */
  predicate SafeNow(h: Host, r: Release) {
    match r
    case Detach => h.attached && NbdDevices(h.mounts) == {}
    case RemoveTree(root) => root in h.temps && DevicesUnder(h.mounts, root) == {}
    case Unmount(dir) => var i := MountedAt(h.mounts, dir); i >= 0 && !Busy(h.mounts, i, dir)
  }

  /** The host after the releases have run, last pushed first. */
  function Unwound(h: Host, fns: seq<Release>): Host
    decreases |fns|
  {
    if fns == [] then h else Unwound(Released(h, fns[|fns| - 1]), fns[..|fns| - 1])
  }

  /** Each release runs at a safe moment when they are run last pushed first. */
  predicate SafeUnwind(h: Host, fns: seq<Release>)
    decreases |fns|
  {
    fns == [] || (SafeNow(h, fns[|fns| - 1]) && SafeUnwind(Released(h, fns[|fns| - 1]), fns[..|fns| - 1]))
  }

  // ---------------------------------------------------------------- acquisitions

  datatype Acquisition = Attach | MakeTemp(root: Path) | MountOn(dev: Device, dir: Path)

  /** When the acquisition can succeed: the device is free, the temp directory is a fresh one, the
      partition to mount exists. */
  predicate Possible(h: Host, a: Acquisition) {
    match a
    case Attach => !h.attached
    case MakeTemp(root) => FreshTemp(h, root)
    case MountOn(dev, dir) => dev.Nbd? ==> h.attached
  }

  /** What `os.MkdirTemp` promises of the name it picks. */
  predicate FreshTemp(h: Host, root: Path) {
    root !in h.temps && forall i | 0 <= i < |h.mounts| :: !AtOrUnder(h.mounts[i].dir, root)
  }

  function Acquired(h: Host, a: Acquisition): Host {
    match a
    case Attach => h.(attached := true)
    case MakeTemp(root) => h.(temps := h.temps + {root})
    case MountOn(dev, dir) => h.(mounts := h.mounts + [Mount(dev, dir)])
  }

  /** The callback pushed right after the acquisition. */
  function ReleaseOf(a: Acquisition): Release {
    match a
    case Attach => Detach
    case MakeTemp(root) => RemoveTree(root)
    case MountOn(_, dir) => Unmount(dir)
  }

  /** A release run right after its acquisition is safe and restores the host exactly. */
  lemma ReleaseUndoes(h: Host, a: Acquisition)
    requires Valid(h) && Possible(h, a)
    ensures Valid(Acquired(h, a))
    ensures SafeNow(Acquired(h, a), ReleaseOf(a))
    ensures Released(Acquired(h, a), ReleaseOf(a)) == h
  {
    match a
    case Attach =>
      assert NbdDevices(h.mounts) == {};
    case MakeTemp(root) =>
      assert DevicesUnder(h.mounts, root) == {};
      assert h.temps + {root} - {root} == h.temps;
    case MountOn(dev, dir) =>
      UnmountsTheLast(h.mounts, Mount(dev, dir));
  }

  lemma UnmountsTheLast(mounts: seq<Mount>, m: Mount)
    ensures var more, i := mounts + [m], |mounts|;
            MountedAt(more, m.dir) == i && !Busy(more, i, m.dir) && more[..i] + more[i + 1..] == mounts
  {
  }

  /** Pushing the release of one more acquisition leaves the outcome of unwinding unchanged. */
  lemma PushKeepsUnwinding(h: Host, a: Acquisition, fns: seq<Release>)
    requires Valid(h) && Possible(h, a)
    ensures Unwound(Acquired(h, a), fns + [ReleaseOf(a)]) == Unwound(h, fns)
    ensures SafeUnwind(Acquired(h, a), fns + [ReleaseOf(a)]) == SafeUnwind(h, fns)
  {
    ReleaseUndoes(h, a);
    var all := fns + [ReleaseOf(a)];
    assert all[..|all| - 1] == fns && all[|all| - 1] == ReleaseOf(a);
  }

  // ---------------------------------------------------------------- nesting of any depth

  function AllAcquired(h: Host, acquisitions: seq<Acquisition>): Host
    decreases |acquisitions|
  {
    if acquisitions == [] then h else AllAcquired(Acquired(h, acquisitions[0]), acquisitions[1..])
  }

  predicate AllPossible(h: Host, acquisitions: seq<Acquisition>)
    decreases |acquisitions|
  {
    acquisitions == [] ||
    (Possible(h, acquisitions[0]) && AllPossible(Acquired(h, acquisitions[0]), acquisitions[1..]))
  }

  /** One acquisition more, at the end. */
  lemma {:induction false} AcquireLast(h: Host, acquisitions: seq<Acquisition>, a: Acquisition)
    ensures AllPossible(h, acquisitions + [a]) <==>
            AllPossible(h, acquisitions) && Possible(AllAcquired(h, acquisitions), a)
    ensures AllAcquired(h, acquisitions + [a]) == Acquired(AllAcquired(h, acquisitions), a)
    decreases |acquisitions|
  {
    var more := acquisitions + [a];
    if acquisitions == [] {
      assert more[1..] == [];
    } else {
      assert more[1..] == acquisitions[1..] + [a];
      AcquireLast(Acquired(h, acquisitions[0]), acquisitions[1..], a);
    }
  }

  lemma {:induction false} AcquiredStaysValid(h: Host, acquisitions: seq<Acquisition>)
    requires Valid(h) && AllPossible(h, acquisitions)
    ensures Valid(AllAcquired(h, acquisitions))
    decreases |acquisitions|
  {
    if acquisitions != [] {
      ReleaseUndoes(h, acquisitions[0]);
      AcquiredStaysValid(Acquired(h, acquisitions[0]), acquisitions[1..]);
    }
  }

  /** Acquiring only adds. */
  lemma {:induction false} AcquiringGrows(h: Host, acquisitions: seq<Acquisition>)
    requires AllPossible(h, acquisitions)
    ensures var after := AllAcquired(h, acquisitions);
            && (h.attached ==> after.attached) && h.temps <= after.temps && |h.mounts| <= |after.mounts|
            && after.ruined == h.ruined
            && (after == h <==> acquisitions == [])
    decreases |acquisitions|
  {
    if acquisitions != [] {
      AcquiringGrows(Acquired(h, acquisitions[0]), acquisitions[1..]);
    }
  }

  /** A release run while a later acquisition that is no mount is in place: it is safe, and what it
      leaves is what that acquisition alone would have led to. */
  lemma ReleaseBelow(h: Host, x: Acquisition, y: Acquisition)
    requires Valid(h) && Possible(h, x) && Possible(Acquired(h, x), y) && !y.MountOn?
    ensures SafeNow(Acquired(Acquired(h, x), y), ReleaseOf(x))
    ensures Possible(h, y) && Released(Acquired(Acquired(h, x), y), ReleaseOf(x)) == Acquired(h, y)
  {
    ReleaseUndoes(h, x);
    if x.MakeTemp? && y.MakeTemp? {
      assert h.temps + {x.root} + {y.root} - {x.root} == h.temps + {y.root};
    } else if x.MountOn? && y.MakeTemp? {
      forall i | 0 <= i < |h.mounts| ensures !AtOrUnder(h.mounts[i].dir, y.root) {
        assert Acquired(h, x).mounts[i] == h.mounts[i];
      }
    }
  }

  function Releases(acquisitions: seq<Acquisition>): seq<Release> {
    seq(|acquisitions|, i requires 0 <= i < |acquisitions| => ReleaseOf(acquisitions[i]))
  }

  /** However deeply the acquisitions nest: unwinding runs every release at a safe moment and gives
      back the host as it was. */
  lemma {:induction false} NestedUnwindRestores(h: Host, acquisitions: seq<Acquisition>, fns: seq<Release>)
    requires Valid(h) && AllPossible(h, acquisitions)
    ensures Valid(AllAcquired(h, acquisitions))
    ensures Unwound(AllAcquired(h, acquisitions), fns + Releases(acquisitions)) == Unwound(h, fns)
    ensures SafeUnwind(AllAcquired(h, acquisitions), fns + Releases(acquisitions)) == SafeUnwind(h, fns)
    decreases |acquisitions|
  {
    if acquisitions == [] {
      assert fns + Releases(acquisitions) == fns;
    } else {
      var a := acquisitions[0];
      ReleaseUndoes(h, a);
      PushKeepsUnwinding(h, a, fns);
      NestedUnwindRestores(Acquired(h, a), acquisitions[1..], fns + [ReleaseOf(a)]);
      assert fns + [ReleaseOf(a)] + Releases(acquisitions[1..]) == fns + Releases(acquisitions);
    }
  }

  /** Order matters: with the same three releases run first pushed first, the partition is ruined and the
      temp directory is never removed, although nothing is mounted in the end. */
  lemma WrongOrderRuins(root: Path)
    ensures var h := Host(true, [Mount(Nbd(3), root)], {root}, {});
            var end := Released(Released(Released(h, Detach), RemoveTree(root)), Unmount(root));
            Nbd(3) in end.ruined && root in end.temps && end.mounts == []
  {
    var h := Host(true, [Mount(Nbd(3), root)], {root}, {});
    assert h.mounts[0].dev in NbdDevices(h.mounts);
    assert h.mounts[0].dev in DevicesUnder(h.mounts, root);
  }
}
