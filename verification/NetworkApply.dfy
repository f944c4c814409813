/** `ApplyNetworkConfig` of cmd/void-init/network.go, with `enableService` and `disableService` of
    runit.go, working on the system in place. */
module NetworkApply {
  import opened Options
  import opened ManagedFile
  import opened Strings
  import opened Netmask
  import opened NetworkConfig
  import opened Repeats
  import ResolvConf

  // ---------------------------------------------------------------- a file written again and again

  /** What is left after an attempt to write the rendering that did not report success. */
  ghost predicate BrokenWrite(before: Option<string>, after: Option<string>, rendered: string) {
    exists outcome :: after == AfterWrite(before, Managed(before, rendered), outcome)
  }

  function Writing(rendered: string): Option<string> -> Option<string> {
    content => Some(Managed(content, rendered))
  }

  ghost function Breaking(rendered: string): (Option<string>, Option<string>) -> bool {
    (before, after) => BrokenWrite(before, after, rendered)
  }

  /** On success the rendering has been written so many times; on failure at most so many times, the last
      of them perhaps in part. */
  ghost predicate WrittenTimes(before: Option<string>, after: Option<string>, rendered: string, times: nat, ok: bool) {
    Stretch(Writing(rendered), Breaking(rendered), before, after, times, ok)
  }

  lemma WrittenNever(content: Option<string>, rendered: string, times: nat)
    ensures WrittenTimes(content, content, rendered, 0, true) && WrittenTimes(content, content, rendered, times, false)
  {
    StretchOfNone(Writing(rendered), Breaking(rendered), content, times);
  }

  lemma WrittenThen(before: Option<string>, middle: Option<string>, after: Option<string>, rendered: string,
                    first: nat, second: nat, times: nat, ok: bool)
    requires WrittenTimes(before, middle, rendered, first, true) && WrittenTimes(middle, after, rendered, second, ok)
    requires if ok then times == first + second else first + second <= times
    ensures WrittenTimes(before, after, rendered, times, ok)
  {
    StretchThen(Writing(rendered), Breaking(rendered), before, middle, after, first, second, times, ok);
  }

  /** However often it is written, a rendering with the marker leaves what one write leaves. */
  lemma {:induction false} WrittenOnceIsEnough(before: Option<string>, rendered: string, times: nat)
    requires Contains(rendered, MARKER) && times > 0
    ensures Repeated(Writing(rendered), before, times) == Some(Managed(before, rendered))
  {
    if times > 1 {
      WrittenOnceIsEnough(before, rendered, times - 1);
      LastWriterWins(before, rendered, rendered);
    }
  }

  /** How many of the entries write the configuration of dhcpcd. */
  function DynamicCount(entries: seq<Entry>): nat {
    if entries == [] then 0
    else
      var last := entries[|entries| - 1];
      DynamicCount(entries[..|entries| - 1]) + if last.OnInterface? && IsDynamic(last.subnet) then 1 else 0
  }

  lemma {:induction false} DynamicCountConcat(a: seq<Entry>, b: seq<Entry>)
    ensures DynamicCount(a + b) == DynamicCount(a) + DynamicCount(b)
  {
    if b == [] {
      assert a + b == a;
    } else {
      DynamicCountConcat(a, b[..|b| - 1]);
      assert (a + b)[..|a + b| - 1] == a + b[..|b| - 1];
    }
  }

  lemma DynamicCountOne(e: Entry)
    ensures DynamicCount([e]) == if e.OnInterface? && IsDynamic(e.subnet) then 1 else 0
  {
    assert [e][..0] == [];
  }

  /** The running system. `fails(n)` says whether the n-th operation fails, `fileFaults(n)` what goes
      wrong if it writes a file. */
  class System {
    const libs: Libs
    const fails: nat -> bool
    const fileFaults: nat -> Faults
    const dhcpcdTemplate: string
    const dhcpcdConf: File
    const resolvConf: File
    var clock: nat
    var ran: seq<Command>
    var dhcpcd: bool         // the service link exists
    ghost var faulted: bool  // some operation has failed

    constructor (libs: Libs, fails: nat -> bool, fileFaults: nat -> Faults, dhcpcdTemplate: string,
                 dhcpcdConf: File, resolvConf: File, dhcpcd: bool)
      ensures this.libs == libs && this.fails == fails && this.fileFaults == fileFaults
      ensures this.dhcpcdTemplate == dhcpcdTemplate
      ensures this.dhcpcdConf == dhcpcdConf && this.resolvConf == resolvConf
      ensures clock == 0 && ran == [] && this.dhcpcd == dhcpcd && !faulted
    {
      this.libs, this.fails, this.fileFaults, this.dhcpcdTemplate := libs, fails, fileFaults, dhcpcdTemplate;
      this.dhcpcdConf, this.resolvConf, this.dhcpcd := dhcpcdConf, resolvConf, dhcpcd;
      clock, ran, faulted := 0, [], false;
    }

    method Operation() returns (ok: bool)
      modifies `clock, `faulted
      ensures ok == !fails(old(clock)) && clock == old(clock) + 1 && faulted == (!ok || old(faulted))
    {
      ok := !fails(clock);
      clock := clock + 1;
      if !ok { faulted := true; }
    }

    method WriteManaged(file: File, rendered: string) returns (ok: bool)
      modifies `clock, `faulted, file
      ensures faulted == (!ok || old(faulted))
      ensures ok ==> file.content == Writing(rendered)(old(file.content))
      ensures Breaking(rendered)(old(file.content), file.content)
    {
      var faults := fileFaults(clock);
      ghost var before := file.content;
      ok := file.WriteManagedFile(rendered, faults);
      ghost var outcome := if faults.readFails then NotOpened else faults.write;
      assert file.content == AfterWrite(before, Managed(before, rendered), outcome);
      clock := clock + 1;
      if !ok { faulted := true; }
    }

    /** Runs an `ip` command; it is recorded whether or not it succeeds. */
    method Run(c: Command) returns (ok: bool)
      modifies `clock, `ran, `faulted
      ensures ran == old(ran) + [c] && faulted == (!ok || old(faulted))
    {
      ran := ran + [c];
      ok := Operation();
    }

    /** `enableService("dhcpcd")`: nothing to do when Lstat sees the link, otherwise Symlink, which
        refuses to replace one. */
    method EnableDhcpcd() returns (ok: bool)
      modifies `clock, `dhcpcd, `faulted
      ensures ok == if old(dhcpcd) then !fails(old(clock)) else !fails(old(clock) + 1)
      ensures dhcpcd == (ok || old(dhcpcd))
      ensures !ok || old(faulted) ==> faulted
    {
      var stat := Operation();
      if dhcpcd && stat { return true; }
      ok := Operation();
      if dhcpcd { return false; }
      dhcpcd := ok;
    }

    /** `disableService("dhcpcd")`: a missing link is fine. */
    method DisableDhcpcd() returns (ok: bool)
      modifies `clock, `dhcpcd, `faulted
      ensures ok == !fails(old(clock))
      ensures dhcpcd == (!ok && old(dhcpcd)) && faulted == (!ok || old(faulted))
    {
      ok := Operation();
      if ok { dhcpcd := false; }
    }

    /** `applyDynamicNetwork`. */
    method ApplyDynamicNetwork(iface: string) returns (ok: bool)
      modifies `clock, `ran, `dhcpcd, `faulted, dhcpcdConf
      ensures ran == old(ran) + [LinkUp(iface)]
      ensures ok ==> dhcpcd
      ensures ConfWritten(old(dhcpcdConf.content), 1, ok)
      ensures !ok ==> dhcpcd == old(dhcpcd)
      ensures !ok || old(faulted) ==> faulted
    {
      WrittenNever(dhcpcdConf.content, dhcpcdTemplate, 1);
      ok := Run(LinkUp(iface));
      if !ok { return; }
      ok := WriteManaged(dhcpcdConf, dhcpcdTemplate);
      StretchOfOne(Writing(dhcpcdTemplate), Breaking(dhcpcdTemplate), old(dhcpcdConf.content), dhcpcdConf.content);
      if !ok { return; }
      ok := EnableDhcpcd();
    }

    /** /etc/dhcpcd.conf has been written so many times since it was `before`, or, on failure, at most. */
    ghost predicate ConfWritten(before: Option<string>, times: nat, ok: bool)
      reads this, dhcpcdConf
    {
      WrittenTimes(before, dhcpcdConf.content, dhcpcdTemplate, times, ok)
    }

    /** The `ip` commands of `applyStaticNetwork`, up to the first that fails. */
    method RunAll(commands: seq<Command>) returns (ok: bool)
      modifies `clock, `ran, `faulted
      ensures old(ran) <= ran <= old(ran) + commands
      ensures ok ==> ran == old(ran) + commands
      ensures faulted == (!ok || old(faulted))
    {
      ok := true;
      for i := 0 to |commands|
        invariant ok && ran == old(ran) + commands[..i] && faulted == old(faulted)
      {
        ok := Run(commands[i]);
        assert old(ran) + commands[..i + 1] == ran;
        if !ok {
          assert old(ran) + commands[..i + 1] <= old(ran) + commands;
          return;
        }
      }
      assert commands[..|commands|] == commands;
    }

    /** `applyStaticNetwork`. */
    method ApplyStaticNetwork(iface: string, subnet: Subnet) returns (ok: bool)
      requires IsStatic(subnet)
      modifies `clock, `ran, `dhcpcd, `faulted
      ensures old(ran) <= ran <= old(ran) + CommandsOf(libs, OnInterface(iface, subnet))
      ensures ok ==> ran == old(ran) + CommandsOf(libs, OnInterface(iface, subnet))
      ensures ok ==> AddressOf(libs, subnet).Some? && !dhcpcd
      ensures !ok ==> dhcpcd == old(dhcpcd) && (faulted || AddressOf(libs, subnet).None?)
      ensures old(faulted) ==> faulted
    {
      var cidr := SubnetAddressCIDR(libs, subnet);
      if cidr.None? { return false; }
      var address := cidr.value.address;
      var addrCmd := AddrAdd(address, cidr.value.prefix, libs.parseIP4(address).Some?, iface);
      var commands := [LinkUp(iface), addrCmd];
      if subnet.gateway != "" {
        commands := commands + [RouteAdd(subnet.gateway)];
      }
      assert commands == CommandsOf(libs, OnInterface(iface, subnet));
      ok := RunAll(commands);
      if !ok { return; }
      ok := DisableDhcpcd();
    }

    // -------------------------------------------------------------- the two loops

    /** How far the call has come, with the resolver lists it has gathered. */
    ghost function SoFar(servers: seq<string>, search: seq<string>): Progress
      reads this
    {
      Progress(ran, dhcpcd, servers, search)
    }

    /** The switch on the subnet type. */
    method ApplySubnet(iface: string, subnet: Subnet, servers0: seq<string>, search0: seq<string>)
        returns (ok: bool, servers: seq<string>, search: seq<string>)
      modifies `clock, `ran, `dhcpcd, `faulted, dhcpcdConf
      ensures ok ==> AcceptableSubnets(libs, [subnet])
      ensures var all := AppliedAll(libs, old(SoFar(servers0, search0)), SubnetEntries(iface, [subnet]));
              old(ran) <= ran <= all.ran && (ok ==> SoFar(servers, search) == all)
      ensures ConfWritten(old(dhcpcdConf.content), DynamicCount(SubnetEntries(iface, [subnet])), ok)
      ensures !ok ==> faulted || !AcceptableSubnets(libs, [subnet])
      ensures old(faulted) ==> faulted
    {
      servers, search := servers0, search0;
      OneSubnetEntry(iface, subnet);
      OneSubnetAcceptable(libs, subnet);
      AppliedOne(libs, SoFar(servers0, search0), OnInterface(iface, subnet));
      AppliedToSubnet(libs, SoFar(servers0, search0), iface, subnet);
      DynamicCountOne(OnInterface(iface, subnet));
      WrittenNever(dhcpcdConf.content, dhcpcdTemplate, 0);
      if IsDynamic(subnet) {
        ok := ApplyDynamicNetwork(iface);
      } else if IsStatic(subnet) {
        ok := ApplyStaticNetwork(iface, subnet);
        if !ok { return; }
        servers := servers + subnet.servers;
        search := search + subnet.search;
      } else {
        ok := false;
      }
    }

    /** The inner loop of `ApplyNetworkConfig`: the subnets of one physical entry. */
    method ApplySubnets(iface: string, subnets: seq<Subnet>, servers0: seq<string>, search0: seq<string>)
        returns (ok: bool, servers: seq<string>, search: seq<string>)
      modifies `clock, `ran, `dhcpcd, `faulted, dhcpcdConf
      ensures ok ==> AcceptableSubnets(libs, subnets)
      ensures var all := AppliedAll(libs, old(SoFar(servers0, search0)), SubnetEntries(iface, subnets));
              old(ran) <= ran <= all.ran && (ok ==> SoFar(servers, search) == all)
      ensures ConfWritten(old(dhcpcdConf.content), DynamicCount(SubnetEntries(iface, subnets)), ok)
      ensures !ok ==> faulted || !AcceptableSubnets(libs, subnets)
      ensures old(faulted) ==> faulted
    {
      servers, search := servers0, search0;
      ghost var start, conf := SoFar(servers, search), dhcpcdConf.content;
      WrittenNever(conf, dhcpcdTemplate, 0);
      for i := 0 to |subnets|
        invariant AcceptableSubnets(libs, subnets[..i])
        invariant SoFar(servers, search) == AppliedAll(libs, start, SubnetEntries(iface, subnets[..i]))
        invariant start.ran <= ran
        invariant ConfWritten(conf, DynamicCount(SubnetEntries(iface, subnets[..i])), true)
        invariant old(faulted) ==> faulted
      {
        OneMoreSubnetApplied(libs, start, iface, subnets, i);
        ghost var middle := dhcpcdConf.content;
        ok, servers, search := ApplySubnet(iface, subnets[i], servers, search);
        WrittenForSubnet(conf, middle, dhcpcdConf.content, dhcpcdTemplate, iface, subnets, i, ok);
        if !ok {
          SubnetSpoils(libs, subnets, i);
          return;
        }
        SubnetAdds(libs, subnets, i);
      }
      assert subnets[..|subnets|] == subnets;
      ok := true;
    }

    /** The switch on the entry type. */
    method ApplyDevice(d: Device, servers0: seq<string>, search0: seq<string>)
        returns (ok: bool, servers: seq<string>, search: seq<string>)
      modifies `clock, `ran, `dhcpcd, `faulted, dhcpcdConf
      ensures ok ==> AcceptableDevice(libs, d)
      ensures var all := AppliedAll(libs, old(SoFar(servers0, search0)), DeviceEntries(libs, d));
              old(ran) <= ran <= all.ran && (ok ==> SoFar(servers, search) == all)
      ensures ConfWritten(old(dhcpcdConf.content), DynamicCount(DeviceEntries(libs, d)), ok)
      ensures !ok ==> faulted || !AcceptableDevice(libs, d)
      ensures old(faulted) ==> faulted
    {
      ok, servers, search := false, servers0, search0;
      WrittenNever(dhcpcdConf.content, dhcpcdTemplate, DynamicCount(DeviceEntries(libs, d)));
      match d.kind
      case Physical =>
        CommandsOnlyGrow(libs, SoFar(servers0, search0), DeviceEntries(libs, d));
        var iface := libs.interfaceByMAC(d.mac);
        if iface.None? { return; }
        ok, servers, search := ApplySubnets(iface.value, d.subnets, servers0, search0);
      case Nameserver =>
        AppliedOne(libs, SoFar(servers0, search0), Global(d.servers, d.search));
        DynamicCountOne(Global(d.servers, d.search));
        return true, servers0 + d.servers, search0 + d.search;
      case OtherDevice(_) =>
    }

    /** The outer loop of `ApplyNetworkConfig`. */
    method ApplyDevices(config: seq<Device>) returns (ok: bool, servers: seq<string>, search: seq<string>)
      modifies `clock, `ran, `dhcpcd, `faulted, dhcpcdConf
      ensures ok ==> Acceptable(libs, config)
      ensures var all := AppliedAll(libs, old(SoFar([], [])), Entries(libs, config));
              old(ran) <= ran <= all.ran && (ok ==> SoFar(servers, search) == all)
      ensures ConfWritten(old(dhcpcdConf.content), DynamicCount(Entries(libs, config)), ok)
      ensures !ok ==> faulted || !Acceptable(libs, config)
      ensures old(faulted) ==> faulted
    {
      servers, search := [], [];
      ghost var start, conf := SoFar([], []), dhcpcdConf.content;
      WrittenNever(conf, dhcpcdTemplate, 0);
      for i := 0 to |config|
        invariant Acceptable(libs, config[..i])
        invariant SoFar(servers, search) == AppliedAll(libs, start, Entries(libs, config[..i]))
        invariant start.ran <= ran
        invariant ConfWritten(conf, DynamicCount(Entries(libs, config[..i])), true)
        invariant old(faulted) ==> faulted
      {
        OneMoreDevice(libs, start, config, i);
        OneMoreAcceptable(libs, config, i);
        OneMoreDeviceCounted(libs, config, i);
        ghost var middle := dhcpcdConf.content;
        ok, servers, search := ApplyDevice(config[i], servers, search);
        WrittenThen(conf, middle, dhcpcdConf.content, dhcpcdTemplate,
                    DynamicCount(Entries(libs, config[..i])), DynamicCount(DeviceEntries(libs, config[i])),
                    DynamicCount(Entries(libs, if ok then config[..i + 1] else config)), ok);
        if !ok { return; }
      }
      assert config[..|config|] == config;
      ok := true;
    }

    /** `ApplyNetworkConfig`. On success the commands run, the service link, /etc/resolv.conf and
        /etc/dhcpcd.conf are those of the fold over the flattened configuration. It fails only when the
        configuration is not acceptable or an operation failed, after some of the commands, in order, and
        with each file as it was, rewritten, or broken off in the last attempt; a configuration that is
        not acceptable is always refused and never touches /etc/resolv.conf. */
    method ApplyNetworkConfig(config: seq<Device>) returns (ok: bool)
      requires dhcpcdConf != resolvConf
      modifies `clock, `ran, `dhcpcd, `faulted, dhcpcdConf, resolvConf
      ensures ok ==> Acceptable(libs, config)
      ensures !ok ==> faulted || !Acceptable(libs, config)
      ensures old(ran) <= ran <= old(ran) + Commands(libs, Entries(libs, config))
      ensures ok ==> ran == old(ran) + Commands(libs, Entries(libs, config))
      ensures ok ==> dhcpcd == LinkAfter(Entries(libs, config), old(dhcpcd))
      ensures ok ==> resolvConf.content == ResolvConf.After(
                old(resolvConf.content), Servers(Entries(libs, config)), Search(Entries(libs, config)))
      ensures !Acceptable(libs, config) ==> resolvConf.content == old(resolvConf.content)
      ensures var servers, search := Servers(Entries(libs, config)), Search(Entries(libs, config));
              !ok && resolvConf.content != old(resolvConf.content) ==>
                && servers != []
                && BrokenWrite(old(resolvConf.content), resolvConf.content, ResolvConf.Rendered(servers, search))
      ensures ConfWritten(old(dhcpcdConf.content), DynamicCount(Entries(libs, config)), ok)
    {
      ghost var start, entries := SoFar([], []), Entries(libs, config);
      FoldFromNothing(libs, start, entries);
      var nameservers, search;
      ok, nameservers, search := ApplyDevices(config);
      if !ok { return; }
      ok := ResolvConf.ApplyResolvConf(resolvConf, nameservers, search, fileFaults(clock));
      StretchFailsLater(Writing(dhcpcdTemplate), Breaking(dhcpcdTemplate), old(dhcpcdConf.content), dhcpcdConf.content,
                        DynamicCount(entries));
      clock := clock + 1;
      if !ok { faulted := true; }
    }
  }

  lemma FoldFromNothing(libs: Libs, start: Progress, entries: seq<Entry>)
    requires start.servers == [] && start.search == []
    ensures AppliedAll(libs, start, entries) ==
            Progress(start.ran + Commands(libs, entries), LinkAfter(entries, start.link), Servers(entries), Search(entries))
  {
    AppliedCommands(libs, start, entries);
    AppliedResolvers(libs, start, entries);
    AppliedLink(libs, start, entries);
  }

  lemma OneSubnetAcceptable(libs: Libs, s: Subnet)
    ensures AcceptableSubnets(libs, [s]) <==> AcceptableSubnet(libs, s)
  {
    assert [s][..0] == [];
  }

  lemma SubnetAdds(libs: Libs, subnets: seq<Subnet>, i: nat)
    requires i < |subnets| && AcceptableSubnets(libs, subnets[..i]) && AcceptableSubnets(libs, [subnets[i]])
    ensures AcceptableSubnets(libs, subnets[..i + 1])
  {
    OneSubnetAcceptable(libs, subnets[i]);
    assert subnets[..i + 1][..i] == subnets[..i];
  }

  lemma SubnetSpoils(libs: Libs, subnets: seq<Subnet>, i: nat)
    requires i < |subnets|
    ensures !AcceptableSubnets(libs, [subnets[i]]) ==> !AcceptableSubnets(libs, subnets)
  {
    OneSubnetAcceptable(libs, subnets[i]);
    AcceptableSubnetsAll(libs, subnets, i);
  }

  lemma OneMoreAcceptable(libs: Libs, config: seq<Device>, i: nat)
    requires i < |config| && Acceptable(libs, config[..i])
    ensures AcceptableDevice(libs, config[i]) ==> Acceptable(libs, config[..i + 1])
    ensures !AcceptableDevice(libs, config[i]) ==> !Acceptable(libs, config)
  {
    assert config[..i + 1][..i] == config[..i];
    AcceptableAll(libs, config, i);
  }

  lemma AppliedToSubnet(libs: Libs, p: Progress, iface: string, s: Subnet)
    ensures IsDynamic(s) ==> CommandsOf(libs, OnInterface(iface, s)) == [LinkUp(iface)]
    ensures Applied(libs, p, OnInterface(iface, s)) ==
            if IsStatic(s)
            then Progress(p.ran + CommandsOf(libs, OnInterface(iface, s)), false, p.servers + s.servers, p.search + s.search)
            else Progress(p.ran + CommandsOf(libs, OnInterface(iface, s)), IsDynamic(s), p.servers, p.search)
  {
  }

  lemma AppliedOne(libs: Libs, p: Progress, e: Entry)
    ensures AppliedAll(libs, p, [e]) == Applied(libs, p, e)
  {
    assert [e][..0] == [];
  }

  lemma RanWithin(libs: Libs, start: Progress, first: seq<Entry>, rest: seq<Entry>)
    ensures AppliedAll(libs, start, first).ran <= AppliedAll(libs, start, first + rest).ran
  {
    AppliedConcat(libs, start, first, rest);
    CommandsOnlyGrow(libs, AppliedAll(libs, start, first), rest);
  }

  lemma OneSubnetEntry(iface: string, s: Subnet)
    ensures SubnetEntries(iface, [s]) == [OnInterface(iface, s)]
  {
    assert [s][..0] == [];
  }

  lemma OneMoreSubnetEntry(iface: string, subnets: seq<Subnet>, i: nat)
    requires i < |subnets|
    ensures SubnetEntries(iface, subnets[..i + 1]) ==
            SubnetEntries(iface, subnets[..i]) + SubnetEntries(iface, [subnets[i]])
    ensures SubnetEntries(iface, subnets) ==
            SubnetEntries(iface, subnets[..i + 1]) + SubnetEntries(iface, subnets[i + 1..])
  {
    OneSubnetEntry(iface, subnets[i]);
    assert subnets[..i + 1][..i] == subnets[..i];
    SubnetEntriesConcat(iface, subnets[..i + 1], subnets[i + 1..]);
    SplitHere(subnets, i + 1);
  }

  lemma OneMoreSubnetApplied(libs: Libs, start: Progress, iface: string, subnets: seq<Subnet>, i: nat)
    requires i < |subnets|
    ensures AppliedAll(libs, start, SubnetEntries(iface, subnets[..i + 1])) ==
            AppliedAll(libs, AppliedAll(libs, start, SubnetEntries(iface, subnets[..i])), SubnetEntries(iface, [subnets[i]]))
    ensures AppliedAll(libs, start, SubnetEntries(iface, subnets[..i + 1])).ran <=
            AppliedAll(libs, start, SubnetEntries(iface, subnets)).ran
  {
    OneMoreSubnetEntry(iface, subnets, i);
    AppliedConcat(libs, start, SubnetEntries(iface, subnets[..i]), SubnetEntries(iface, [subnets[i]]));
    RanWithin(libs, start, SubnetEntries(iface, subnets[..i + 1]), SubnetEntries(iface, subnets[i + 1..]));
  }

  lemma OneMoreSubnetCounted(iface: string, subnets: seq<Subnet>, i: nat)
    requires i < |subnets|
    ensures DynamicCount(SubnetEntries(iface, subnets[..i + 1])) ==
            DynamicCount(SubnetEntries(iface, subnets[..i])) + DynamicCount(SubnetEntries(iface, [subnets[i]]))
    ensures DynamicCount(SubnetEntries(iface, subnets[..i + 1])) <= DynamicCount(SubnetEntries(iface, subnets))
  {
    OneMoreSubnetEntry(iface, subnets, i);
    DynamicCountConcat(SubnetEntries(iface, subnets[..i]), SubnetEntries(iface, [subnets[i]]));
    DynamicCountConcat(SubnetEntries(iface, subnets[..i + 1]), SubnetEntries(iface, subnets[i + 1..]));
  }

  lemma WrittenForSubnet(before: Option<string>, middle: Option<string>, after: Option<string>, rendered: string,
                         iface: string, subnets: seq<Subnet>, i: nat, ok: bool)
    requires i < |subnets|
    requires WrittenTimes(before, middle, rendered, DynamicCount(SubnetEntries(iface, subnets[..i])), true)
    requires WrittenTimes(middle, after, rendered, DynamicCount(SubnetEntries(iface, [subnets[i]])), ok)
    ensures ok ==> WrittenTimes(before, after, rendered, DynamicCount(SubnetEntries(iface, subnets[..i + 1])), true)
    ensures !ok ==> WrittenTimes(before, after, rendered, DynamicCount(SubnetEntries(iface, subnets)), false)
  {
    OneMoreSubnetCounted(iface, subnets, i);
    WrittenThen(before, middle, after, rendered,
                DynamicCount(SubnetEntries(iface, subnets[..i])), DynamicCount(SubnetEntries(iface, [subnets[i]])),
                DynamicCount(SubnetEntries(iface, if ok then subnets[..i + 1] else subnets)), ok);
  }

  lemma SplitHere<T>(s: seq<T>, i: nat)
    requires i <= |s|
    ensures s[..i] + s[i..] == s
  {
  }

  lemma OneMoreDeviceCounted(libs: Libs, config: seq<Device>, i: nat)
    requires i < |config|
    ensures DynamicCount(Entries(libs, config[..i + 1])) ==
            DynamicCount(Entries(libs, config[..i])) + DynamicCount(DeviceEntries(libs, config[i]))
    ensures DynamicCount(Entries(libs, config[..i + 1])) <= DynamicCount(Entries(libs, config))
  {
    EntriesOneMore(libs, config, i);
    DynamicCountConcat(Entries(libs, config[..i]), DeviceEntries(libs, config[i]));
    var rest := EntriesRest(libs, config, i + 1);
    DynamicCountConcat(Entries(libs, config[..i + 1]), rest);
  }

  /** The entries of one device more in the fold. */
  lemma OneMoreDevice(libs: Libs, start: Progress, config: seq<Device>, i: nat)
    requires i < |config|
    ensures AppliedAll(libs, start, Entries(libs, config[..i + 1])) ==
            AppliedAll(libs, AppliedAll(libs, start, Entries(libs, config[..i])), DeviceEntries(libs, config[i]))
    ensures AppliedAll(libs, start, Entries(libs, config[..i + 1])).ran <=
            AppliedAll(libs, start, Entries(libs, config)).ran
  {
    EntriesOneMore(libs, config, i);
    AppliedConcat(libs, start, Entries(libs, config[..i]), DeviceEntries(libs, config[i]));
    var rest := EntriesRest(libs, config, i + 1);
    RanWithin(libs, start, Entries(libs, config[..i + 1]), rest);
  }

  lemma EntriesOneMore(libs: Libs, config: seq<Device>, i: nat)
    requires i < |config|
    ensures Entries(libs, config[..i + 1]) == Entries(libs, config[..i]) + DeviceEntries(libs, config[i])
  {
    assert config[..i + 1][..i] == config[..i];
  }

  lemma EntriesRest(libs: Libs, config: seq<Device>, i: nat) returns (rest: seq<Entry>)
    requires i <= |config|
    ensures Entries(libs, config) == Entries(libs, config[..i]) + rest
  {
    rest := Entries(libs, config[i..]);
    FlatMapConcat(d => DeviceEntries(libs, d), config[..i], config[i..]);
    assert config[..i] + config[i..] == config;
  }

  /** `subnetAddressCIDR`. */
  method SubnetAddressCIDR(libs: Libs, s: Subnet) returns (cidr: Option<Cidr>)
    ensures cidr == AddressOf(libs, s)
  {
    var (address, prefix) := CutSlash(s.address);
    if prefix.Some? {
      var n := Atoi(prefix.value);
      return if n.Some? then Some(Cidr(address, n.value)) else None;
    }
    if s.netmask == "" {
      return None;
    }
    var mask := QuadMask(libs.parseIP4(s.netmask));
    var n := NetmaskToCIDR(mask);
    if n.Some? {
      PrefixLengthUnique(mask.value, n.value, PrefixLength(mask).value);
      return Some(Cidr(s.address, n.value));
    }
    return None;
  }
}
