/** `staticAddress` of cmd/void-init/hosts.go, and its agreement with what `ApplyNetworkConfig` ran; the
    dhcpcd link as a reader of the configuration sees it. */
module HostsAddress {
  import opened Options
  import opened NetworkConfig
  import opened AddressPrefix
  import opened Strings

  const LOOPBACK_ALIAS := "127.0.1.1"

  /** The first static subnet of a list, and of any entry of the configuration whatever its type. */
  function FirstStatic(subnets: seq<Subnet>): Option<Subnet> {
    if subnets == [] then None
    else if IsStatic(subnets[0]) then Some(subnets[0])
    else FirstStatic(subnets[1..])
  }

  function FirstStaticOf(config: seq<Device>): Option<Subnet> {
    if config == [] then None
    else if FirstStatic(config[0].subnets).Some? then FirstStatic(config[0].subnets)
    else FirstStaticOf(config[1..])
  }

  function StaticAddressOf(config: Option<seq<Device>>): string {
    if config.Some? && FirstStaticOf(config.value).Some? then CutSlash(FirstStaticOf(config.value).value.address).0
    else LOOPBACK_ALIAS
  }

  /** `staticAddress`, with its nested loops and early return. */
  method StaticAddress(config: Option<seq<Device>>) returns (address: string)
    ensures address == StaticAddressOf(config)
  {
    if config.Some? {
      var devices := config.value;
      for i := 0 to |devices|
        invariant FirstStaticOf(devices) == FirstStaticOf(devices[i..])
      {
        var subnets := devices[i].subnets;
        for j := 0 to |subnets|
          invariant FirstStatic(subnets) == FirstStatic(subnets[j..])
        {
          if IsStatic(subnets[j]) {
            return CutSlash(subnets[j].address).0;
          }
          assert subnets[j..][1..] == subnets[j + 1..];
        }
        assert subnets[|subnets|..] == [];
        assert devices[i..][1..] == devices[i + 1..];
      }
    }
    return LOOPBACK_ALIAS;
  }

  lemma {:induction false} FirstStaticAt(subnets: seq<Subnet>, j: nat)
    requires j < |subnets| && IsStatic(subnets[j]) && forall k | 0 <= k < j :: !IsStatic(subnets[k])
    ensures FirstStatic(subnets) == Some(subnets[j])
  {
    if j > 0 {
      FirstStaticAt(subnets[1..], j - 1);
    }
  }

  lemma {:induction false} NoStatic(subnets: seq<Subnet>)
    requires forall k | 0 <= k < |subnets| :: !IsStatic(subnets[k])
    ensures FirstStatic(subnets).None?
  {
    if subnets != [] {
      NoStatic(subnets[1..]);
    }
  }

  predicate HasStatic(d: Device) {
    exists k | 0 <= k < |d.subnets| :: IsStatic(d.subnets[k])
  }

  lemma {:induction false} FirstStaticOfAt(config: seq<Device>, i: nat, j: nat)
    requires i < |config| && j < |config[i].subnets| && IsStatic(config[i].subnets[j])
    requires forall k | 0 <= k < j :: !IsStatic(config[i].subnets[k])
    requires forall k | 0 <= k < i :: !HasStatic(config[k])
    ensures FirstStaticOf(config) == Some(config[i].subnets[j])
  {
    if i == 0 {
      FirstStaticAt(config[0].subnets, j);
    } else {
      assert !HasStatic(config[0]);
      NoStatic(config[0].subnets);
      FirstStaticOfAt(config[1..], i - 1, j);
    }
  }

  /** The address is that of the first static subnet, entry by entry and whatever the entries' types, cut
      at its slash. */
  lemma AddressOfFirstStatic(config: seq<Device>, i: nat, j: nat)
    requires i < |config| && j < |config[i].subnets| && IsStatic(config[i].subnets[j])
    requires forall k | 0 <= k < j :: !IsStatic(config[i].subnets[k])
    requires forall k | 0 <= k < i :: !HasStatic(config[k])
    ensures StaticAddressOf(Some(config)) == CutSlash(config[i].subnets[j].address).0
  {
    FirstStaticOfAt(config, i, j);
  }

  lemma {:induction false} NoStaticOf(config: seq<Device>)
    requires forall k | 0 <= k < |config| :: !HasStatic(config[k])
    ensures FirstStaticOf(config).None?
  {
    if config != [] {
      assert !HasStatic(config[0]);
      NoStatic(config[0].subnets);
      NoStaticOf(config[1..]);
    }
  }

  /** Without a network configuration, or without a static subnet in it, it is the loopback alias. */
  lemma AliasWithoutStatic(config: Option<seq<Device>>)
    requires config.Some? ==> forall k | 0 <= k < |config.value| :: !HasStatic(config.value[k])
    ensures StaticAddressOf(config) == "127.0.1.1"
  {
    if config.Some? {
      NoStaticOf(config.value);
    }
  }

  // ---------------------------------------------------------------- agreement

  /** The address of the first `ip addr add` among the commands. */
  function FirstAdded(commands: seq<Command>): Option<string> {
    if commands == [] then None
    else if commands[0].AddrAdd? then Some(commands[0].address)
    else FirstAdded(commands[1..])
  }

  lemma {:induction false} FirstAddedConcat(a: seq<Command>, b: seq<Command>)
    ensures FirstAdded(a + b) == if FirstAdded(a).Some? then FirstAdded(a) else FirstAdded(b)
  {
    if a == [] {
      assert a + b == b;
    } else {
      FirstAddedConcat(a[1..], b);
      assert (a + b)[1..] == a[1..] + b;
    }
  }

  /** What is added for an acceptable subnet is the address up to the slash. */
  lemma AddressBeforeSlash(libs: Libs, s: Subnet)
    requires AddressOf(libs, s).Some?
    ensures AddressOf(libs, s).value.address == CutSlash(s.address).0
  {
  }

  lemma FirstAddedOf(libs: Libs, e: Entry)
    requires e.OnInterface? && AcceptableSubnet(libs, e.subnet)
    ensures FirstAdded(CommandsOf(libs, e)) ==
            if IsStatic(e.subnet) then Some(CutSlash(e.subnet.address).0) else None
  {
    var commands := CommandsOf(libs, e);
    assert commands[1..] == [] || commands[1].AddrAdd?;
    if IsStatic(e.subnet) {
      AddressBeforeSlash(libs, e.subnet);
      assert commands[1..][0] == commands[1];
    }
  }

  lemma {:induction false} FirstStaticLast(subnets: seq<Subnet>)
    requires subnets != []
    ensures var init, last := subnets[..|subnets| - 1], subnets[|subnets| - 1];
            FirstStatic(subnets) ==
            if FirstStatic(init).Some? then FirstStatic(init) else if IsStatic(last) then Some(last) else None
  {
    if |subnets| == 1 {
      assert subnets[1..] == [];
    } else {
      FirstStaticLast(subnets[1..]);
      assert subnets[1..][..|subnets| - 2] == subnets[..|subnets| - 1][1..];
    }
  }

  function AddressIn(s: Option<Subnet>): Option<string> {
    if s.Some? then Some(CutSlash(s.value.address).0) else None
  }

  lemma {:induction false} FirstAddedInSubnets(libs: Libs, iface: string, subnets: seq<Subnet>)
    requires AcceptableSubnets(libs, subnets)
    ensures FirstAdded(Commands(libs, SubnetEntries(iface, subnets))) == AddressIn(FirstStatic(subnets))
  {
    if subnets == [] {
      assert SubnetEntries(iface, subnets) == [];
    } else {
      var init, e := subnets[..|subnets| - 1], OnInterface(iface, subnets[|subnets| - 1]);
      FirstAddedInSubnets(libs, iface, init);
      FirstStaticLast(subnets);
      FirstAddedOf(libs, e);
      CommandsOneMore(libs, SubnetEntries(iface, init), e);
      FirstAddedConcat(Commands(libs, SubnetEntries(iface, init)), CommandsOf(libs, e));
      assert SubnetEntries(iface, subnets) == SubnetEntries(iface, init) + [e];
    }
  }

  /** The first static subnet of the physical entries alone. */
  function FirstPhysicalStatic(config: seq<Device>): Option<Subnet> {
    if config == [] then None
    else
      var before, d := FirstPhysicalStatic(config[..|config| - 1]), config[|config| - 1];
      if before.Some? then before else if d.kind.Physical? then FirstStatic(d.subnets) else None
  }

  lemma FirstAddedInDevice(libs: Libs, d: Device)
    requires AcceptableDevice(libs, d)
    ensures FirstAdded(Commands(libs, DeviceEntries(libs, d))) ==
            if d.kind.Physical? then AddressIn(FirstStatic(d.subnets)) else None
  {
    if d.kind.Physical? {
      FirstAddedInSubnets(libs, Interface(libs, d), d.subnets);
    } else {
      FlatMapOfOne(x => CommandsOf(libs, x), Global(d.servers, d.search));
    }
  }

  /** The first address added is that of the first static subnet of a physical entry. */
  lemma {:induction false} FirstAddedInConfig(libs: Libs, config: seq<Device>)
    requires Acceptable(libs, config)
    ensures FirstAdded(Commands(libs, Entries(libs, config))) == AddressIn(FirstPhysicalStatic(config))
  {
    if config != [] {
      var init, d := config[..|config| - 1], config[|config| - 1];
      FirstAddedInConfig(libs, init);
      FirstAddedInDevice(libs, d);
      FlatMapConcat(x => CommandsOf(libs, x), Entries(libs, init), DeviceEntries(libs, d));
      FirstAddedConcat(Commands(libs, Entries(libs, init)), Commands(libs, DeviceEntries(libs, d)));
    }
  }

  /** The first entry with a static subnet, if there is one, is a physical interface. */
  predicate FirstCarrierIsPhysical(config: seq<Device>) {
    config == []
    || (if FirstStatic(config[0].subnets).Some? then config[0].kind.Physical?
        else FirstCarrierIsPhysical(config[1..]))
  }

  lemma {:induction false} FirstStaticSplits(config: seq<Device>)
    requires config != []
    ensures FirstPhysicalStatic(config) ==
            if config[0].kind.Physical? && FirstStatic(config[0].subnets).Some? then FirstStatic(config[0].subnets)
            else FirstPhysicalStatic(config[1..])
  {
    if |config| == 1 {
      assert config[..0] == [] && config[1..] == [];
    } else {
      FirstStaticSplits(config[..|config| - 1]);
      assert config[..|config| - 1][1..] == config[1..][..|config| - 2];
    }
  }

  lemma {:induction false} CarriersAgree(config: seq<Device>)
    requires FirstCarrierIsPhysical(config)
    ensures FirstStaticOf(config) == FirstPhysicalStatic(config)
  {
    if config != [] {
      FirstStaticSplits(config);
      if FirstStatic(config[0].subnets).None? {
        CarriersAgree(config[1..]);
      }
    }
  }

  function AddressOrAlias(s: Option<Subnet>): string {
    if s.Some? then CutSlash(s.value.address).0 else LOOPBACK_ALIAS
  }

  /** The address of the first `ip addr add` that ran for the configuration, or the loopback alias when
      none ran. */
  ghost function AddedOrAlias(libs: Libs, config: seq<Device>): string {
    var added := FirstAdded(Commands(libs, Entries(libs, config)));
    if added.Some? then added.value else LOOPBACK_ALIAS
  }

  lemma {:induction false} NonPhysicalCarrier(config: seq<Device>)
    requires !FirstCarrierIsPhysical(config)
    ensures FirstStaticOf(config).Some?
  {
    if FirstStatic(config[0].subnets).None? {
      NonPhysicalCarrier(config[1..]);
    }
  }

  /** For a configuration that can be applied, the address put into /etc/hosts is that of the first
      `ip addr add` that ran, or the loopback alias when none ran, if and only if the first entry that
      carries a static subnet is a physical one, or its address happens to be what the physical entries
      on their own would have given. */
  lemma AddressIsFirstAdded(libs: Libs, config: seq<Device>)
    requires Acceptable(libs, config)
    ensures StaticAddressOf(Some(config)) == AddedOrAlias(libs, config) <==>
            || FirstCarrierIsPhysical(config)
            || (FirstStaticOf(config).Some? &&
                CutSlash(FirstStaticOf(config).value.address).0 == AddressOrAlias(FirstPhysicalStatic(config)))
  {
    FirstAddedInConfig(libs, config);
    if FirstCarrierIsPhysical(config) {
      CarriersAgree(config);
    } else {
      NonPhysicalCarrier(config);
    }
  }

  lemma {:induction false} PhysicalCarrierFirst(config: seq<Device>)
    requires forall i | 0 <= i < |config| && !config[i].kind.Physical? :: FirstStatic(config[i].subnets).None?
    ensures FirstCarrierIsPhysical(config)
  {
    if config != [] {
      PhysicalCarrierFirst(config[1..]);
    }
  }

  /** In particular the two agree when only physical entries carry static subnets at all. */
  lemma OnlyPhysicalCarriers(libs: Libs, config: seq<Device>)
    requires Acceptable(libs, config)
    requires forall i | 0 <= i < |config| && !config[i].kind.Physical? :: FirstStatic(config[i].subnets).None?
    ensures StaticAddressOf(Some(config)) == AddedOrAlias(libs, config)
  {
    PhysicalCarrierFirst(config);
    AddressIsFirstAdded(libs, config);
  }

  /** A nameserver entry with a static subnet adds no address, and `staticAddress` returns that subnet's. */
  lemma NameserverSubnet(libs: Libs, address: string, prefix: string)
    requires '/' !in address
    ensures var config := [Device(Nameserver, "", [Subnet(Static, address + "/" + prefix, "", "", [], [])], [], [])];
            && Acceptable(libs, config) && !FirstCarrierIsPhysical(config)
            && AddedOrAlias(libs, config) == "127.0.1.1"
            && StaticAddressOf(Some(config)) == address
  {
    var config := [Device(Nameserver, "", [Subnet(Static, address + "/" + prefix, "", "", [], [])], [], [])];
    assert config[..0] == [];
    FirstAddedInConfig(libs, config);
    CutSlashAt(address, prefix);
  }

  /** So the two can differ. */
  lemma NameserverSubnetMisleads(libs: Libs)
    ensures var config := [Device(Nameserver, "", [Subnet(Static, "192.0.2.9/24", "", "", [], [])], [], [])];
            && Acceptable(libs, config)
            && StaticAddressOf(Some(config)) == "192.0.2.9"
            && AddedOrAlias(libs, config) == "127.0.1.1" != "192.0.2.9"
  {
    ExampleAddress();
    NameserverSubnet(libs, "192.0.2.9", "24");
  }

  lemma ExampleAddress()
    ensures "192.0.2.9" + "/" + "24" == "192.0.2.9/24" && '/' !in "192.0.2.9" && "192.0.2.9" != "127.0.1.1"
  {
    assert "192.0.2.9"[1] == '9' && "127.0.1.1"[1] == '2';
  }

  /** And can agree by accident, so a physical first carrier is not needed. */
  lemma NameserverSubnetCanAgree(libs: Libs)
    ensures var config := [Device(Nameserver, "", [Subnet(Static, "127.0.1.1/8", "", "", [], [])], [], [])];
            && Acceptable(libs, config) && !FirstCarrierIsPhysical(config)
            && StaticAddressOf(Some(config)) == AddedOrAlias(libs, config)
  {
    assert "127.0.1.1" + "/" + "8" == "127.0.1.1/8";
    NameserverSubnet(libs, "127.0.1.1", "8");
  }

  // ---------------------------------------------------------------- the service link

  /** The last subnet of a physical entry. */
  function LastSubnet(config: seq<Device>): Option<Subnet> {
    if config == [] then None
    else
      var d := config[|config| - 1];
      if d.kind.Physical? && d.subnets != [] then Some(d.subnets[|d.subnets| - 1])
      else LastSubnet(config[..|config| - 1])
  }

  /** The dhcpcd link is there afterwards if and only if the last subnet of a physical entry is dynamic;
      without any such subnet it is as before. */
  lemma {:induction false} LinkFollowsLastSubnet(libs: Libs, config: seq<Device>, link: bool)
    requires Acceptable(libs, config)
    ensures LinkAfter(Entries(libs, config), link) ==
            match LastSubnet(config)
            case Some(s) => IsDynamic(s)
            case None => link
  {
    if config != [] {
      var init, d := config[..|config| - 1], config[|config| - 1];
      LinkFollowsLastSubnet(libs, init, link);
      LinkConcat(Entries(libs, init), DeviceEntries(libs, d), link);
    }
  }
}
