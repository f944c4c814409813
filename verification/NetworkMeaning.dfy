/** What the commands and resolver lists of cmd/void-init/network.go say, read straight off the
    configuration. */
module NetworkMeaning {
  import opened Options
  import opened Strings
  import opened Netmask
  import opened NetworkConfig

  // ---------------------------------------------------------------- reading the commands back

  datatype Added = Added(address: string, prefix: int, broadcast: bool, iface: string)

  /** The commands for one subnet: the interface brought up, and what was then added and routed. */
  datatype Setup = Setup(iface: string, added: Option<Added>, gateway: Option<string>)

  /** A command as part of the setup that the last `ip link set up` began. */
  function Extended(setups: seq<Setup>, c: Command): seq<Setup> {
    match c
    case LinkUp(iface) => setups + [Setup(iface, None, None)]
    case AddrAdd(address, prefix, broadcast, iface) =>
      if setups == [] then []
      else setups[|setups| - 1 := setups[|setups| - 1].(added := Some(Added(address, prefix, broadcast, iface)))]
    case RouteAdd(gateway) =>
      if setups == [] then []
      else setups[|setups| - 1 := setups[|setups| - 1].(gateway := Some(gateway))]
  }

  function ReadBack(commands: seq<Command>): seq<Setup> {
    if commands == [] then [] else Extended(ReadBack(commands[..|commands| - 1]), commands[|commands| - 1])
  }

  lemma ReadBackLast(commands: seq<Command>, c: Command)
    ensures ReadBack(commands + [c]) == Extended(ReadBack(commands), c)
  {
    assert (commands + [c])[..|commands|] == commands;
  }

  /** What comes after an `ip link set up` does not reach back behind it. */
  lemma {:induction false} ReadBackConcat(a: seq<Command>, b: seq<Command>)
    requires b != [] ==> b[0].LinkUp?
    ensures ReadBack(a + b) == ReadBack(a) + ReadBack(b)
    ensures b != [] ==> ReadBack(b) != []
  {
    if b == [] {
      assert a + b == a;
    } else {
      var init, c := b[..|b| - 1], b[|b| - 1];
      ReadBackConcat(a, init);
      assert b == init + [c];
      ReadBackStep(a, init, c);
    }
  }

  lemma ReadBackStep(a: seq<Command>, init: seq<Command>, c: Command)
    requires ReadBack(a + init) == ReadBack(a) + ReadBack(init)
    requires ReadBack(init) != [] || c.LinkUp?
    ensures ReadBack(a + (init + [c])) == ReadBack(a) + ReadBack(init + [c]) && ReadBack(init + [c]) != []
  {
    ConcatAssociates(a, init, [c]);
    ReadBackLast(a + init, c);
    ReadBackLast(init, c);
    ExtendedConcat(ReadBack(a), ReadBack(init), c);
  }

  lemma ExtendedConcat(x: seq<Setup>, y: seq<Setup>, c: Command)
    requires y != [] || c.LinkUp?
    ensures Extended(x + y, c) == x + Extended(y, c) && Extended(y, c) != []
  {
  }

  /** An address is added right after its own interface was brought up, a route right after an address. */
  predicate Prepared(commands: seq<Command>, i: nat)
    requires i < |commands|
  {
    && (commands[i].AddrAdd? ==> i > 0 && commands[i - 1] == LinkUp(commands[i].iface))
    && (commands[i].RouteAdd? ==> i > 0 && commands[i - 1].AddrAdd?)
  }

  predicate InOrder(commands: seq<Command>) {
    forall i | 0 <= i < |commands| :: Prepared(commands, i)
  }

  lemma InOrderConcat(a: seq<Command>, b: seq<Command>)
    requires InOrder(a) && InOrder(b)
    ensures InOrder(a + b)
  {
    forall i | 0 <= i < |a + b| ensures Prepared(a + b, i) {
      if i < |a| {
        assert Prepared(a, i);
      } else {
        assert Prepared(b, i - |a|);
      }
    }
  }

  // ---------------------------------------------------------------- subnet by subnet

  /** What a subnet asks for: nothing but the interface for a dynamic one; for a static one its address
      up to the slash, its prefix, a broadcast address if it is IPv4, and its gateway if it names one. */
  ghost function Wanted(libs: Libs, iface: string, s: Subnet): Setup {
    if !IsStatic(s) then Setup(iface, None, None)
    else
      var address := CutSlash(s.address).0;
      var prefix := if AddressOf(libs, s).Some? then AddressOf(libs, s).value.prefix else 0;
      Setup(iface, Some(Added(address, prefix, libs.parseIP4(address).Some?, iface)),
            if s.gateway == "" then None else Some(s.gateway))
  }

  lemma CommandsOfOne(libs: Libs, iface: string, s: Subnet)
    requires AcceptableSubnet(libs, s)
    ensures var commands := CommandsOf(libs, OnInterface(iface, s));
            && ReadBack(commands) == [Wanted(libs, iface, s)]
            && InOrder(commands) && commands != [] && commands[0] == LinkUp(iface)
  {
    var commands := CommandsOf(libs, OnInterface(iface, s));
    if IsStatic(s) {
      ReadAddress(iface, commands[1], s.gateway);
      if s.gateway == "" {
        assert commands == [LinkUp(iface), commands[1]];
      } else {
        assert commands == [LinkUp(iface), commands[1], RouteAdd(s.gateway)];
      }
    } else {
      ReadLink(iface);
    }
  }

  lemma ReadLink(iface: string)
    ensures ReadBack([LinkUp(iface)]) == [Setup(iface, None, None)]
  {
    ReadBackLast([], LinkUp(iface));
    assert [] + [LinkUp(iface)] == [LinkUp(iface)];
  }

  lemma ReadAddress(iface: string, add: Command, gateway: string)
    requires add.AddrAdd?
    ensures var added := Some(Added(add.address, add.prefix, add.broadcast, add.iface));
            && ReadBack([LinkUp(iface), add]) == [Setup(iface, added, None)]
            && ReadBack([LinkUp(iface), add, RouteAdd(gateway)]) == [Setup(iface, added, Some(gateway))]
  {
    ReadLink(iface);
    ReadBackLast([LinkUp(iface)], add);
    assert [LinkUp(iface)] + [add] == [LinkUp(iface), add];
    ReadBackLast([LinkUp(iface), add], RouteAdd(gateway));
    assert [LinkUp(iface), add] + [RouteAdd(gateway)] == [LinkUp(iface), add, RouteAdd(gateway)];
  }

  /** What a list of commands is read back as, and that it can follow any other. */
  ghost predicate Reads(commands: seq<Command>, setups: seq<Setup>) {
    && ReadBack(commands) == setups && InOrder(commands)
    && (commands != [] ==> commands[0].LinkUp?)
  }

  lemma ReadsConcat(a: seq<Command>, x: seq<Setup>, b: seq<Command>, y: seq<Setup>)
    requires Reads(a, x) && Reads(b, y)
    ensures Reads(a + b, x + y)
  {
    ReadBackConcat(a, b);
    InOrderConcat(a, b);
  }

  ghost function WantedFor(libs: Libs, iface: string, subnets: seq<Subnet>): seq<Setup> {
    FlatMap(s => [Wanted(libs, iface, s)], subnets)
  }

  /** One setup for each subnet of each physical entry, in order. */
  ghost function WantedByDevice(libs: Libs, d: Device): seq<Setup> {
    if d.kind.Physical? && libs.interfaceByMAC(d.mac).Some?
    then WantedFor(libs, libs.interfaceByMAC(d.mac).value, d.subnets) else []
  }

  ghost function WantedByConfig(libs: Libs, config: seq<Device>): seq<Setup> {
    FlatMap(d => WantedByDevice(libs, d), config)
  }

  lemma WantedOneMore(libs: Libs, iface: string, init: seq<Subnet>, last: Subnet)
    ensures WantedFor(libs, iface, init + [last]) == WantedFor(libs, iface, init) + [Wanted(libs, iface, last)]
  {
    assert (init + [last])[..|init|] == init;
  }

  lemma {:induction false} SubnetsRead(libs: Libs, iface: string, subnets: seq<Subnet>)
    requires AcceptableSubnets(libs, subnets)
    ensures Reads(Commands(libs, SubnetEntries(iface, subnets)), WantedFor(libs, iface, subnets))
  {
    if subnets != [] {
      var init, last := subnets[..|subnets| - 1], subnets[|subnets| - 1];
      assert subnets == init + [last];
      SubnetsRead(libs, iface, init);
      CommandsOfOne(libs, iface, last);
      CommandsOneMore(libs, SubnetEntries(iface, init), OnInterface(iface, last));
      WantedOneMore(libs, iface, init, last);
      ReadsConcat(Commands(libs, SubnetEntries(iface, init)), WantedFor(libs, iface, init),
                  CommandsOf(libs, OnInterface(iface, last)), [Wanted(libs, iface, last)]);
    }
  }

  lemma DeviceReads(libs: Libs, d: Device)
    requires AcceptableDevice(libs, d)
    ensures Reads(Commands(libs, DeviceEntries(libs, d)), WantedByDevice(libs, d))
  {
    if d.kind.Physical? {
      SubnetsRead(libs, libs.interfaceByMAC(d.mac).value, d.subnets);
    } else {
      FlatMapOfOne(x => CommandsOf(libs, x), Global(d.servers, d.search));
    }
  }

  /** Read back, the commands for a configuration that can be applied are exactly what its subnets ask
      for, one setup after the other, each on the interface that has the entry's MAC address; and they
      are in working order. */
  lemma {:induction false} CommandsSayWhatIsWanted(libs: Libs, config: seq<Device>)
    requires Acceptable(libs, config)
    ensures Reads(Commands(libs, Entries(libs, config)), WantedByConfig(libs, config))
  {
    if config != [] {
      var init, d := config[..|config| - 1], config[|config| - 1];
      CommandsSayWhatIsWanted(libs, init);
      DeviceReads(libs, d);
      FlatMapConcat(x => CommandsOf(libs, x), Entries(libs, init), DeviceEntries(libs, d));
      ReadsConcat(Commands(libs, Entries(libs, init)), WantedByConfig(libs, init),
                  Commands(libs, DeviceEntries(libs, d)), WantedByDevice(libs, d));
    }
  }

  // ---------------------------------------------------------------- the resolver lists

  /** The nameservers that the configuration lists: those of the static subnets of physical entries and
      those of nameserver entries. */
  ghost function ListedServers(config: seq<Device>): seq<string> {
    FlatMap((d: Device) =>
      match d.kind
      case Physical => FlatMap((s: Subnet) => if IsStatic(s) then s.servers else [], d.subnets)
      case Nameserver => d.servers
      case OtherDevice(_) => [], config)
  }

  ghost function ListedSearch(config: seq<Device>): seq<string> {
    FlatMap((d: Device) =>
      match d.kind
      case Physical => FlatMap((s: Subnet) => if IsStatic(s) then s.search else [], d.subnets)
      case Nameserver => d.search
      case OtherDevice(_) => [], config)
  }

  lemma {:induction false} SubnetLists(iface: string, subnets: seq<Subnet>)
    ensures Servers(SubnetEntries(iface, subnets)) == FlatMap((s: Subnet) => if IsStatic(s) then s.servers else [], subnets)
    ensures Search(SubnetEntries(iface, subnets)) == FlatMap((s: Subnet) => if IsStatic(s) then s.search else [], subnets)
  {
    if subnets != [] {
      var init, e := subnets[..|subnets| - 1], OnInterface(iface, subnets[|subnets| - 1]);
      SubnetLists(iface, init);
      FlatMapConcat(ServersOf, SubnetEntries(iface, init), [e]);
      FlatMapConcat(SearchOf, SubnetEntries(iface, init), [e]);
      FlatMapOfOne(ServersOf, e);
      FlatMapOfOne(SearchOf, e);
    }
  }

  /** The lists gathered are exactly those that the configuration gives, in order. */
  lemma {:induction false} ListsAreThoseConfigured(libs: Libs, config: seq<Device>)
    ensures Servers(Entries(libs, config)) == ListedServers(config)
    ensures Search(Entries(libs, config)) == ListedSearch(config)
  {
    if config != [] {
      var init, d := config[..|config| - 1], config[|config| - 1];
      ListsAreThoseConfigured(libs, init);
      FlatMapConcat(ServersOf, Entries(libs, init), DeviceEntries(libs, d));
      FlatMapConcat(SearchOf, Entries(libs, init), DeviceEntries(libs, d));
      match d.kind
      case Physical => SubnetLists(Interface(libs, d), d.subnets);
      case Nameserver =>
        FlatMapOfOne(ServersOf, Global(d.servers, d.search));
        FlatMapOfOne(SearchOf, Global(d.servers, d.search));
      case OtherDevice(_) =>
    }
  }

  // ---------------------------------------------------------------- which kind a spelling is

  /** The subnet type as it is spelled in the configuration. */
  function KindOf(spelling: string): SubnetKind {
    match spelling
    case "dhcp" => Dhcp
    case "dhcp4" => Dhcp4
    case "dhcp6" => Dhcp6
    case "ipv6_slaac" => Ipv6Slaac
    case "ipv6_dhcpv6-stateless" => Ipv6Dhcpv6Stateless
    case "ipv6_dhcpv6-stateful" => Ipv6Dhcpv6Stateful
    case "static" => Static
    case "static6" => Static6
    case _ => OtherSubnet(spelling)
  }

  /** Exactly these spellings are dynamic, exactly these are static, and any other is refused. */
  lemma SpellingsDecide(libs: Libs, s: Subnet, spelling: string)
    requires s.kind == KindOf(spelling)
    ensures IsDynamic(s) <==> spelling in {"dhcp", "dhcp4", "dhcp6", "ipv6_slaac", "ipv6_dhcpv6-stateless",
                                           "ipv6_dhcpv6-stateful"}
    ensures IsStatic(s) <==> spelling in {"static", "static6"}
    ensures !IsDynamic(s) && !IsStatic(s) ==> !AcceptableSubnet(libs, s)
  {
  }
}
