/** The network configuration of cmd/void-init/network.go as data, and what applying all of it amounts
    to: a fold over its entries in order. */
module NetworkConfig {
  import opened Options
  import opened Strings
  import opened Netmask

  /** The subnet types that the code tells apart, by their spelling. */
  datatype SubnetKind =
    | Dhcp | Dhcp4 | Dhcp6 | Ipv6Slaac | Ipv6Dhcpv6Stateless | Ipv6Dhcpv6Stateful
    | Static | Static6
    | OtherSubnet(spelling: string)

  datatype DeviceKind = Physical | Nameserver | OtherDevice(spelling: string)

  datatype Subnet = Subnet(kind: SubnetKind, address: string, netmask: string, gateway: string,
                           servers: seq<string>, search: seq<string>)

  datatype Device = Device(kind: DeviceKind, mac: string, subnets: seq<Subnet>,
                           servers: seq<string>, search: seq<string>)

  /** The four bytes of an IPv4 address. */
  datatype Quad = Quad(a: bv8, b: bv8, c: bv8, d: bv8)

  /** What the code asks the system and the libraries: the interface with a MAC address, and
      `net.ParseIP(s).To4()`. */
  datatype Libs = Libs(interfaceByMAC: string -> Option<string>, parseIP4: string -> Option<Quad>)

  function QuadMask(q: Option<Quad>): (m: Option<Mask>)
    ensures m.Some? ==> |m.value| == 4
  {
    if q.None? then None else Some([q.value.a, q.value.b, q.value.c, q.value.d])
  }

  // ---------------------------------------------------------------- flattening

  /** What `f` makes of each element, one after the other. */
  ghost function FlatMap<A, T>(f: A -> seq<T>, entries: seq<A>): seq<T> {
    if entries == [] then [] else FlatMap(f, entries[..|entries| - 1]) + f(entries[|entries| - 1])
  }

  lemma {:induction false} FlatMapConcat<A, T>(f: A -> seq<T>, a: seq<A>, b: seq<A>)
    ensures FlatMap(f, a + b) == FlatMap(f, a) + FlatMap(f, b)
  {
    if b == [] {
      assert a + b == a;
    } else {
      FlatMapConcat(f, a, b[..|b| - 1]);
      assert (a + b)[..|a + b| - 1] == a + b[..|b| - 1];
    }
  }

  lemma FlatMapOfOne<A, T>(f: A -> seq<T>, x: A)
    ensures FlatMap(f, [x]) == f(x)
  {
    assert [x][..0] == [];
  }

  // ---------------------------------------------------------------- addresses

  /** `strings.Cut(address, "/")`. */
  function CutSlash(address: string): (string, Option<string>) {
    match IndexOf(address, "/")
    case Some(i) => (address[..i], Some(address[i + 1..]))
    case None => (address, None)
  }

  /** Cutting at the first slash loses nothing but that slash, and the address has none. */
  lemma CutSlashCuts(s: string)
    ensures var (address, prefix) := CutSlash(s);
            && '/' !in address
            && s == if prefix.Some? then address + "/" + prefix.value else address
  {
    var (address, prefix) := CutSlash(s);
    forall i | 0 <= i < |address| ensures address[i] != '/' {
      assert !OccursAt(s, "/", i);
      assert s[i..i + 1] == [s[i]];
    }
  }

  function Digits(s: string): (r: Option<nat>) {
    if s == "" then Some(0)
    else
      var d := s[|s| - 1];
      var head := Digits(s[..|s| - 1]);
      if '0' <= d <= '9' && head.Some? then Some(10 * head.value + (d as int - '0' as int)) else None
  }

  /** `strconv.Atoi`: an optional sign and at least one digit, within 64 bits. */
  function Atoi(s: string): Option<int> {
    var negative := s != "" && s[0] == '-';
    var digits := if s != "" && (s[0] == '-' || s[0] == '+') then s[1..] else s;
    var n := if digits == "" then None else Digits(digits);
    if n.None? then None
    else if negative then (if n.value <= 0x8000_0000_0000_0000 then Some(-n.value) else None)
    else if n.value < 0x8000_0000_0000_0000 then Some(n.value)
    else None
  }

  /** The number of leading ones of a mask made of ones followed by zeros. */
  ghost function PrefixLength(mask: Option<Mask>): (r: Option<nat>)
    ensures r.Some? <==> mask.Some? && exists n :: OnesThenZeros(mask.value, n)
    ensures r.Some? ==> OnesThenZeros(mask.value, r.value)
  {
    if mask.Some? && exists n :: OnesThenZeros(mask.value, n) then
      var n :| OnesThenZeros(mask.value, n);
      Some(n)
    else None
  }

  datatype Cidr = Cidr(address: string, prefix: int)

  /** `subnetAddressCIDR`: a prefix in the address wins over the netmask. */
  ghost function AddressOf(libs: Libs, s: Subnet): Option<Cidr> {
    var (address, prefix) := CutSlash(s.address);
    if prefix.Some? then
      var n := Atoi(prefix.value);
      if n.Some? then Some(Cidr(address, n.value)) else None
    else if s.netmask == "" then None
    else
      var n := PrefixLength(QuadMask(libs.parseIP4(s.netmask)));
      if n.Some? then Some(Cidr(s.address, n.value)) else None
  }

  // ---------------------------------------------------------------- entries

  predicate IsDynamic(s: Subnet) {
    match s.kind
    case Dhcp | Dhcp4 | Dhcp6 | Ipv6Slaac | Ipv6Dhcpv6Stateless | Ipv6Dhcpv6Stateful => true
    case _ => false
  }

  predicate IsStatic(s: Subnet) {
    s.kind.Static? || s.kind.Static6?
  }

  /** One thing to do: a subnet of a physical interface, or a global nameserver entry. */
  datatype Entry = OnInterface(iface: string, subnet: Subnet) | Global(servers: seq<string>, search: seq<string>)

  function Interface(libs: Libs, d: Device): string {
    match libs.interfaceByMAC(d.mac)
    case Some(name) => name
    case None => ""
  }

  function SubnetEntries(iface: string, subnets: seq<Subnet>): seq<Entry> {
    if subnets == [] then []
    else SubnetEntries(iface, subnets[..|subnets| - 1]) + [OnInterface(iface, subnets[|subnets| - 1])]
  }

  lemma {:induction false} SubnetEntriesConcat(iface: string, a: seq<Subnet>, b: seq<Subnet>)
    ensures SubnetEntries(iface, a + b) == SubnetEntries(iface, a) + SubnetEntries(iface, b)
  {
    if b == [] {
      assert a + b == a;
    } else {
      SubnetEntriesConcat(iface, a, b[..|b| - 1]);
      assert (a + b)[..|a + b| - 1] == a + b[..|b| - 1];
    }
  }

  function DeviceEntries(libs: Libs, d: Device): seq<Entry> {
    if d.kind.Physical? then SubnetEntries(Interface(libs, d), d.subnets)
    else if d.kind.Nameserver? then [Global(d.servers, d.search)]
    else []
  }

  /** The whole configuration, flattened. */
  ghost function Entries(libs: Libs, config: seq<Device>): seq<Entry> {
    FlatMap(d => DeviceEntries(libs, d), config)
  }

  ghost predicate AcceptableSubnet(libs: Libs, s: Subnet) {
    IsDynamic(s) || (IsStatic(s) && AddressOf(libs, s).Some?)
  }

  ghost predicate AcceptableSubnets(libs: Libs, subnets: seq<Subnet>) {
    subnets == [] ||
    (AcceptableSubnets(libs, subnets[..|subnets| - 1]) && AcceptableSubnet(libs, subnets[|subnets| - 1]))
  }

  /** A device nothing in which makes the code give up. */
  ghost predicate AcceptableDevice(libs: Libs, d: Device) {
    || d.kind.Nameserver?
    || (d.kind.Physical? && libs.interfaceByMAC(d.mac).Some? && AcceptableSubnets(libs, d.subnets))
  }

  ghost predicate Acceptable(libs: Libs, config: seq<Device>) {
    config == [] ||
    (Acceptable(libs, config[..|config| - 1]) && AcceptableDevice(libs, config[|config| - 1]))
  }

  /** One subnet that is not acceptable spoils them all, and one device the whole configuration. */
  lemma {:induction false} AcceptableSubnetsAll(libs: Libs, subnets: seq<Subnet>, i: nat)
    requires i < |subnets|
    ensures AcceptableSubnets(libs, subnets) ==>
              AcceptableSubnets(libs, subnets[..i + 1]) && AcceptableSubnet(libs, subnets[i])
  {
    if i == |subnets| - 1 {
      assert subnets[..i + 1] == subnets;
    } else {
      AcceptableSubnetsAll(libs, subnets[..|subnets| - 1], i);
      assert subnets[..|subnets| - 1][..i + 1] == subnets[..i + 1];
    }
  }

  lemma {:induction false} AcceptableAll(libs: Libs, config: seq<Device>, i: nat)
    requires i < |config|
    ensures Acceptable(libs, config) ==>
              Acceptable(libs, config[..i + 1]) && AcceptableDevice(libs, config[i])
  {
    if i == |config| - 1 {
      assert config[..i + 1] == config;
    } else {
      AcceptableAll(libs, config[..|config| - 1], i);
      assert config[..|config| - 1][..i + 1] == config[..i + 1];
    }
  }

  // ---------------------------------------------------------------- the folds

  datatype Command =
    | LinkUp(iface: string)
    | AddrAdd(address: string, prefix: int, broadcast: bool, iface: string)
    | RouteAdd(gateway: string)

  ghost function CommandsOf(libs: Libs, e: Entry): seq<Command> {
    if e.Global? then []
    else if IsDynamic(e.subnet) then [LinkUp(e.iface)]
    else if IsStatic(e.subnet) && AddressOf(libs, e.subnet).Some? then
      var c := AddressOf(libs, e.subnet).value;
      [LinkUp(e.iface), AddrAdd(c.address, c.prefix, libs.parseIP4(c.address).Some?, e.iface)]
      + if e.subnet.gateway != "" then [RouteAdd(e.subnet.gateway)] else []
    else []
  }

  /** Every `ip` command, in order. */
  ghost function Commands(libs: Libs, entries: seq<Entry>): seq<Command> {
    FlatMap(e => CommandsOf(libs, e), entries)
  }

  lemma CommandsOneMore(libs: Libs, entries: seq<Entry>, e: Entry)
    ensures Commands(libs, entries + [e]) == Commands(libs, entries) + CommandsOf(libs, e)
  {
    FlatMapConcat(x => CommandsOf(libs, x), entries, [e]);
    FlatMapOfOne(x => CommandsOf(libs, x), e);
  }

  function ServersOf(e: Entry): seq<string> {
    if e.Global? then e.servers else if IsStatic(e.subnet) then e.subnet.servers else []
  }

  function SearchOf(e: Entry): seq<string> {
    if e.Global? then e.search else if IsStatic(e.subnet) then e.subnet.search else []
  }

  /** All nameservers, and all search domains, in order. */
  ghost function Servers(entries: seq<Entry>): seq<string> {
    FlatMap(ServersOf, entries)
  }

  ghost function Search(entries: seq<Entry>): seq<string> {
    FlatMap(SearchOf, entries)
  }

  /** The dhcpcd service link afterwards: each subnet sets it, so the last one decides. */
  function LinkAfter(entries: seq<Entry>, link: bool): bool {
    if entries == [] then link
    else
      var last := entries[|entries| - 1];
      if last.OnInterface? then IsDynamic(last.subnet) else LinkAfter(entries[..|entries| - 1], link)
  }

  lemma {:induction false} LinkConcat(a: seq<Entry>, b: seq<Entry>, link: bool)
    ensures LinkAfter(a + b, link) == LinkAfter(b, LinkAfter(a, link))
  {
    if b == [] {
      assert a + b == a;
    } else {
      LinkConcat(a, b[..|b| - 1], link);
      assert (a + b)[..|a + b| - 1] == a + b[..|b| - 1];
    }
  }

  // ---------------------------------------------------------------- one fold for all of it

  /** The commands run so far, the service link, and the resolver lists gathered. */
  datatype Progress = Progress(ran: seq<Command>, link: bool, servers: seq<string>, search: seq<string>)

  /** Dealing with one entry. */
  ghost function Applied(libs: Libs, p: Progress, e: Entry): Progress {
    Progress(p.ran + CommandsOf(libs, e),
             if e.OnInterface? then IsDynamic(e.subnet) else p.link,
             p.servers + ServersOf(e), p.search + SearchOf(e))
  }

  ghost function AppliedAll(libs: Libs, p: Progress, entries: seq<Entry>): Progress {
    if entries == [] then p
    else Applied(libs, AppliedAll(libs, p, entries[..|entries| - 1]), entries[|entries| - 1])
  }

  lemma {:induction false} AppliedConcat(libs: Libs, p: Progress, a: seq<Entry>, b: seq<Entry>)
    ensures AppliedAll(libs, p, a + b) == AppliedAll(libs, AppliedAll(libs, p, a), b)
  {
    if b == [] {
      assert a + b == a;
    } else {
      AppliedConcat(libs, p, a, b[..|b| - 1]);
      assert (a + b)[..|a + b| - 1] == a + b[..|b| - 1];
    }
  }

  lemma {:induction false} CommandsOnlyGrow(libs: Libs, p: Progress, entries: seq<Entry>)
    ensures p.ran <= AppliedAll(libs, p, entries).ran
  {
    if entries != [] {
      CommandsOnlyGrow(libs, p, entries[..|entries| - 1]);
    }
  }

  lemma FlatMapLast<A, T>(f: A -> seq<T>, xs: seq<A>, head: seq<T>)
    requires xs != []
    ensures head + FlatMap(f, xs) == head + FlatMap(f, xs[..|xs| - 1]) + f(xs[|xs| - 1])
  {
    ConcatAssociates(head, FlatMap(f, xs[..|xs| - 1]), f(xs[|xs| - 1]));
  }

  lemma ConcatAssociates<T>(a: seq<T>, b: seq<T>, c: seq<T>)
    ensures a + (b + c) == a + b + c
  {
  }

  lemma {:induction false} AppliedCommands(libs: Libs, p: Progress, entries: seq<Entry>)
    ensures AppliedAll(libs, p, entries).ran == p.ran + Commands(libs, entries)
  {
    if entries != [] {
      AppliedCommands(libs, p, entries[..|entries| - 1]);
      FlatMapLast(e => CommandsOf(libs, e), entries, p.ran);
    }
  }

  lemma {:induction false} AppliedResolvers(libs: Libs, p: Progress, entries: seq<Entry>)
    ensures AppliedAll(libs, p, entries).servers == p.servers + Servers(entries)
    ensures AppliedAll(libs, p, entries).search == p.search + Search(entries)
  {
    if entries != [] {
      AppliedResolvers(libs, p, entries[..|entries| - 1]);
      FlatMapLast(ServersOf, entries, p.servers);
      FlatMapLast(SearchOf, entries, p.search);
    }
  }

  lemma {:induction false} AppliedLink(libs: Libs, p: Progress, entries: seq<Entry>)
    ensures AppliedAll(libs, p, entries).link == LinkAfter(entries, p.link)
  {
    if entries != [] {
      AppliedLink(libs, p, entries[..|entries| - 1]);
    }
  }
}
