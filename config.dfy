/**
 * src/ndlab/config.py: `ConfigInformation`, which hands out the addresses
 * that the device configuration templates use. Each device gets the next
 * loopback from 10.0.0.0/16. Each bridge gets the next /24 of 10.1.0.0/16
 * the first time it is asked for, and each request for that bridge gets
 * the next host of its /24.
 *
 * Addresses are 32-bit naturals. The pools are counters: how many of the
 * loopback hosts and how many /24 networks are already taken, and for each
 * bridge, its network and how many of its hosts are taken.
 */
module Config {
  import opened Wrappers
  import opened Text
  import opened Dicts
  import opened Labmaker

  /** 10.0.0.0/16, whose hosts are 10.0.0.1 … 10.0.255.254. */
  const LOOP_NETWORK: nat := 0x0A00_0000
  const LOOP_HOSTS: nat := 0x1_0000 - 2

  /** 10.1.0.0/16, split into 256 networks of length 24. */
  const NETWORKS: nat := 0x0A01_0000
  const NETWORK_COUNT: nat := 256
  const NETWORK_LENGTH: nat := 24
  /** The hosts of a /24: .1 … .254. */
  const NETWORK_HOSTS: nat := 254

  /** The k-th host of the loopback network. */
  function LoopbackAddress(k: nat): (a: nat)
    ensures k < LOOP_HOSTS ==> LOOP_NETWORK < a < LOOP_NETWORK + 0x1_0000 - 1
  {
    LOOP_NETWORK + 1 + k
  }

  /** The k-th /24 of 10.1.0.0/16. */
  function NetworkAddress(k: nat): (a: nat)
    requires k < NETWORK_COUNT
    ensures a % 256 == 0 && NETWORKS <= a < NETWORKS + 0x1_0000
  {
    NETWORKS + 256 * k
  }

  /** The h-th host of the k-th /24. */
  function HostAddress(k: nat, h: nat): (a: nat)
    requires k < NETWORK_COUNT && h < NETWORK_HOSTS
    ensures a - a % 256 == NetworkAddress(k) && 1 <= a % 256 <= 254
  {
    NetworkAddress(k) + 1 + h
  }

  /** An address of 10.1.0.0/16 gives back its network and its host. */
  lemma HostAddressDecode(k: nat, h: nat)
    requires k < NETWORK_COUNT && h < NETWORK_HOSTS
    ensures (HostAddress(k, h) - NETWORKS - 1) / 256 == k && (HostAddress(k, h) - NETWORKS - 1) % 256 == h
  {
    assert HostAddress(k, h) - NETWORKS - 1 == 256 * k + h;
  }

  /** The low `n` bytes of `a` in decimal, most significant first, separated by dots. */
  function Octets(a: nat, n: nat): string
    requires n >= 1
    decreases n
  {
    if n == 1 then NatToString(a % 256) else Octets(a / 256, n - 1) + "." + NatToString(a % 256)
  }

  /** `str(IPv4Address(a))` for an address below 2^32: dotted decimal. */
  function Dotted(a: nat): string {
    Octets(a, 4)
  }

  /** The k-th loopback, as `_get_loop` gives it. */
  function LoopbackText(k: nat): string {
    Dotted(LoopbackAddress(k))
  }

  /** The loopbacks are 10.0.x.y, counting up from 10.0.0.1. */
  lemma LoopbackDotted(k: nat)
    requires k < LOOP_HOSTS
    ensures LoopbackText(k) == "10.0." + NatToString((k + 1) / 256) + "." + NatToString((k + 1) % 256)
  {
    var hi, lo := (k + 1) / 256, (k + 1) % 256;
    var c := 0x0A00;
    var b := c * 256 + hi;
    var a := b * 256 + lo;
    assert LoopbackAddress(k) == a;
    SplitOctet(b, lo);
    SplitOctet(c, hi);
    SplitOctet(10, 0);
    assert NatToString(10) == "10" && NatToString(0) == "0";
    assert Octets(c, 2) == "10.0";
    var h, l := NatToString(hi), NatToString(lo);
    assert Octets(b, 3) == "10.0" + "." + h;
    assert LoopbackText(k) == Octets(a, 4);
    assert Octets(a, 4) == Octets(a / 256, 3) + "." + NatToString(a % 256);
    assert "10.0" + "." == "10.0.";
  }

  /** The last octet of `q * 256 + r` is `r`; the rest is `q`. */
  lemma SplitOctet(q: nat, r: nat)
    requires r < 256
    ensures (q * 256 + r) / 256 == q && (q * 256 + r) % 256 == r
  {
  }

  datatype Ipv4Interface = Ipv4Interface(address: nat, prefixLength: nat)

  datatype InterfaceInfo = InterfaceInfo(interface: int, bridge: string, ipaddress: Ipv4Interface)

  datatype DeviceInfo = DeviceInfo(hostname: string, loopback: string, interfaces: seq<InterfaceInfo>)

  /** `next()` on an exhausted pool raises StopIteration. */
  datatype ConfigError = LoopbacksExhausted | NetworksExhausted | HostsExhausted(bridge: string)

  /** A bridge's /24 (by index) and how many of its hosts are taken. */
  datatype Assigned = Assigned(network: nat, hostsUsed: nat)

  /** `_loops`, `_networks` and `_assigned_nets`, as counters. */
  datatype Pools = Pools(loopsUsed: nat, networksUsed: nat, nets: map<string, Assigned>)

  /** A value taken from the pools, and the pools afterwards. */
  datatype Taken<T> = Taken(value: T, pools: Pools)

  /**
   * The pools only hold what they could have handed out, and no two
   * bridges share a network.
   */
  ghost predicate PoolsValid(p: Pools) {
    && p.loopsUsed <= LOOP_HOSTS
    && p.networksUsed <= NETWORK_COUNT
    && (forall b :: b in p.nets ==> p.nets[b].network < p.networksUsed && p.nets[b].hostsUsed <= NETWORK_HOSTS)
    && (forall b1, b2 :: b1 in p.nets && b2 in p.nets && b1 != b2 ==> p.nets[b1].network != p.nets[b2].network)
  }

  /** Every bridge address handed out so far. */
  ghost function HandedOut(p: Pools): set<nat>
    requires PoolsValid(p)
  {
    set b, h | b in p.nets && 0 <= h < p.nets[b].hostsUsed :: HostAddress(p.nets[b].network, h)
  }

  // ---------------------------------------------------------------------------
  // _get_loop

  function NextLoop(p: Pools): (r: Result<Taken<nat>, ConfigError>)
    ensures r.Success? ==> r.value.pools.loopsUsed == p.loopsUsed + 1
  {
    if p.loopsUsed < LOOP_HOSTS then Success(Taken(LoopbackAddress(p.loopsUsed), p.(loopsUsed := p.loopsUsed + 1)))
    else Failure(LoopbacksExhausted)
  }

  /** Successive loopbacks are successive hosts, until the pool is empty; nothing else moves. */
  lemma NextLoopSpec(p: Pools)
    ensures NextLoop(p).Success? <==> p.loopsUsed < LOOP_HOSTS
    ensures NextLoop(p).Success? ==>
      var t := NextLoop(p).value;
      t.value == LOOP_NETWORK + 1 + p.loopsUsed && t.pools.networksUsed == p.networksUsed && t.pools.nets == p.nets
    ensures PoolsValid(p) && NextLoop(p).Success? ==> PoolsValid(NextLoop(p).value.pools)
  {
  }

  // ---------------------------------------------------------------------------
  // _get_ip_address_for_bridge

  /**
   * A bridge seen for the first time takes the next /24; the request then
   * takes the next host of the bridge's /24.
   */
  function AddressFor(p: Pools, bridge: string): (r: Result<Taken<Ipv4Interface>, ConfigError>)
    ensures r.Success? ==> r.value.pools.loopsUsed == p.loopsUsed
  {
    if bridge !in p.nets && p.networksUsed >= NETWORK_COUNT then Failure(NetworksExhausted)
    else
      var p1 := if bridge in p.nets then p
        else p.(networksUsed := p.networksUsed + 1, nets := p.nets[bridge := Assigned(p.networksUsed, 0)]);
      var a := p1.nets[bridge];
      if a.hostsUsed >= NETWORK_HOSTS || a.network >= NETWORK_COUNT then Failure(HostsExhausted(bridge))
      else Success(Taken(Ipv4Interface(HostAddress(a.network, a.hostsUsed), NETWORK_LENGTH),
                         p1.(nets := p1.nets[bridge := a.(hostsUsed := a.hostsUsed + 1)])))
  }

  /**
   * The first request for a bridge gets host .1 of the next /24; a later
   * one gets the next host of the bridge's /24. The request fails only
   * when the networks or the bridge's hosts are used up.
   */
  lemma AddressForSpec(p: Pools, bridge: string)
    requires PoolsValid(p)
    ensures bridge !in p.nets ==>
      if p.networksUsed < NETWORK_COUNT
      then AddressFor(p, bridge) == Success(Taken(Ipv4Interface(HostAddress(p.networksUsed, 0), NETWORK_LENGTH),
             p.(networksUsed := p.networksUsed + 1, nets := p.nets[bridge := Assigned(p.networksUsed, 1)])))
      else AddressFor(p, bridge) == Failure(NetworksExhausted)
    ensures bridge in p.nets ==>
      var a := p.nets[bridge];
      if a.hostsUsed < NETWORK_HOSTS
      then AddressFor(p, bridge) == Success(Taken(Ipv4Interface(HostAddress(a.network, a.hostsUsed), NETWORK_LENGTH),
             p.(nets := p.nets[bridge := Assigned(a.network, a.hostsUsed + 1)])))
      else AddressFor(p, bridge) == Failure(HostsExhausted(bridge))
  {
    if bridge !in p.nets && p.networksUsed < NETWORK_COUNT {
      var first := Assigned(p.networksUsed, 0);
      assert p.nets[bridge := first][bridge := first.(hostsUsed := 1)] == p.nets[bridge := Assigned(p.networksUsed, 1)];
    }
  }

  /** The pools after handing out host `h` of network `net` to `bridge`. */
  function HandOut(p: Pools, bridge: string, net: nat, h: nat): Pools {
    Pools(p.loopsUsed, if bridge in p.nets then p.networksUsed else p.networksUsed + 1, p.nets[bridge := Assigned(net, h + 1)])
  }

  /** Host `h` of network `net` is the next one `bridge` can take. */
  ghost predicate NextFor(p: Pools, bridge: string, net: nat, h: nat) {
    && h < NETWORK_HOSTS
    && (bridge in p.nets ==> p.nets[bridge] == Assigned(net, h))
    && (bridge !in p.nets ==> net == p.networksUsed && h == 0 && p.networksUsed < NETWORK_COUNT)
  }

  lemma HandOutValid(p: Pools, bridge: string, net: nat, h: nat)
    requires PoolsValid(p) && NextFor(p, bridge, net, h)
    ensures PoolsValid(HandOut(p, bridge, net, h))
  {
  }

  lemma HandOutFresh(p: Pools, bridge: string, net: nat, h: nat)
    requires PoolsValid(p) && NextFor(p, bridge, net, h)
    ensures net < NETWORK_COUNT && HostAddress(net, h) !in HandedOut(p)
  {
    forall b, g | b in p.nets && 0 <= g < p.nets[b].hostsUsed
      ensures HostAddress(p.nets[b].network, g) != HostAddress(net, h)
    {
      HostAddressDecode(p.nets[b].network, g);
      HostAddressDecode(net, h);
    }
  }

  lemma HandOutGrows(p: Pools, bridge: string, net: nat, h: nat)
    requires PoolsValid(p) && NextFor(p, bridge, net, h)
    ensures PoolsValid(HandOut(p, bridge, net, h))
    ensures HandedOut(HandOut(p, bridge, net, h)) == HandedOut(p) + {HostAddress(net, h)}
  {
    var q := HandOut(p, bridge, net, h);
    HandOutValid(p, bridge, net, h);
    var x := HostAddress(net, h);
    forall y | y in HandedOut(q) ensures y in HandedOut(p) + {x} {
      var b, g :| b in q.nets && 0 <= g < q.nets[b].hostsUsed && y == HostAddress(q.nets[b].network, g);
      if b != bridge || g < h {
        assert b in p.nets && g < p.nets[b].hostsUsed && q.nets[b].network == p.nets[b].network;
      }
    }
    forall y | y in HandedOut(p) ensures y in HandedOut(q) {
      var b, g :| b in p.nets && 0 <= g < p.nets[b].hostsUsed && y == HostAddress(p.nets[b].network, g);
      assert b in q.nets && g < q.nets[b].hostsUsed && q.nets[b].network == p.nets[b].network;
    }
    assert bridge in q.nets && h < q.nets[bridge].hostsUsed && q.nets[bridge].network == net;
  }

  /**
   * A request keeps the pools consistent, hands out an address nobody
   * holds yet, and adds exactly that address to those handed out.
   */
  lemma AddressForFresh(p: Pools, bridge: string)
    requires PoolsValid(p) && AddressFor(p, bridge).Success?
    ensures var t := AddressFor(p, bridge).value;
      && PoolsValid(t.pools)
      && t.value.address !in HandedOut(p)
      && HandedOut(t.pools) == HandedOut(p) + {t.value.address}
  {
    AddressForSpec(p, bridge);
    var net, h := if bridge in p.nets then p.nets[bridge].network else p.networksUsed,
                  if bridge in p.nets then p.nets[bridge].hostsUsed else 0;
    assert AddressFor(p, bridge).value == Taken(Ipv4Interface(HostAddress(net, h), NETWORK_LENGTH), HandOut(p, bridge, net, h));
    HandOutFresh(p, bridge, net, h);
    HandOutGrows(p, bridge, net, h);
  }

  // ---------------------------------------------------------------------------
  // get_template_info

  /** `links_by_device.get(name, {})`. */
  function LinksOfDevice(links: Dict<string, Dict<int, string>>, name: string): (r: Dict<int, string>)
    requires LinksValid(links)
    ensures r.Valid()
    ensures name !in links.values ==> r.keys == []
  {
    if name in links.values then links.values[name] else Empty()
  }

  /** The interface loop, over the keys `keys` still to visit, after the interfaces `acc`. */
  function InterfacesFrom(p: Pools, acc: seq<InterfaceInfo>, inner: Dict<int, string>, keys: seq<int>)
    : (r: Result<Taken<seq<InterfaceInfo>>, ConfigError>)
    requires forall i :: 0 <= i < |keys| ==> keys[i] in inner.values
    ensures r.Success? ==> r.value.pools.loopsUsed == p.loopsUsed
    decreases |keys|
  {
    if keys == [] then Success(Taken(acc, p))
    else match AddressFor(p, inner.values[keys[0]])
      case Failure(e) => Failure(e)
      case Success(t) =>
        InterfacesFrom(t.pools, acc + [InterfaceInfo(keys[0], inner.values[keys[0]], t.value)], inner, keys[1..])
  }

  /** One device: its loopback, then an address per link in the order of its link indices. */
  function DeviceStep(links: Dict<string, Dict<int, string>>, p: Pools, name: string): (r: Result<Taken<DeviceInfo>, ConfigError>)
    requires LinksValid(links)
    ensures r.Success? ==> r.value.value.hostname == name
  {
    match NextLoop(p)
    case Failure(e) => Failure(e)
    case Success(l) =>
      var inner := LinksOfDevice(links, name);
      match InterfacesFrom(l.pools, [], inner, inner.keys)
      case Failure(e) => Failure(e)
      case Success(t) => Success(Taken(DeviceInfo(name, Dotted(l.value), t.value), t.pools))
  }

  /** One turn of the device loop: a device's entry and the pools afterwards. */
  type EntryStep = (Pools, string) -> Result<Taken<DeviceInfo>, ConfigError>

  /** The turn get_template_info takes for each device, over the links of its topology. */
  function StepOver(links: Dict<string, Dict<int, string>>): (step: EntryStep)
    requires LinksValid(links)
    ensures forall q, n :: step(q, n) == DeviceStep(links, q, n)
  {
    (q: Pools, n: string) => DeviceStep(links, q, n)
  }

  /** The device loop, over the devices still to visit, after the entries `acc`. */
  function TemplateFrom(step: EntryStep, p: Pools, acc: Dict<string, DeviceInfo>, devices: seq<TopoDevice>)
    : Result<Taken<Dict<string, DeviceInfo>>, ConfigError>
    requires acc.Valid()
    decreases |devices|
  {
    if devices == [] then Success(Taken(acc, p))
    else match step(p, devices[0].name)
      case Failure(e) => Failure(e)
      case Success(t) => TemplateFrom(step, t.pools, acc.Put(devices[0].name, t.value), devices[1..])
  }

  /** What get_template_info returns, and the pools afterwards. */
  function TemplateSpec(devices: seq<TopoDevice>, links: Dict<string, Dict<int, string>>, p: Pools)
    : Result<Taken<Dict<string, DeviceInfo>>, ConfigError>
    requires LinksValid(links)
  {
    TemplateFrom(StepOver(links), p, Empty(), devices)
  }

  /**
   * The interfaces mirror the links in order: one per link index, with
   * that index and the bridge's name, each address new.
   */
  lemma {:induction false} InterfacesFromShape(p: Pools, acc: seq<InterfaceInfo>, inner: Dict<int, string>, keys: seq<int>)
    requires forall i :: 0 <= i < |keys| ==> keys[i] in inner.values
    requires PoolsValid(p) && InterfacesFrom(p, acc, inner, keys).Success?
    ensures var t := InterfacesFrom(p, acc, inner, keys).value;
      && |t.value| == |acc| + |keys| && t.value[..|acc|] == acc
      && (forall i :: 0 <= i < |keys| ==> t.value[|acc| + i].interface == keys[i] && t.value[|acc| + i].bridge == inner.values[keys[i]])
      && PoolsValid(t.pools) && HandedOut(p) <= HandedOut(t.pools)
    decreases |keys|
  {
    if keys != [] {
      var t0 := AddressFor(p, inner.values[keys[0]]).value;
      AddressForFresh(p, inner.values[keys[0]]);
      var acc1 := acc + [InterfaceInfo(keys[0], inner.values[keys[0]], t0.value)];
      InterfacesFromShape(t0.pools, acc1, inner, keys[1..]);
      var t := InterfacesFrom(p, acc, inner, keys).value;
      assert t.value[..|acc|] == t.value[..|acc1|][..|acc|];
      forall i | 1 <= i < |keys| ensures t.value[|acc| + i].interface == keys[i] && t.value[|acc| + i].bridge == inner.values[keys[i]] {
        assert keys[i] == keys[1..][i - 1] && |acc| + i == |acc1| + (i - 1);
      }
    }
  }

  /**
   * The interfaces the loop adds get addresses nobody held before, all
   * different, and all held afterwards.
   */
  lemma {:induction false} InterfacesFromFresh(p: Pools, acc: seq<InterfaceInfo>, inner: Dict<int, string>, keys: seq<int>)
    requires forall i :: 0 <= i < |keys| ==> keys[i] in inner.values
    requires PoolsValid(p) && InterfacesFrom(p, acc, inner, keys).Success?
    ensures var t := InterfacesFrom(p, acc, inner, keys).value;
      && |t.value| == |acc| + |keys| && PoolsValid(t.pools)
      && (forall i :: |acc| <= i < |t.value| ==> t.value[i].ipaddress.address in HandedOut(t.pools) - HandedOut(p))
      && (forall i, j :: |acc| <= i < j < |t.value| ==> t.value[i].ipaddress.address != t.value[j].ipaddress.address)
    decreases |keys|
  {
    InterfacesFromShape(p, acc, inner, keys);
    if keys != [] {
      var bridge := inner.values[keys[0]];
      var t0 := AddressFor(p, bridge).value;
      AddressForFresh(p, bridge);
      var a := t0.value.address;
      var acc1 := acc + [InterfaceInfo(keys[0], bridge, t0.value)];
      InterfacesFromFresh(t0.pools, acc1, inner, keys[1..]);
      InterfacesFromShape(t0.pools, acc1, inner, keys[1..]);
      var t := InterfacesFrom(t0.pools, acc1, inner, keys[1..]).value;
      assert InterfacesFrom(p, acc, inner, keys).value == t;
      assert t.value[..|acc1|] == acc1;
      assert t.value[|acc|] == acc1[|acc|];
      ghost var f := (x: InterfaceInfo) => x.ipaddress.address;
      FreshBefore(t.value, |acc|, f, HandedOut(p), HandedOut(t0.pools), HandedOut(t.pools));
    }
  }

  /**
   * Values drawn one after another from a growing pool: a first one not
   * in `before`, then values fresh with respect to `mid`, are all fresh
   * with respect to `before` and all different.
   */
  lemma FreshBefore<T>(s: seq<T>, lo: nat, f: T -> nat, before: set<nat>, mid: set<nat>, after: set<nat>)
    requires lo < |s| && f(s[lo]) !in before && mid == before + {f(s[lo])} && mid <= after
    requires forall i :: lo < i < |s| ==> f(s[i]) in after - mid
    requires forall i, j :: lo < i < j < |s| ==> f(s[i]) != f(s[j])
    ensures forall i :: lo <= i < |s| ==> f(s[i]) in after - before
    ensures forall i, j :: lo <= i < j < |s| ==> f(s[i]) != f(s[j])
  {
  }

  /**
   * A device's entry: its name, and one interface per link of the device,
   * in the order of its link indices; a device with no links gets no
   * interface.
   */
  lemma DeviceStepShape(links: Dict<string, Dict<int, string>>, p: Pools, name: string)
    requires LinksValid(links) && PoolsValid(p) && DeviceStep(links, p, name).Success?
    ensures var t, inner := DeviceStep(links, p, name).value, LinksOfDevice(links, name);
      && t.value.hostname == name
      && |t.value.interfaces| == |inner.keys|
      && (forall i :: 0 <= i < |inner.keys| ==>
            t.value.interfaces[i].interface == inner.keys[i] && t.value.interfaces[i].bridge == inner.values[inner.keys[i]])
      && (name !in links.values ==> t.value.interfaces == [])
      && PoolsValid(t.pools) && HandedOut(p) <= HandedOut(t.pools)
  {
    var l := NextLoop(p).value;
    var inner := LinksOfDevice(links, name);
    InterfacesFromShape(l.pools, [], inner, inner.keys);
  }

  /** A device's interfaces get different addresses, none of which was handed out before. */
  lemma DeviceStepFresh(links: Dict<string, Dict<int, string>>, p: Pools, name: string)
    requires LinksValid(links) && PoolsValid(p) && DeviceStep(links, p, name).Success?
    ensures var t := DeviceStep(links, p, name).value;
      && PoolsValid(t.pools)
      && (forall i :: 0 <= i < |t.value.interfaces| ==> t.value.interfaces[i].ipaddress.address in HandedOut(t.pools) - HandedOut(p))
      && (forall i, j :: 0 <= i < j < |t.value.interfaces| ==>
            t.value.interfaces[i].ipaddress.address != t.value.interfaces[j].ipaddress.address)
  {
    var l := NextLoop(p).value;
    var inner := LinksOfDevice(links, name);
    assert HandedOut(l.pools) == HandedOut(p);
    InterfacesFromFresh(l.pools, [], inner, inner.keys);
  }

  /** Every entry a step makes is filed under its own name. */
  ghost predicate NamesEntries(step: EntryStep) {
    forall q, n :: step(q, n).Success? ==> step(q, n).value.value.hostname == n
  }

  /** Every step takes the next loopback, written as `text` writes it. */
  ghost predicate TakesLoopback(step: EntryStep, text: nat -> string) {
    forall q, n :: step(q, n).Success? ==>
      && q.loopsUsed < LOOP_HOSTS
      && step(q, n).value.value.loopback == text(q.loopsUsed)
      && step(q, n).value.pools.loopsUsed == q.loopsUsed + 1
  }

  /** get_template_info's turn files each entry under the device's name and takes the next loopback. */
  lemma StepOverSpec(links: Dict<string, Dict<int, string>>)
    requires LinksValid(links)
    ensures NamesEntries(StepOver(links)) && TakesLoopback(StepOver(links), LoopbackText)
  {
    forall q, n | StepOver(links)(q, n).Success?
      ensures q.loopsUsed < LOOP_HOSTS && StepOver(links)(q, n).value.value.loopback == LoopbackText(q.loopsUsed)
    {
      assert NextLoop(q).Success?;
    }
  }

  /**
   * The device loop takes one loopback per device, in order; the entry of a
   * name is that of its last device, so a duplicate name overwrites the
   * earlier entry.
   */
  lemma {:induction false} TemplateFromLoopbacks(step: EntryStep, text: nat -> string, p: Pools, acc: Dict<string, DeviceInfo>,
                                                 devices: seq<TopoDevice>, k: nat)
    requires acc.Valid() && TakesLoopback(step, text) && TemplateFrom(step, p, acc, devices).Success?
    requires k < |devices| && forall j :: k < j < |devices| ==> devices[j].name != devices[k].name
    ensures var t := TemplateFrom(step, p, acc, devices).value;
      && p.loopsUsed + k < LOOP_HOSTS
      && devices[k].name in t.value.values
      && t.value.values[devices[k].name].loopback == text(p.loopsUsed + k)
    decreases |devices|
  {
    if k == 0 {
      TemplateFromFirst(step, text, p, acc, devices);
    } else {
      assert step(p, devices[0].name).Success?;
      var d := step(p, devices[0].name).value;
      var acc1 := acc.Put(devices[0].name, d.value);
      var rest := devices[1..];
      assert TemplateFrom(step, p, acc, devices) == TemplateFrom(step, d.pools, acc1, rest);
      assert d.pools.loopsUsed == p.loopsUsed + 1;
      assert rest[k - 1] == devices[k];
      assert forall j :: k - 1 < j < |rest| ==> rest[j] == devices[j + 1];
      TemplateFromLoopbacks(step, text, d.pools, acc1, rest, k - 1);
      var t := TemplateFrom(step, d.pools, acc1, rest).value;
      var m := d.pools.loopsUsed + (k - 1);
      assert m == p.loopsUsed + k;
      assert t.value.values[devices[k].name].loopback == text(m);
    }
  }

  /** The first device takes the next loopback, and keeps its entry when no later device shares its name. */
  lemma TemplateFromFirst(step: EntryStep, text: nat -> string, p: Pools, acc: Dict<string, DeviceInfo>, devices: seq<TopoDevice>)
    requires acc.Valid() && TakesLoopback(step, text) && TemplateFrom(step, p, acc, devices).Success?
    requires 0 < |devices| && forall j :: 0 < j < |devices| ==> devices[j].name != devices[0].name
    ensures var t := TemplateFrom(step, p, acc, devices).value;
      && p.loopsUsed < LOOP_HOSTS
      && devices[0].name in t.value.values
      && t.value.values[devices[0].name].loopback == text(p.loopsUsed)
  {
    var name := devices[0].name;
    assert step(p, name).Success?;
    var d := step(p, name).value;
    var acc1 := acc.Put(name, d.value);
    var rest := devices[1..];
    assert TemplateFrom(step, p, acc, devices) == TemplateFrom(step, d.pools, acc1, rest);
    assert forall j :: 0 <= j < |rest| ==> rest[j].name != name by {
      assert forall j :: 0 <= j < |rest| ==> rest[j] == devices[j + 1];
    }
    TemplateFromKeeps(step, d.pools, acc1, rest, name);
  }

  /** The devices' names, in order. */
  function NameList(devices: seq<TopoDevice>): (r: seq<string>)
    ensures |r| == |devices| && forall i :: 0 <= i < |devices| ==> r[i] == devices[i].name
    decreases |devices|
  {
    if devices == [] then [] else [devices[0].name] + NameList(devices[1..])
  }

  /** An entry no later device overwrites stays as it is. */
  lemma {:induction false} TemplateFromKeeps(step: EntryStep, p: Pools, acc: Dict<string, DeviceInfo>, devices: seq<TopoDevice>, name: string)
    requires acc.Valid() && TemplateFrom(step, p, acc, devices).Success?
    requires name in acc.values && forall j :: 0 <= j < |devices| ==> devices[j].name != name
    ensures var t := TemplateFrom(step, p, acc, devices).value;
      name in t.value.values && t.value.values[name] == acc.values[name]
    decreases |devices|
  {
    if devices != [] {
      var d := step(p, devices[0].name).value;
      TemplateFromKeeps(step, d.pools, acc.Put(devices[0].name, d.value), devices[1..], name);
    }
  }

  /** The entries are keyed by the device names: the earlier ones, then each new name in order of appearance. */
  lemma {:induction false} TemplateFromKeys(step: EntryStep, p: Pools, acc: Dict<string, DeviceInfo>, devices: seq<TopoDevice>)
    requires acc.Valid() && TemplateFrom(step, p, acc, devices).Success?
    ensures var t := TemplateFrom(step, p, acc, devices).value;
      && t.value.Valid()
      && (forall n :: n in t.value.values <==> n in acc.values || n in NameList(devices))
      && |acc.keys| <= |t.value.keys| && t.value.keys[..|acc.keys|] == acc.keys
    decreases |devices|
  {
    if devices != [] {
      var d := step(p, devices[0].name).value;
      var acc1 := acc.Put(devices[0].name, d.value);
      assert TemplateFrom(step, p, acc, devices) == TemplateFrom(step, d.pools, acc1, devices[1..]);
      TemplateFromKeys(step, d.pools, acc1, devices[1..]);
      var t := TemplateFrom(step, d.pools, acc1, devices[1..]).value;
      assert t.value.keys[..|acc.keys|] == t.value.keys[..|acc1.keys|][..|acc.keys|];
      assert acc1.keys[..|acc.keys|] == acc.keys;
    }
  }

  /** Each new entry is filed under its own hostname. */
  lemma {:induction false} TemplateFromHostnames(step: EntryStep, p: Pools, acc: Dict<string, DeviceInfo>, devices: seq<TopoDevice>)
    requires acc.Valid() && NamesEntries(step) && TemplateFrom(step, p, acc, devices).Success?
    ensures var t := TemplateFrom(step, p, acc, devices).value;
      forall n :: n in t.value.values ==> t.value.values[n].hostname == n || (n in acc.values && t.value.values[n] == acc.values[n])
    decreases |devices|
  {
    if devices != [] {
      var d := step(p, devices[0].name).value;
      TemplateFromHostnames(step, d.pools, acc.Put(devices[0].name, d.value), devices[1..]);
    }
  }

  /**
   * get_template_info, when it succeeds, has an entry for each device name
   * and no other, and each entry carries its device's name.
   */
  lemma TemplateSpecEntries(devices: seq<TopoDevice>, links: Dict<string, Dict<int, string>>, p: Pools)
    requires LinksValid(links) && TemplateSpec(devices, links, p).Success?
    ensures var t := TemplateSpec(devices, links, p).value.value;
      && t.Valid()
      && (forall n :: n in t.values <==> n in NameList(devices))
      && (forall n :: n in t.values ==> t.values[n].hostname == n)
  {
    StepOverSpec(links);
    TemplateFromKeys(StepOver(links), p, Empty(), devices);
    TemplateFromHostnames(StepOver(links), p, Empty(), devices);
  }

  /**
   * The device at position k, when no later device has its name, has the
   * k-th loopback after those already taken.
   */
  lemma TemplateSpecLoopback(devices: seq<TopoDevice>, links: Dict<string, Dict<int, string>>, p: Pools, k: nat)
    requires LinksValid(links) && TemplateSpec(devices, links, p).Success?
    requires k < |devices| && forall j :: k < j < |devices| ==> devices[j].name != devices[k].name
    ensures var t := TemplateSpec(devices, links, p).value.value;
      && p.loopsUsed + k < LOOP_HOSTS
      && devices[k].name in t.values
      && t.values[devices[k].name].loopback == LoopbackText(p.loopsUsed + k)
  {
    StepOverSpec(links);
    TemplateFromLoopbacks(StepOver(links), LoopbackText, p, Empty(), devices, k);
  }

  // ---------------------------------------------------------------------------
  // The imperative model

  /** A step of the device loop, for the loop in get_template_info. */
  lemma TemplateFromAt(step: EntryStep, p: Pools, acc: Dict<string, DeviceInfo>, devices: seq<TopoDevice>, k: nat)
    requires acc.Valid() && k < |devices|
    ensures step(p, devices[k].name).Failure? ==>
      TemplateFrom(step, p, acc, devices[k..]) == Failure(step(p, devices[k].name).error)
    ensures step(p, devices[k].name).Success? ==>
      var t := step(p, devices[k].name).value;
      TemplateFrom(step, p, acc, devices[k..]) == TemplateFrom(step, t.pools, acc.Put(devices[k].name, t.value), devices[k + 1..])
  {
    assert devices[k..][0] == devices[k] && devices[k..][1..] == devices[k + 1..];
  }

  /** A step of the interface loop. */
  lemma InterfacesFromAt(p: Pools, acc: seq<InterfaceInfo>, inner: Dict<int, string>, j: nat)
    requires inner.Valid() && j < |inner.keys|
    ensures inner.keys[j] in inner.values
    ensures AddressFor(p, inner.values[inner.keys[j]]).Failure? ==>
      InterfacesFrom(p, acc, inner, inner.keys[j..]) == Failure(AddressFor(p, inner.values[inner.keys[j]]).error)
    ensures AddressFor(p, inner.values[inner.keys[j]]).Success? ==>
      var t := AddressFor(p, inner.values[inner.keys[j]]).value;
      InterfacesFrom(p, acc, inner, inner.keys[j..]) ==
        InterfacesFrom(t.pools, acc + [InterfaceInfo(inner.keys[j], inner.values[inner.keys[j]], t.value)], inner, inner.keys[j + 1..])
  {
    assert inner.keys[j..][0] == inner.keys[j] && inner.keys[j..][1..] == inner.keys[j + 1..];
  }

  class ConfigInformation {
    const topology: Topology
    var loopsUsed: nat
    var networksUsed: nat
    var assignedNets: map<string, Assigned>

    /** Fresh pools over the default networks. */
    constructor (topology: Topology)
      ensures this.topology == topology && Snapshot() == Pools(0, 0, map[])
    {
      this.topology := topology;
      loopsUsed := 0;
      networksUsed := 0;
      assignedNets := map[];
    }

    function Snapshot(): Pools
      reads this
    {
      Pools(loopsUsed, networksUsed, assignedNets)
    }

    /** _get_loop: the next loopback, as dotted text. */
    method GetLoop() returns (r: Result<string, ConfigError>)
      modifies this
      ensures NextLoop(old(Snapshot())).Failure? ==> r == Failure(LoopbacksExhausted) && Snapshot() == old(Snapshot())
      ensures NextLoop(old(Snapshot())).Success? ==>
        var t := NextLoop(old(Snapshot())).value;
        r == Success(Dotted(t.value)) && Snapshot() == t.pools
    {
      if loopsUsed >= LOOP_HOSTS {
        return Failure(LoopbacksExhausted);
      }
      var address := LOOP_NETWORK + 1 + loopsUsed;
      loopsUsed := loopsUsed + 1;
      return Success(Dotted(address));
    }

    /** _get_ip_address_for_bridge. */
    method GetIpAddressForBridge(bridge: string) returns (r: Result<Ipv4Interface, ConfigError>)
      modifies this
      ensures AddressFor(old(Snapshot()), bridge).Failure? ==>
        r == Failure(AddressFor(old(Snapshot()), bridge).error) && Snapshot() == old(Snapshot())
      ensures AddressFor(old(Snapshot()), bridge).Success? ==>
        var t := AddressFor(old(Snapshot()), bridge).value;
        r == Success(t.value) && Snapshot() == t.pools
    {
      if bridge !in assignedNets {
        if networksUsed >= NETWORK_COUNT {
          return Failure(NetworksExhausted);
        }
        assignedNets := assignedNets[bridge := Assigned(networksUsed, 0)];
        networksUsed := networksUsed + 1;
      }
      var network := assignedNets[bridge];
      if network.hostsUsed >= NETWORK_HOSTS || network.network >= NETWORK_COUNT {
        return Failure(HostsExhausted(bridge));
      }
      var ipAddress := NETWORKS + 256 * network.network + 1 + network.hostsUsed;
      assignedNets := assignedNets[bridge := network.(hostsUsed := network.hostsUsed + 1)];
      return Success(Ipv4Interface(ipAddress, NETWORK_LENGTH));
    }

    /** One device of get_template_info: its loopback, then its interfaces. */
    method DeviceInfoFor(name: string) returns (r: Result<DeviceInfo, ConfigError>)
      requires LinksValid(topology.linksByDevice)
      modifies this
      ensures var d := DeviceStep(topology.linksByDevice, old(Snapshot()), name);
        && (r.Failure? <==> d.Failure?)
        && (r.Failure? ==> r.error == d.error)
        && (r.Success? ==> r.value == d.value.value && Snapshot() == d.value.pools)
    {
      var loopback := GetLoop();
      if loopback.Failure? {
        return Failure(loopback.error);
      }
      var inner := LinksOfDevice(topology.linksByDevice, name);
      ghost var goal := InterfacesFrom(Snapshot(), [], inner, inner.keys);
      var interfaces := [];
      var j := 0;
      assert inner.keys[0..] == inner.keys;
      while j < |inner.keys|
        invariant 0 <= j <= |inner.keys|
        invariant InterfacesFrom(Snapshot(), interfaces, inner, inner.keys[j..]) == goal
      {
        InterfacesFromAt(Snapshot(), interfaces, inner, j);
        var bridge := inner.values[inner.keys[j]];
        var address := GetIpAddressForBridge(bridge);
        if address.Failure? {
          return Failure(address.error);
        }
        interfaces := interfaces + [InterfaceInfo(inner.keys[j], bridge, address.value)];
        j := j + 1;
      }
      assert inner.keys[j..] == [];
      return Success(DeviceInfo(name, loopback.value, interfaces));
    }

    /** get_template_info: an entry per device name, in device order. */
    method GetTemplateInfo() returns (r: Result<Dict<string, DeviceInfo>, ConfigError>)
      requires LinksValid(topology.linksByDevice)
      modifies this
      ensures var spec := TemplateSpec(topology.devices, topology.linksByDevice, old(Snapshot()));
        && (r.Failure? <==> spec.Failure?)
        && (r.Failure? ==> r.error == spec.error)
        && (r.Success? ==> r.value == spec.value.value && Snapshot() == spec.value.pools)
    {
      var devices := topology.devices;
      ghost var step := StepOver(topology.linksByDevice);
      ghost var goal := TemplateSpec(devices, topology.linksByDevice, Snapshot());
      var templateInfo := Empty();
      var k := 0;
      assert devices[0..] == devices;
      while k < |devices|
        invariant 0 <= k <= |devices| && templateInfo.Valid()
        invariant TemplateFrom(step, Snapshot(), templateInfo, devices[k..]) == goal
      {
        TemplateFromAt(step, Snapshot(), templateInfo, devices, k);
        var name := devices[k].name;
        var info := DeviceInfoFor(name);
        if info.Failure? {
          return Failure(info.error);
        }
        templateInfo := templateInfo.Put(name, info.value);
        k := k + 1;
      }
      assert devices[k..] == [];
      return Success(templateInfo);
    }
  }
}
