/**
 * The device object of src/ndlab/device.py with the overrides of
 * src/ndlab/platforms/xrv9k.py (and the one-line argument lists of eos.py
 * and routeros.py): its port maps, the MAC counter and the qemu command
 * line set_qemu_cmd assembles.
 *
 * Every method that changes the object is proved against a function on a
 * `DeviceState` value holding the attributes it updates; what the source
 * promises is proved about those functions. Free ports are the answers of
 * `freePort` to the first, second, ... request; whether /dev/kvm exists and
 * the image files exist are inputs.
 */
module NetworkDevices {
  import opened Wrappers
  import opened Text
  import opened Platforms
  import opened Device
  import Images

  /** What does not change once the device is built. */
  datatype DeviceConfig = DeviceConfig(platform: Platform, baseMac: string, overlay: string,
                                       fakeStartDate: string, freePort: nat -> nat)

  /**
   * The attributes the methods update. A port of 0 stands for None: both
   * are falsy, and the source only ever tests these for truth.
   */
  datatype DeviceState = DeviceState(requests: nat, macs: nat, qemuPort: nat, consolePort: nat,
                                     ethernetPorts: Ports, consolePorts: Ports)

  ghost predicate StateValid(s: DeviceState) {
    s.macs <= MAC_COUNTER_LIMIT
  }

  /** What a port-filling step may do to a port map: entries that were set stay as they were. */
  ghost predicate Keeps(a: Ports, b: Ports) {
    forall k :: HasPort(a, k) ==> k in b && b[k] == a[k]
  }

  lemma KeepsTransitive(a: Ports, b: Ports, c: Ports)
    requires Keeps(a, b) && Keeps(b, c)
    ensures Keeps(a, c)
  {
    forall k | HasPort(a, k)
      ensures k in c && c[k] == a[k]
    {
      assert HasPort(b, k);
    }
  }

  // ---------------------------------------------------------------------------
  // One port, one MAC

  /** get_available_port. */
  function Allocate(c: DeviceConfig, s: DeviceState): (nat, DeviceState) {
    (c.freePort(s.requests), s.(requests := s.requests + 1))
  }

  /**
   * gen_mac: the next value of `iter(range(255))`, from which the MAC is
   * formed; once all are used, `next` raises StopIteration.
   */
  function NextMac(c: DeviceConfig, s: DeviceState): (Result<nat, string>, DeviceState) {
    if s.macs < MAC_COUNTER_LIMIT then (Success(s.macs), s.(macs := s.macs + 1))
    else (Failure("StopIteration"), s)
  }

  /** The MAC gen_mac returns for a counter value, or its error. */
  function MacText(baseMac: string, m: Result<nat, string>): Result<string, string> {
    if m.Success? then Success(MacAddress(baseMac, m.value)) else Failure(m.error)
  }

  /** `if not ports.get(k): ports[k] = get_available_port()`. */
  function FillEthernet(c: DeviceConfig, s: DeviceState, k: int): (r: DeviceState)
    requires StateValid(s)
    ensures StateValid(r)
  {
    if HasPort(s.ethernetPorts, k) then s
    else s.(requests := s.requests + 1, ethernetPorts := s.ethernetPorts[k := c.freePort(s.requests)])
  }

  /** A directly filled entry is present afterwards, and no set entry changes. */
  lemma FillEthernetKeeps(c: DeviceConfig, s: DeviceState, k: int)
    requires StateValid(s)
    ensures var r := FillEthernet(c, s, k);
      && k in r.ethernetPorts
      && Keeps(s.ethernetPorts, r.ethernetPorts)
      && r.macs == s.macs && r.qemuPort == s.qemuPort && r.consolePort == s.consolePort && r.consolePorts == s.consolePorts
      && (HasPort(s.ethernetPorts, k) ==> r == s)
  {
  }

  /** SetPortIndex writes a key that holds nothing, so no set entry changes. */
  lemma SetPortIndexKeeps(ports: Ports, port: nat)
    ensures Keeps(ports, SetPortIndex(ports, port))
  {
  }

  // ---------------------------------------------------------------------------
  // gen_nics

  /** The port of NIC `id`: `ethernet_ports[id - 1]` when set, else a new one recorded with set_port_index. */
  function NicPort(c: DeviceConfig, s: DeviceState, id: int): (r: (nat, DeviceState))
    requires StateValid(s)
    ensures StateValid(r.1)
  {
    if HasPort(s.ethernetPorts, id - 1) then (s.ethernetPorts[id - 1], s)
    else
      var port := c.freePort(s.requests);
      (port, s.(requests := s.requests + 1, ethernetPorts := SetPortIndex(s.ethernetPorts, port)))
  }

  /** What one turn of the gen_nics loop decides for NIC `id`: its MAC counter value and its port. */
  datatype Nic = Nic(id: nat, mac: nat, port: nat)

  /** The `-device` value of NIC `id`. */
  function NicDevice(p: Platform, mac: string, id: nat): string {
    Join(",", [p.NicAdapter(), "netdev=p" + PadTwo(id), "mac=" + mac,
               "bus=pci." + NatToString(PciBus(id, p.NicsPerBus())),
               "addr=0x" + HexLower(PciAddress(id, p.NicsPerBus(), p.NicAddrOffset()))])
  }

  /** The `-netdev` value of NIC `id`. */
  function NicNetdev(port: nat, id: nat): string {
    Join(",", ["socket,id=p" + PadTwo(id), "listen=:" + NatToString(port)])
  }

  /** The four arguments one NIC adds to the command. */
  function NicArgs(p: Platform, baseMac: string, n: Nic): seq<string> {
    ["-device", NicDevice(p, MacAddress(baseMac, n.mac), n.id), "-netdev", NicNetdev(n.port, n.id)]
  }

  /** The arguments of a run of NICs, four each, in order. */
  function NicsArgs(p: Platform, baseMac: string, nics: seq<Nic>): (r: seq<string>)
    ensures |r| == 4 * |nics|
  {
    Blocks((n: Nic) => NicArgs(p, baseMac, n), 4, nics)
  }

  /** The concatenation of `f(x)` over `xs`, where `f` gives `w` elements each. */
  function Blocks<T(!new), U>(f: T -> seq<U>, w: nat, xs: seq<T>): (r: seq<U>)
    requires forall x :: |f(x)| == w
    ensures |r| == w * |xs|
  {
    if xs == [] then [] else f(xs[0]) + Blocks(f, w, xs[1..])
  }

  /** Block `k` of width `w` of `s`. */
  function Block<T>(s: seq<T>, w: nat, k: nat): (b: seq<T>)
    requires w * k + w <= |s|
    ensures |b| == w
  {
    s[w * k..w * k + w]
  }

  /** Element `j` of `xs` owns the `j`-th block. */
  lemma {:induction false} BlocksAt<T(!new), U>(f: T -> seq<U>, w: nat, xs: seq<T>, j: nat)
    requires forall x :: |f(x)| == w
    requires j < |xs|
    ensures w * j + w <= |Blocks(f, w, xs)| && Block(Blocks(f, w, xs), w, j) == f(xs[j])
  {
    var head := f(xs[0]);
    var rest := Blocks(f, w, xs[1..]);
    assert Blocks(f, w, xs) == head + rest;
    if j == 0 {
      FirstBlock(head, rest);
    } else {
      var k := j - 1;
      BlocksAt(f, w, xs[1..], k);
      LaterBlock(head, rest, w, k);
      assert xs[1..][k] == xs[k + 1];
    }
  }

  /** The blocks of one more element come after those of the earlier ones. */
  lemma {:induction false} BlocksSnoc<T(!new), U>(f: T -> seq<U>, w: nat, xs: seq<T>, x: T)
    requires forall x :: |f(x)| == w
    ensures Blocks(f, w, xs + [x]) == Blocks(f, w, xs) + f(x)
  {
    if xs == [] {
      assert [x][1..] == [];
    } else {
      assert (xs + [x])[1..] == xs[1..] + [x];
      BlocksSnoc(f, w, xs[1..], x);
    }
  }

  /** NIC `j` of the run owns the `j`-th block of four arguments. */
  lemma NicsArgsBlock(p: Platform, baseMac: string, nics: seq<Nic>, j: nat)
    requires j < |nics|
    ensures Block(NicsArgs(p, baseMac, nics), 4, j) == NicArgs(p, baseMac, nics[j])
  {
    BlocksAt((n: Nic) => NicArgs(p, baseMac, n), 4, nics, j);
  }

  /** The arguments of one more NIC come after those of the earlier ones. */
  lemma NicsArgsSnoc(p: Platform, baseMac: string, nics: seq<Nic>, n: Nic)
    ensures NicsArgs(p, baseMac, nics + [n]) == NicsArgs(p, baseMac, nics) + NicArgs(p, baseMac, n)
  {
    BlocksSnoc((n: Nic) => NicArgs(p, baseMac, n), 4, nics, n);
  }

  /** The first block of a concatenation is its first part. */
  lemma FirstBlock<T>(head: seq<T>, rest: seq<T>)
    ensures |head| <= |head + rest| && Block(head + rest, |head|, 0) == head
  {
  }

  /** Past a first part of `w` elements, block `k + 1` of width `w` is block `k` of the rest. */
  lemma LaterBlock<T>(head: seq<T>, rest: seq<T>, w: nat, k: nat)
    requires |head| == w && w * k + w <= |rest|
    ensures w * (k + 1) + w <= |head + rest| && Block(head + rest, w, k + 1) == Block(rest, w, k)
  {
    assert w * (k + 1) == w * k + w;
  }

  /** An outcome whose NIC list is preceded by `x`. */
  function PrependNics(x: seq<Nic>, o: (Result<seq<Nic>, string>, DeviceState)): (Result<seq<Nic>, string>, DeviceState) {
    (if o.0.Success? then Success(x + o.0.value) else o.0, o.1)
  }

  lemma PrependNicsNone(o: (Result<seq<Nic>, string>, DeviceState))
    ensures PrependNics([], o) == o
  {
    if o.0.Success? {
      assert [] + o.0.value == o.0.value;
    }
  }

  lemma PrependNicsTwice(x: seq<Nic>, y: seq<Nic>, o: (Result<seq<Nic>, string>, DeviceState))
    ensures PrependNics(x + y, o) == PrependNics(x, PrependNics(y, o))
  {
    if o.0.Success? {
      assert x + y + o.0.value == x + (y + o.0.value);
    }
  }

  /** The loop of gen_nics from NIC `id` on: port, then MAC, then the next NIC; a MAC error stops it. */
  function GenNicsFrom(c: DeviceConfig, s: DeviceState, id: nat): (r: (Result<seq<Nic>, string>, DeviceState))
    requires StateValid(s)
    ensures StateValid(r.1)
    decreases c.platform.NicCount() + 1 - id
  {
    if id == 0 || id > c.platform.NicCount() then (Success([]), s)
    else
      var p := NicPort(c, s, id);
      var m := NextMac(c, p.1);
      if m.0.Failure? then (Failure(m.0.error), m.1)
      else PrependNics([Nic(id, m.0.value, p.0)], GenNicsFrom(c, m.1, id + 1))
  }

  /** NICs `id` to NIC_COUNT take one MAC each: the loop fails exactly when the counter runs out. */
  lemma {:induction false} GenNicsMacs(c: DeviceConfig, s: DeviceState, id: nat)
    requires StateValid(s) && 1 <= id <= c.platform.NicCount() + 1
    ensures var r := GenNicsFrom(c, s, id);
      && (r.0.Success? <==> s.macs + (c.platform.NicCount() + 1 - id) <= MAC_COUNTER_LIMIT)
      && (r.0.Success? ==> r.1.macs == s.macs + (c.platform.NicCount() + 1 - id) && |r.0.value| == c.platform.NicCount() + 1 - id)
      && Keeps(s.ethernetPorts, r.1.ethernetPorts)
      && r.1.qemuPort == s.qemuPort && r.1.consolePort == s.consolePort && r.1.consolePorts == s.consolePorts
    decreases c.platform.NicCount() + 1 - id
  {
    if id <= c.platform.NicCount() {
      var p := NicPort(c, s, id);
      SetPortIndexKeeps(s.ethernetPorts, p.0);
      assert Keeps(s.ethernetPorts, p.1.ethernetPorts);
      assert p.1.macs == s.macs && p.1.qemuPort == s.qemuPort && p.1.consolePort == s.consolePort && p.1.consolePorts == s.consolePorts;
      var m := NextMac(c, p.1);
      if m.0.Success? {
        GenNicsMacs(c, m.1, id + 1);
        var rest := GenNicsFrom(c, m.1, id + 1);
        assert GenNicsFrom(c, s, id) == PrependNics([Nic(id, m.0.value, p.0)], rest);
        assert m.1.macs == s.macs + 1 && m.1.ethernetPorts == p.1.ethernetPorts;
        KeepsTransitive(s.ethernetPorts, m.1.ethernetPorts, rest.1.ethernetPorts);
      } else {
        assert GenNicsFrom(c, s, id).0.Failure? && GenNicsFrom(c, s, id).1 == m.1;
      }
    }
  }

  /**
   * NIC `id + j` of the run that started at NIC `id` with MAC counter
   * `macs0` has MAC number `macs0 + j` and listens on the port `ports`
   * holds under `id + j - 1`.
   */
  ghost predicate NicAt(c: DeviceConfig, macs0: nat, nics: seq<Nic>, ports: Ports, id: nat, j: nat) {
    && j < |nics|
    && HasPort(ports, id + j - 1)
    && nics[j] == Nic(id + j, macs0 + j, ports[id + j - 1])
  }

  /**
   * With NIC ports recorded under 0, 1, ... without gaps up to NIC `id`,
   * and an operating system that never answers port 0, NicPort leaves NIC
   * `id`'s port under `id - 1`, still without a gap, and changes no entry
   * that was set.
   */
  lemma NicPortFills(c: DeviceConfig, s: DeviceState, id: nat)
    requires StateValid(s) && 1 <= id
    requires Contiguous(s.ethernetPorts) && NextPortIndex(s.ethernetPorts) >= id - 1
    requires forall n :: c.freePort(n) != 0
    ensures var p := NicPort(c, s, id);
      && HasPort(p.1.ethernetPorts, id - 1) && p.1.ethernetPorts[id - 1] == p.0
      && Contiguous(p.1.ethernetPorts) && NextPortIndex(p.1.ethernetPorts) >= id
      && p.1.macs == s.macs
  {
    var p := NicPort(c, s, id);
    if !HasPort(s.ethernetPorts, id - 1) {
      SetPortIndexContiguous(s.ethernetPorts, p.0);
    }
  }

  /**
   * One turn of a gen_nics loop that succeeds: NIC `id` takes MAC number
   * `macs` and the port NicPort gives it, and the rest of the loop starts
   * from the state after the MAC.
   */
  lemma GenNicsUnfold(c: DeviceConfig, s: DeviceState, id: nat)
    requires StateValid(s) && 1 <= id <= c.platform.NicCount()
    requires GenNicsFrom(c, s, id).0.Success?
    ensures var p := NicPort(c, s, id);
      && p.1.macs < MAC_COUNTER_LIMIT
      && var s2 := p.1.(macs := p.1.macs + 1);
         var rest := GenNicsFrom(c, s2, id + 1);
         && rest.0.Success?
         && GenNicsFrom(c, s, id).0.value == [Nic(id, p.1.macs, p.0)] + rest.0.value
         && GenNicsFrom(c, s, id).1 == rest.1
  {
  }

  /**
   * With NIC ports recorded under 0, 1, ... without gaps and an operating
   * system that never answers port 0, the map still has no gap after
   * gen_nics and covers every NIC.
   */
  lemma {:induction false} GenNicsContiguous(c: DeviceConfig, s: DeviceState, id: nat)
    requires StateValid(s) && 1 <= id <= c.platform.NicCount() + 1
    requires Contiguous(s.ethernetPorts) && NextPortIndex(s.ethernetPorts) >= id - 1
    requires forall n :: c.freePort(n) != 0
    requires GenNicsFrom(c, s, id).0.Success?
    ensures var r := GenNicsFrom(c, s, id);
      Contiguous(r.1.ethernetPorts) && NextPortIndex(r.1.ethernetPorts) >= c.platform.NicCount()
    decreases c.platform.NicCount() + 1 - id
  {
    if id <= c.platform.NicCount() {
      GenNicsUnfold(c, s, id);
      NicPortFills(c, s, id);
      var p := NicPort(c, s, id);
      GenNicsContiguous(c, p.1.(macs := p.1.macs + 1), id + 1);
    }
  }

  /**
   * Under the same conditions, NIC `id + j` of the run has MAC number
   * `macs + j` and listens on the port the final map holds under
   * `id + j - 1`.
   */
  lemma {:induction false} GenNicsNicAt(c: DeviceConfig, s: DeviceState, id: nat, j: nat)
    requires StateValid(s) && 1 <= id && id + j <= c.platform.NicCount()
    requires Contiguous(s.ethernetPorts) && NextPortIndex(s.ethernetPorts) >= id - 1
    requires forall n :: c.freePort(n) != 0
    requires GenNicsFrom(c, s, id).0.Success?
    ensures var r := GenNicsFrom(c, s, id); NicAt(c, s.macs, r.0.value, r.1.ethernetPorts, id, j)
    decreases j
  {
    GenNicsUnfold(c, s, id);
    NicPortFills(c, s, id);
    var p := NicPort(c, s, id);
    var s2 := p.1.(macs := p.1.macs + 1);
    var rest := GenNicsFrom(c, s2, id + 1);
    var r := GenNicsFrom(c, s, id);
    assert s2.ethernetPorts == p.1.ethernetPorts && s2.macs == s.macs + 1;
    assert r.0.value == [Nic(id, s.macs, p.0)] + rest.0.value && r.1 == rest.1;
    if j == 0 {
      GenNicsMacs(c, s2, id + 1);
      assert Keeps(s2.ethernetPorts, rest.1.ethernetPorts);
      assert HasPort(s2.ethernetPorts, id - 1);
      assert rest.1.ethernetPorts[id - 1] == p.0;
    } else {
      assert Contiguous(s2.ethernetPorts) && NextPortIndex(s2.ethernetPorts) >= id;
      GenNicsNicAt(c, s2, id + 1, j - 1);
      assert id + 1 + (j - 1) == id + j;
      assert r.0.value[j] == rest.0.value[j - 1];
    }
  }

  /**
   * When a NIC port is missing below a set one, set_port_index records the
   * new port above the set one, where a later NIC finds it again: with
   * `ethernet_ports == {1: 7}`, NICs 1 and 3 listen on the same port.
   */
  lemma NicPortAfterGap(c: DeviceConfig, s: DeviceState)
    requires c.platform == CiscoCsr && forall n: nat :: c.freePort(n) == 100 + n
    requires StateValid(s) && s.macs == 0 && s.requests == 0 && s.ethernetPorts == map[1 := 7]
    ensures var r := GenNicsFrom(c, s, 1);
      r.0.Success? && |r.0.value| == 10 && r.0.value[0].port == 100 && r.0.value[1].port == 7 && r.0.value[2].port == 100
  {
    assert s.ethernetPorts.Keys == {1};
    assert NextPortIndex(s.ethernetPorts) == 2;
    var p1 := NicPort(c, s, 1);
    assert p1.0 == 100 && p1.1.ethernetPorts == map[1 := 7, 2 := 100];
    var s1 := NextMac(c, p1.1).1;
    var p2 := NicPort(c, s1, 2);
    assert p2.0 == 7 && p2.1 == s1;
    var s2 := NextMac(c, p2.1).1;
    var p3 := NicPort(c, s2, 3);
    assert p3.0 == 100;
    GenNicsMacs(c, s, 1);
    var r := GenNicsFrom(c, s, 1);
    var r3 := GenNicsFrom(c, s2, 3);
    assert r3.0.value[0].port == 100;
    assert r.0.value == [Nic(1, 0, 100)] + ([Nic(2, 1, 7)] + r3.0.value);
  }

  // ---------------------------------------------------------------------------
  // gen_mgmt and get_mgmt_card_info

  /** get_mgmt_card_info; AristaVEOS adds a fixed PCI slot. */
  function MgmtCardInfo(p: Platform, mac: string): seq<string> {
    [p.NicAdapter(), "netdev=p00", "mac=" + mac] + (if p == AristaVeos then ["bus=pci.1,addr=0x2"] else [])
  }

  /** The base class's gen_mgmt: nothing without MGMT_PORT, else one card on `ethernet_ports[-1]`. */
  function DefaultMgmt(c: DeviceConfig, s: DeviceState): (Result<seq<string>, string>, DeviceState)
    requires c.platform.MgmtPort() ==> -1 in s.ethernetPorts
  {
    if !c.platform.MgmtPort() then (Success([]), s)
    else
      var (mac, s1) := NextMac(c, s);
      if mac.Failure? then (Failure(mac.error), s1)
      else (Success(["-device", Join(",", MgmtCardInfo(c.platform, MacAddress(c.baseMac, mac.value))),
                     "-netdev", "socket,id=p00,listen=:" + NatToString(s.ethernetPorts[-1])]), s1)
  }

  /** The three management-side cards of CiscoXRV9K.gen_mgmt. */
  function Xrv9kMgmtArgs(macs: seq<string>, ports: seq<nat>): seq<string>
    requires |macs| == 3 && |ports| == 3
  {
    ["-device", "virtio-net-pci,netdev=mgmt,mac=" + macs[0],
     "-netdev", "socket,id=mgmt,listen=:" + NatToString(ports[0]),
     "-device", "virtio-net-pci,netdev=ctrl-dummy,id=ctrl-dummy,mac=" + macs[1],
     "-netdev", "socket,id=ctrl-dummy,listen=:" + NatToString(ports[1]),
     "-device", "virtio-net-pci,netdev=dev-dummy,id=dev-dummy,mac=" + macs[2],
     "-netdev", "socket,id=dev-dummy,listen=:" + NatToString(ports[2])]
  }

  /** CiscoXRV9K.gen_mgmt: fill ports -1, -2 and -3 when unset, then three MACs. */
  function Xrv9kMgmt(c: DeviceConfig, s: DeviceState): (r: (Result<seq<string>, string>, DeviceState))
    requires StateValid(s)
    ensures StateValid(r.1)
  {
    var s3 := FillEthernet(c, FillEthernet(c, FillEthernet(c, s, -1), -2), -3);
    var (m1, s4) := NextMac(c, s3);
    var (m2, s5) := NextMac(c, s4);
    var (m3, s6) := NextMac(c, s5);
    if m1.Failure? then (Failure(m1.error), s4)
    else if m2.Failure? then (Failure(m2.error), s5)
    else if m3.Failure? then (Failure(m3.error), s6)
    else
      var ports := s3.ethernetPorts;
      assert -1 in ports && -2 in ports && -3 in ports by {
        FillEthernetKeeps(c, s, -1);
        FillEthernetKeeps(c, FillEthernet(c, s, -1), -2);
        FillEthernetKeeps(c, FillEthernet(c, FillEthernet(c, s, -1), -2), -3);
      }
      var macs := [MacAddress(c.baseMac, m1.value), MacAddress(c.baseMac, m2.value), MacAddress(c.baseMac, m3.value)];
      (Success(Xrv9kMgmtArgs(macs, [ports[-1], ports[-2], ports[-3]])), s6)
  }

  /**
   * After CiscoXRV9K.gen_mgmt the ports -1, -2 and -3 are all present and
   * those already set are unchanged; it succeeds exactly when three MACs
   * are left, and then the cards use three consecutive MACs and listen on
   * the three ports.
   */
  lemma Xrv9kMgmtPorts(c: DeviceConfig, s: DeviceState)
    requires StateValid(s)
    ensures var r := Xrv9kMgmt(c, s);
      && -1 in r.1.ethernetPorts && -2 in r.1.ethernetPorts && -3 in r.1.ethernetPorts
      && Keeps(s.ethernetPorts, r.1.ethernetPorts)
      && (r.0.Success? <==> s.macs + 3 <= MAC_COUNTER_LIMIT)
      && (r.0.Success? ==>
            && r.1.macs == s.macs + 3
            && r.0.value == Xrv9kMgmtArgs([MacAddress(c.baseMac, s.macs), MacAddress(c.baseMac, s.macs + 1), MacAddress(c.baseMac, s.macs + 2)],
                                          [r.1.ethernetPorts[-1], r.1.ethernetPorts[-2], r.1.ethernetPorts[-3]]))
  {
    var s1 := FillEthernet(c, s, -1);
    var s2 := FillEthernet(c, s1, -2);
    FillEthernetKeeps(c, s, -1);
    FillEthernetKeeps(c, s1, -2);
    FillEthernetKeeps(c, s2, -3);
    KeepsTransitive(s.ethernetPorts, s1.ethernetPorts, s2.ethernetPorts);
    var s3 := FillEthernet(c, s2, -3);
    KeepsTransitive(s.ethernetPorts, s2.ethernetPorts, s3.ethernetPorts);
    var r := Xrv9kMgmt(c, s);
    assert s3.macs == s.macs && r.1.ethernetPorts == s3.ethernetPorts;
    if s.macs + 3 <= MAC_COUNTER_LIMIT {
      var ports := s3.ethernetPorts;
      var macs := [MacAddress(c.baseMac, s.macs), MacAddress(c.baseMac, s.macs + 1), MacAddress(c.baseMac, s.macs + 2)];
      assert r == (Success(Xrv9kMgmtArgs(macs, [ports[-1], ports[-2], ports[-3]])), s3.(macs := s.macs + 3));
    } else {
      assert r.0.Failure?;
    }
  }

  /** gen_mgmt as dispatched on the platform. */
  function MgmtArgs(c: DeviceConfig, s: DeviceState): (r: (Result<seq<string>, string>, DeviceState))
    requires StateValid(s) && (c.platform.MgmtPort() ==> -1 in s.ethernetPorts)
    ensures StateValid(r.1)
  {
    if c.platform == CiscoXrv9k then Xrv9kMgmt(c, s) else DefaultMgmt(c, s)
  }

  // ---------------------------------------------------------------------------
  // platform_specific_qemu_args

  function SerialArgs(port: nat): seq<string> {
    ["-serial", "telnet:0.0.0.0:" + NatToString(port) + ",server,nowait"]
  }

  /** The loop of CiscoXRV9K.platform_specific_qemu_args from console index `i` to 3. */
  function Xrv9kSerialsFrom(c: DeviceConfig, s: DeviceState, i: nat): (r: (seq<string>, DeviceState))
    requires StateValid(s)
    ensures StateValid(r.1)
    decreases 4 - i
  {
    if i == 0 || i > 3 then ([], s)
    else
      var p := ConsolePort(c, s, i);
      var rest := Xrv9kSerialsFrom(c, p.1, i + 1);
      (SerialArgs(p.0) + rest.0, rest.1)
  }

  /** The port of console `i`: `console_ports[i]` when set, else a new one recorded with set_port_index. */
  function ConsolePort(c: DeviceConfig, s: DeviceState, i: int): (r: (nat, DeviceState))
    requires StateValid(s)
    ensures StateValid(r.1)
  {
    if HasPort(s.consolePorts, i) then (s.consolePorts[i], s)
    else
      var port := c.freePort(s.requests);
      (port, s.(requests := s.requests + 1, consolePorts := SetPortIndex(s.consolePorts, port)))
  }

  const XRV9K_CPU_ARGS: seq<string> := ["-cpu", "host", "-smp", "cores=4,threads=1,sockets=1"]

  /** platform_specific_qemu_args; AristaVEOS boots the Aboot image found beside its disk, given as `bootImage`. */
  function PlatformArgs(c: DeviceConfig, bootImage: string, s: DeviceState): (r: (seq<string>, DeviceState))
    requires StateValid(s)
    ensures StateValid(r.1)
  {
    match c.platform
    case CiscoXrv9k =>
      var (serials, s1) := Xrv9kSerialsFrom(c, s, 1);
      (XRV9K_CPU_ARGS + serials, s1)
    case AristaVeos => (["-cdrom", bootImage, "-boot", "d"], s)
    case MikrotikRouterOS => (["-boot", "n"], s)
    case _ => ([], s)
  }

  /** Block `j` of the serial arguments from console `i` on is console `i + j`'s, on the port `ports` holds under `i + j`. */
  ghost predicate SerialAt(args: seq<string>, ports: Ports, i: nat, j: nat) {
    && 2 * j + 2 <= |args|
    && HasPort(ports, i + j)
    && args[2 * j..2 * j + 2] == SerialArgs(ports[i + j])
  }

  /** Putting console `i`'s two arguments in front shifts every later block by one. */
  lemma SerialAtShift(head: seq<string>, rest: seq<string>, ports: Ports, i: nat, j: nat)
    requires |head| == 2 && 1 <= j && SerialAt(rest, ports, i + 1, j - 1)
    ensures SerialAt(head + rest, ports, i, j)
  {
    var k := j - 1;
    assert (head + rest)[2 * j..2 * j + 2] == rest[2 * k..2 * k + 2];
    assert i + 1 + k == i + j;
  }

  /**
   * With console ports recorded under 0, 1, ... without gaps and an
   * operating system that never answers port 0, the XRv 9000 serial `i`
   * (1 to 3) listens on the port the map holds under `i` afterwards, the
   * map still has no gap, and set entries never change.
   */
  lemma {:induction false} Xrv9kSerials(c: DeviceConfig, s: DeviceState, i: nat)
    requires StateValid(s) && 1 <= i <= 4
    requires Contiguous(s.consolePorts) && NextPortIndex(s.consolePorts) >= i && forall n :: c.freePort(n) != 0
    ensures var r := Xrv9kSerialsFrom(c, s, i);
      && |r.0| == 2 * (4 - i) && Keeps(s.consolePorts, r.1.consolePorts)
      && Contiguous(r.1.consolePorts) && NextPortIndex(r.1.consolePorts) >= 4
      && (forall j :: 0 <= j < 4 - i ==> SerialAt(r.0, r.1.consolePorts, i, j))
    decreases 4 - i
  {
    if i <= 3 {
      var (port, s1) := ConsolePort(c, s, i);
      if !HasPort(s.consolePorts, i) {
        SetPortIndexContiguous(s.consolePorts, port);
        SetPortIndexKeeps(s.consolePorts, port);
      }
      assert HasPort(s1.consolePorts, i) && s1.consolePorts[i] == port;
      var rest := Xrv9kSerialsFrom(c, s1, i + 1);
      Xrv9kSerials(c, s1, i + 1);
      KeepsTransitive(s.consolePorts, s1.consolePorts, rest.1.consolePorts);
      var r := Xrv9kSerialsFrom(c, s, i);
      assert r.0 == SerialArgs(port) + rest.0 && r.1 == rest.1;
      assert HasPort(r.1.consolePorts, i) && r.1.consolePorts[i] == port;
      forall j | 0 <= j < 4 - i
        ensures SerialAt(r.0, r.1.consolePorts, i, j)
      {
        if j == 0 {
          FirstBlock(SerialArgs(port), rest.0);
        } else {
          assert SerialAt(rest.0, rest.1.consolePorts, i + 1, j - 1);
          SerialAtShift(SerialArgs(port), rest.0, rest.1.consolePorts, i, j);
        }
      }
    }
  }

  // ---------------------------------------------------------------------------
  // set_qemu_cmd

  /** The fixed part of the command before the PCI bridges. */
  function QemuPrefix(c: DeviceConfig, kvm: bool, qemuPort: nat, consolePort: nat): seq<string> {
    ["qemu-system-x86_64"] + (if kvm then ["-enable-kvm"] else [])
    + ["-display", "none", "-machine", "pc",
       "-monitor", "tcp:0.0.0.0:" + NatToString(qemuPort) + ",server,nowait",
       "-m", NatToString(c.platform.Ram()),
       "-serial", "telnet:0.0.0.0:" + NatToString(consolePort) + ",server,nowait",
       "-drive", "if=ide,file=" + c.overlay]
    + (if c.fakeStartDate != "" then ["-rtc", "base=" + c.fakeStartDate] else [])
  }

  function PciBridgeArg(index: nat): string {
    "pci-bridge,chassis_nr=" + NatToString(index) + ",id=pci." + NatToString(index)
  }

  /** The `-device pci-bridge` pairs for bridges 1 to `n`. */
  function PciBridges(n: nat): (r: seq<string>)
    ensures |r| == 2 * n
  {
    if n == 0 then [] else PciBridges(n - 1) + ["-device", PciBridgeArg(n)]
  }

  /** Bridge `i` is the `i`-th pair, numbered from 1 in chassis and id. */
  lemma {:induction false} PciBridgeAt(n: nat, i: nat)
    requires 1 <= i <= n
    ensures PciBridges(n)[2 * i - 2] == "-device" && PciBridges(n)[2 * i - 1] == PciBridgeArg(i)
  {
    var prev := PciBridges(n - 1);
    assert PciBridges(n) == prev + ["-device", PciBridgeArg(n)];
    if i < n {
      PciBridgeAt(n - 1, i);
      assert PciBridges(n)[2 * i - 2] == prev[2 * i - 2];
      assert PciBridges(n)[2 * i - 1] == prev[2 * i - 1];
    }
  }

  /** The ports set_qemu_cmd fills before building the command: management, monitor, console. */
  function FillPorts(c: DeviceConfig, s: DeviceState): (r: DeviceState)
    requires StateValid(s)
    ensures StateValid(r)
  {
    var s1 := if c.platform.MgmtPort() then FillEthernet(c, s, -1) else s;
    var s2 := if s1.qemuPort == 0 then s1.(requests := s1.requests + 1, qemuPort := c.freePort(s1.requests)) else s1;
    if s2.consolePort == 0 then
      var port := c.freePort(s2.requests);
      s2.(requests := s2.requests + 1, consolePort := port, consolePorts := SetPortIndex(s2.consolePorts, port))
    else s2
  }

  /** What set_qemu_cmd leaves behind: its outcome, the attributes and `qemu_cmd`. */
  datatype QemuOutcome = QemuOutcome(result: Result<(), string>, state: DeviceState, cmd: seq<string>)

  function SetQemuCmdSpec(c: DeviceConfig, kvm: bool, bootImage: string, s: DeviceState): (o: QemuOutcome)
    requires StateValid(s)
  {
    var s3 := FillPorts(c, s);
    FillPortsFacts(c, s);
    var base := QemuPrefix(c, kvm, s3.qemuPort, s3.consolePort) + PciBridges(PciBridgeCount(c.platform.NicCount(), c.platform.NicsPerBus()));
    var m := MgmtArgs(c, s3);
    if m.0.Failure? then QemuOutcome(Failure(m.0.error), m.1, base)
    else
      var n := GenNicsFrom(c, m.1, 1);
      if n.0.Failure? then QemuOutcome(Failure(n.0.error), n.1, base + m.0.value)
      else
        var e := PlatformArgs(c, bootImage, n.1);
        QemuOutcome(Success(()), e.1, base + m.0.value + NicsArgs(c.platform, c.baseMac, n.0.value) + e.0)
  }

  /**
   * The ports set_qemu_cmd fills: the management port appears, the monitor
   * and console ports change only when they were unset, and nothing else
   * that was set changes.
   */
  lemma FillPortsFacts(c: DeviceConfig, s: DeviceState)
    requires StateValid(s)
    ensures var r := FillPorts(c, s);
      && r.macs == s.macs && Keeps(s.ethernetPorts, r.ethernetPorts)
      && (c.platform.MgmtPort() ==> -1 in r.ethernetPorts)
      && (s.qemuPort != 0 ==> r.qemuPort == s.qemuPort)
      && (s.consolePort != 0 ==> r.consolePort == s.consolePort && r.consolePorts == s.consolePorts)
  {
    FillEthernetKeeps(c, s, -1);
  }

  /** MACs the management cards take. */
  function MgmtMacs(p: Platform): nat {
    if p == CiscoXrv9k then 3 else if p.MgmtPort() then 1 else 0
  }

  /** MACs one command line takes: one per NIC, and the management cards'. */
  function MacsPerCommand(p: Platform): nat {
    p.NicCount() + MgmtMacs(p)
  }

  /**
   * gen_mgmt succeeds exactly when the management cards' MACs are left,
   * takes that many, and changes no set port nor the monitor and console
   * ports.
   */
  lemma MgmtArgsFacts(c: DeviceConfig, s: DeviceState)
    requires StateValid(s) && (c.platform.MgmtPort() ==> -1 in s.ethernetPorts)
    ensures var r := MgmtArgs(c, s);
      && (r.0.Success? <==> s.macs + MgmtMacs(c.platform) <= MAC_COUNTER_LIMIT)
      && (r.0.Success? ==> r.1.macs == s.macs + MgmtMacs(c.platform))
      && Keeps(s.ethernetPorts, r.1.ethernetPorts)
      && r.1.qemuPort == s.qemuPort && r.1.consolePort == s.consolePort
  {
    if c.platform == CiscoXrv9k {
      Xrv9kMgmtPorts(c, s);
      var s1 := FillEthernet(c, s, -1);
      var s2 := FillEthernet(c, s1, -2);
      FillEthernetKeeps(c, s, -1);
      FillEthernetKeeps(c, s1, -2);
      FillEthernetKeeps(c, s2, -3);
    }
  }

  /** platform_specific_qemu_args touches only the console map and the request counter. */
  lemma PlatformArgsKeeps(c: DeviceConfig, bootImage: string, s: DeviceState)
    requires StateValid(s)
    ensures var r := PlatformArgs(c, bootImage, s);
      r.1.ethernetPorts == s.ethernetPorts && r.1.macs == s.macs && r.1.qemuPort == s.qemuPort && r.1.consolePort == s.consolePort
  {
    if c.platform == CiscoXrv9k {
      XRV9KSerialsKeepOthers(c, s, 1);
    }
  }

  /**
   * set_qemu_cmd succeeds exactly when enough MACs are left for the NICs
   * and the management cards, takes that many, fills the monitor and
   * console ports only when they are unset, and never changes a port that
   * was set.
   */
  lemma SetQemuCmdFacts(c: DeviceConfig, kvm: bool, bootImage: string, s: DeviceState)
    requires StateValid(s)
    ensures var o := SetQemuCmdSpec(c, kvm, bootImage, s);
      && (o.result.Success? <==> s.macs + MacsPerCommand(c.platform) <= MAC_COUNTER_LIMIT)
      && (o.result.Success? ==> o.state.macs == s.macs + MacsPerCommand(c.platform))
      && (s.qemuPort != 0 ==> o.state.qemuPort == s.qemuPort)
      && (s.consolePort != 0 ==> o.state.consolePort == s.consolePort)
      && Keeps(s.ethernetPorts, o.state.ethernetPorts)
  {
    var s3 := FillPorts(c, s);
    FillPortsFacts(c, s);
    var m := MgmtArgs(c, s3);
    MgmtArgsFacts(c, s3);
    KeepsTransitive(s.ethernetPorts, s3.ethernetPorts, m.1.ethernetPorts);
    if m.0.Success? {
      var n := GenNicsFrom(c, m.1, 1);
      GenNicsMacs(c, m.1, 1);
      KeepsTransitive(s.ethernetPorts, m.1.ethernetPorts, n.1.ethernetPorts);
      if n.0.Success? {
        PlatformArgsKeeps(c, bootImage, n.1);
      }
    }
  }

  /** A prefix survives appending. */
  lemma PrefixKept<T>(a: seq<T>, b: seq<T>, k: nat)
    requires k <= |a|
    ensures (a + b)[..k] == a[..k]
  {
  }

  /**
   * Whatever set_qemu_cmd ends with, the command starts with the fixed part
   * on the final monitor and console ports, followed by the PCI bridges.
   */
  lemma SetQemuCmdStartsWithBridges(c: DeviceConfig, kvm: bool, bootImage: string, s: DeviceState)
    requires StateValid(s)
    ensures var o := SetQemuCmdSpec(c, kvm, bootImage, s);
      var base := QemuPrefix(c, kvm, o.state.qemuPort, o.state.consolePort);
      var bridges := PciBridges(PciBridgeCount(c.platform.NicCount(), c.platform.NicsPerBus()));
      |base + bridges| <= |o.cmd| && o.cmd[..|base + bridges|] == base + bridges
  {
    var o := SetQemuCmdSpec(c, kvm, bootImage, s);
    var s3 := FillPorts(c, s);
    FillPortsFacts(c, s);
    var head := QemuPrefix(c, kvm, s3.qemuPort, s3.consolePort) + PciBridges(PciBridgeCount(c.platform.NicCount(), c.platform.NicsPerBus()));
    var k := |head|;
    assert head[..k] == head;
    var m := MgmtArgs(c, s3);
    MgmtArgsFacts(c, s3);
    if m.0.Success? {
      var n := GenNicsFrom(c, m.1, 1);
      GenNicsMacs(c, m.1, 1);
      PrefixKept(head, m.0.value, k);
      if n.0.Success? {
        var e := PlatformArgs(c, bootImage, n.1);
        PlatformArgsKeeps(c, bootImage, n.1);
        PrefixKept(head + m.0.value, NicsArgs(c.platform, c.baseMac, n.0.value), k);
        PrefixKept(head + m.0.value + NicsArgs(c.platform, c.baseMac, n.0.value), e.0, k);
      }
    }
  }

  /** The serial loop touches only the console map and the request counter. */
  lemma {:induction false} XRV9KSerialsKeepOthers(c: DeviceConfig, s: DeviceState, i: nat)
    requires StateValid(s)
    ensures var r := Xrv9kSerialsFrom(c, s, i);
      r.1.ethernetPorts == s.ethernetPorts && r.1.macs == s.macs && r.1.qemuPort == s.qemuPort && r.1.consolePort == s.consolePort
    decreases 4 - i
  {
    if 1 <= i <= 3 {
      var s1 := if HasPort(s.consolePorts, i) then s
                else s.(requests := s.requests + 1, consolePorts := SetPortIndex(s.consolePorts, c.freePort(s.requests)));
      XRV9KSerialsKeepOthers(c, s1, i + 1);
    }
  }

  // ---------------------------------------------------------------------------
  // The device object

  class NetworkDevice {
    const platform: Platform
    const name: string
    const baseMac: string
    const image: string
    const buildTag: Option<string>
    const overlay: string
    const version: string
    const fakeStartDate: string
    /** The operating system's answer to the n-th free-port request. */
    const freePort: nat -> nat

    var portRequests: nat
    var macsIssued: nat
    var qemuPort: nat
    var consolePort: nat
    var ethernetPorts: Ports
    var consolePorts: Ports
    var qemuCmd: seq<string>

    function Config(): DeviceConfig {
      DeviceConfig(platform, baseMac, overlay, fakeStartDate, freePort)
    }

    function State(): DeviceState
      reads this
    {
      DeviceState(portRequests, macsIssued, qemuPort, consolePort, ethernetPorts, consolePorts)
    }

    ghost predicate Valid()
      reads this
    {
      StateValid(State())
    }

    constructor (platform: Platform, name: string, baseMac: string, image: string, buildTag: Option<string>,
                 overlay: string, version: string, fakeStartDate: string, freePort: nat -> nat,
                 qemuPort: nat, ethernetPorts: Ports, consolePorts: Ports)
      ensures Valid()
      ensures this.platform == platform && this.name == name && this.baseMac == baseMac && this.image == image
      ensures this.buildTag == buildTag && this.overlay == overlay && this.version == version
      ensures this.fakeStartDate == fakeStartDate && this.freePort == freePort
      ensures State() == DeviceState(0, 0, qemuPort, (if 0 in consolePorts then consolePorts[0] else 0), ethernetPorts, consolePorts)
      ensures qemuCmd == []
    {
      this.platform := platform;
      this.name := name;
      this.baseMac := baseMac;
      this.image := image;
      this.buildTag := buildTag;
      this.overlay := overlay;
      this.version := version;
      this.fakeStartDate := fakeStartDate;
      this.freePort := freePort;
      this.portRequests := 0;
      this.macsIssued := 0;
      this.qemuPort := qemuPort;
      this.consolePort := (if 0 in consolePorts then consolePorts[0] else 0);
      this.ethernetPorts := ethernetPorts;
      this.consolePorts := consolePorts;
      this.qemuCmd := [];
    }

    /**
     * DefaultNetworkDevice.__init__: the overlay location, then the base MAC
     * check, then the platform's version of the image name; either check
     * raises.
     */
    static method New(platform: Platform, name: string, baseMac: string, image: string, buildTag: Option<string>,
                      fakeStartDate: string, qemuPort: nat, ethernetPorts: Ports, consolePorts: Ports,
                      freePort: nat -> nat, buildsDir: string, labsDir: string,
                      versionGroup: (Platform, string) -> Option<string>)
      returns (r: Result<NetworkDevice, string>)
      ensures r.Failure? <==>
        !ValidBaseMac(baseMac) || platform.VersionFromImagename(Images.BaseName(image), versionGroup).Failure?
      ensures !ValidBaseMac(baseMac) ==> r == Failure("Invalid base mac: " + baseMac)
      ensures r.Success? ==>
        && fresh(r.value) && r.value.Valid()
        && r.value.platform == platform && r.value.name == name && r.value.baseMac == baseMac
        && r.value.overlay == Overlay(buildsDir, labsDir, name, buildTag, image)
        && r.value.version == platform.VersionFromImagename(Images.BaseName(image), versionGroup).value
        && r.value.State() == DeviceState(0, 0, qemuPort, (if 0 in consolePorts then consolePorts[0] else 0), ethernetPorts, consolePorts)
    {
      var overlay := Overlay(buildsDir, labsDir, name, buildTag, image);
      if !ValidBaseMac(baseMac) {
        return Failure("Invalid base mac: " + baseMac);
      }
      var version := platform.VersionFromImagename(Images.BaseName(image), versionGroup);
      if version.Failure? {
        return Failure(version.error);
      }
      var d := new NetworkDevice(platform, name, baseMac, image, buildTag, overlay, version.value, fakeStartDate,
                                 freePort, qemuPort, ethernetPorts, consolePorts);
      return Success(d);
    }

    /** get_available_port. */
    method GetAvailablePort() returns (port: nat)
      modifies this`portRequests
      ensures (port, State()) == Allocate(Config(), old(State()))
    {
      port := freePort(portRequests);
      portRequests := portRequests + 1;
    }

    /** gen_mac. */
    method GenMac() returns (mac: Result<string, string>)
      modifies this`macsIssued
      ensures var m := NextMac(Config(), old(State())); mac == MacText(baseMac, m.0) && State() == m.1
    {
      if macsIssued >= MAC_COUNTER_LIMIT {
        return Failure("StopIteration");
      }
      mac := Success(MacAddress(baseMac, macsIssued));
      macsIssued := macsIssued + 1;
    }

    /** One turn of the gen_nics loop: the port of NIC `i`, then a MAC. */
    method NicTurn(i: int) returns (port: nat, mac: Result<string, string>)
      requires Valid()
      modifies this`portRequests, this`macsIssued, this`ethernetPorts
      ensures var p := NicPort(Config(), old(State()), i);
        var m := NextMac(Config(), p.1);
        port == p.0 && mac == MacText(baseMac, m.0) && State() == m.1
    {
      ghost var s := State();
      if HasPort(ethernetPorts, i - 1) {
        port := ethernetPorts[i - 1];
      } else {
        port := GetAvailablePort();
        ethernetPorts := SetPortIndex(ethernetPorts, port);
      }
      assert (port, State()) == NicPort(Config(), s, i);
      mac := GenMac();
    }

    /** gen_nics. */
    method GenNics() returns (r: Result<seq<string>, string>)
      requires Valid()
      modifies this`portRequests, this`macsIssued, this`ethernetPorts
      ensures var g := GenNicsFrom(Config(), old(State()), 1);
        && State() == g.1
        && r.Success? == g.0.Success?
        && (r.Success? ==> r.value == NicsArgs(platform, baseMac, g.0.value))
        && (r.Failure? ==> r.error == g.0.error)
    {
      ghost var goal := GenNicsFrom(Config(), State(), 1);
      ghost var done: seq<Nic> := [];
      var results: seq<string> := [];
      var i := 1;
      PrependNicsNone(goal);
      while i <= platform.NicCount()
        invariant 1 <= i <= platform.NicCount() + 1 && Valid()
        invariant results == NicsArgs(platform, baseMac, done)
        invariant PrependNics(done, GenNicsFrom(Config(), State(), i)) == goal
      {
        ghost var s := State();
        ghost var counter := macsIssued;
        var port, mac := NicTurn(i);
        if mac.Failure? {
          assert GenNicsFrom(Config(), s, i) == (Failure(mac.error), State());
          return Failure(mac.error);
        }
        ghost var n := Nic(i, counter, port);
        assert GenNicsFrom(Config(), s, i) == PrependNics([n], GenNicsFrom(Config(), State(), i + 1));
        PrependNicsTwice(done, [n], GenNicsFrom(Config(), State(), i + 1));
        NicsArgsSnoc(platform, baseMac, done, n);
        var args := ["-device", NicDevice(platform, mac.value, i), "-netdev", NicNetdev(port, i)];
        assert mac.value == MacAddress(baseMac, counter);
        assert args == NicArgs(platform, baseMac, n);
        results := results + args;
        done := done + [n];
        i := i + 1;
      }
      ghost var last := GenNicsFrom(Config(), State(), i);
      assert last.0 == Success([]) && last.1 == State();
      assert done + [] == done;
      assert goal.0 == Success(done) && goal.1 == State();
      return Success(results);
    }

    /** gen_mgmt, with CiscoXRV9K's override. */
    method GenMgmt() returns (r: Result<seq<string>, string>)
      requires Valid() && (platform.MgmtPort() ==> -1 in ethernetPorts)
      modifies this`portRequests, this`macsIssued, this`ethernetPorts
      ensures (r, State()) == MgmtArgs(Config(), old(State()))
    {
      if platform == CiscoXrv9k {
        r := Xrv9kGenMgmt();
        return;
      }
      if !platform.MgmtPort() {
        return Success([]);
      }
      var mac := GenMac();
      if mac.Failure? {
        return Failure(mac.error);
      }
      r := Success(["-device", Join(",", MgmtCardInfo(platform, mac.value)),
                    "-netdev", "socket,id=p00,listen=:" + NatToString(ethernetPorts[-1])]);
    }

    method FillEthernetPort(k: int)
      requires Valid()
      modifies this`portRequests, this`ethernetPorts
      ensures State() == FillEthernet(Config(), old(State()), k)
    {
      if !HasPort(ethernetPorts, k) {
        var port := GetAvailablePort();
        ethernetPorts := ethernetPorts[k := port];
      }
    }

    /** CiscoXRV9K.gen_mgmt. */
    method Xrv9kGenMgmt() returns (r: Result<seq<string>, string>)
      requires Valid()
      modifies this`portRequests, this`macsIssued, this`ethernetPorts
      ensures (r, State()) == Xrv9kMgmt(Config(), old(State()))
    {
      FillEthernetPort(-1);
      FillEthernetPort(-2);
      FillEthernetPort(-3);
      ghost var s3 := State();
      var m1 := GenMac();
      var m2 := GenMac();
      var m3 := GenMac();
      if m1.Failure? {
        return Failure(m1.error);
      }
      if m2.Failure? {
        return Failure(m2.error);
      }
      if m3.Failure? {
        return Failure(m3.error);
      }
      var ports := ethernetPorts;
      r := Success(Xrv9kMgmtArgs([m1.value, m2.value, m3.value], [ports[-1], ports[-2], ports[-3]]));
    }

    /** One turn of CiscoXRV9K's serial loop: the port of console `i`. */
    method ConsoleTurn(i: int) returns (port: nat)
      requires Valid()
      modifies this`portRequests, this`consolePorts
      ensures var p := ConsolePort(Config(), old(State()), i); port == p.0 && State() == p.1
    {
      if HasPort(consolePorts, i) {
        port := consolePorts[i];
      } else {
        port := GetAvailablePort();
        consolePorts := SetPortIndex(consolePorts, port);
      }
    }

    /** platform_specific_qemu_args, with the overrides of CiscoXRV9K, AristaVEOS and MikrotikRouterOS. */
    method PlatformSpecificQemuArgs(bootImage: string) returns (r: seq<string>)
      requires Valid()
      modifies this`portRequests, this`consolePorts
      ensures var o := PlatformArgs(Config(), bootImage, old(State())); r == o.0 && State() == o.1
    {
      match platform
      case CiscoXrv9k =>
        ghost var goal := Xrv9kSerialsFrom(Config(), State(), 1);
        var serials: seq<string> := [];
        var i := 1;
        while i <= 3
          invariant 1 <= i <= 4 && Valid()
          invariant serials + Xrv9kSerialsFrom(Config(), State(), i).0 == goal.0
          invariant Xrv9kSerialsFrom(Config(), State(), i).1 == goal.1
        {
          ghost var s := State();
          var port := ConsoleTurn(i);
          ghost var rest := Xrv9kSerialsFrom(Config(), State(), i + 1);
          assert Xrv9kSerialsFrom(Config(), s, i).0 == SerialArgs(port) + rest.0;
          assert Xrv9kSerialsFrom(Config(), s, i).1 == rest.1;
          assert serials + SerialArgs(port) + rest.0 == serials + (SerialArgs(port) + rest.0);
          serials := serials + SerialArgs(port);
          i := i + 1;
        }
        ghost var last := Xrv9kSerialsFrom(Config(), State(), i);
        assert last.0 == [] && last.1 == State();
        assert serials + [] == serials;
        r := XRV9K_CPU_ARGS + serials;
      case AristaVeos => r := ["-cdrom", bootImage, "-boot", "d"];
      case MikrotikRouterOS => r := ["-boot", "n"];
      case _ => r := [];
    }

    /** The ports set_qemu_cmd fills before building the command. */
    method FillQemuPorts()
      requires Valid()
      modifies this`portRequests, this`ethernetPorts, this`qemuPort, this`consolePort, this`consolePorts
      ensures State() == FillPorts(Config(), old(State()))
    {
      if platform.MgmtPort() {
        FillEthernetPort(-1);
      }
      if qemuPort == 0 {
        qemuPort := GetAvailablePort();
      }
      if consolePort == 0 {
        consolePort := GetAvailablePort();
        consolePorts := SetPortIndex(consolePorts, consolePort);
      }
    }

    /**
     * set_qemu_cmd. `kvm` says whether /dev/kvm exists; for AristaVEOS,
     * `bootImage` is the Aboot image get_qemu_cmd found.
     */
    method SetQemuCmd(kvm: bool, bootImage: string) returns (r: Result<(), string>)
      requires Valid()
      modifies this
      ensures QemuOutcome(r, State(), qemuCmd) == SetQemuCmdSpec(Config(), kvm, bootImage, old(State()))
    {
      ghost var s0 := State();
      FillQemuPorts();
      FillEthernetKeeps(Config(), s0, -1);
      ghost var s3 := FillPorts(Config(), s0);
      qemuCmd := QemuPrefix(Config(), kvm, qemuPort, consolePort);
      var count := PciBridgeCount(platform.NicCount(), platform.NicsPerBus());
      AddPciBridges(count);
      ghost var base := qemuCmd;
      assert State() == s3;
      var mgmt := GenMgmt();
      ghost var m := MgmtArgs(Config(), s3);
      if mgmt.Failure? {
        assert QemuOutcome(Failure(mgmt.error), State(), qemuCmd) == SetQemuCmdSpec(Config(), kvm, bootImage, s0);
        return Failure(mgmt.error);
      }
      qemuCmd := qemuCmd + mgmt.value;
      var nics := GenNics();
      ghost var n := GenNicsFrom(Config(), m.1, 1);
      if nics.Failure? {
        assert qemuCmd == base + m.0.value;
        assert QemuOutcome(Failure(nics.error), State(), qemuCmd) == SetQemuCmdSpec(Config(), kvm, bootImage, s0);
        return Failure(nics.error);
      }
      qemuCmd := qemuCmd + nics.value;
      var extra := PlatformSpecificQemuArgs(bootImage);
      qemuCmd := qemuCmd + extra;
      r := Success(());
    }

    /** The loop of set_qemu_cmd that appends one `-device pci-bridge` pair per bus. */
    method AddPciBridges(count: nat)
      modifies this`qemuCmd
      ensures qemuCmd == old(qemuCmd) + PciBridges(count)
    {
      var index := 1;
      while index <= count
        invariant 1 <= index <= count + 1
        invariant qemuCmd == old(qemuCmd) + PciBridges(index - 1)
      {
        qemuCmd := qemuCmd + ["-device", PciBridgeArg(index)];
        index := index + 1;
      }
    }

    /**
     * get_qemu_img_cmd: an error when the directory is to be created and the
     * base image is missing, nothing when the overlay already exists, else
     * the command that creates the overlay on top of the image.
     */
    function GetQemuImgCmd(createDirectory: bool, imageExists: bool, overlayExists: bool): (r: Result<Option<seq<string>>, string>)
      ensures r.Failure? <==> createDirectory && !imageExists
      ensures r == Success(None) <==> createDirectory && imageExists && overlayExists
      ensures r.Success? && r.value.Some? ==>
        var cmd := r.value.value;
        && |cmd| == 9 && cmd[..2] == ["qemu-img", "create"]
        && cmd[2] == "-f" && cmd[4] == "-F" && cmd[3] == cmd[5] == ImageFormat(Images.BaseName(image))
        && cmd[6] == "-b" && cmd[7] == image && cmd[8] == overlay
    {
      if !imageExists && createDirectory then Failure("Base image " + image + " does not exist")
      else if overlayExists && createDirectory then Success(None)
      else
        var format := ImageFormat(Images.BaseName(image));
        Success(Some(["qemu-img", "create", "-f", format, "-F", format, "-b", image, overlay]))
    }
  }
}
