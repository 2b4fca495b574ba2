/**
 * src/ndlab/device.py and the overrides of src/ndlab/platforms/xrv9k.py:
 * port bookkeeping, MAC addresses drawn from a base address and a counter,
 * the PCI layout of the data NICs, the image format, the overlay location
 * and the qemu command lines.
 *
 * Free ports come from `freePort`, the answer of the operating system to
 * the n-th request; whether /dev/kvm and the image files exist are inputs.
 */
module Device {
  import opened Wrappers
  import opened Text
  import opened Platforms
  import Images
  import Paths

  // ---------------------------------------------------------------------------
  // set_port_index

  /**
   * `dict[int, int]` of ports by index. The source only looks entries up,
   * assigns them and takes the largest key, so the order of its keys plays
   * no part.
   */
  type Ports = map<int, nat>

  /** The largest element of a finite non-empty set of integers. */
  ghost function MaxOfSet(keys: set<int>): (m: int)
    requires keys != {}
    ensures m in keys && forall k :: k in keys ==> k <= m
    decreases |keys|
  {
    assert exists k :: k in keys by {
      if forall k :: k !in keys {
        assert false;
      }
    }
    var x :| x in keys;
    var rest := keys - {x};
    if rest == {} then
      assert forall k :: k in keys ==> k == x || k in rest;
      x
    else
      var m := MaxOfSet(rest);
      assert forall k :: k in keys ==> k == x || k in rest;
      if x > m then x else m
  }

  /** `max(ports)`: the largest key, which MaxOfSet shows to exist. */
  function MaxKey(keys: set<int>): (m: int)
    requires keys != {}
    ensures m in keys && forall k :: k in keys ==> k <= m
  {
    assert MaxOfSet(keys) in keys;
    var m :| m in keys && forall k :: k in keys ==> k <= m;
    m
  }

  /** The key set_port_index writes: one past the largest key, or 0 for an empty map. */
  function NextPortIndex(ports: Ports): (k: int)
    ensures ports.Keys == {} ==> k == 0
    ensures ports.Keys != {} ==> k - 1 in ports
    ensures forall i :: i in ports ==> i < k
  {
    if ports.Keys == {} then 0 else MaxKey(ports.Keys) + 1
  }

  /** set_port_index: `port` goes under a key above every existing one; no entry changes. */
  function SetPortIndex(ports: Ports, port: nat): (r: Ports)
    ensures NextPortIndex(ports) !in ports
    ensures r.Keys == ports.Keys + {NextPortIndex(ports)} && r[NextPortIndex(ports)] == port
    ensures forall k :: k in ports ==> r[k] == ports[k]
  {
    ports[NextPortIndex(ports) := port]
  }

  /** Python truthiness of `ports.get(k)`: present and not 0. */
  predicate HasPort(ports: Ports, k: int) {
    k in ports && ports[k] != 0
  }

  /** Keys 0 up to the next free index all hold a port: NIC `i` then finds its port under `i - 1`. */
  ghost predicate Contiguous(ports: Ports) {
    forall k :: 0 <= k < NextPortIndex(ports) ==> HasPort(ports, k)
  }

  /** Filling a contiguous map keeps it contiguous and puts the port under the first missing index. */
  lemma SetPortIndexContiguous(ports: Ports, port: nat)
    requires Contiguous(ports) && port != 0
    ensures Contiguous(SetPortIndex(ports, port))
    ensures NextPortIndex(SetPortIndex(ports, port)) == NextPortIndex(ports) + 1
  {
    var r := SetPortIndex(ports, port);
    var n := NextPortIndex(ports);
    assert n in r;
    assert forall i :: i in r ==> i <= n;
    assert NextPortIndex(r) == n + 1;
    forall k | 0 <= k < n + 1
      ensures HasPort(r, k)
    {
      if k < n {
        assert HasPort(ports, k);
      }
    }
  }

  // ---------------------------------------------------------------------------
  // Base MAC address and gen_mac

  /**
   * VALIDATE_BASE_MAC, `^(?:[\da-f]{2}:){5}00$` ignoring case: five octets
   * and a final "00". As in Python, `$` also matches before a final newline.
   */
  predicate ValidBaseMac(mac: string) {
    var core := if |mac| > 0 && mac[|mac| - 1] == '\n' then mac[..|mac| - 1] else mac;
    && |core| == 17
    && (forall i :: 0 <= i < 15 ==> if i % 3 == 2 then core[i] == ':' else IsHexDigit(core[i]))
    && core[15] == '0' && core[16] == '0'
  }

  /** The base address of the device tests is accepted; one not ending in 00 is not. */
  lemma BaseMacExamples(good: string, bad: string)
    requires good == "00:00:00:00:00:00" && bad == "00:00:00:00:00:01"
    ensures ValidBaseMac(good) && !ValidBaseMac(bad)
  {
    assert good[|good| - 1] != '\n' && bad[|bad| - 1] != '\n';
    assert bad[16] == '1';
  }

  /** gen_mac for counter value `n`: the base's octets but the last, then `f"{n:02x}"`, joined by ':' and upper-cased. */
  function MacAddress(baseMac: string, n: nat): string {
    var octets := Split(baseMac, ':');
    ToUpper(Join(":", octets[..|octets| - 1] + [HexTwo(n)]))
  }

  /** What ValidBaseMac says position by position about the first five octets. */
  lemma MacShape(mac: string)
    requires ValidBaseMac(mac)
    ensures |mac| == 17 || (|mac| == 18 && mac[17] == '\n')
    ensures forall i :: 0 <= i < 15 && i % 3 == 2 ==> mac[i] == ':'
    ensures forall i :: 0 <= i < 15 && i % 3 != 2 ==> IsHexDigit(mac[i])
    ensures NoChar(mac[15..], ':')
  {
    var core := if |mac| > 0 && mac[|mac| - 1] == '\n' then mac[..|mac| - 1] else mac;
    assert forall i :: 0 <= i < 17 ==> mac[i] == core[i];
  }

  /** Joining one more part. */
  lemma JoinSnoc(sep: string, parts: seq<string>, x: string)
    requires |parts| > 0
    ensures Join(sep, parts + [x]) == Join(sep, parts) + sep + x
  {
    assert (parts + [x])[..|parts|] == parts;
  }

  /** A common suffix cancels. */
  lemma CancelSuffix(a: string, b: string, m: string, t: string)
    requires a + m + t == b + m + t
    ensures a == b
  {
    assert |a| == |b|;
    assert a == (a + m + t)[..|a|];
  }

  /** When the join of a list ends with `sep + tail` for its last piece `tail`, the other pieces join to what comes before. */
  lemma JoinInit(sep: string, parts: seq<string>, x: string, tail: string)
    requires |parts| >= 2 && parts[|parts| - 1] == tail
    requires Join(sep, parts) == x + sep + tail
    ensures Join(sep, parts[..|parts| - 1]) == x
  {
    var init := parts[..|parts| - 1];
    assert Join(sep, parts) == Join(sep, init) + sep + tail;
    CancelSuffix(Join(sep, init), x, sep, tail);
  }

  lemma SplitHasTwo(x: string, c: char, tail: string)
    ensures |Split(x + [c] + tail, c)| >= 2
  {
    var s := x + [c] + tail;
    IndexOfAtMost(s, c, |x|);
  }

  /** Cutting `x + [c] + tail` and joining all but the last piece gives `x` back. */
  lemma JoinAllButLast(x: string, c: char, tail: string)
    requires NoChar(tail, c)
    ensures var parts := Split(x + [c] + tail, c); |parts| >= 2 && Join([c], parts[..|parts| - 1]) == x
  {
    SplitHasTwo(x, c, tail);
    SplitLast(x, c, tail);
    JoinSplit(x + [c] + tail, c);
    JoinInit([c], Split(x + [c] + tail, c), x, tail);
  }

  /** All octets of a valid base address but the last, joined back by ':', are its first 14 characters. */
  lemma BaseOctets(mac: string)
    requires ValidBaseMac(mac)
    ensures var parts := Split(mac, ':'); |parts| >= 2 && Join(":", parts[..|parts| - 1]) == mac[..14]
  {
    MacShape(mac);
    assert 14 % 3 == 2;
    assert mac == mac[..14] + [':'] + mac[15..];
    JoinAllButLast(mac[..14], ':', mac[15..]);
  }

  /** A MAC is the base's first five octets and the counter in two hexadecimal digits, upper-cased. */
  lemma MacAddressText(baseMac: string, n: nat)
    requires ValidBaseMac(baseMac) && n < 256
    ensures MacAddress(baseMac, n) == ToUpper(baseMac[..14]) + ":" + ToUpper(HexTwo(n))
    ensures |MacAddress(baseMac, n)| == 17
  {
    BaseOctets(baseMac);
    var octets := Split(baseMac, ':');
    JoinSnoc(":", octets[..|octets| - 1], HexTwo(n));
    var t := baseMac[..14] + ":" + HexTwo(n);
    assert ToUpper(t) == ToUpper(baseMac[..14]) + ":" + ToUpper(HexTwo(n));
  }

  /** Different counter values give different MAC addresses. */
  lemma MacAddressInjective(baseMac: string, a: nat, b: nat)
    requires ValidBaseMac(baseMac) && a < 256 && b < 256
    requires MacAddress(baseMac, a) == MacAddress(baseMac, b)
    ensures a == b
  {
    MacAddressText(baseMac, a);
    MacAddressText(baseMac, b);
    HexTwoDigits(a);
    HexTwoDigits(b);
    var ma, mb := MacAddress(baseMac, a), MacAddress(baseMac, b);
    assert ma[15] == UpperChar(HexDigit(a / 16)) && ma[16] == UpperChar(HexDigit(a % 16));
    assert mb[15] == UpperChar(HexDigit(b / 16)) && mb[16] == UpperChar(HexDigit(b % 16));
    HexDigitValue(a / 16);
    HexDigitValue(a % 16);
    HexDigitValue(b / 16);
    HexDigitValue(b % 16);
  }

  /** `next_mac = iter(range(255))`: the counter values gen_mac can use. */
  const MAC_COUNTER_LIMIT: nat := 255

  // ---------------------------------------------------------------------------
  // PCI layout of gen_nics and set_qemu_cmd

  /** `pci_bus = port_id // NICS_PER_BUS + 1`. */
  function PciBus(portId: nat, nicsPerBus: nat): nat
    requires nicsPerBus > 0
  {
    portId / nicsPerBus + 1
  }

  /** `address = port_id % NICS_PER_BUS + 1 + NIC_ADDR_OFFSET`. */
  function PciAddress(portId: nat, nicsPerBus: nat, offset: nat): nat
    requires nicsPerBus > 0
  {
    portId % nicsPerBus + 1 + offset
  }

  /** `math.ceil(NIC_COUNT / NICS_PER_BUS)`: the number of pci-bridge devices. */
  function PciBridgeCount(nicCount: nat, nicsPerBus: nat): nat
    requires nicsPerBus > 0
  {
    nicCount / nicsPerBus + (if nicCount % nicsPerBus == 0 then 0 else 1)
  }

  /** A positive factor can be cancelled from a strict inequality. */
  lemma {:induction false} MulStrictCancel(b: nat, x: nat, y: nat)
    requires b > 0 && b * x < b * y
    ensures x < y
  {
    if x > 0 {
      assert b * x == b * (x - 1) + b && b * y == b * (y - 1) + b;
      MulStrictCancel(b, x - 1, y - 1);
    }
  }

  lemma DivMonotone(a: nat, c: nat, b: nat)
    requires a <= c && b > 0
    ensures a / b <= c / b
  {
    var q1, q2 := a / b, c / b;
    assert b * q1 + a % b == a && b * q2 + c % b == c;
    assert b * (q2 + 1) == b * q2 + b;
    MulStrictCancel(b, q1, q2 + 1);
  }

  /**
   * NICs are numbered from 1, so NIC `NIC_COUNT` sits on bus
   * `NIC_COUNT // NICS_PER_BUS + 1`: every NIC lands on a created bridge
   * exactly when NIC_COUNT is not a positive multiple of NICS_PER_BUS.
   */
  lemma NicsOnCreatedBridges(nicCount: nat, nicsPerBus: nat)
    requires nicsPerBus > 0
    ensures (forall id: nat :: 1 <= id <= nicCount ==> PciBus(id, nicsPerBus) <= PciBridgeCount(nicCount, nicsPerBus))
        <==> nicCount == 0 || nicCount % nicsPerBus != 0
  {
    forall id: nat | 1 <= id <= nicCount
      ensures PciBus(id, nicsPerBus) <= PciBus(nicCount, nicsPerBus)
    {
      DivMonotone(id, nicCount, nicsPerBus);
    }
    if nicCount > 0 && nicCount % nicsPerBus == 0 {
      assert PciBus(nicCount, nicsPerBus) > PciBridgeCount(nicCount, nicsPerBus);
    }
  }

  /** No two NICs share a bus and an address. */
  lemma PciSlotsDistinct(i: nat, j: nat, nicsPerBus: nat, offset: nat)
    requires nicsPerBus > 0 && i != j
    ensures PciBus(i, nicsPerBus) != PciBus(j, nicsPerBus) || PciAddress(i, nicsPerBus, offset) != PciAddress(j, nicsPerBus, offset)
  {
    assert i == nicsPerBus * (i / nicsPerBus) + i % nicsPerBus;
    assert j == nicsPerBus * (j / nicsPerBus) + j % nicsPerBus;
  }

  /** On every platform each NIC sits on a created bridge, at an address below 32. */
  lemma PlatformNicLayout(p: Platform, id: nat)
    requires 1 <= id <= p.NicCount()
    ensures PciBus(id, p.NicsPerBus()) <= PciBridgeCount(p.NicCount(), p.NicsPerBus())
    ensures 1 <= PciAddress(id, p.NicsPerBus(), p.NicAddrOffset()) < 32
  {
    NicsOnCreatedBridges(p.NicCount(), p.NicsPerBus());
  }

  // ---------------------------------------------------------------------------
  // Image format, overlay and qemu-img

  /** image_extension: the text after the last '.', or the whole name when it has none. */
  function ImageExtension(imageName: string): (ext: string)
    ensures NoChar(ext, '.')
    ensures NoChar(imageName, '.') ==> ext == imageName
  {
    var pieces := Split(imageName, '.');
    pieces[|pieces| - 1]
  }

  lemma ExtensionOfDottedName(stem: string, ext: string)
    requires NoChar(ext, '.')
    ensures ImageExtension(stem + "." + ext) == ext
  {
    SplitLast(stem, '.', ext);
  }

  /** image_format: "vmdk" and "qcow2" are kept, everything else is raw. */
  function ImageFormat(imageName: string): (format: string)
    ensures format == "raw" || format == "vmdk" || format == "qcow2"
    ensures format != "raw" ==> format == ImageExtension(imageName)
    ensures ImageExtension(imageName) == "vmdk" || ImageExtension(imageName) == "qcow2" ==> format == ImageExtension(imageName)
  {
    var ext := ImageExtension(imageName);
    if ext == "vmdk" || ext == "qcow2" then ext else "raw"
  }

  /** The image names of the device tests get the formats the tests expect. */
  lemma VeosImageFormat(veos: string)
    requires veos == "vEOS-lab-4.29.1F.vmdk"
    ensures ImageFormat(veos) == "vmdk"
  {
    assert veos == "vEOS-lab-4.29.1F" + "." + "vmdk";
    ExtensionOfDottedName("vEOS-lab-4.29.1F", "vmdk");
  }

  lemma ViosImageFormat(vios: string)
    requires vios == "vios-adventerprisek9-m.SPA.154-3M8.qcow2"
    ensures ImageFormat(vios) == "qcow2"
  {
    assert vios == "vios-adventerprisek9-m.SPA.154-3M8" + "." + "qcow2";
    ExtensionOfDottedName("vios-adventerprisek9-m.SPA.154-3M8", "qcow2");
  }

  lemma PlainImageFormat(plain: string)
    requires plain == "disk.img"
    ensures ImageFormat(plain) == "raw"
  {
    assert plain == "disk" + "." + "img";
    ExtensionOfDottedName("disk", "img");
  }

  /**
   * The overlay file: `BUILDS/<build_tag>/<image name>` for a build, else
   * `LABS/<device name>/<image name>`. A build tag counts when not empty.
   */
  function Overlay(buildsDir: string, labsDir: string, name: string, buildTag: Option<string>, image: string): string {
    if buildTag.Some? && buildTag.value != "" then buildsDir + "/" + buildTag.value + "/" + Images.BaseName(image)
    else labsDir + "/" + name + "/" + Images.BaseName(image)
  }

  /** The overlay keeps the image's file name and lives in the build's directory or the device's lab directory. */
  lemma OverlayLocation(buildsDir: string, labsDir: string, name: string, buildTag: Option<string>, image: string)
    requires Images.BaseName(image) != []
    ensures var o := Overlay(buildsDir, labsDir, name, buildTag, image);
      && Images.BaseName(o) == Images.BaseName(image)
      && (buildTag.Some? && buildTag.value != "" ==> StartsWith(o, buildsDir + "/" + buildTag.value + "/"))
      && (buildTag.None? || buildTag.value == "" ==> StartsWith(o, labsDir + "/" + name + "/"))
  {
    var b := Images.BaseName(image);
    if buildTag.Some? && buildTag.value != "" {
      var dir := buildsDir + "/" + buildTag.value;
      assert Overlay(buildsDir, labsDir, name, buildTag, image) == dir + "/" + b;
      InDirectory(dir, b);
    } else {
      var dir := labsDir + "/" + name;
      assert Overlay(buildsDir, labsDir, name, buildTag, image) == dir + "/" + b;
      InDirectory(dir, b);
    }
  }

  /** A file name joined to a directory lies in that directory under the same name. */
  lemma InDirectory(dir: string, b: string)
    requires Paths.Component(b)
    ensures Images.BaseName(dir + "/" + b) == b && StartsWith(dir + "/" + b, dir + "/")
  {
    Images.BaseNameOfJoin(dir, b);
    assert (dir + "/" + b)[..|dir| + 1] == dir + "/";
  }
}
