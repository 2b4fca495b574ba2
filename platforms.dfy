/**
 * The device classes of src/ndlab/device.py and the files under src/ndlab/platforms as
 * one closed variant: each platform's class attributes, its interface-name
 * formatter and its version extraction. Image-name patterns are regular
 * expressions and enter as oracles.
 */
module Platforms {
  import opened Wrappers
  import opened Text
  import Iosv

  datatype Platform =
    | CiscoCsr
    | AristaVeos
    | CiscoVios
    | CiscoViosL2
    | OpenWrt
    | MikrotikRouterOS
    | CiscoXrv9k
    | DefaultNetworkDevice
  {
    /** The class attribute NAME. */
    function Name(): string {
      match this
      case CiscoCsr => "csr"
      case AristaVeos => "veos"
      case CiscoVios => "iosv"
      case CiscoViosL2 => "iosvl2"
      case OpenWrt => "openwrt"
      case MikrotikRouterOS => "chr"
      case CiscoXrv9k => "xrv9k"
      case DefaultNetworkDevice => "default"
    }

    /** NIC_COUNT: 10, except OpenWRT's 2. */
    function NicCount(): nat {
      if this == OpenWrt then 2 else 10
    }

    /** NICS_PER_BUS, the same on every platform. */
    function NicsPerBus(): nat {
      26
    }

    /** MGMT_PORT: vEOS and XRv 9000 have a management port. */
    function MgmtPort(): bool {
      this == AristaVeos || this == CiscoXrv9k
    }

    /** NIC_ADDR_OFFSET: vEOS keeps the first PCI address for its management card. */
    function NicAddrOffset(): nat {
      if this == AristaVeos then 1 else 0
    }

    /** RAM in megabytes. */
    function Ram(): nat {
      match this
      case AristaVeos => 2048
      case OpenWrt => 2048
      case MikrotikRouterOS => 2048
      case CiscoXrv9k => 16384
      case _ => 4096
    }

    /** NIC_ADAPTER. */
    function NicAdapter(): string {
      if this == CiscoCsr || this == OpenWrt || this == CiscoXrv9k then "virtio-net-pci" else "e1000"
    }

    /**
     * get_interface: the device's name for data interface `index`. The base
     * class raises, and OpenWRT does not override it.
     */
    function GetInterface(index: int): (r: Option<string>)
      ensures r.None? <==> this == OpenWrt || this == DefaultNetworkDevice
    {
      match this
      case CiscoCsr => Some("GigabitEthernet" + IntToString(index + 1))
      case AristaVeos => Some("Ethernet" + IntToString(index + 1))
      case CiscoVios => Some(Iosv.ViosInterface(index))
      case CiscoViosL2 => Some(Iosv.ViosL2Interface(index))
      case MikrotikRouterOS => Some("ether" + IntToString(index + 1))
      case CiscoXrv9k => Some("GigabitEthernet0/0/0/" + IntToString(index))
      case _ => None
    }

    /**
     * version_from_imagename. The IOSv classes search the name themselves;
     * the others read the "version" group of their IMAGE_PATTERN matched at
     * the start of the name, given here as `versionGroup` (None when the
     * pattern does not match). The base pattern has no such group, so the
     * base class always fails.
     */
    function VersionFromImagename(imagename: string, versionGroup: (Platform, string) -> Option<string>): (r: Result<string, string>)
      ensures this == DefaultNetworkDevice ==> r.Failure?
      ensures this == CiscoVios || this == CiscoViosL2 ==> r == Iosv.VersionFromImagename(imagename)
      ensures this != DefaultNetworkDevice && this != CiscoVios && this != CiscoViosL2 ==>
        (r.Success? <==> versionGroup(this, imagename).Some?)
        && (r.Success? ==> r.value == versionGroup(this, imagename).value)
    {
      match this
      case CiscoVios => Iosv.VersionFromImagename(imagename)
      case CiscoViosL2 => Iosv.VersionFromImagename(imagename)
      case DefaultNetworkDevice => Failure("no such group: version")
      case _ =>
        match versionGroup(this, imagename)
        case Some(v) => Success(v)
        case None => Failure("Version not found in " + imagename)
    }
  }

  /** PLATFORMS, in the order the image patterns are tried. */
  const PLATFORMS: seq<Platform> := [
    CiscoCsr, AristaVeos, CiscoVios, CiscoViosL2, OpenWrt, MikrotikRouterOS, CiscoXrv9k, DefaultNetworkDevice
  ]

  lemma PlatformsComplete(p: Platform)
    ensures p in PLATFORMS
  {
  }

  /** PLATFORM_MAPPING: the platform with a given NAME. */
  function PlatformByName(name: string): (r: Option<Platform>)
    ensures r.Some? ==> r.value.Name() == name
    ensures r.None? ==> forall p: Platform :: p.Name() != name
  {
    if name == "csr" then Some(CiscoCsr)
    else if name == "veos" then Some(AristaVeos)
    else if name == "iosv" then Some(CiscoVios)
    else if name == "iosvl2" then Some(CiscoViosL2)
    else if name == "openwrt" then Some(OpenWrt)
    else if name == "chr" then Some(MikrotikRouterOS)
    else if name == "xrv9k" then Some(CiscoXrv9k)
    else if name == "default" then Some(DefaultNetworkDevice)
    else None
  }

  /** NAMEs are distinct, so the mapping gives back the platform named. */
  lemma PlatformByNameRoundTrip(p: Platform)
    ensures PlatformByName(p.Name()) == Some(p)
  {
  }

  /** A prefix followed by a number names the number uniquely. */
  lemma PrefixedNumberInjective(prefix: string, a: int, b: int)
    requires prefix + IntToString(a) == prefix + IntToString(b)
    ensures a == b
  {
    Iosv.DropPrefix(prefix, IntToString(a), IntToString(b));
    IntToStringInjective(a, b);
  }

  /** On every platform that names interfaces, different indices get different names. */
  lemma GetInterfaceInjective(p: Platform, a: int, b: int)
    requires p.GetInterface(a).Some? && p.GetInterface(a) == p.GetInterface(b)
    ensures a == b
  {
    match p
    case CiscoCsr => PrefixedNumberInjective("GigabitEthernet", a + 1, b + 1);
    case AristaVeos => PrefixedNumberInjective("Ethernet", a + 1, b + 1);
    case CiscoVios => Iosv.ViosInterfaceInjective(a, b);
    case CiscoViosL2 => Iosv.ViosL2InterfaceInjective(a, b);
    case MikrotikRouterOS => PrefixedNumberInjective("ether", a + 1, b + 1);
    case CiscoXrv9k => PrefixedNumberInjective("GigabitEthernet0/0/0/", a, b);
  }
}
