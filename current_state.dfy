/**
 * The lab state store of src/ndlab/current_state.py: the `State` object
 * whose dictionaries of devices, bridges, tap and physical endpoints and
 * tags the commands update in place.
 *
 * Every method of the class is proved against a function on a `Tables`
 * value, the five dictionaries at one moment; what the source promises
 * (errors raised before anything changes, the cross-table link between
 * interfaces and bridges, the listings) is proved about those functions.
 * Killing processes, psutil and the search for the ndlab executable are
 * inputs or left out.
 */
module CurrentState {
  import opened Wrappers
  import opened Text
  import opened Dicts
  import Images

  const DEVICE_INTERFACE_SEPARATOR: char := '/'

  /** InterfaceState: the TCP port while the device runs, and the bridge it belongs to. */
  datatype Interface = Interface(tcpPort: Option<int>, connection: Option<string>)

  /** DeviceState. `platform` is the dataclass field `type`. */
  datatype Device = Device(platform: string, image: string, overlay: string, buildTag: Option<string>,
                           baseMac: string, consolePorts: map<int, int>,
                           interfaces: Dict<int, Interface>, qemuPort: Option<int>, pid: Option<int>)

  /** ConnectionState: a bridge, with the pid and sniffer port of its process once started. */
  datatype Connection = Connection(name: string, snifferPort: Option<int>, pid: Option<int>)

  /** The dictionaries of State; tap and physical endpoints are kept as their interface names. */
  datatype Tables = Tables(devices: Dict<string, Device>, bridges: Dict<string, Connection>,
                           taps: Dict<string, string>, physicals: Dict<string, string>,
                           tags: Dict<string, string>)

  /** NDLabStateException, one case per message the state store raises. */
  datatype StateError =
    | TagInUse(tag: string, existing: string)
    | TagNotFound(tag: string)
    | BridgeExists(bridge: string)
    | BadFormat(endpoint: string)
    | BadEndpoint(endpoint: string)
    | NoDevice(device: string)
    | BadIndex(device: string, index: int)
    | InUse(device: string, index: int)
    | InvalidNic(nic: string)
    | TooFewEndpoints
    | UnknownDevice(device: string)
    | UnknownBridge(bridge: string)
    | DeviceStopped(bridge: string, device: string)
    | NoExecutable

  /** Python truth of an optional string: present and not empty. */
  predicate Truthy(s: Option<string>) {
    s.Some? && s.value != ""
  }

  /** Python truth of an optional pid: present and not 0. */
  predicate Running(pid: Option<int>) {
    pid.Some? && pid.value != 0
  }

  /** Every dictionary is a well-formed insertion-ordered dict. */
  ghost predicate TablesValid(t: Tables) {
    && t.devices.Valid() && t.bridges.Valid() && t.taps.Valid() && t.physicals.Valid() && t.tags.Valid()
    && forall d :: d in t.devices.values ==> t.devices.values[d].interfaces.Valid()
  }

  /** The cross-table invariant: an interface that belongs to a bridge names a bridge that exists. */
  ghost predicate Linked(t: Tables) {
    forall d, i :: d in t.devices.values && i in t.devices.values[d].interfaces.values
                   && Truthy(t.devices.values[d].interfaces.values[i].connection)
      ==> t.devices.values[d].interfaces.values[i].connection.value in t.bridges.values
  }

  /** What a command leaves behind: the new tables, or the old ones when it raised. */
  function After(t: Tables, r: Result<Tables, StateError>): Tables {
    if r.Success? then r.value else t
  }

  function ErrorOf(r: Result<Tables, StateError>): Option<StateError> {
    if r.Success? then None else Some(r.error)
  }

  // ---------------------------------------------------------------------------
  // Tags

  /**
   * add_tag: a tag that already names a non-empty image is only replaced
   * when `overwrite` is set; a tag mapped to the empty string is falsy and
   * is replaced silently.
   */
  function AddTagSpec(t: Tables, tag: string, image: string, overwrite: bool): (r: Result<Tables, StateError>)
    requires TablesValid(t)
  {
    var existing := t.tags.Get(tag);
    if Truthy(existing) && !overwrite then Failure(TagInUse(tag, existing.value))
    else Success(t.(tags := t.tags.Put(tag, image)))
  }

  lemma AddTagFacts(t: Tables, tag: string, image: string, overwrite: bool)
    requires TablesValid(t)
    ensures var r := AddTagSpec(t, tag, image, overwrite);
      && (r.Failure? <==> !overwrite && tag in t.tags.values && t.tags.values[tag] != "")
      && (r.Success? ==> r.value.tags.values == t.tags.values[tag := image]
                         && r.value.(tags := t.tags) == t && TablesValid(r.value))
  {
  }

  /** delete_tag: a missing tag, or one mapped to the empty string, raises. */
  function DeleteTagSpec(t: Tables, tag: string): (r: Result<Tables, StateError>)
    requires TablesValid(t)
  {
    if !Truthy(t.tags.Get(tag)) then Failure(TagNotFound(tag))
    else Success(t.(tags := t.tags.Remove(tag)))
  }

  lemma DeleteTagFacts(t: Tables, tag: string)
    requires TablesValid(t)
    ensures var r := DeleteTagSpec(t, tag);
      && (r.Failure? <==> tag !in t.tags.values || t.tags.values[tag] == "")
      && (r.Success? ==> r.value.tags.values == t.tags.values - {tag}
                         && r.value.(tags := t.tags) == t && TablesValid(r.value))
  {
  }

  /** Adding a tag and deleting it again leaves the tags as they were, when the tag was new. */
  lemma AddThenDeleteTag(t: Tables, tag: string, image: string)
    requires TablesValid(t) && tag !in t.tags.values && image != ""
    ensures AddTagSpec(t, tag, image, false).Success?
    ensures DeleteTagSpec(AddTagSpec(t, tag, image, false).value, tag) == Success(t)
  {
    PutThenRemove(t.tags, tag, image);
    assert t.(tags := t.tags) == t;
  }

  // ---------------------------------------------------------------------------
  // Endpoints "device/index"

  /** A device name and an interface index, as _split_device_interface_index returns them. */
  datatype EndpointRef = EndpointRef(device: string, index: int)

  /**
   * `DEVICE_INTERFACE.match`: at the start of the string, a word character,
   * word characters or '-', the separator and a digit. What follows the
   * digit is not looked at.
   */
  predicate MatchesDeviceInterface(e: string) {
    var k := IndexOf(e, DEVICE_INTERFACE_SEPARATOR);
    && 0 < k && k + 1 < |e|
    && IsWordChar(e[0])
    && (forall j :: 1 <= j < k ==> IsWordChar(e[j]) || e[j] == '-')
    && IsDigit(e[k + 1])
  }

  /**
   * _split_device_interface_index: the endpoint split on '/' must give
   * exactly two pieces, and `int` must accept the second.
   */
  function SplitEndpoint(e: string): (r: Result<EndpointRef, StateError>)
    ensures r.Success? ==> NoChar(r.value.device, DEVICE_INTERFACE_SEPARATOR) && r.value.index >= 0
    ensures r.Failure? ==> r.error == BadEndpoint(e)
  {
    var parts := Split(e, DEVICE_INTERFACE_SEPARATOR);
    if |parts| == 2 && |parts[1]| > 0 && AllDigits(parts[1]) then Success(EndpointRef(parts[0], ParseDecimal(parts[1])))
    else Failure(BadEndpoint(e))
  }

  /** The text get_open_interfaces gives an interface. */
  function EndpointText(device: string, index: int): string {
    device + [DEVICE_INTERFACE_SEPARATOR] + IntToString(index)
  }

  /** What get_open_interfaces lists is split back into the same device and index. */
  lemma SplitEndpointText(device: string, index: nat)
    requires NoChar(device, DEVICE_INTERFACE_SEPARATOR)
    ensures SplitEndpoint(EndpointText(device, index)) == Success(EndpointRef(device, index))
  {
    var s := IntToString(index);
    SplitCons(device, DEVICE_INTERFACE_SEPARATOR, s);
    assert Split(EndpointText(device, index), DEVICE_INTERFACE_SEPARATOR) == [device, s];
    ParseNatToString(index);
  }

  /** The interface an endpoint names, when its device and index exist. */
  predicate Present(ds: Dict<string, Device>, ref: EndpointRef) {
    ref.device in ds.values && ref.index in ds.values[ref.device].interfaces.values
  }

  /** The checks of _validate_tcp_endpoints for one endpoint, in their order. */
  function CheckEndpoint(t: Tables, e: string): (err: Option<StateError>)
    ensures err.None? ==> SplitEndpoint(e).Success? && Present(t.devices, SplitEndpoint(e).value)
  {
    if !MatchesDeviceInterface(e) then Some(BadFormat(e))
    else match SplitEndpoint(e)
      case Failure(error) => Some(error)
      case Success(ref) =>
        if ref.device !in t.devices.values then Some(NoDevice(ref.device))
        else if ref.index !in t.devices.values[ref.device].interfaces.values then Some(BadIndex(ref.device, ref.index))
        else if Truthy(t.devices.values[ref.device].interfaces.values[ref.index].connection) then Some(InUse(ref.device, ref.index))
        else None
  }

  /** The first endpoint that fails its checks raises. */
  function FirstInvalid(t: Tables, es: seq<string>): Option<StateError> {
    if es == [] then None
    else if CheckEndpoint(t, es[0]).Some? then CheckEndpoint(t, es[0])
    else FirstInvalid(t, es[1..])
  }

  lemma {:induction false} FirstInvalidNone(t: Tables, es: seq<string>)
    ensures FirstInvalid(t, es).None? <==> forall k :: 0 <= k < |es| ==> CheckEndpoint(t, es[k]).None?
  {
    if es != [] {
      FirstInvalidNone(t, es[1..]);
      assert forall k :: 1 <= k < |es| ==> es[k] == es[1..][k - 1];
    }
  }

  /** Endpoints that pass the checks each name an existing interface. */
  lemma ValidEndpointsPresent(t: Tables, es: seq<string>)
    requires FirstInvalid(t, es).None?
    ensures forall k :: 0 <= k < |es| ==> SplitEndpoint(es[k]).Success? && Present(t.devices, SplitEndpoint(es[k]).value)
  {
    FirstInvalidNone(t, es);
    forall k | 0 <= k < |es|
      ensures SplitEndpoint(es[k]).Success? && Present(t.devices, SplitEndpoint(es[k]).value)
    {
      assert CheckEndpoint(t, es[k]).None?;
    }
  }

  /** A free interface of an existing device passes the checks under the name get_open_interfaces gives it. */
  lemma OpenInterfaceIsValidEndpoint(t: Tables, device: string, index: nat)
    requires NoChar(device, DEVICE_INTERFACE_SEPARATOR) && |device| > 0 && IsWordChar(device[0])
    requires forall j :: 1 <= j < |device| ==> IsWordChar(device[j]) || device[j] == '-'
    requires Present(t.devices, EndpointRef(device, index))
    requires !Truthy(t.devices.values[device].interfaces.values[index].connection)
    ensures CheckEndpoint(t, EndpointText(device, index)) == None
  {
    var e := EndpointText(device, index);
    IndexOfAfterPrefix(device, DEVICE_INTERFACE_SEPARATOR, IntToString(index));
    assert e[|device| + 1] == IntToString(index)[0];
    assert forall j :: 1 <= j < |device| ==> e[j] == device[j];
    SplitEndpointText(device, index);
  }

  // ---------------------------------------------------------------------------
  // add_bridge

  /** `devices[d].interfaces[i].connection = name` for the interface `e` names. */
  function SetConnection(ds: Dict<string, Device>, e: string, name: string): Dict<string, Device> {
    match SplitEndpoint(e)
    case Failure(_) => ds
    case Success(ref) =>
      if Present(ds, ref) then
        var dev := ds.values[ref.device];
        var x := dev.interfaces.values[ref.index];
        ds.Update(ref.device, dev.(interfaces := dev.interfaces.Update(ref.index, x.(connection := Some(name)))))
      else ds
  }

  /** The loop of add_bridge over its TCP endpoints. */
  function Connect(ds: Dict<string, Device>, es: seq<string>, name: string): Dict<string, Device>
    decreases |es|
  {
    if es == [] then ds
    else SetConnection(Connect(ds, es[..|es| - 1], name), es[|es| - 1], name)
  }

  /** Some endpoint of `es` names device `d`, index `i`. */
  predicate Names(es: seq<string>, d: string, i: int) {
    exists k :: 0 <= k < |es| && SplitEndpoint(es[k]) == Success(EndpointRef(d, i))
  }

  /** An endpoint list with one more endpoint names what the shorter list names, and what the new one names. */
  lemma NamesSnoc(es: seq<string>, d: string, i: int)
    requires es != []
    ensures Names(es, d, i) <==> Names(es[..|es| - 1], d, i) || SplitEndpoint(es[|es| - 1]) == Success(EndpointRef(d, i))
  {
    var init := es[..|es| - 1];
    if Names(es, d, i) {
      var k :| 0 <= k < |es| && SplitEndpoint(es[k]) == Success(EndpointRef(d, i));
      if k < |es| - 1 {
        assert init[k] == es[k];
      }
    }
    if Names(init, d, i) {
      var k :| 0 <= k < |init| && SplitEndpoint(init[k]) == Success(EndpointRef(d, i));
      assert es[k] == init[k];
    }
  }

  /** One turn of the loop: only the interface the endpoint names changes, and only its connection. */
  lemma SetConnectionEffect(ds: Dict<string, Device>, e: string, name: string, d: string, i: int)
    requires d in ds.values && i in ds.values[d].interfaces.values
    ensures var r := SetConnection(ds, e, name);
      && r.keys == ds.keys && r.values.Keys == ds.values.Keys
      && r.values[d].(interfaces := ds.values[d].interfaces) == ds.values[d]
      && r.values[d].interfaces.keys == ds.values[d].interfaces.keys
      && r.values[d].interfaces.values.Keys == ds.values[d].interfaces.values.Keys
      && r.values[d].interfaces.values[i].tcpPort == ds.values[d].interfaces.values[i].tcpPort
      && r.values[d].interfaces.values[i].connection
         == (if SplitEndpoint(e) == Success(EndpointRef(d, i)) then Some(name) else ds.values[d].interfaces.values[i].connection)
  {
  }

  /**
   * Connect only changes `connection`: the devices, their other fields, the
   * interface indices and the TCP ports stay; an interface ends up in the
   * bridge exactly when an endpoint names it.
   */
  lemma {:induction false} ConnectEffect(ds: Dict<string, Device>, es: seq<string>, name: string, d: string, i: int)
    requires d in ds.values && i in ds.values[d].interfaces.values
    ensures var r := Connect(ds, es, name);
      && r.keys == ds.keys && r.values.Keys == ds.values.Keys
      && r.values[d].(interfaces := ds.values[d].interfaces) == ds.values[d]
      && r.values[d].interfaces.keys == ds.values[d].interfaces.keys
      && r.values[d].interfaces.values.Keys == ds.values[d].interfaces.values.Keys
      && r.values[d].interfaces.values[i].tcpPort == ds.values[d].interfaces.values[i].tcpPort
      && r.values[d].interfaces.values[i].connection
         == (if Names(es, d, i) then Some(name) else ds.values[d].interfaces.values[i].connection)
    decreases |es|
  {
    if es != [] {
      var init := es[..|es| - 1];
      ConnectEffect(ds, init, name, d, i);
      SetConnectionEffect(Connect(ds, init, name), es[|es| - 1], name, d, i);
      NamesSnoc(es, d, i);
    }
  }

  /** The shape half of ConnectEffect, for any device. */
  lemma {:induction false} ConnectShape(ds: Dict<string, Device>, es: seq<string>, name: string, d: string)
    requires d in ds.values
    ensures var r := Connect(ds, es, name);
      && r.keys == ds.keys && r.values.Keys == ds.values.Keys
      && r.values[d].interfaces.keys == ds.values[d].interfaces.keys
      && r.values[d].interfaces.values.Keys == ds.values[d].interfaces.values.Keys
      && (r.values[d].interfaces.Valid() <==> ds.values[d].interfaces.Valid())
    decreases |es|
  {
    if es != [] {
      ConnectShape(ds, es[..|es| - 1], name, d);
    }
  }

  /** add_bridge's checks, in the order the source makes them; `nicsPresent` is psutil's answer. */
  function AddBridgeSpec(t: Tables, name: string, tcp: seq<string>, nic: Option<string>, tap: Option<string>,
                         nicsPresent: bool): (r: Result<Tables, StateError>)
    requires TablesValid(t)
  {
    if name in t.bridges.values then Failure(BridgeExists(name))
    else if FirstInvalid(t, tcp).Some? then Failure(FirstInvalid(t, tcp).value)
    else if Truthy(tap) && !nicsPresent then Failure(InvalidNic(tap.value))
    else if Truthy(nic) && !nicsPresent then Failure(InvalidNic(nic.value))
    else if |tcp| + (if Truthy(tap) then 1 else 0) + (if Truthy(nic) then 1 else 0) < 2 then Failure(TooFewEndpoints)
    else Success(Added(t, name, tcp, nic, tap))
  }

  /** The tables after the writes of a successful add_bridge. */
  function Added(t: Tables, name: string, tcp: seq<string>, nic: Option<string>, tap: Option<string>): Tables
    requires TablesValid(t)
  {
    Tables(
      devices := Connect(t.devices, tcp, name),
      bridges := t.bridges.Put(name, Connection(name, None, None)),
      taps := if Truthy(tap) then t.taps.Put(name, tap.value) else t.taps,
      physicals := if Truthy(nic) then t.physicals.Put(name, nic.value) else t.physicals,
      tags := t.tags)
  }

  /** add_bridge raises exactly in these cases. */
  lemma AddBridgeFails(t: Tables, name: string, tcp: seq<string>, nic: Option<string>, tap: Option<string>, nicsPresent: bool)
    requires TablesValid(t)
    ensures AddBridgeSpec(t, name, tcp, nic, tap, nicsPresent).Failure? <==>
      || name in t.bridges.values
      || (exists k :: 0 <= k < |tcp| && CheckEndpoint(t, tcp[k]).Some?)
      || ((Truthy(tap) || Truthy(nic)) && !nicsPresent)
      || |tcp| + (if Truthy(tap) then 1 else 0) + (if Truthy(nic) then 1 else 0) < 2
  {
    FirstInvalidNone(t, tcp);
  }

  /**
   * A successful add_bridge puts every listed interface in the bridge,
   * leaves every other interface as it was, records the tap and physical
   * endpoints, adds the bridge without pid or sniffer port, keeps the
   * tables well-formed, and keeps every interface's bridge existing.
   */
  lemma AddBridgeSucceeds(t: Tables, name: string, tcp: seq<string>, nic: Option<string>, tap: Option<string>,
                          nicsPresent: bool, d: string, i: int)
    requires TablesValid(t) && AddBridgeSpec(t, name, tcp, nic, tap, nicsPresent).Success?
    requires d in t.devices.values && i in t.devices.values[d].interfaces.values
    ensures var u := AddBridgeSpec(t, name, tcp, nic, tap, nicsPresent).value;
      && u.bridges.values == t.bridges.values[name := Connection(name, None, None)]
      && (Truthy(tap) ==> u.taps.values == t.taps.values[name := tap.value])
      && (Truthy(nic) ==> u.physicals.values == t.physicals.values[name := nic.value])
      && u.devices.values.Keys == t.devices.values.Keys
      && u.devices.values[d].interfaces.values.Keys == t.devices.values[d].interfaces.values.Keys
      && u.devices.values[d].interfaces.values[i].connection
         == (if Names(tcp, d, i) then Some(name) else t.devices.values[d].interfaces.values[i].connection)
  {
    ConnectEffect(t.devices, tcp, name, d, i);
  }

  lemma AddBridgeKeepsInvariants(t: Tables, name: string, tcp: seq<string>, nic: Option<string>, tap: Option<string>,
                                 nicsPresent: bool)
    requires TablesValid(t) && AddBridgeSpec(t, name, tcp, nic, tap, nicsPresent).Success?
    ensures TablesValid(AddBridgeSpec(t, name, tcp, nic, tap, nicsPresent).value)
    ensures Linked(t) ==> Linked(AddBridgeSpec(t, name, tcp, nic, tap, nicsPresent).value)
  {
    var u := AddBridgeSpec(t, name, tcp, nic, tap, nicsPresent).value;
    ConnectKeys(t.devices, tcp, name);
    forall d | d in u.devices.values
      ensures u.devices.values[d].interfaces.Valid()
    {
      ConnectShape(t.devices, tcp, name, d);
    }
    if Linked(t) {
      forall d, i | d in u.devices.values && i in u.devices.values[d].interfaces.values
                    && Truthy(u.devices.values[d].interfaces.values[i].connection)
        ensures u.devices.values[d].interfaces.values[i].connection.value in u.bridges.values
      {
        ConnectShape(t.devices, tcp, name, d);
        ConnectEffect(t.devices, tcp, name, d, i);
      }
    }
  }

  /** Connect keeps the devices, in their order. */
  lemma {:induction false} ConnectKeys(ds: Dict<string, Device>, es: seq<string>, name: string)
    ensures Connect(ds, es, name).keys == ds.keys && Connect(ds, es, name).values.Keys == ds.values.Keys
    decreases |es|
  {
    if es != [] {
      ConnectKeys(ds, es[..|es| - 1], name);
    }
  }

  // ---------------------------------------------------------------------------
  // stop_bridge

  /** An interface of a bridge in `gone` leaves it. */
  function Cleared(x: Interface, gone: set<string>): Interface {
    if x.connection.Some? && x.connection.value in gone then x.(connection := None) else x
  }

  function ClearedInterfaces(ifs: Dict<int, Interface>, gone: set<string>): (r: Dict<int, Interface>)
    ensures r.keys == ifs.keys && r.values.Keys == ifs.values.Keys
    ensures ifs.Valid() ==> r.Valid()
  {
    Dict(ifs.keys, map i | i in ifs.values :: Cleared(ifs.values[i], gone))
  }

  /** Every interface of every device that belongs to a bridge in `gone` leaves it. */
  function ClearConnections(ds: Dict<string, Device>, gone: set<string>): (r: Dict<string, Device>)
    ensures r.keys == ds.keys && r.values.Keys == ds.values.Keys
    ensures ds.Valid() ==> r.Valid()
  {
    Dict(ds.keys, map d | d in ds.values :: ds.values[d].(interfaces := ClearedInterfaces(ds.values[d].interfaces, gone)))
  }

  /** What stop_bridge does to one interface, and to one device. */
  function ClearOf(gone: set<string>): Interface -> Interface {
    (x: Interface) => Cleared(x, gone)
  }

  function ClearDeviceOf(gone: set<string>): Device -> Device {
    (dev: Device) => dev.(interfaces := ClearedInterfaces(dev.interfaces, gone))
  }

  /** Clearing every interface visited is clearing them all. */
  lemma ClearedInterfacesAll(ifs: Dict<int, Interface>, gone: set<string>)
    ensures ClearedInterfaces(ifs, gone) == Dict(ifs.keys, MapSome(ifs.values, ClearOf(gone), ifs.values.Keys))
  {
    MapSomeAll(ifs.values, ClearOf(gone));
  }

  lemma ClearConnectionsAll(ds: Dict<string, Device>, gone: set<string>)
    ensures ClearConnections(ds, gone) == Dict(ds.keys, MapSome(ds.values, ClearDeviceOf(gone), ds.values.Keys))
  {
    MapSomeAll(ds.values, ClearDeviceOf(gone));
  }

  /** A stopped bridge has neither pid nor sniffer port. */
  function Reset(b: Connection): Connection {
    b.(pid := None, snifferPort := None)
  }

  /**
   * stop_bridge. With `delete`, the interfaces of the bridge are cleared
   * first. A known bridge is reset and, without `delete`, kept; otherwise
   * its bridge, tap and physical entries are popped. An unknown bridge is
   * "cleaned up anyway", but its interfaces were only cleared if `delete`
   * was asked for.
   */
  function StopBridgeSpec(t: Tables, name: string, delete: bool): (r: Tables)
    requires TablesValid(t)
  {
    var devices := if delete then ClearConnections(t.devices, {name}) else t.devices;
    if name in t.bridges.values && !delete then
      t.(bridges := t.bridges.Update(name, Reset(t.bridges.values[name])))
    else
      t.(devices := devices, bridges := t.bridges.Remove(name), taps := t.taps.Remove(name),
         physicals := t.physicals.Remove(name))
  }

  /** Without `delete`, stopping a known bridge only clears its pid and sniffer port. */
  lemma StopBridgeKeeps(t: Tables, name: string)
    requires TablesValid(t) && name in t.bridges.values
    ensures var r := StopBridgeSpec(t, name, false);
      && r.(bridges := t.bridges) == t
      && r.bridges.keys == t.bridges.keys
      && r.bridges.values == t.bridges.values[name := t.bridges.values[name].(pid := None, snifferPort := None)]
  {
  }

  /**
   * Deleting a bridge: its entries are gone from the bridge, tap and
   * physical tables, no interface belongs to it any more, and every other
   * interface is as it was.
   */
  lemma StopBridgeDeletes(t: Tables, name: string, d: string, i: int)
    requires TablesValid(t) && d in t.devices.values && i in t.devices.values[d].interfaces.values
    ensures var r := StopBridgeSpec(t, name, true);
      var x := t.devices.values[d].interfaces.values[i];
      && name !in r.bridges.values && name !in r.taps.values && name !in r.physicals.values
      && r.bridges.values == t.bridges.values - {name}
      && r.taps.values == t.taps.values - {name}
      && r.physicals.values == t.physicals.values - {name}
      && d in r.devices.values && i in r.devices.values[d].interfaces.values
      && r.devices.values[d].interfaces.values[i].connection != Some(name)
      && (x.connection != Some(name) ==> r.devices.values[d].interfaces.values[i] == x)
      && r.tags == t.tags
  {
  }

  /** stop_bridge keeps the tables well-formed and every interface's bridge existing. */
  lemma StopBridgeKeepsInvariants(t: Tables, name: string, delete: bool)
    requires TablesValid(t)
    ensures TablesValid(StopBridgeSpec(t, name, delete))
    ensures Linked(t) ==> Linked(StopBridgeSpec(t, name, delete))
  {
    var r := StopBridgeSpec(t, name, delete);
    if Linked(t) {
      forall d, i | d in r.devices.values && i in r.devices.values[d].interfaces.values
                    && Truthy(r.devices.values[d].interfaces.values[i].connection)
        ensures r.devices.values[d].interfaces.values[i].connection.value in r.bridges.values
      {
        var x := t.devices.values[d].interfaces.values[i];
        assert x.connection.value in t.bridges.values;
        if !(name in t.bridges.values && !delete) {
          assert x.connection.value != name;
        }
      }
    }
  }

  // ---------------------------------------------------------------------------
  // Stopping several bridges at once, in any order

  /** The keys of `s` that are not in `gone`, in order. */
  function Filter(s: seq<string>, gone: set<string>): (r: seq<string>)
    ensures forall x :: x in r <==> x in s && x !in gone
  {
    if s == [] then []
    else if s[|s| - 1] in gone then Filter(s[..|s| - 1], gone)
    else Filter(s[..|s| - 1], gone) + [s[|s| - 1]]
  }

  lemma {:induction false} FilterDistinct(s: seq<string>, gone: set<string>)
    ensures Distinct(s) ==> Distinct(Filter(s, gone))
  {
    if s != [] {
      FilterDistinct(s[..|s| - 1], gone);
    }
  }

  lemma {:induction false} FilterNothing(s: seq<string>)
    ensures Filter(s, {}) == s
  {
    if s != [] {
      FilterNothing(s[..|s| - 1]);
    }
  }

  /** Popping one more key is filtering with one more key. */
  lemma {:induction false} FilterWithout(s: seq<string>, gone: set<string>, c: string)
    ensures Without(Filter(s, gone), c) == Filter(s, gone + {c})
  {
    if s != [] {
      var init := s[..|s| - 1];
      var x := s[|s| - 1];
      FilterWithout(init, gone, c);
      if x !in gone {
        var f := Filter(init, gone) + [x];
        assert f[..|f| - 1] == Filter(init, gone);
      }
    }
  }

  /** `for k in gone: d.pop(k, None)`. */
  function RemoveAll<V>(d: Dict<string, V>, gone: set<string>): (r: Dict<string, V>)
    ensures r.values == d.values - gone
    ensures d.Valid() ==> r.Valid()
  {
    FilterDistinct(d.keys, gone);
    Dict(Filter(d.keys, gone), d.values - gone)
  }

  lemma RemoveAllStep<V>(d: Dict<string, V>, gone: set<string>, c: string)
    requires d.Valid()
    ensures RemoveAll(d, gone).Remove(c) == RemoveAll(d, gone + {c})
  {
    FilterWithout(d.keys, gone, c);
  }

  /** The bridges of `names` that exist are reset; the others are left alone. */
  function ResetAll(b: Dict<string, Connection>, names: set<string>): (r: Dict<string, Connection>)
    ensures r.keys == b.keys && r.values.Keys == b.values.Keys
    ensures b.Valid() ==> r.Valid()
  {
    Dict(b.keys, map k | k in b.values :: if k in names then Reset(b.values[k]) else b.values[k])
  }

  /**
   * stop_bridge applied to each bridge of `names`, in closed form: with
   * `delete` every one of them is cleared and popped; without it, the known
   * ones are reset and the unknown ones lose their tap and physical entries.
   */
  function StopBridgesSpec(t: Tables, names: set<string>, delete: bool): (r: Tables)
    ensures TablesValid(t) ==> TablesValid(r)
  {
    var gone := if delete then names else names - t.bridges.values.Keys;
    Tables(
      devices := if delete then ClearConnections(t.devices, names) else t.devices,
      bridges := if delete then RemoveAll(t.bridges, names) else ResetAll(t.bridges, names),
      taps := RemoveAll(t.taps, gone),
      physicals := RemoveAll(t.physicals, gone),
      tags := t.tags)
  }

  lemma ClearedInterfacesNone(ifs: Dict<int, Interface>)
    ensures ClearedInterfaces(ifs, {}) == ifs
  {
    forall i | i in ifs.values ensures Cleared(ifs.values[i], {}) == ifs.values[i] {
    }
    assert ClearedInterfaces(ifs, {}).values == ifs.values;
  }

  lemma ClearedInterfacesTwice(ifs: Dict<int, Interface>, names: set<string>, c: string)
    ensures ClearedInterfaces(ClearedInterfaces(ifs, names), {c}) == ClearedInterfaces(ifs, names + {c})
  {
    var a := ClearedInterfaces(ClearedInterfaces(ifs, names), {c});
    var b := ClearedInterfaces(ifs, names + {c});
    forall i | i in ifs.values ensures a.values[i] == b.values[i] {
      var x := ifs.values[i];
      assert Cleared(Cleared(x, names), {c}) == Cleared(x, names + {c});
    }
    assert a.values == b.values;
  }

  lemma ClearNone(ds: Dict<string, Device>)
    ensures ClearConnections(ds, {}) == ds
  {
    var a := ClearConnections(ds, {});
    forall d | d in ds.values ensures a.values[d] == ds.values[d] {
      ClearedInterfacesNone(ds.values[d].interfaces);
    }
    assert a.values == ds.values;
  }

  lemma ClearTwice(ds: Dict<string, Device>, names: set<string>, c: string)
    ensures ClearConnections(ClearConnections(ds, names), {c}) == ClearConnections(ds, names + {c})
  {
    var a := ClearConnections(ClearConnections(ds, names), {c});
    var b := ClearConnections(ds, names + {c});
    forall d | d in ds.values ensures a.values[d] == b.values[d] {
      ClearedInterfacesTwice(ds.values[d].interfaces, names, c);
    }
    assert a.values == b.values;
  }

  lemma RemoveAllNone<V>(d: Dict<string, V>)
    ensures RemoveAll(d, {}) == d
  {
    FilterNothing(d.keys);
  }

  lemma ResetAllNone(b: Dict<string, Connection>)
    ensures ResetAll(b, {}) == b
  {
    assert ResetAll(b, {}).values == b.values;
  }

  /** Resetting one more known bridge. */
  lemma ResetAllStep(b: Dict<string, Connection>, names: set<string>, c: string)
    requires c in b.values && c !in names
    ensures ResetAll(b, names).Update(c, Reset(ResetAll(b, names).values[c])) == ResetAll(b, names + {c})
  {
    assert ResetAll(b, names).Update(c, Reset(ResetAll(b, names).values[c])).values == ResetAll(b, names + {c}).values;
  }

  /** Naming an unknown bridge resets nothing more, and popping it from the bridges changes nothing. */
  lemma ResetAllAbsent(b: Dict<string, Connection>, names: set<string>, c: string)
    requires b.Valid() && c !in b.values
    ensures ResetAll(b, names).Remove(c) == ResetAll(b, names + {c})
  {
    WithoutAbsent(b.keys, c);
    assert ResetAll(b, names).values - {c} == ResetAll(b, names + {c}).values;
  }

  /** Stopping no bridge changes nothing. */
  lemma StopBridgesNone(t: Tables, delete: bool)
    requires TablesValid(t)
    ensures StopBridgesSpec(t, {}, delete) == t
  {
    RemoveAllNone(t.bridges);
    RemoveAllNone(t.taps);
    RemoveAllNone(t.physicals);
    ClearNone(t.devices);
    ResetAllNone(t.bridges);
    assert {} - t.bridges.values.Keys == {};
  }

  /**
   * Stopping one more bridge after a set of others gives the closed form
   * for the larger set: the order in which stop_device walks its set of
   * connections does not matter.
   */
  lemma StopBridgesStep(t: Tables, names: set<string>, c: string, delete: bool)
    requires TablesValid(t) && c !in names
    ensures StopBridgeSpec(StopBridgesSpec(t, names, delete), c, delete) == StopBridgesSpec(t, names + {c}, delete)
  {
    var u := StopBridgesSpec(t, names, delete);
    var gone := if delete then names else names - t.bridges.values.Keys;
    if delete {
      ClearTwice(t.devices, names, c);
      RemoveAllStep(t.bridges, names, c);
      RemoveAllStep(t.taps, names, c);
      RemoveAllStep(t.physicals, names, c);
    } else if c in t.bridges.values {
      assert (names + {c}) - t.bridges.values.Keys == gone;
      ResetAllStep(t.bridges, names, c);
    } else {
      assert (names + {c}) - t.bridges.values.Keys == gone + {c};
      RemoveAllStep(t.taps, gone, c);
      RemoveAllStep(t.physicals, gone, c);
      ResetAllAbsent(t.bridges, names, c);
    }
  }

  // ---------------------------------------------------------------------------
  // stop_device

  /** A connected interface of a stopped device loses its TCP port. */
  function ClearTcpPort(x: Interface): Interface {
    if Truthy(x.connection) then x.(tcpPort := None) else x
  }

  function ClearedTcpPorts(ifs: Dict<int, Interface>): (r: Dict<int, Interface>)
    ensures r.keys == ifs.keys && r.values.Keys == ifs.values.Keys
    ensures ifs.Valid() ==> r.Valid()
  {
    Dict(ifs.keys, map i | i in ifs.values :: ClearTcpPort(ifs.values[i]))
  }

  /** Clearing every interface visited is clearing them all. */
  lemma ClearedAll(ifs: Dict<int, Interface>)
    ensures ClearedTcpPorts(ifs) == Dict(ifs.keys, MapSome(ifs.values, ClearTcpPort, ifs.values.Keys))
  {
    MapSomeAll(ifs.values, ClearTcpPort);
  }

  /** The bridges the interfaces at `keys` belong to: stop_device's `connections_to_stop`. */
  function ConnectionsIn(vs: map<int, Interface>, keys: seq<int>): set<string> {
    if keys == [] then {}
    else
      var i := keys[|keys| - 1];
      ConnectionsIn(vs, keys[..|keys| - 1])
        + (if i in vs && Truthy(vs[i].connection) then {vs[i].connection.value} else {})
  }

  /** A bridge is stopped exactly when one of the walked interfaces belongs to it. */
  lemma {:induction false} ConnectionsInMembers(vs: map<int, Interface>, keys: seq<int>, c: string)
    ensures c in ConnectionsIn(vs, keys) <==>
      exists k :: 0 <= k < |keys| && keys[k] in vs && Truthy(vs[keys[k]].connection) && vs[keys[k]].connection.value == c
  {
    if keys != [] {
      var init := keys[..|keys| - 1];
      ConnectionsInMembers(vs, init, c);
      assert forall k :: 0 <= k < |init| ==> init[k] == keys[k];
    }
  }

  /**
   * stop_device: an unknown device raises. Otherwise a running device loses
   * its pid, its connected interfaces lose their TCP ports, and every bridge
   * one of its interfaces belongs to is stopped with the same `delete`.
   */
  function StopDeviceSpec(t: Tables, name: string, delete: bool): (r: Result<Tables, StateError>)
    requires TablesValid(t)
  {
    if name !in t.devices.values then Failure(UnknownDevice(name))
    else
      var dev := t.devices.values[name];
      var stopped := dev.(pid := if Running(dev.pid) then None else dev.pid,
                          interfaces := ClearedTcpPorts(dev.interfaces));
      Success(StopBridgesSpec(t.(devices := t.devices.Update(name, stopped)),
                              ConnectionsIn(dev.interfaces.values, dev.interfaces.keys), delete))
  }

  /**
   * What stop_device leaves: the device no longer runs; each interface that
   * belonged to a bridge has no TCP port; each such bridge is, with
   * `delete`, gone from every table; and the tags are untouched.
   */
  lemma StopDeviceFacts(t: Tables, name: string, delete: bool, i: int)
    requires TablesValid(t)
    ensures StopDeviceSpec(t, name, delete).Failure? <==> name !in t.devices.values
    ensures StopDeviceSpec(t, name, delete).Success? ==>
      var u := StopDeviceSpec(t, name, delete).value;
      && name in u.devices.values && !Running(u.devices.values[name].pid)
      && u.tags == t.tags
      && (i in t.devices.values[name].interfaces.values && Truthy(t.devices.values[name].interfaces.values[i].connection) ==>
            var c := t.devices.values[name].interfaces.values[i].connection.value;
            && i in u.devices.values[name].interfaces.values
            && u.devices.values[name].interfaces.values[i].tcpPort == None
            && (delete ==> c !in u.bridges.values && c !in u.taps.values && c !in u.physicals.values
                           && u.devices.values[name].interfaces.values[i].connection == None)
            && (!delete && c in t.bridges.values ==> c in u.bridges.values && !Running(u.bridges.values[c].pid)))
  {
    if name in t.devices.values {
      var ifs := t.devices.values[name].interfaces;
      if i in ifs.values && Truthy(ifs.values[i].connection) {
        var k :| 0 <= k < |ifs.keys| && ifs.keys[k] == i;
        ConnectionsInMembers(ifs.values, ifs.keys, ifs.values[i].connection.value);
      }
    }
  }

  /** stop_device keeps every interface's bridge existing. */
  lemma StopDeviceKeepsLinked(t: Tables, name: string, delete: bool)
    requires TablesValid(t) && Linked(t) && StopDeviceSpec(t, name, delete).Success?
    ensures Linked(StopDeviceSpec(t, name, delete).value)
  {
    var dev := t.devices.values[name];
    var stopped := dev.(pid := if Running(dev.pid) then None else dev.pid,
                        interfaces := ClearedTcpPorts(dev.interfaces));
    var t1 := t.(devices := t.devices.Update(name, stopped));
    forall i | i in dev.interfaces.values
      ensures stopped.interfaces.values[i].connection == dev.interfaces.values[i].connection
    {
    }
    SameConnectionsKeepLinked(t, name, stopped);
    StopBridgesKeepLinked(t1, ConnectionsIn(dev.interfaces.values, dev.interfaces.keys), delete);
  }

  /** A device whose interfaces keep their connections keeps the tables linked. */
  lemma SameConnectionsKeepLinked(t: Tables, name: string, dev: Device)
    requires Linked(t) && name in t.devices.values
    requires dev.interfaces.values.Keys == t.devices.values[name].interfaces.values.Keys
    requires forall i :: i in dev.interfaces.values ==>
               dev.interfaces.values[i].connection == t.devices.values[name].interfaces.values[i].connection
    ensures Linked(t.(devices := t.devices.Update(name, dev)))
  {
    var t1 := t.(devices := t.devices.Update(name, dev));
    forall d, i | d in t1.devices.values && i in t1.devices.values[d].interfaces.values
                  && Truthy(t1.devices.values[d].interfaces.values[i].connection)
      ensures t1.devices.values[d].interfaces.values[i].connection.value in t1.bridges.values
    {
      assert t1.devices.values[d].interfaces.values[i].connection == t.devices.values[d].interfaces.values[i].connection;
    }
  }

  /** Stopping any set of bridges keeps every interface's bridge existing. */
  lemma StopBridgesKeepLinked(t: Tables, names: set<string>, delete: bool)
    requires TablesValid(t) && Linked(t)
    ensures Linked(StopBridgesSpec(t, names, delete))
  {
    var u := StopBridgesSpec(t, names, delete);
    forall d, i | d in u.devices.values && i in u.devices.values[d].interfaces.values
                  && Truthy(u.devices.values[d].interfaces.values[i].connection)
      ensures u.devices.values[d].interfaces.values[i].connection.value in u.bridges.values
    {
      var x := t.devices.values[d].interfaces.values[i];
      assert x.connection.value in t.bridges.values;
    }
  }

  // ---------------------------------------------------------------------------
  // get_open_interfaces

  /** The free interfaces at `keys`, each written by `text`, in dict order. */
  function FreeListed(ifs: map<int, Interface>, keys: seq<int>, text: int -> string): seq<string> {
    if keys == [] then []
    else
      var i := keys[|keys| - 1];
      FreeListed(ifs, keys[..|keys| - 1], text)
        + (if i in ifs && !Truthy(ifs[i].connection) then [text(i)] else [])
  }

  /** How get_open_interfaces writes the interfaces of `device`. */
  function EndpointTexts(device: string): int -> string {
    i => EndpointText(device, i)
  }

  /** The free interfaces at `keys` of one device, as "device/index", in dict order. */
  function OpenIn(device: string, ifs: map<int, Interface>, keys: seq<int>): seq<string> {
    FreeListed(ifs, keys, EndpointTexts(device))
  }

  /** The free interfaces of the devices at `names`, before sorting. */
  function OpenAll(ds: map<string, Device>, names: seq<string>): seq<string> {
    if names == [] then []
    else
      var d := names[|names| - 1];
      OpenAll(ds, names[..|names| - 1])
        + (if d in ds then OpenIn(d, ds[d].interfaces.values, ds[d].interfaces.keys) else [])
  }

  function OpenInterfacesSpec(t: Tables): seq<string> {
    SortStrings(OpenAll(t.devices.values, t.devices.keys))
  }

  /** A free interface named by `x` is at one of the walked indices. */
  ghost predicate FreeAt(device: string, ifs: map<int, Interface>, i: int, x: string) {
    i in ifs && !Truthy(ifs[i].connection) && x == EndpointText(device, i)
  }

  lemma OpenInMembers(device: string, ifs: map<int, Interface>, keys: seq<int>, x: string)
    ensures x in OpenIn(device, ifs, keys) <==> exists k :: 0 <= k < |keys| && FreeAt(device, ifs, keys[k], x)
  {
    var text := EndpointTexts(device);
    if x in OpenIn(device, ifs, keys) {
      var k := FreeListedWitness(ifs, keys, text, x);
      assert FreeAt(device, ifs, keys[k], x);
    }
    if exists k :: 0 <= k < |keys| && FreeAt(device, ifs, keys[k], x) {
      var k :| 0 <= k < |keys| && FreeAt(device, ifs, keys[k], x);
      FreeListedHas(ifs, keys, text, k);
    }
  }

  /** Each free interface walked is listed. */
  lemma {:induction false} FreeListedHas(ifs: map<int, Interface>, keys: seq<int>, text: int -> string, k: nat)
    requires k < |keys| && keys[k] in ifs && !Truthy(ifs[keys[k]].connection)
    ensures text(keys[k]) in FreeListed(ifs, keys, text)
  {
    var init := keys[..|keys| - 1];
    if k < |init| {
      FreeListedHas(ifs, init, text, k);
      assert init[k] == keys[k];
    }
  }

  /** Each entry listed is a free interface walked. */
  lemma {:induction false} FreeListedWitness(ifs: map<int, Interface>, keys: seq<int>, text: int -> string, x: string) returns (k: nat)
    requires x in FreeListed(ifs, keys, text)
    ensures k < |keys| && keys[k] in ifs && !Truthy(ifs[keys[k]].connection) && x == text(keys[k])
  {
    var init := keys[..|keys| - 1];
    if x in FreeListed(ifs, init, text) {
      k := FreeListedWitness(ifs, init, text, x);
      assert init[k] == keys[k];
    } else {
      k := |keys| - 1;
    }
  }

  lemma OpenAllMembers(ds: map<string, Device>, names: seq<string>, x: string)
    requires forall d :: d in ds ==> ds[d].interfaces.Valid()
    ensures x in OpenAll(ds, names) <==>
      exists k, i :: 0 <= k < |names| && names[k] in ds && FreeAt(names[k], ds[names[k]].interfaces.values, i, x)
  {
    if x in OpenAll(ds, names) {
      var k, i := OpenAllWitness(ds, names, x);
    }
    if exists k, i :: 0 <= k < |names| && names[k] in ds && FreeAt(names[k], ds[names[k]].interfaces.values, i, x) {
      var k, i :| 0 <= k < |names| && names[k] in ds && FreeAt(names[k], ds[names[k]].interfaces.values, i, x);
      var ifs := ds[names[k]].interfaces;
      assert i in ifs.keys;
      var j :| 0 <= j < |ifs.keys| && ifs.keys[j] == i;
      FreeListedHas(ifs.values, ifs.keys, EndpointTexts(names[k]), j);
      OpenAllHas(ds, names, k, x);
    }
  }

  /** What is listed for a walked device is listed for them all. */
  lemma {:induction false} OpenAllHas(ds: map<string, Device>, names: seq<string>, k: nat, x: string)
    requires k < |names| && names[k] in ds
    requires x in OpenIn(names[k], ds[names[k]].interfaces.values, ds[names[k]].interfaces.keys)
    ensures x in OpenAll(ds, names)
  {
    var init := names[..|names| - 1];
    if k < |init| {
      assert init[k] == names[k];
      OpenAllHas(ds, init, k, x);
    }
  }

  /** Each entry listed is a free interface of a walked device. */
  lemma {:induction false} OpenAllWitness(ds: map<string, Device>, names: seq<string>, x: string) returns (k: nat, i: int)
    requires x in OpenAll(ds, names)
    ensures k < |names| && names[k] in ds && FreeAt(names[k], ds[names[k]].interfaces.values, i, x)
  {
    var init, d := names[..|names| - 1], names[|names| - 1];
    if x in OpenAll(ds, init) {
      k, i := OpenAllWitness(ds, init, x);
      assert init[k] == names[k];
    } else {
      var ifs := ds[d].interfaces;
      var j := FreeListedWitness(ifs.values, ifs.keys, EndpointTexts(d), x);
      k, i := |names| - 1, ifs.keys[j];
    }
  }


  /**
   * get_open_interfaces lists exactly the interfaces that belong to no
   * bridge, as "device/index", in ascending string order.
   */
  lemma OpenInterfacesExact(t: Tables, x: string)
    requires TablesValid(t)
    ensures SortedStrings(OpenInterfacesSpec(t))
    ensures x in OpenInterfacesSpec(t) <==>
      exists d, i :: d in t.devices.values && FreeAt(d, t.devices.values[d].interfaces.values, i, x)
  {
    var all := OpenAll(t.devices.values, t.devices.keys);
    assert x in OpenInterfacesSpec(t) <==> x in all by {
      assert x in multiset(OpenInterfacesSpec(t)) <==> x in multiset(all);
    }
    OpenAllMembers(t.devices.values, t.devices.keys, x);
    if exists d, i :: d in t.devices.values && FreeAt(d, t.devices.values[d].interfaces.values, i, x) {
      var d, i :| d in t.devices.values && FreeAt(d, t.devices.values[d].interfaces.values, i, x);
      var k :| 0 <= k < |t.devices.keys| && t.devices.keys[k] == d;
      assert FreeAt(t.devices.keys[k], t.devices.values[t.devices.keys[k]].interfaces.values, i, x);
    }
  }

  // ---------------------------------------------------------------------------
  // output_devices, get_active_build_tags, get_base_tags

  /** DeviceOutput. */
  datatype DeviceOutput = DeviceOutput(name: string, consolePort: Option<int>, qemuPort: Option<int>, state: string)

  function OutputOf(name: string, dev: Device): DeviceOutput {
    DeviceOutput(name, if 0 in dev.consolePorts then Some(dev.consolePorts[0]) else None, dev.qemuPort,
                 if Running(dev.pid) then "running" else "stopped")
  }

  function OutputsIn(ds: map<string, Device>, names: seq<string>): seq<DeviceOutput> {
    if names == [] then []
    else
      var d := names[|names| - 1];
      OutputsIn(ds, names[..|names| - 1]) + (if d in ds then [OutputOf(d, ds[d])] else [])
  }

  function OutputName(o: DeviceOutput): string {
    o.name
  }

  function OutputDevicesSpec(t: Tables): seq<DeviceOutput> {
    SortBy(OutputsIn(t.devices.values, t.devices.keys), OutputName)
  }

  lemma {:induction false} OutputsInMembers(ds: map<string, Device>, names: seq<string>, o: DeviceOutput)
    ensures o in OutputsIn(ds, names) <==> exists k :: 0 <= k < |names| && names[k] in ds && o == OutputOf(names[k], ds[names[k]])
  {
    if names != [] {
      var init := names[..|names| - 1];
      OutputsInMembers(ds, init, o);
      assert forall k :: 0 <= k < |init| ==> init[k] == names[k];
    }
  }

  /**
   * output_devices has one entry per device, sorted by name; an entry is
   * "running" exactly when the device's pid is truthy, and carries console
   * port 0 and the qemu port.
   */
  lemma OutputDevicesExact(t: Tables, o: DeviceOutput)
    requires TablesValid(t)
    ensures SortedBy(OutputDevicesSpec(t), OutputName)
    ensures |OutputDevicesSpec(t)| == |t.devices.keys|
    ensures o in OutputDevicesSpec(t) <==> o.name in t.devices.values && o == OutputOf(o.name, t.devices.values[o.name])
    ensures o in OutputDevicesSpec(t) ==> (o.state == "running" <==> Running(t.devices.values[o.name].pid))
  {
    var all := OutputsIn(t.devices.values, t.devices.keys);
    OutputsInLength(t.devices.values, t.devices.keys);
    assert |OutputDevicesSpec(t)| == |multiset(OutputDevicesSpec(t))| == |multiset(all)| == |all|;
    assert o in OutputDevicesSpec(t) <==> o in all by {
      assert o in multiset(OutputDevicesSpec(t)) <==> o in multiset(all);
    }
    OutputsInMembers(t.devices.values, t.devices.keys, o);
    if o.name in t.devices.values && o == OutputOf(o.name, t.devices.values[o.name]) {
      var k :| 0 <= k < |t.devices.keys| && t.devices.keys[k] == o.name;
    }
  }

  lemma {:induction false} OutputsInLength(ds: map<string, Device>, names: seq<string>)
    requires forall k :: 0 <= k < |names| ==> names[k] in ds
    ensures |OutputsIn(ds, names)| == |names|
  {
    if names != [] {
      OutputsInLength(ds, names[..|names| - 1]);
    }
  }

  /** get_active_build_tags: the names of the devices with a truthy build tag, in dict order. */
  function ActiveBuildIn(ds: map<string, Device>, names: seq<string>): seq<string> {
    if names == [] then []
    else
      var d := names[|names| - 1];
      ActiveBuildIn(ds, names[..|names| - 1]) + (if d in ds && Truthy(ds[d].buildTag) then [d] else [])
  }

  lemma {:induction false} ActiveBuildInMembers(ds: map<string, Device>, names: seq<string>, x: string)
    ensures x in ActiveBuildIn(ds, names) <==> x in names && x in ds && Truthy(ds[x].buildTag)
  {
    if names != [] {
      ActiveBuildInMembers(ds, names[..|names| - 1], x);
      assert names == names[..|names| - 1] + [names[|names| - 1]];
    }
  }

  /**
   * get_base_tags: the tags without a build part, in dict order. A tag that
   * get_name_version_build_tag cannot split raises, the first one in order.
   */
  function BaseTagsIn(names: seq<string>): Result<seq<string>, string> {
    if names == [] then Success([])
    else
      var tag := names[|names| - 1];
      match BaseTagsIn(names[..|names| - 1])
      case Failure(e) => Failure(e)
      case Success(acc) =>
        match Images.GetNameVersionBuildTag(tag)
        case Failure(e) => Failure(e)
        case Success(info) => Success(acc + (if !Truthy(info.build) then [tag] else []))
  }

  /** The first tag that cannot be split decides the outcome. */
  lemma {:induction false} BaseTagsInStops(names: seq<string>, k: nat)
    requires k <= |names| && BaseTagsIn(names[..k]).Failure?
    ensures BaseTagsIn(names) == BaseTagsIn(names[..k])
    decreases |names| - k
  {
    if k == |names| {
      assert names[..k] == names;
    } else {
      var init := names[..|names| - 1];
      assert init[..k] == names[..k];
      BaseTagsInStops(init, k);
    }
  }

  lemma {:induction false} BaseTagsInExact(names: seq<string>, x: string)
    ensures BaseTagsIn(names).Success? <==> forall k :: 0 <= k < |names| ==> Images.GetNameVersionBuildTag(names[k]).Success?
    ensures BaseTagsIn(names).Success? ==>
      (x in BaseTagsIn(names).value <==> x in names && Images.GetNameVersionBuildTag(x).value.build.None?)
  {
    if names != [] {
      var init := names[..|names| - 1];
      BaseTagsInExact(init, x);
      assert names == init + [names[|names| - 1]];
      assert forall k :: 0 <= k < |init| ==> init[k] == names[k];
    }
  }

  /** A tag made by get_build_tag from a base tag is not a base tag; the base tag is. */
  lemma BaseTagsOfBuilds(name: string, version: string, build: string)
    requires Images.Part(name) && Images.Part(version) && Images.Part(build)
    ensures var base := Images.GetBuildTag(name, version);
      BaseTagsIn([base, Images.GetBuildTag(base, build)]) == Success([base])
  {
    var base := Images.GetBuildTag(name, version);
    Images.BaseTagRoundTrip(name, version);
    Images.BuildTagRoundTrip(name, version, build);
    var tags := [base, Images.GetBuildTag(base, build)];
    assert tags[..|tags| - 1] == [base];
    assert [base][..0] == [];
    assert BaseTagsIn([base]) == Success([] + [base]);
    assert [] + [base] == [base];
    assert Images.GetNameVersionBuildTag(tags[1]) == Success(Images.TagInfo(name, version, Some(build)));
    assert Truthy(Some(build));
    assert BaseTagsIn(tags[..|tags| - 1]) == Success([base]);
    assert tags[|tags| - 1] == tags[1];
    assert BaseTagsIn(tags) == Success([base] + []);
    assert [base] + [] == [base];
  }

  // ---------------------------------------------------------------------------
  // register_bridge_pid, get_bridge_command

  /** register_bridge_pid: get_bridge_state raises for an unknown bridge. */
  function RegisterBridgePidSpec(t: Tables, name: string, pid: int): (r: Result<Tables, StateError>)
    requires TablesValid(t)
    ensures r.Failure? <==> name !in t.bridges.values
    ensures r.Success? ==>
      && r.value == t.(bridges := r.value.bridges) && r.value.bridges.keys == t.bridges.keys
      && r.value.bridges.values == t.bridges.values[name := t.bridges.values[name].(pid := Some(pid))]
  {
    if name !in t.bridges.values then Failure(UnknownBridge(name))
    else Success(t.(bridges := t.bridges.Update(name, t.bridges.values[name].(pid := Some(pid)))))
  }

  /** f"{tcp_port}": a missing port prints as "None". */
  function PortText(p: Option<int>): string {
    if p.None? then "None" else IntToString(p.value)
  }

  function TcpEndpointText(p: Option<int>): string {
    "127.0.0.1:" + PortText(p)
  }

  /**
   * The interfaces at `keys` of one device that belong to `bridge`, as
   * "127.0.0.1:port"; the first one found on a stopped device raises.
   */
  function TcpEndpointsIn(bridge: string, device: string, dev: Device, keys: seq<int>): Result<seq<string>, StateError> {
    if keys == [] then Success([])
    else
      var i := keys[|keys| - 1];
      match TcpEndpointsIn(bridge, device, dev, keys[..|keys| - 1])
      case Failure(e) => Failure(e)
      case Success(acc) =>
        if i !in dev.interfaces.values || dev.interfaces.values[i].connection != Some(bridge) then Success(acc)
        else if !Running(dev.pid) then Failure(DeviceStopped(bridge, device))
        else Success(acc + [TcpEndpointText(dev.interfaces.values[i].tcpPort)])
  }

  function TcpEndpointsAll(bridge: string, ds: map<string, Device>, names: seq<string>): Result<seq<string>, StateError> {
    if names == [] then Success([])
    else
      var d := names[|names| - 1];
      match TcpEndpointsAll(bridge, ds, names[..|names| - 1])
      case Failure(e) => Failure(e)
      case Success(acc) =>
        if d !in ds then Success(acc)
        else match TcpEndpointsIn(bridge, d, ds[d], ds[d].interfaces.keys)
          case Failure(e) => Failure(e)
          case Success(more) => Success(acc + more)
  }

  /** `for e in values: command.extend([flag, e])`. */
  function FlagPairs(flag: string, values: seq<string>): (r: seq<string>)
    ensures |r| == 2 * |values|
  {
    if values == [] then [] else FlagPairs(flag, values[..|values| - 1]) + [flag, values[|values| - 1]]
  }

  /** An interface of device `d` belongs to `bridge`. */
  ghost predicate InBridge(dev: Device, bridge: string, i: int) {
    i in dev.interfaces.values && dev.interfaces.values[i].connection == Some(bridge)
  }

  /**
   * get_bridge_command. `ndlabPath` is what shutil.which finds and
   * `ndlabDirectory` the absolute NDLAB directory.
   */
  function BridgeCommandSpec(t: Tables, bridge: string, snifferPort: int, ndlabPath: Option<string>,
                             ndlabDirectory: string): Result<seq<string>, StateError>
  {
    match TcpEndpointsAll(bridge, t.devices.values, t.devices.keys)
    case Failure(e) => Failure(e)
    case Success(endpoints) =>
      if !Truthy(ndlabPath) then Failure(NoExecutable)
      else
        Success(BridgeArgs(ndlabPath.value, bridge, ndlabDirectory + "/bridge-" + bridge + ".log",
                           IntToString(snifferPort), endpoints, t.taps.Get(bridge), t.physicals.Get(bridge)))
  }

  /**
   * The command line of a bridge: the launch arguments, a --tcp-endpoint
   * pair per endpoint, the tap endpoint if any, and with a physical
   * endpoint the whole under sudo, backgrounded, then the registration of
   * its pid.
   */
  function BridgeArgs(path: string, bridge: string, logFile: string, port: string, endpoints: seq<string>,
                      tap: Option<string>, physical: Option<string>): seq<string>
  {
    var command := [path, "launch-bridge", "--name", bridge, "--log-file", logFile, "--sniffer-port", port]
                   + FlagPairs("--tcp-endpoint", endpoints)
                   + (if tap.Some? then ["--tap-endpoint", tap.value] else []);
    if physical.Some? then
      ["sudo"] + command + ["--physical-endpoint", physical.value]
      + ["&", path, "bridge", "register-bridge-pid", bridge, "$!"]
    else command
  }

  lemma {:induction false} TcpEndpointsInFails(bridge: string, device: string, dev: Device, keys: seq<int>)
    ensures TcpEndpointsIn(bridge, device, dev, keys).Failure? <==>
      !Running(dev.pid) && exists k :: 0 <= k < |keys| && InBridge(dev, bridge, keys[k])
    ensures TcpEndpointsIn(bridge, device, dev, keys).Failure? ==>
      TcpEndpointsIn(bridge, device, dev, keys).error == DeviceStopped(bridge, device)
  {
    if keys != [] {
      var init := keys[..|keys| - 1];
      TcpEndpointsInFails(bridge, device, dev, init);
      assert forall k :: 0 <= k < |init| ==> init[k] == keys[k];
    }
  }

  lemma {:induction false} TcpEndpointsAllFails(bridge: string, ds: map<string, Device>, names: seq<string>)
    requires forall d :: d in ds ==> ds[d].interfaces.Valid()
    ensures TcpEndpointsAll(bridge, ds, names).Failure? <==>
      exists k, i :: 0 <= k < |names| && names[k] in ds && !Running(ds[names[k]].pid) && InBridge(ds[names[k]], bridge, i)
  {
    if names != [] {
      var init := names[..|names| - 1];
      var d := names[|names| - 1];
      TcpEndpointsAllFails(bridge, ds, init);
      assert forall k :: 0 <= k < |init| ==> init[k] == names[k];
      if d in ds {
        var ifs := ds[d].interfaces;
        TcpEndpointsInFails(bridge, d, ds[d], ifs.keys);
        if exists i :: InBridge(ds[d], bridge, i) {
          var i :| InBridge(ds[d], bridge, i);
          var k :| 0 <= k < |ifs.keys| && ifs.keys[k] == i;
          assert InBridge(ds[d], bridge, ifs.keys[k]);
        }
      }
    }
  }

  /** Once the walk over a device's interfaces has raised, the rest of the walk does not matter. */
  lemma {:induction false} TcpEndpointsInStops(bridge: string, device: string, dev: Device, keys: seq<int>, k: nat)
    requires k <= |keys| && TcpEndpointsIn(bridge, device, dev, keys[..k]).Failure?
    ensures TcpEndpointsIn(bridge, device, dev, keys) == TcpEndpointsIn(bridge, device, dev, keys[..k])
    decreases |keys| - k
  {
    if k == |keys| {
      assert keys[..k] == keys;
    } else {
      var init := keys[..|keys| - 1];
      assert init[..k] == keys[..k];
      TcpEndpointsInStops(bridge, device, dev, init, k);
    }
  }

  /** Once the walk over the devices has raised, the rest of the walk does not matter. */
  lemma {:induction false} TcpEndpointsAllStops(bridge: string, ds: map<string, Device>, names: seq<string>, k: nat)
    requires k <= |names| && TcpEndpointsAll(bridge, ds, names[..k]).Failure?
    ensures TcpEndpointsAll(bridge, ds, names) == TcpEndpointsAll(bridge, ds, names[..k])
    decreases |names| - k
  {
    if k == |names| {
      assert names[..k] == names;
    } else {
      var init := names[..|names| - 1];
      assert init[..k] == names[..k];
      TcpEndpointsAllStops(bridge, ds, init, k);
    }
  }

  /**
   * get_bridge_command raises exactly when a device with an interface in
   * the bridge is stopped, or the ndlab executable is not found.
   */
  lemma BridgeCommandFails(t: Tables, bridge: string, snifferPort: int, ndlabPath: Option<string>, ndlabDirectory: string)
    requires TablesValid(t)
    ensures BridgeCommandSpec(t, bridge, snifferPort, ndlabPath, ndlabDirectory).Failure? <==>
      || !Truthy(ndlabPath)
      || exists d, i :: d in t.devices.values && !Running(t.devices.values[d].pid) && InBridge(t.devices.values[d], bridge, i)
  {
    TcpEndpointsAllFails(bridge, t.devices.values, t.devices.keys);
    if exists d, i :: d in t.devices.values && !Running(t.devices.values[d].pid) && InBridge(t.devices.values[d], bridge, i) {
      var d, i :| d in t.devices.values && !Running(t.devices.values[d].pid) && InBridge(t.devices.values[d], bridge, i);
      var k :| 0 <= k < |t.devices.keys| && t.devices.keys[k] == d;
      assert t.devices.keys[k] in t.devices.values && InBridge(t.devices.values[t.devices.keys[k]], bridge, i);
    }
  }

  /**
   * A command that could be built launches the bridge with one
   * --tcp-endpoint pair per endpoint found, and runs under sudo,
   * registering its pid, exactly when the bridge has a physical endpoint.
   */
  lemma BridgeCommandShape(t: Tables, bridge: string, snifferPort: int, ndlabPath: Option<string>, ndlabDirectory: string)
    requires BridgeCommandSpec(t, bridge, snifferPort, ndlabPath, ndlabDirectory).Success?
    ensures var cmd := BridgeCommandSpec(t, bridge, snifferPort, ndlabPath, ndlabDirectory).value;
      var endpoints := TcpEndpointsAll(bridge, t.devices.values, t.devices.keys).value;
      var start := if bridge in t.physicals.values then 1 else 0;
      && (bridge in t.physicals.values ==> cmd[0] == "sudo" && cmd[|cmd| - 1] == "$!")
      && cmd[start] == ndlabPath.value && cmd[start + 1] == "launch-bridge" && cmd[start + 3] == bridge
      && |cmd| == 8 + 2 * |endpoints| + (if bridge in t.taps.values then 2 else 0) + (if bridge in t.physicals.values then 9 else 0)
      && cmd[start + 8..start + 8 + 2 * |endpoints|] == FlagPairs("--tcp-endpoint", endpoints)
  {
    var endpoints := TcpEndpointsAll(bridge, t.devices.values, t.devices.keys).value;
    BridgeArgsShape(ndlabPath.value, bridge, ndlabDirectory + "/bridge-" + bridge + ".log",
                    IntToString(snifferPort), endpoints, t.taps.Get(bridge), t.physicals.Get(bridge));
  }

  lemma BridgeArgsShape(path: string, bridge: string, logFile: string, port: string, endpoints: seq<string>,
                        tap: Option<string>, physical: Option<string>)
    ensures var cmd := BridgeArgs(path, bridge, logFile, port, endpoints, tap, physical);
      var start := if physical.Some? then 1 else 0;
      && (physical.Some? ==> cmd[0] == "sudo" && cmd[|cmd| - 1] == "$!")
      && cmd[start] == path && cmd[start + 1] == "launch-bridge" && cmd[start + 3] == bridge
      && |cmd| == 8 + 2 * |endpoints| + (if tap.Some? then 2 else 0) + (if physical.Some? then 9 else 0)
      && cmd[start + 8..start + 8 + 2 * |endpoints|] == FlagPairs("--tcp-endpoint", endpoints)
  {
    var head := [path, "launch-bridge", "--name", bridge, "--log-file", logFile, "--sniffer-port", port];
    var pairs := FlagPairs("--tcp-endpoint", endpoints);
    var rest := if tap.Some? then ["--tap-endpoint", tap.value] else [];
    var command := head + pairs + rest;
    CommandLayout(command, head, pairs, rest);
    if physical.Some? {
      var post := ["--physical-endpoint", physical.value];
      var register := ["&", path, "bridge", "register-bridge-pid", bridge, "$!"];
      WrappedLayout(BridgeArgs(path, bridge, logFile, port, endpoints, tap, physical), ["sudo"], command, post, register, |head|, |head| + |pairs|);
    }
  }

  /** Where the parts of a command line built by concatenation end up. */
  lemma CommandLayout<T>(c: seq<T>, head: seq<T>, pairs: seq<T>, rest: seq<T>)
    requires c == head + pairs + rest
    ensures |c| == |head| + |pairs| + |rest|
    ensures forall i :: 0 <= i < |head| ==> c[i] == head[i]
    ensures c[|head|..|head| + |pairs|] == pairs
  {
  }

  /** A command line inside a prefix and two suffixes. */
  lemma WrappedLayout<T>(c: seq<T>, pre: seq<T>, inner: seq<T>, post: seq<T>, last: seq<T>, lo: nat, hi: nat)
    requires c == pre + inner + post + last && lo <= hi <= |inner|
    ensures |c| == |pre| + |inner| + |post| + |last|
    ensures forall i :: 0 <= i < |inner| ==> c[|pre| + i] == inner[i]
    ensures c[|pre| + lo..|pre| + hi] == inner[lo..hi]
    ensures |pre| > 0 ==> c[0] == pre[0]
    ensures |last| > 0 ==> c[|c| - 1] == last[|last| - 1]
  {
  }

  // ---------------------------------------------------------------------------
  // Loops over one device's interfaces

  /** The inner loop of stop_bridge with `delete`: each interface of the bridge leaves it. */
  method ClearInterfaces(ifs: Dict<int, Interface>, name: string) returns (r: Dict<int, Interface>)
    requires ifs.Valid()
    ensures r == ClearedInterfaces(ifs, {name})
  {
    ghost var f := ClearOf({name});
    ghost var done: set<int> := {};
    MapSomeNone(ifs.values, f);
    r := ifs;
    var k := 0;
    while k < |ifs.keys|
      invariant 0 <= k <= |ifs.keys|
      invariant r.keys == ifs.keys
      invariant done == KeySet(ifs.keys[..k])
      invariant r.values == MapSome(ifs.values, f, done)
    {
      var i := ifs.keys[k];
      WalkStep(ifs, k, done);
      var x := r.values[i];
      assert x == ifs.values[i];
      if x.connection == Some(name) {
        MapSomeStep(ifs.values, f, done, i);
        r := r.Update(i, x.(connection := None));
      } else {
        MapSomeFixed(ifs.values, f, done, i);
      }
      done := done + {i};
      k := k + 1;
    }
    WalkDone(ifs, k, done);
    ClearedInterfacesAll(ifs, {name});
    assert r == Dict(ifs.keys, r.values);
  }


  /** One turn of the loop below: the `k`-th interface is new, and what it adds. */
  lemma ClearStep(ifs: Dict<int, Interface>, k: nat, done: set<int>)
    requires ifs.Valid() && k < |ifs.keys|
    requires done == KeySet(ifs.keys[..k])
    ensures var i := ifs.keys[k];
      && i in ifs.values && i !in done
      && MapSome(ifs.values, ClearTcpPort, done)[i] == ifs.values[i]
      && done + {i} == KeySet(ifs.keys[..k + 1])
      && ConnectionsIn(ifs.values, ifs.keys[..k + 1]) == ConnectionsIn(ifs.values, ifs.keys[..k])
           + (if Truthy(ifs.values[i].connection) then {ifs.values[i].connection.value} else {})
  {
    var walked := ifs.keys[..k + 1];
    WalkStep(ifs, k, done);
    assert walked[..k] == ifs.keys[..k];
  }

  /**
   * The loop of stop_device over the device's interfaces: a connected
   * interface loses its TCP port and its bridge joins `connections`.
   */
  method ClearTcpPortsOf(ifs: Dict<int, Interface>) returns (r: Dict<int, Interface>, connections: set<string>)
    requires ifs.Valid()
    ensures r == ClearedTcpPorts(ifs)
    ensures connections == ConnectionsIn(ifs.values, ifs.keys)
  {
    ghost var done: set<int> := {};
    MapSomeNone(ifs.values, ClearTcpPort);
    r := ifs;
    connections := {};
    var k := 0;
    while k < |ifs.keys|
      invariant 0 <= k <= |ifs.keys|
      invariant r.keys == ifs.keys
      invariant done == KeySet(ifs.keys[..k])
      invariant r.values == MapSome(ifs.values, ClearTcpPort, done)
      invariant connections == ConnectionsIn(ifs.values, ifs.keys[..k])
    {
      var i := ifs.keys[k];
      ClearStep(ifs, k, done);
      var x := r.values[i];
      assert x == ifs.values[i];
      if Truthy(x.connection) {
        MapSomeStep(ifs.values, ClearTcpPort, done, i);
        r := r.Update(i, x.(tcpPort := None));
        connections := connections + {x.connection.value};
      } else {
        MapSomeFixed(ifs.values, ClearTcpPort, done, i);
      }
      done := done + {i};
      k := k + 1;
    }
    assert ifs.keys[..k] == ifs.keys;
    WalkDone(ifs, k, done);
    ClearedAll(ifs);
    assert r == Dict(ifs.keys, r.values);
  }

  /** The inner loop of get_open_interfaces. */
  method OpenInterfacesOf(device: string, ifs: Dict<int, Interface>) returns (open: seq<string>)
    ensures open == OpenIn(device, ifs.values, ifs.keys)
  {
    open := [];
    var k := 0;
    while k < |ifs.keys|
      invariant 0 <= k <= |ifs.keys|
      invariant open == OpenIn(device, ifs.values, ifs.keys[..k])
    {
      var i := ifs.keys[k];
      if i in ifs.values && !Truthy(ifs.values[i].connection) {
        open := open + [EndpointText(device, i)];
      }
      assert ifs.keys[..k + 1][..k] == ifs.keys[..k];
      k := k + 1;
    }
    assert ifs.keys[..k] == ifs.keys;
  }

  /** The inner loop of get_bridge_command. */
  method TcpEndpointsOf(bridge: string, device: string, dev: Device) returns (r: Result<seq<string>, StateError>)
    ensures r == TcpEndpointsIn(bridge, device, dev, dev.interfaces.keys)
  {
    var keys := dev.interfaces.keys;
    var endpoints := [];
    var k := 0;
    while k < |keys|
      invariant 0 <= k <= |keys|
      invariant TcpEndpointsIn(bridge, device, dev, keys[..k]) == Success(endpoints)
    {
      var i := keys[k];
      assert keys[..k + 1][..k] == keys[..k];
      if i in dev.interfaces.values && dev.interfaces.values[i].connection == Some(bridge) {
        if !Running(dev.pid) {
          TcpEndpointsInStops(bridge, device, dev, keys, k + 1);
          return Failure(DeviceStopped(bridge, device));
        }
        endpoints := endpoints + [TcpEndpointText(dev.interfaces.values[i].tcpPort)];
      }
      k := k + 1;
    }
    assert keys[..k] == keys;
    return Success(endpoints);
  }

  /** The loop of add_bridge that puts each listed interface in the bridge. */
  method ConnectEndpoints(ds: Dict<string, Device>, tcp: seq<string>, name: string) returns (r: Dict<string, Device>)
    requires forall k :: 0 <= k < |tcp| ==> SplitEndpoint(tcp[k]).Success? && Present(ds, SplitEndpoint(tcp[k]).value)
    ensures r == Connect(ds, tcp, name)
  {
    r := ds;
    var k := 0;
    while k < |tcp|
      invariant 0 <= k <= |tcp|
      invariant r == Connect(ds, tcp[..k], name)
    {
      var ref := SplitEndpoint(tcp[k]).value;
      ConnectShape(ds, tcp[..k], name, ref.device);
      var dev := r.values[ref.device];
      var x := dev.interfaces.values[ref.index];
      r := r.Update(ref.device, dev.(interfaces := dev.interfaces.Update(ref.index, x.(connection := Some(name)))));
      assert tcp[..k + 1][..k] == tcp[..k];
      k := k + 1;
    }
    assert tcp[..k] == tcp;
  }

  /** The loop of stop_bridge with `delete` over every device. */
  method ClearBridge(ds: Dict<string, Device>, name: string) returns (r: Dict<string, Device>)
    requires ds.Valid() && forall d :: d in ds.values ==> ds.values[d].interfaces.Valid()
    ensures r == ClearConnections(ds, {name})
  {
    ghost var f := ClearDeviceOf({name});
    ghost var done: set<string> := {};
    MapSomeNone(ds.values, f);
    r := ds;
    var k := 0;
    while k < |ds.keys|
      invariant 0 <= k <= |ds.keys|
      invariant r.keys == ds.keys
      invariant done == KeySet(ds.keys[..k])
      invariant r.values == MapSome(ds.values, f, done)
    {
      var d := ds.keys[k];
      WalkStep(ds, k, done);
      var dev := r.values[d];
      assert dev == ds.values[d];
      var ifs := ClearInterfaces(dev.interfaces, name);
      MapSomeStep(ds.values, f, done, d);
      r := r.Update(d, dev.(interfaces := ifs));
      done := done + {d};
      k := k + 1;
    }
    WalkDone(ds, k, done);
    ClearConnectionsAll(ds, {name});
    assert r == Dict(ds.keys, r.values);
  }


  /** The loop of get_bridge_command over every device. */
  method CollectTcpEndpoints(bridge: string, ds: Dict<string, Device>) returns (r: Result<seq<string>, StateError>)
    ensures r == TcpEndpointsAll(bridge, ds.values, ds.keys)
  {
    var names := ds.keys;
    var endpoints := [];
    var k := 0;
    while k < |names|
      invariant 0 <= k <= |names|
      invariant TcpEndpointsAll(bridge, ds.values, names[..k]) == Success(endpoints)
    {
      var d := names[k];
      assert names[..k + 1][..k] == names[..k];
      if d in ds.values {
        var more := TcpEndpointsOf(bridge, d, ds.values[d]);
        if more.Failure? {
          TcpEndpointsAllStops(bridge, ds.values, names, k + 1);
          return Failure(more.error);
        }
        endpoints := endpoints + more.value;
      }
      k := k + 1;
    }
    assert names[..k] == names;
    return Success(endpoints);
  }

  // ---------------------------------------------------------------------------
  // The State object

  class State {
    var devices: Dict<string, Device>
    var bridges: Dict<string, Connection>
    var tapEndpoints: Dict<string, string>
    var physicalEndpoints: Dict<string, string>
    var tags: Dict<string, string>

    /** The dictionaries as they are now. */
    function Snapshot(): Tables
      reads this
    {
      Tables(devices, bridges, tapEndpoints, physicalEndpoints, tags)
    }

    ghost predicate Valid()
      reads this
    {
      TablesValid(Snapshot())
    }

    /** The dataclass constructor: `State()` gives empty tables, `from_file` passes the loaded ones. */
    constructor (t: Tables)
      requires TablesValid(t)
      ensures Valid() && Snapshot() == t
    {
      devices := t.devices;
      bridges := t.bridges;
      tapEndpoints := t.taps;
      physicalEndpoints := t.physicals;
      tags := t.tags;
    }

    method AddTag(tag: string, image: string, overwrite: bool) returns (err: Option<StateError>)
      requires Valid()
      modifies this
      ensures Valid()
      ensures Snapshot() == After(old(Snapshot()), AddTagSpec(old(Snapshot()), tag, image, overwrite))
      ensures err == ErrorOf(AddTagSpec(old(Snapshot()), tag, image, overwrite))
    {
      var existing := tags.Get(tag);
      if Truthy(existing) && !overwrite {
        return Some(TagInUse(tag, existing.value));
      }
      tags := tags.Put(tag, image);
      return None;
    }

    method DeleteTag(tag: string) returns (err: Option<StateError>)
      requires Valid()
      modifies this
      ensures Valid()
      ensures Snapshot() == After(old(Snapshot()), DeleteTagSpec(old(Snapshot()), tag))
      ensures err == ErrorOf(DeleteTagSpec(old(Snapshot()), tag))
    {
      if !Truthy(tags.Get(tag)) {
        return Some(TagNotFound(tag));
      }
      tags := tags.Remove(tag);
      return None;
    }

    /** _validate_tcp_endpoints: the first endpoint that fails a check raises. */
    method ValidateTcpEndpoints(es: seq<string>) returns (err: Option<StateError>)
      ensures err == FirstInvalid(Snapshot(), es)
    {
      var k := 0;
      while k < |es|
        invariant 0 <= k <= |es|
        invariant FirstInvalid(Snapshot(), es) == FirstInvalid(Snapshot(), es[k..])
      {
        var e := es[k];
        assert es[k..][1..] == es[k + 1..];
        if !MatchesDeviceInterface(e) {
          return Some(BadFormat(e));
        }
        var split := SplitEndpoint(e);
        if split.Failure? {
          return Some(split.error);
        }
        var ref := split.value;
        if ref.device !in devices.values {
          return Some(NoDevice(ref.device));
        }
        if ref.index !in devices.values[ref.device].interfaces.values {
          return Some(BadIndex(ref.device, ref.index));
        }
        if Truthy(devices.values[ref.device].interfaces.values[ref.index].connection) {
          return Some(InUse(ref.device, ref.index));
        }
        k := k + 1;
      }
      return None;
    }

    /** add_bridge; `nicsPresent` is whether psutil reports any network interface. */
    method AddBridge(name: string, tcp: seq<string>, nic: Option<string>, tap: Option<string>, nicsPresent: bool)
      returns (err: Option<StateError>)
      requires Valid()
      modifies this
      ensures Valid()
      ensures Snapshot() == After(old(Snapshot()), AddBridgeSpec(old(Snapshot()), name, tcp, nic, tap, nicsPresent))
      ensures err == ErrorOf(AddBridgeSpec(old(Snapshot()), name, tcp, nic, tap, nicsPresent))
    {
      if name in bridges.values {
        return Some(BridgeExists(name));
      }
      err := ValidateTcpEndpoints(tcp);
      if err.Some? {
        return;
      }
      var endpoints := |tcp|;
      if Truthy(tap) {
        if !nicsPresent {
          return Some(InvalidNic(tap.value));
        }
        endpoints := endpoints + 1;
      }
      if Truthy(nic) {
        if !nicsPresent {
          return Some(InvalidNic(nic.value));
        }
        endpoints := endpoints + 1;
      }
      if endpoints < 2 {
        return Some(TooFewEndpoints);
      }
      ghost var t0 := Snapshot();
      assert AddBridgeSpec(t0, name, tcp, nic, tap, nicsPresent) == Success(Added(t0, name, tcp, nic, tap));
      AddBridgeKeepsInvariants(t0, name, tcp, nic, tap, nicsPresent);
      Install(name, tcp, nic, tap);
      return None;
    }

    /** The writes of a successful add_bridge. */
    method Install(name: string, tcp: seq<string>, nic: Option<string>, tap: Option<string>)
      requires Valid() && FirstInvalid(Snapshot(), tcp).None?
      modifies this
      ensures Snapshot() == Added(old(Snapshot()), name, tcp, nic, tap)
    {
      ghost var t := Snapshot();
      ValidEndpointsPresent(t, tcp);
      var physicals := if Truthy(nic) then physicalEndpoints.Put(name, nic.value) else physicalEndpoints;
      var taps := if Truthy(tap) then tapEndpoints.Put(name, tap.value) else tapEndpoints;
      var connected := ConnectEndpoints(devices, tcp, name);
      physicalEndpoints, tapEndpoints := physicals, taps;
      devices, bridges := connected, bridges.Put(name, Connection(name, None, None));
      assert Snapshot() == Added(t, name, tcp, nic, tap);
    }

    /**
     * stop_bridge; killing the bridge's process is not modelled. A known
     * bridge stopped without `delete` only has its record reset; otherwise
     * the bridge is removed.
     */
    method StopBridge(name: string, delete: bool)
      requires Valid()
      modifies this
      ensures Valid()
      ensures Snapshot() == StopBridgeSpec(old(Snapshot()), name, delete)
    {
      ghost var t0 := Snapshot();
      StopBridgeKeepsInvariants(t0, name, delete);
      if !delete && name in bridges.values {
        bridges := bridges.Update(name, Reset(bridges.values[name]));
        assert Snapshot() == StopBridgeSpec(t0, name, delete);
        return;
      }
      RemoveBridge(name, delete);
      assert Snapshot() == StopBridgeSpec(t0, name, delete);
    }

    /**
     * The rest of stop_bridge when the bridge goes: its connections are
     * cleared from the devices when `delete` is set, its record (reset
     * first, as the source does) and its endpoints are popped.
     */
    method RemoveBridge(name: string, delete: bool)
      requires Valid()
      modifies this
      ensures Snapshot() == old(Snapshot()).(devices := if delete then ClearConnections(old(devices), {name}) else old(devices),
        bridges := old(bridges).Remove(name), taps := old(tapEndpoints).Remove(name), physicals := old(physicalEndpoints).Remove(name))
    {
      if delete {
        devices := ClearBridge(devices, name);
      }
      if name in bridges.values {
        UpdateThenRemove(bridges, name, Reset(bridges.values[name]));
        bridges := bridges.Update(name, Reset(bridges.values[name]));
      }
      Pop(name);
    }

    /** The three pops that end stop_bridge. */
    method Pop(name: string)
      requires bridges.Valid() && tapEndpoints.Valid() && physicalEndpoints.Valid()
      modifies this
      ensures Snapshot() == old(Snapshot()).(bridges := old(bridges).Remove(name),
        taps := old(tapEndpoints).Remove(name), physicals := old(physicalEndpoints).Remove(name))
    {
      bridges := bridges.Remove(name);
      tapEndpoints := tapEndpoints.Remove(name);
      physicalEndpoints := physicalEndpoints.Remove(name);
    }

    /** stop_device; killing the device's process is not modelled. */
    method StopDevice(name: string, delete: bool) returns (err: Option<StateError>)
      requires Valid()
      modifies this
      ensures Valid()
      ensures Snapshot() == After(old(Snapshot()), StopDeviceSpec(old(Snapshot()), name, delete))
      ensures err == ErrorOf(StopDeviceSpec(old(Snapshot()), name, delete))
    {
      if name !in devices.values {
        return Some(UnknownDevice(name));
      }
      var dev := devices.values[name];
      if Running(dev.pid) {
        dev := dev.(pid := None);
      }
      var ifs, connections := ClearTcpPortsOf(dev.interfaces);
      devices := devices.Update(name, dev.(interfaces := ifs));
      StopBridges(connections, delete);
      return None;
    }

    /** The loop of stop_device over the bridges to stop, in any order. */
    method StopBridges(connections: set<string>, delete: bool)
      requires Valid()
      modifies this
      ensures Valid()
      ensures Snapshot() == StopBridgesSpec(old(Snapshot()), connections, delete)
    {
      ghost var t1 := Snapshot();
      StopBridgesNone(t1, delete);
      var todo := connections;
      assert connections - todo == {};
      while todo != {}
        invariant todo <= connections
        invariant Snapshot() == StopBridgesSpec(t1, connections - todo, delete)
        decreases |todo|
      {
        NonEmptyHasElement(todo);
        var c :| c in todo;
        ghost var done := connections - todo;
        assert Valid();
        StopBridgesStep(t1, done, c, delete);
        StopBridge(c, delete);
        assert Snapshot() == StopBridgesSpec(t1, done + {c}, delete);
        assert done + {c} == connections - (todo - {c});
        todo := todo - {c};
      }
      assert connections - todo == connections;
    }

    method RegisterBridgePid(name: string, pid: int) returns (err: Option<StateError>)
      requires Valid()
      modifies this
      ensures Valid()
      ensures Snapshot() == After(old(Snapshot()), RegisterBridgePidSpec(old(Snapshot()), name, pid))
      ensures err == ErrorOf(RegisterBridgePidSpec(old(Snapshot()), name, pid))
    {
      if name !in bridges.values {
        return Some(UnknownBridge(name));
      }
      bridges := bridges.Update(name, bridges.values[name].(pid := Some(pid)));
      return None;
    }

    method GetOpenInterfaces() returns (r: seq<string>)
      ensures r == OpenInterfacesSpec(Snapshot())
    {
      var ds := devices;
      var names := ds.keys;
      var open := [];
      var k := 0;
      while k < |names|
        invariant 0 <= k <= |names|
        invariant open == OpenAll(ds.values, names[..k])
      {
        var d := names[k];
        ghost var walked := names[..k + 1];
        assert walked[..k] == names[..k] && walked[k] == d;
        if d in ds.values {
          var more := OpenInterfacesOf(d, ds.values[d].interfaces);
          open := open + more;
        }
        k := k + 1;
      }
      assert names[..k] == names;
      r := SortStrings(open);
    }

    method OutputDevices() returns (r: seq<DeviceOutput>)
      ensures r == OutputDevicesSpec(Snapshot())
    {
      var names := devices.keys;
      var output := [];
      var k := 0;
      while k < |names|
        invariant 0 <= k <= |names|
        invariant output == OutputsIn(devices.values, names[..k])
      {
        var d := names[k];
        assert names[..k + 1][..k] == names[..k];
        if d in devices.values {
          output := output + [OutputOf(d, devices.values[d])];
        }
        k := k + 1;
      }
      assert names[..k] == names;
      r := SortBy(output, OutputName);
    }

    method GetActiveBuildTags() returns (r: seq<string>)
      ensures r == ActiveBuildIn(devices.values, devices.keys)
    {
      var names := devices.keys;
      r := [];
      var k := 0;
      while k < |names|
        invariant 0 <= k <= |names|
        invariant r == ActiveBuildIn(devices.values, names[..k])
      {
        var d := names[k];
        assert names[..k + 1][..k] == names[..k];
        if d in devices.values && Truthy(devices.values[d].buildTag) {
          r := r + [d];
        }
        k := k + 1;
      }
      assert names[..k] == names;
    }

    method GetBaseTags() returns (r: Result<seq<string>, string>)
      ensures r == BaseTagsIn(tags.keys)
    {
      var names := tags.keys;
      var base := [];
      var k := 0;
      while k < |names|
        invariant 0 <= k <= |names|
        invariant BaseTagsIn(names[..k]) == Success(base)
      {
        var tag := names[k];
        assert names[..k + 1][..k] == names[..k];
        var info := Images.GetNameVersionBuildTag(tag);
        if info.Failure? {
          BaseTagsInStops(names, k + 1);
          return Failure(info.error);
        }
        assert BaseTagsIn(names[..k + 1]) == Success(base + if !Truthy(info.value.build) then [tag] else []);
        if !Truthy(info.value.build) {
          base := base + [tag];
        } else {
          assert base + [] == base;
        }
        k := k + 1;
      }
      assert names[..k] == names;
      return Success(base);
    }

    /** get_bridge_command; `ndlabPath` is what shutil.which returns for "ndlab". */
    method GetBridgeCommand(bridge: string, snifferPort: int, ndlabPath: Option<string>, ndlabDirectory: string)
      returns (r: Result<seq<string>, StateError>)
      ensures r == BridgeCommandSpec(Snapshot(), bridge, snifferPort, ndlabPath, ndlabDirectory)
    {
      ghost var t := Snapshot();
      var found := CollectTcpEndpoints(bridge, devices);
      if found.Failure? {
        return Failure(found.error);
      }
      var endpoints := found.value;
      if !Truthy(ndlabPath) {
        return Failure(NoExecutable);
      }
      var path := ndlabPath.value;
      var logFile := ndlabDirectory + "/bridge-" + bridge + ".log";
      var port := IntToString(snifferPort);
      ghost var start := [path, "launch-bridge", "--name", bridge, "--log-file", logFile, "--sniffer-port", port];
      var command := [path];
      command := command + ["launch-bridge"];
      command := command + ["--name", bridge];
      command := command + ["--log-file", logFile];
      command := command + ["--sniffer-port", port];
      assert command == start;
      var j := 0;
      while j < |endpoints|
        invariant 0 <= j <= |endpoints|
        invariant command == start + FlagPairs("--tcp-endpoint", endpoints[..j])
      {
        assert endpoints[..j + 1][..j] == endpoints[..j];
        command := command + ["--tcp-endpoint", endpoints[j]];
        j := j + 1;
      }
      assert endpoints[..j] == endpoints;
      if bridge in tapEndpoints.values {
        command := command + ["--tap-endpoint", tapEndpoints.values[bridge]];
      }
      assert command == start + FlagPairs("--tcp-endpoint", endpoints)
                        + (if bridge in tapEndpoints.values then ["--tap-endpoint", tapEndpoints.values[bridge]] else []);
      if bridge in physicalEndpoints.values {
        ghost var launch := command;
        command := command + ["--physical-endpoint", physicalEndpoints.values[bridge]];
        command := ["sudo"] + command;
        command := command + ["&", path, "bridge", "register-bridge-pid", bridge, "$!"];
        assert command == ["sudo"] + launch + ["--physical-endpoint", physicalEndpoints.values[bridge]]
                          + ["&", path, "bridge", "register-bridge-pid", bridge, "$!"];
      }
      assert command == BridgeArgs(path, bridge, logFile, port, endpoints, t.taps.Get(bridge), t.physicals.Get(bridge));
      assert BridgeCommandSpec(t, bridge, snifferPort, ndlabPath, ndlabDirectory) == Success(command);
      return Success(command);
    }
  }
}
