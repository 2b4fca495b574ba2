# ndlab core, modelled in Dafny

ndlab builds emulated network labs. Virtual routers and switches run as
QEMU processes. Software bridges join them to each other, to a TAP device
or to a host NIC, and a sniffer streams what crosses a bridge as libpcap.
This project models the deterministic bookkeeping and byte/string
construction at the heart of ndlab, and proves what that code promises:

| Dafny module (file) | ndlab source | what it covers |
|---|---|---|
| `Framing` (framing.dfy) | src/ndlab/connect.py | the 4-byte big-endian length prefix of one frame (wrap and unwrap), the libpcap global header and record header |
| `Hub` (hub.dfy) | src/ndlab/connect.py | the `Queue`, endpoint and `Bridge` classes: the combined endpoint list, the full-mesh wiring of send queues, the per-frame read/write transforms, sniffer session admission and fan-out |
| `CurrentState` (current_state.dfy) | src/ndlab/current_state.py | the `State` class, whose tag, device, interface, bridge, tap and NIC dictionaries are updated in place by add_tag, delete_tag, add_bridge, stop_bridge, stop_device and register_bridge_pid, plus the listing functions and get_bridge_command |
| `Device`, `NetworkDevices`, `Platforms` (device.dfy, network_device.dfy, platforms.dfy) | src/ndlab/device.py, src/ndlab/platforms/xrv9k.py | port-index allocation, base-MAC validation and MAC generation, NIC and PCI-bridge arguments, port filling in set_qemu_cmd, overlay and image-format choice, qemu-img commands, the XRv9k management NICs and serial consoles, and each platform's constants and interface names |
| `Labmaker` (labmaker.dfy) | src/ndlab/labmaker.py | `Topology`: device validation, the per-device interface counter, and the expansion of point-to-point, full-mesh and multipoint descriptions into bridges and `links_by_device` |
| `Config` (config.dfy) | src/ndlab/config.py | `ConfigInformation`: loopbacks from 10.0.0.0/16, one /24 of 10.1.0.0/16 per bridge, and the per-device template information |
| `Images`, `Iosv` (images.dfy, iosv.dfy) | src/ndlab/images.py, src/ndlab/platforms/iosv.py | tag building and splitting on `_`, first-match platform search, tag discovery, the IOSv interface names and version scanner |
| `Paths` (paths.dfy) | src/ndlab/cli/cli_common.py, src/ndlab/images.py | POSIX paths as pathlib's `PurePosixPath` parses them: anchor, components, `name`, `parent`, joining a name and `str` |
| `CliCommon` (cli_common.dfy) | src/ndlab/cli/cli_common.py | log-file name sanitising and the shell completion filters |
| `Wrappers`, `Text`, `Dicts` | — | Option/Result, string helpers (decimal and hex text, split/join, string order, sorting) and insertion-ordered dictionaries |

Python dictionaries whose iteration order can be seen are modelled as
`Dicts.Dict`: a key sequence in insertion order plus a map. Python
truthiness is written out: an empty string and a pid of 0 are false.
Everything ndlab asks of the outside world is a parameter: free ports
(a function from the request number), PIDs and their liveness, random
numbers, `time.time()`, filesystem existence, `/dev/kvm`, `shutil.which`,
psutil's NIC list, and whether an image-name regular expression matches
(with the groups it captures).

Behaviour of the code the model keeps:
- delete_tag raises when the tag maps to the empty string as well as when it is missing: it tests `not self.tags.get(tag)` (src/ndlab/current_state.py:397).
- add_tag replaces a tag that maps to the empty string even without `overwrite`: the guard tests the truthiness of the existing value (src/ndlab/current_state.py:389).
- stop_bridge on an unknown bridge still pops its tap and physical entries, but clears device interfaces only when `delete` was passed, because that loop runs before `delete` is set (src/ndlab/current_state.py:454-476).
- add_bridge accepts the same TCP endpoint listed twice and counts it twice (src/ndlab/current_state.py:415-417).
- get_bridge_command writes a missing TCP port as `127.0.0.1:None` (src/ndlab/current_state.py:524).
- stop_device clears only a truthy pid, so a pid of 0 stays as it is (src/ndlab/current_state.py:482-484).
- The TCP read handler forwards each read unchanged to every send queue (src/ndlab/connect.py:230-240); the constant `MTU` (src/ndlab/connect.py:23) is never used.
- The base `version_from_imagename` always fails, because the base `IMAGE_PATTERN` has no `version` group (src/ndlab/device.py:44, src/ndlab/device.py:61-65).

## Model

| member | source | states |
|---|---|---|
| Framing.DecodeU16BE | src/ndlab/connect.py:67-76 | two bytes read big-endian give a number below 2^16 |
| Framing.DecodeU32BE | src/ndlab/connect.py:140-141 | four bytes read big-endian give a number below 2^32 |
| Framing.U16BE | src/ndlab/connect.py:67-76 | `!H` packs two bytes that read back as the number |
| Framing.U32BE | src/ndlab/connect.py:156 | `!I` packs four bytes that read back as the number |
| Framing.I32BE | src/ndlab/connect.py:67-76 | `!i` packs four bytes that read back as the number in two's complement |
| Framing.U16BEOfDecode | src/ndlab/connect.py:67-76 | two bytes are the encoding of the number they decode to |
| Framing.U32BEOfDecode | src/ndlab/connect.py:139-141 | four bytes are the encoding of the number they decode to |
| Framing.GetPayloadFromPacket | src/ndlab/connect.py:153-157 | the payload is four bytes giving the packet's length in network order, then the packet unchanged |
| Framing.GetPacketFromPayload | src/ndlab/connect.py:133-150 | the result is either empty or everything after the four-byte prefix |
| Framing.PayloadIsWellFramed | src/ndlab/connect.py:153-157 | a wrapped packet's prefix announces exactly the bytes that follow |
| Framing.UnwrapWrap | src/ndlab/connect.py:133-157 | unwrapping a wrapped packet gives the packet back, the empty one included |
| Framing.UnwrapEmpty | src/ndlab/connect.py:134-148 | unwrapping gives empty bytes exactly when the payload is under four bytes, its prefix disagrees with the rest, or it frames an empty packet |
| Framing.WrapUnwrap | src/ndlab/connect.py:133-157 | every well-framed payload is the wrapping of what it unwraps to |
| Framing.PcapHeader | src/ndlab/connect.py:67-76 | the global header is 24 bytes |
| Framing.PcapHeaderFields | src/ndlab/connect.py:59-76 | the header reads back as magic 0xA1B2C3D4, version 2.4, zone 0, accuracy 0, snaplen 65535 and link type 1 |
| Framing.PcapRecord | src/ndlab/connect.py:81-95 | the record is a 16-byte header of seconds, microseconds, captured and original length (both the packet's), then the packet verbatim |
| Hub.Queue.constructor | src/ndlab/connect.py:209 | a new queue is empty |
| Hub.Queue.Put | src/ndlab/connect.py:240 | the item joins the end of the queue |
| Hub.Queue.Get | src/ndlab/connect.py:262 | the first item leaves the queue and is returned |
| Hub.Count | src/ndlab/connect.py:238-240 | counts occurrences: none exactly when the item is absent |
| Hub.CountDistinct | src/ndlab/connect.py:238-240 | in a list without repetitions an element occurs once |
| Hub.Repeat | src/ndlab/connect.py:238-240 | n copies of the item |
| Hub.PutAll | src/ndlab/connect.py:238-240 | every queue of the list receives the item once per time the list names it, appended at its end |
| Hub.Endpoint.constructor | src/ndlab/connect.py:201-212 | a new endpoint has an empty receive queue of its own and no send queues |
| Hub.Endpoint.TcpRead | src/ndlab/connect.py:230-240 | an empty read ends the loop and changes no queue; any other chunk goes unchanged to every send queue |
| Hub.Endpoint.TcpWrite | src/ndlab/connect.py:261-266 | the next queued chunk is written as it is and leaves the queue |
| Hub.Endpoint.PhysicalWrite | src/ndlab/connect.py:310-317 | the queued payload is unwrapped; an empty result is dropped, anything else is sent |
| Hub.Endpoint.PhysicalRead | src/ndlab/connect.py:321-331 | the raw frame, wrapped with its length prefix, goes to every send queue |
| Hub.Endpoint.StartSession | src/ndlab/connect.py:379-391 | at the limit the client is turned away and nothing changes; otherwise a new queue holding the libpcap header joins the end of the session list; the list stays within the limit without repetitions |
| Hub.Endpoint.EndSession | src/ndlab/connect.py:397-398 | exactly the session's own queue leaves the list |
| Hub.Endpoint.SnifferForward | src/ndlab/connect.py:349-363 | the payload is unwrapped, possibly to nothing, stamped once, and the same record goes to every open session |
| Hub.RemoveFirst | src/ndlab/connect.py:398 | `list.remove` drops one occurrence of the item and nothing else |
| Hub.RemoveFirstDistinct | src/ndlab/connect.py:398 | in a list without repetitions, removing the first occurrence removes the item entirely |
| Hub.WithoutCons | src/ndlab/connect.py:398 | removing an item from a list works element by element |
| Hub.ReceiveQueues | src/ndlab/connect.py:191-192 | the receive queues of the endpoints, position by position |
| Hub.OthersBefore | src/ndlab/connect.py:191-192 | the first i queues without the k-th |
| Hub.OthersStep | src/ndlab/connect.py:191-192 | one round of the loop gives every endpoint but i the i-th queue, at the end |
| Hub.LinksBeforeClosedForm | src/ndlab/connect.py:191-192 | what the first i rounds give endpoint k is the first i queues without its own |
| Hub.LinksAreOthers | src/ndlab/connect.py:191-192 | after all rounds, each endpoint holds all queues without its own |
| Hub.LinksInOrder | src/ndlab/connect.py:191-192 | endpoint k is linked to every other endpoint, in list order, and not to itself: n - 1 links |
| Hub.LinksExactlyOnce | src/ndlab/connect.py:191-192 | with one receive queue per endpoint, endpoint k sends to each other endpoint's queue exactly once and never to its own |
| Hub.TotalLinksCount | src/ndlab/connect.py:191-192 | the mesh has n * (n - 1) links in total |
| Hub.Bridge.constructor | src/ndlab/connect.py:172-188 | the combined list is the TCP endpoints, then the physical one, then the sniffer, each only when present, and it is also the TCP list |
| Hub.Bridge.Connect | src/ndlab/connect.py:190-192 | each endpoint's send queues gain exactly the other endpoints' receive queues, in list order |
| Hub.Bridge.ConnectRound | src/ndlab/connect.py:191-192 | round i gives every endpoint but i endpoint i's receive queue, and leaves endpoint i alone |
| Hub.SendQueuesOf | src/ndlab/connect.py:192 | the send queues of each endpoint, position by position |
| Device.MaxKey | src/ndlab/device.py:34 | `max(ports)` is a key and no key exceeds it |
| Device.NextPortIndex | src/ndlab/device.py:34-35 | the index written is 0 for an empty map, otherwise one past the largest key, above every key |
| Device.SetPortIndex | src/ndlab/device.py:33-35 | the port goes under a key not used before, one past the largest; every existing entry is unchanged and no other key appears |
| Device.SetPortIndexContiguous | src/ndlab/device.py:33-35 | filling a map whose keys 0..n-1 hold ports keeps it so and moves the next index up by one |
| Device.BaseMacExamples | src/ndlab/device.py:108-109 | a base address of six octets ending in 00 is accepted and one ending in 01 is refused |
| Device.MacShape | src/ndlab/device.py:38 | an accepted base address is 17 characters (or 18 with a final newline): five hexadecimal octets, each followed by ':' |
| Device.BaseOctets | src/ndlab/device.py:111 | the base's octets but the last, joined back by ':', are its first 14 characters |
| Device.MacAddressText | src/ndlab/device.py:281-282 | a MAC is the base's first five octets, ':', and the counter as two hexadecimal digits, all upper-cased; 17 characters |
| Device.MacAddressInjective | src/ndlab/device.py:281-282 | different counter values give different MAC addresses |
| Device.NicsOnCreatedBridges | src/ndlab/device.py:194-200 | every NIC lands on a created pci-bridge exactly when NIC_COUNT is zero or not a multiple of NICS_PER_BUS |
| Device.PciSlotsDistinct | src/ndlab/device.py:253-254 | no two NICs share both a bus and an address |
| Device.PlatformNicLayout | src/ndlab/device.py:250-254 | on every platform, each NIC sits on a created bridge, at an address in 1..31 |
| Device.ImageExtension | src/ndlab/device.py:284-285 | the extension holds no '.', and a name without '.' is its own extension |
| Device.ExtensionOfDottedName | src/ndlab/device.py:284-285 | the extension of `stem.ext` is `ext` |
| Device.ImageFormat | src/ndlab/device.py:287-291 | the format is raw, vmdk or qcow2; it is the extension exactly when that is vmdk or qcow2 |
| Device.VeosImageFormat | tests/test_devices.py:119-133 | a vEOS `.vmdk` image is formatted vmdk |
| Device.ViosImageFormat | tests/test_devices.py:119-133 | an IOSv `.qcow2` image is formatted qcow2 |
| Device.PlainImageFormat | src/ndlab/device.py:287-291 | an `.img` image is formatted raw |
| Device.OverlayLocation | src/ndlab/device.py:97-104 | the overlay keeps the image's file name, inside the build's directory when a build tag is set and the device's lab directory otherwise |
| Device.InDirectory | src/ndlab/device.py:97-104 | a file name joined to a directory lies in that directory under the same name |
| Config.LoopbackAddress | src/ndlab/config.py:18 | the k-th loopback lies strictly inside 10.0.0.0/16: never the network or the broadcast address |
| Config.NetworkAddress | src/ndlab/config.py:19-20 | the k-th /24 of 10.1.0.0/16 is /24-aligned and inside the /16 |
| Config.HostAddress | src/ndlab/config.py:87-88 | a bridge address lies in its /24 and is neither .0 nor .255 |
| Config.HostAddressDecode | src/ndlab/config.py:87-93 | an address gives back its network number and host number, so different (network, host) pairs never collide |
| Config.LoopbackDotted | src/ndlab/config.py:81-82 | the k-th loopback text is `10.0.a.b`, where a.b is k + 1 in base 256 (the first one is 10.0.0.1) |
| Config.NextLoop | src/ndlab/config.py:81-82 | a successful draw uses exactly one more loopback |
| Config.NextLoopSpec | src/ndlab/config.py:53 | a loopback draw succeeds exactly while hosts remain; it yields the next host in order and leaves the bridge pools untouched and consistent |
| Config.AddressFor | src/ndlab/config.py:84-97 | a bridge request never uses a loopback |
| Config.AddressForSpec | src/ndlab/config.py:84-97 | a new bridge takes host .1 of the next free /24, or fails when the networks are used up; a known bridge takes its next host, or fails when its hosts are used up; the prefix length is always 24 |
| Config.HandOutFresh | src/ndlab/config.py:86-93 | the next host of a bridge has not been handed out to any bridge yet |
| Config.HandOutGrows | src/ndlab/config.py:86-93 | handing out a host keeps the pools consistent and adds exactly that address to those handed out |
| Config.AddressForFresh | src/ndlab/config.py:84-97 | a successful request returns an address nobody holds, adds exactly it to the handed-out set and keeps the pools consistent |
| Config.LinksOfDevice | src/ndlab/config.py:68 | a device with no links has no link indices to visit |
| Config.InterfacesFrom | src/ndlab/config.py:68-74 | the interface loop never draws a loopback |
| Config.DeviceStep | src/ndlab/config.py:59-74 | a device's entry carries the device's name as hostname |
| Config.InterfacesFromShape | src/ndlab/config.py:68-74 | one interface per link, in link-index order, each with that index and its bridge; the earlier interfaces are kept |
| Config.InterfacesFromFresh | src/ndlab/config.py:68-74 | the new interfaces' addresses are pairwise different, none was handed out before, and all are handed out afterwards |
| Config.DeviceStepShape | src/ndlab/config.py:59-74 | a device entry is named after the device and has one interface per link, in index order; a device without links has none |
| Config.DeviceStepFresh | src/ndlab/config.py:59-74 | a device's interface addresses are pairwise different and newly handed out |
| Config.StepOverSpec | src/ndlab/config.py:59-67 | each device step files its entry under its own name and takes the next loopback |
| Config.TemplateFromLoopbacks | src/ndlab/config.py:56-76 | the k-th device takes the k-th loopback after those already taken; its entry survives when no later device shares its name |
| Config.TemplateFromFirst | src/ndlab/config.py:59-67 | the first device takes the next loopback and keeps its entry when no later device has its name |
| Config.TemplateFromKeeps | src/ndlab/config.py:67 | an entry that no later device overwrites is left unchanged |
| Config.TemplateFromKeys | src/ndlab/config.py:56-76 | the result's keys are the earlier keys and then each new device name, in order of first appearance |
| Config.TemplateFromHostnames | src/ndlab/config.py:62-67 | each entry the loop adds is filed under its own hostname |
| Config.TemplateSpecEntries | src/ndlab/config.py:56-76 | on success, get_template_info has an entry for exactly the device names, each holding its own name as hostname |
| Config.TemplateSpecLoopback | src/ndlab/config.py:56-76 | the device at position k, when no later device shares its name, gets loopback number k after those already used |
| Config.TemplateFromAt | src/ndlab/config.py:59-74 | one turn of the device loop: a failing step fails the whole call; otherwise the entry is stored and the loop continues with the new pools |
| Config.InterfacesFromAt | src/ndlab/config.py:68-74 | one turn of the interface loop: a failing request fails the call; otherwise the interface is appended and the loop continues |
| Config.ConfigInformation.constructor | src/ndlab/config.py:40-54 | a new object keeps its topology and starts with no loopback, network or bridge assignment used |
| Config.ConfigInformation.GetLoop | src/ndlab/config.py:81-82 | returns the next loopback in dotted form and advances the pool; once exhausted it fails and changes nothing |
| Config.ConfigInformation.GetIpAddressForBridge | src/ndlab/config.py:84-97 | returns the address the pools specify for the bridge and moves to the pools' new state; on exhaustion it fails and changes nothing |
| Config.ConfigInformation.DeviceInfoFor | src/ndlab/config.py:59-74 | builds one device's entry exactly as the device step specifies, failing exactly when it fails |
| Config.ConfigInformation.GetTemplateInfo | src/ndlab/config.py:56-76 | returns the template the specification function defines and leaves the pools in the state it defines; fails exactly when it fails |
| NetworkDevices.KeepsTransitive | src/ndlab/device.py:158-166 | two port-filling steps in a row still change no entry that was set |
| NetworkDevices.FillEthernet | src/ndlab/device.py:158-159 | filling a port keeps the device state well formed |
| NetworkDevices.FillEthernetKeeps | src/ndlab/platforms/xrv9k.py:66-73 | after `if not ports.get(k)` the key is present, no set entry changes, and a set port leaves the whole state as it was |
| NetworkDevices.SetPortIndexKeeps | src/ndlab/device.py:33-35 | set_port_index changes no entry that was set |
| NetworkDevices.NicPort | src/ndlab/device.py:255-257 | choosing a NIC's port keeps the device state well formed |
| NetworkDevices.NicsArgs | src/ndlab/device.py:258-278 | each NIC adds exactly four arguments |
| NetworkDevices.NicsArgsBlock | src/ndlab/device.py:258-278 | NIC j of the run owns the j-th block of four arguments |
| NetworkDevices.NicsArgsSnoc | src/ndlab/device.py:250-279 | the arguments of a later NIC come after those of the earlier ones |
| NetworkDevices.GenNicsFrom | src/ndlab/device.py:250-279 | the gen_nics loop keeps the device state well formed |
| NetworkDevices.GenNicsMacs | src/ndlab/device.py:250-282 | NICs id..NIC_COUNT take one MAC each: the loop fails exactly when the counter runs out, and otherwise yields one NIC per id; set ports and the monitor and console ports are unchanged |
| NetworkDevices.NicPortFills | src/ndlab/device.py:255-257 | with NIC ports stored without a gap, NIC id's port ends up under id - 1, still without a gap, and no MAC is taken |
| NetworkDevices.GenNicsUnfold | src/ndlab/device.py:250-279 | one successful turn: NIC id takes the next MAC and its port, then the loop goes on from the following NIC |
| NetworkDevices.GenNicsContiguous | src/ndlab/device.py:250-257 | with ports stored without a gap, after gen_nics every NIC has a port and there is still no gap |
| NetworkDevices.GenNicsNicAt | src/ndlab/device.py:250-279 | NIC id + j has MAC number macs + j and listens on the port the final map holds under id + j - 1 |
| NetworkDevices.NicPortAfterGap | src/ndlab/device.py:255-257 | with `ethernet_ports == {1: 7}`, set_port_index stores NIC 1's new port under key 2, so NICs 1 and 3 listen on the same port |
| NetworkDevices.Xrv9kMgmt | src/ndlab/platforms/xrv9k.py:61-104 | gen_mgmt keeps the device state well formed |
| NetworkDevices.Xrv9kMgmtPorts | src/ndlab/platforms/xrv9k.py:61-104 | ports -1, -2 and -3 are present afterwards, set ones unchanged; it succeeds exactly when three MACs are left, and then the mgmt, ctrl-dummy and dev-dummy cards use three consecutive MACs on ports -1, -2, -3 |
| NetworkDevices.MgmtArgs | src/ndlab/device.py:225-244 | gen_mgmt keeps the device state well formed |
| NetworkDevices.Xrv9kSerialsFrom | src/ndlab/platforms/xrv9k.py:48-57 | the serial loop keeps the device state well formed |
| NetworkDevices.ConsolePort | src/ndlab/platforms/xrv9k.py:49-51 | choosing a console port keeps the device state well formed |
| NetworkDevices.PlatformArgs | src/ndlab/platforms/xrv9k.py:38-59 | platform_specific_qemu_args keeps the device state well formed |
| NetworkDevices.SerialAtShift | src/ndlab/platforms/xrv9k.py:52-57 | putting one console's two arguments first shifts every later console's block by one |
| NetworkDevices.Xrv9kSerials | src/ndlab/platforms/xrv9k.py:48-57 | serial i listens on the port the console map holds under i afterwards; two arguments per console; no gap appears and set entries never change |
| NetworkDevices.PciBridges | src/ndlab/device.py:194-200 | n bridges give 2n arguments |
| NetworkDevices.PciBridgeAt | src/ndlab/device.py:194-200 | bridge i is the i-th `-device` pair, numbered from 1 in chassis_nr and id |
| NetworkDevices.FillPorts | src/ndlab/device.py:158-166 | filling the ports keeps the device state well formed |
| NetworkDevices.FillPortsFacts | src/ndlab/device.py:158-166 | the management port appears when MGMT_PORT is set; the monitor and console ports change only when unset; no set entry changes and no MAC is taken |
| NetworkDevices.MgmtArgsFacts | src/ndlab/device.py:225-244 | gen_mgmt succeeds exactly when the management cards' MACs are left and takes that many; no set port, monitor or console port changes |
| NetworkDevices.PlatformArgsKeeps | src/ndlab/platforms/xrv9k.py:38-59 | platform_specific_qemu_args touches only the console map and the port requests |
| NetworkDevices.SetQemuCmdFacts | src/ndlab/device.py:156-206 | set_qemu_cmd succeeds exactly when MACs are left for the NICs and the management cards, takes that many, fills the monitor and console ports only when unset and changes no set ethernet port |
| NetworkDevices.SetQemuCmdStartsWithBridges | src/ndlab/device.py:169-200 | whatever happens later, the command starts with the fixed part on the final monitor and console ports, followed by ceil(NIC_COUNT / NICS_PER_BUS) pci-bridges |
| NetworkDevices.XRV9KSerialsKeepOthers | src/ndlab/platforms/xrv9k.py:48-57 | the serial loop changes no ethernet port, MAC counter, monitor or console port |
| NetworkDevices.NetworkDevice.constructor | src/ndlab/device.py:83-95 | the fields hold the given values, the console port is console_ports[0] when present, and no MAC or port request is used yet |
| NetworkDevices.NetworkDevice.New | src/ndlab/device.py:70-120 | fails exactly when the base MAC is invalid or the image name has no version; otherwise the device has the overlay and version the model defines and a fresh counter state |
| NetworkDevices.NetworkDevice.GetAvailablePort | src/ndlab/device.py:208-209 | returns the next free port from the oracle and counts the request |
| NetworkDevices.NetworkDevice.GenMac | src/ndlab/device.py:281-282 | returns the MAC for the next counter value, or the exhaustion error, and advances the counter |
| NetworkDevices.NetworkDevice.NicTurn | src/ndlab/device.py:255-265 | one turn of gen_nics: the NIC's port as NicPort chooses it, then the next MAC |
| NetworkDevices.NetworkDevice.GenNics | src/ndlab/device.py:246-279 | the loop ends in the state GenNicsFrom defines and returns four arguments per NIC it lists, or its error |
| NetworkDevices.NetworkDevice.GenMgmt | src/ndlab/device.py:225-244 | returns the arguments and leaves the state gen_mgmt defines for the platform |
| NetworkDevices.NetworkDevice.FillEthernetPort | src/ndlab/platforms/xrv9k.py:66-67 | fills an ethernet port only when it is unset |
| NetworkDevices.NetworkDevice.Xrv9kGenMgmt | src/ndlab/platforms/xrv9k.py:61-104 | returns the three cards and leaves the state Xrv9kMgmt defines |
| NetworkDevices.NetworkDevice.ConsoleTurn | src/ndlab/platforms/xrv9k.py:49-51 | one turn of the serial loop: console i's port, allocated only when unset |
| NetworkDevices.NetworkDevice.PlatformSpecificQemuArgs | src/ndlab/platforms/xrv9k.py:38-59 | returns the platform's extra arguments and leaves the state PlatformArgs defines |
| NetworkDevices.NetworkDevice.FillQemuPorts | src/ndlab/device.py:158-167 | fills the management, monitor and console ports as FillPorts defines |
| NetworkDevices.NetworkDevice.SetQemuCmd | src/ndlab/device.py:156-206 | the result, the new state and the command are those SetQemuCmdSpec defines |
| NetworkDevices.NetworkDevice.AddPciBridges | src/ndlab/device.py:194-200 | appends exactly the pci-bridge pairs 1..count to the command |
| NetworkDevices.NetworkDevice.GetQemuImgCmd | src/ndlab/device.py:293-317 | raises exactly when the directory is to be created and the base image is missing; returns nothing exactly when it is to be created and the overlay exists; otherwise `qemu-img create -f F -F F -b image overlay`, with F the image's format |
| Images.GetBuildTag | src/ndlab/images.py:34-35 | the tag is the base tag, one `_`, then the build name, character for character |
| Images.FirstPairFrom | src/ndlab/images.py:41-44 | finds the first pair of adjacent non-empty pieces of the split tag at or after `i`, or reports there is none |
| Images.GetNameVersionBuildTag | src/ndlab/images.py:38-46 | each group returned is a non-empty, `_`-free part |
| Images.BaseTagRoundTrip | src/ndlab/images.py:34-46 | `name_version` reads back as (name, version, None) |
| Images.BuildTagRoundTrip | src/ndlab/images.py:34-46 | `get_build_tag(name_version, build)` reads back as (name, version, build) |
| Images.SplitThree | src/ndlab/images.py:34-35 | a three-part build tag splits on `_` into exactly its three parts |
| Images.HasPairCons | src/ndlab/images.py:41-44 | an `x_y` pair lies at the first separator or further on |
| Images.AdjacentCons | src/ndlab/images.py:41-44 | adjacent non-empty pieces are the first two pieces or lie further on |
| Images.FirstPartEmpty | src/ndlab/images.py:41-44 | the first piece of the split is empty exactly when the tag is empty or starts with `_` |
| Images.SplitPairs | src/ndlab/images.py:41-44 | adjacent non-empty pieces of the split are exactly the `x_y` pairs of the tag |
| Images.NameVersionFailsIffNoPair | src/ndlab/images.py:41-46 | get_name_version_build_tag raises exactly when the tag holds no `x_y` pair |
| Images.FirstMatchFrom | src/ndlab/images.py:59-63 | the platform found is the first one at or after `i` whose pattern matches; every earlier one fails to match |
| Images.DefaultIsLastResort | src/ndlab/images.py:20-29 | the default platform is chosen exactly when its pattern matches and no other platform's does |
| Images.SearchPlatformPatterns | src/ndlab/images.py:57-63 | returns None exactly when no pattern matches, and otherwise the NAME of the first matching platform in PLATFORMS order |
| Images.BaseName | src/ndlab/images.py:51 | the name pathlib gives a file path is empty or a single component: no '/', not "" and not "." |
| Images.BaseNameOfJoin | src/ndlab/images.py:51 | the name of `dir/name` is `name` for any directory text and any component `name` |
| Images.GetDeviceByImagename | src/ndlab/images.py:49-54 | raises exactly when no pattern matches the file's base name, and otherwise returns the first matching platform |
| Images.BuildCandidatesCons | src/ndlab/images.py:102-106 | the builds loop handles one entry, only if it is a directory, and then the rest |
| Images.TagOf | src/ndlab/images.py:88-100 | a file contributes no tag exactly when no platform pattern matches it |
| Images.CollectFrom | src/ndlab/images.py:88-117 | the images dict stays well formed |
| Images.SortedByTag | src/ndlab/images.py:119 | the same mapping, its keys a permutation of the old ones in strictly ascending order |
| Images.CollectAppend | src/ndlab/images.py:88-117 | seeing two groups of files one after the other is seeing them together; a version error stops everything |
| Images.AutoDiscoverTags | src/ndlab/images.py:75-119 | the two loops, then the sort, return exactly the discovered-tags function |
| Images.ScanBuilds | src/ndlab/images.py:102-117 | the builds loop adds exactly the tags of the files in the builds sub-directories, in order |
| Images.ScanStep | src/ndlab/images.py:88-100 | one turn for a file: skip it when unmatched, stop on a version error, otherwise store path under its tag and go on |
| Images.ScanDirectory | src/ndlab/images.py:88-100 | the loop over one directory equals the collection function over its files |
| Images.DiscoverOne | src/ndlab/images.py:90-97 | one file's tag is `platform_version`, with `_build` for a build image, as the tag function defines |
| Images.TagOfRoundTrip | src/ndlab/images.py:97-115 | a discovered tag reads back through get_name_version_build_tag as platform NAME, version and build |
| Images.CollectFromKeys | src/ndlab/images.py:88-117 | the tags collected are exactly those already present plus those of the files seen |
| Images.TagFoundShift | src/ndlab/images.py:88-117 | a tag is found among the files when it is the first file's tag or is found among the rest |
| Images.FirstFailure | src/ndlab/images.py:94-96 | finds the first file whose platform matches but whose version is not found |
| Images.CollectFromFails | src/ndlab/images.py:88-117 | discovery fails exactly when some file's version is not found, and reports that of the first such file |
| Images.OnlyDirectories | src/ndlab/images.py:104-105 | keeps every directory entry of the builds listing and nothing that is not one |
| Images.DiscoveryIgnoresPlainFiles | src/ndlab/images.py:104-105 | entries of the builds directory that are not directories change nothing |
| Images.BuildCandidatesOfDirectories | src/ndlab/images.py:104-105 | the files the builds loop examines are those of its directory entries only |
| Iosv.ViosInterface | src/ndlab/platforms/iosv.py:61-63 | the name starts with `GigabitEthernet0/` |
| Iosv.ViosInterfaceInjective | src/ndlab/platforms/iosv.py:61-63 | different indices give different IOSv interface names |
| Iosv.ViosL2Interface | src/ndlab/platforms/iosv.py:81-84 | the name starts with `GigabitEthernet` |
| Iosv.ViosL2PortInRange | src/ndlab/platforms/iosv.py:81-84 | the port part is one digit 0..3 after the last '/', equal to the index modulo 4 |
| Iosv.SlashSplitUnique | src/ndlab/platforms/iosv.py:84 | `module/port` with a '/'-free module splits back uniquely |
| Iosv.ViosL2InterfaceInjective | src/ndlab/platforms/iosv.py:81-84 | different indices, negative ones included, give different switch-port names |
| Iosv.AlnumRun | src/ndlab/platforms/iosv.py:68 | the longest run of ASCII letters and digits from a position: all alphanumeric, and stopped by the end or a non-alphanumeric |
| Iosv.VersionAt | src/ndlab/platforms/iosv.py:67-72 | the match is a substring starting `15` and a digit, extended by `-` and a maximal letter/digit run exactly when one follows |
| Iosv.FindVersion | src/ndlab/platforms/iosv.py:67-71 | finds the leftmost start of a version at or after a position, or reports there is none |
| Iosv.VersionFromImagename | src/ndlab/platforms/iosv.py:65-73 | raises exactly when no `15<digit>` occurs; otherwise returns the match at the leftmost such position |
| Iosv.VersionIsSubstring | src/ndlab/platforms/iosv.py:65-73 | a version found is a substring of the image name |
| Iosv.VersionAtLeftmost | src/ndlab/platforms/iosv.py:65-73 | the version is read at the leftmost start |
| Iosv.ViosTestVector | tests/test_devices.py:72-84 | the IOSv test image name yields version `154-3M8` |
| Iosv.ViosTestVersionText | tests/test_devices.py:72-84 | in the IOSv test image name the version starts at position 27 and reads `154-3M8` |
| Iosv.ViosL2TestVector | tests/test_devices.py:110-116 | the IOSv L2 test image name yields version `152` |
| Iosv.ViosL2TestVersionText | tests/test_devices.py:110-116 | in the IOSv L2 test image name the version starts at position 25 and reads `152` |
| Platforms.Platform.GetInterface | src/ndlab/device.py:319-321 | interface naming fails exactly on the base class and on OpenWRT, which does not override it |
| Platforms.Platform.VersionFromImagename | src/ndlab/device.py:61-65 | the base class always fails; the IOSv classes use their own scanner; the others succeed exactly when their pattern's version group matches |
| Platforms.PlatformsComplete | src/ndlab/images.py:20-29 | every platform is in PLATFORMS |
| Platforms.PlatformByName | src/ndlab/images.py:31 | PLATFORM_MAPPING returns a platform with the NAME asked for, or none when no platform has it |
| Platforms.PlatformByNameRoundTrip | src/ndlab/images.py:31 | NAMEs are distinct, so the mapping gives back the platform whose NAME it is given |
| Platforms.PrefixedNumberInjective | src/ndlab/platforms/xrv9k.py:106-108 | a fixed prefix followed by a number names the number uniquely |
| Platforms.GetInterfaceInjective | src/ndlab/platforms/csr.py:31-33 | on every platform that names interfaces, different indices get different names |
| Labmaker.CheckDeviceNone | src/ndlab/labmaker.py:127-132 | a device passes its checks exactly when it has a non-empty name and a non-empty tag and no other key |
| Labmaker.FirstBadDeviceNone | src/ndlab/labmaker.py:127-132 | no device raises exactly when every device is well formed |
| Labmaker.ToDevices | src/ndlab/labmaker.py:133 | one device per entry, keeping its name and tag, in order |
| Labmaker.ValidateDevicesExact | src/ndlab/labmaker.py:126-133 | validate_devices accepts exactly the lists of well-formed devices, and then keeps each device's name and tag in order |
| Labmaker.AllocateAll | src/ndlab/labmaker.py:146-159 | a successful allocation gives one endpoint per device asked for |
| Labmaker.Span | src/ndlab/labmaker.py:156-157 | n consecutive indices |
| Labmaker.SpanAppend | src/ndlab/labmaker.py:156-157 | consecutive runs of indices join into one run |
| Labmaker.SpanMembers | src/ndlab/labmaker.py:156-157 | a run from lo of length n holds exactly lo..lo+n-1 |
| Labmaker.IndicesAppend | src/ndlab/labmaker.py:104-106 | a device's indices in two lists of endpoints are those of the first, then those of the second |
| Labmaker.IndicesMember | src/ndlab/labmaker.py:104-106 | each endpoint's index is among its device's indices |
| Labmaker.NumberedDistinct | src/ndlab/labmaker.py:150-159 | endpoints numbered 0, 1, 2, … per device never repeat a (device, index) pair |
| Labmaker.AllocateAllNumbers | src/ndlab/labmaker.py:150-159 | successive requests for one device get the indices that follow its counter, in order, and the counter moves past them |
| Labmaker.AllocateAllDevices | src/ndlab/labmaker.py:146-148 | the k-th endpoint is on the k-th device asked for |
| Labmaker.AllocateAllFails | src/ndlab/labmaker.py:150-155 | allocation raises exactly when a device is not in the topology, and then names the first such device |
| Labmaker.BuildFromCons | src/ndlab/labmaker.py:77-101 | a failing request stops the expansion with its error; a successful one lets it go on from the new state |
| Labmaker.StepAppends | src/ndlab/labmaker.py:77-101 | one request appends one bridge answering it, whose endpoints follow the earlier ones |
| Labmaker.StepCounts | src/ndlab/labmaker.py:150-159 | one request keeps each device's counter equal to its number of endpoints, numbered 0, 1, 2, … |
| Labmaker.StepKeepsCounted | src/ndlab/labmaker.py:150-159 | one request keeps every counter consistent with the endpoints |
| Labmaker.BuildFromAppends | src/ndlab/labmaker.py:77-101 | the requests add one bridge each after those already there |
| Labmaker.BuildFromAnswers | src/ndlab/labmaker.py:77-101 | the bridge of the i-th request answers it: its endpoints are on the requested devices, and it is named `a_ia--b_ib` or after the hub |
| Labmaker.BuildFromCounted | src/ndlab/labmaker.py:77-101 | the requests keep every counter consistent with the endpoints |
| Labmaker.BuildSucceeds | src/ndlab/labmaker.py:77-101 | a successful expansion gives one bridge per request, in request order, each answering its request; each device's endpoints are numbered 0, 1, 2, …; no endpoint is handed out twice |
| Labmaker.MissingConcat | src/ndlab/labmaker.py:150-155 | the first missing device of two lists of requests is that of the first list, or else that of the second |
| Labmaker.BuildFromFails | src/ndlab/labmaker.py:77-101 | the expansion raises exactly when some request names a device not in the topology, and then names the first such device |
| Labmaker.Row | src/ndlab/labmaker.py:78-81 | one point-to-point request per neighbour, in order |
| Labmaker.PairsWith | src/ndlab/labmaker.py:84 | each later device paired with the first |
| Labmaker.PairsLength | src/ndlab/labmaker.py:83-87 | a full mesh of k devices has k(k-1)/2 links |
| Labmaker.PairsMembers | src/ndlab/labmaker.py:84 | the pairs are exactly each device with each later one |
| Labmaker.MeshRow | src/ndlab/labmaker.py:84-87 | one point-to-point request per pair, in order |
| Labmaker.HubPlanShape | src/ndlab/labmaker.py:89-101 | one hub request per key, named after it, for its members in order |
| Labmaker.TagEach | src/ndlab/labmaker.py:105-108 | each endpoint with its bridge's name |
| Labmaker.SetLink | src/ndlab/labmaker.py:106-108 | setting one link keeps the nested dicts well formed |
| Labmaker.LinksFold | src/ndlab/labmaker.py:103-112 | the nested dicts built are well formed |
| Labmaker.Firsts | src/ndlab/labmaker.py:104-105 | the endpoints without their bridge names |
| Labmaker.TaggedEndpoints | src/ndlab/labmaker.py:104-105 | the endpoints visited are those of the bridges, bridge after bridge |
| Labmaker.LinksFoldLookup | src/ndlab/labmaker.py:103-112 | with no endpoint listed twice, the dict holds exactly the listed endpoints, each with the bridge name it is listed with |
| Labmaker.TaggedHas | src/ndlab/labmaker.py:104-108 | each endpoint of each bridge is visited with the bridge's name |
| Labmaker.LinksNameBridges | src/ndlab/labmaker.py:103-112 | `links_by_device[d][i]` is the name of the bridge holding endpoint (d, i) |
| Labmaker.LinksOnlyEndpoints | src/ndlab/labmaker.py:103-112 | links_by_device lists nothing but the endpoints of the bridges |
| Labmaker.TopologyBuilt | src/ndlab/labmaker.py:67-118 | a topology is built exactly when its devices are valid and every request names one of them; it then has one bridge per request, point-to-point then full mesh then multipoint, and no endpoint twice |
| Labmaker.ValidateDevices | src/ndlab/labmaker.py:126-133 | checks every device before converting any, and returns what the validation function defines |
| Labmaker.AllocateAllCons | src/ndlab/labmaker.py:146-159 | an unknown first device raises at once; a known one takes its counter and the rest go on from the moved counter |
| Labmaker.PointToPointPlanAt | src/ndlab/labmaker.py:77-81 | the point-to-point section is each device's row, in key order |
| Labmaker.RowAt | src/ndlab/labmaker.py:78-81 | a row is its first neighbour's request, then the rest |
| Labmaker.MeshPlanAt | src/ndlab/labmaker.py:83-87 | the full-mesh section is each group's pairs, group after group |
| Labmaker.MeshRowAt | src/ndlab/labmaker.py:84-87 | a group's requests are its first pair's request, then the rest |
| Labmaker.HubPlanAt | src/ndlab/labmaker.py:89-101 | the multipoint section is each hub's request, in key order |
| Labmaker.LinksStep | src/ndlab/labmaker.py:105-108 | one more endpoint of the bridge sets one more link |
| Labmaker.LinksFoldSnoc | src/ndlab/labmaker.py:106-108 | visiting one more endpoint is one more assignment |
| Labmaker.AddBridgeLinks | src/ndlab/labmaker.py:105-108 | the inner loop records every endpoint of one bridge with the bridge's name |
| Labmaker.LinksOf | src/ndlab/labmaker.py:103-112 | the loops build exactly the dict the fold over all bridges defines |
| Labmaker.Topology.constructor | src/ndlab/labmaker.py:72-75 | the validated devices, no bridge and every counter at 0 |
| Labmaker.Topology.NextAvailableInterface | src/ndlab/labmaker.py:150-159 | a device of the topology gets its counter, which moves on by one; an unknown device raises and nothing changes |
| Labmaker.Topology.NewTcpEndpoint | src/ndlab/labmaker.py:146-148 | the device with its next interface index, or the error for an unknown device |
| Labmaker.Topology.NewPointToPoint | src/ndlab/labmaker.py:135-144 | an endpoint on each device and the bridge joining them, as one point-to-point request defines, or its error |
| Labmaker.Topology.AppendPointToPoint | src/ndlab/labmaker.py:80-81 | the new point-to-point bridge is appended, as one request defines, or the error is reported |
| Labmaker.Topology.AddHub | src/ndlab/labmaker.py:89-101 | one hub bridge with an endpoint per member, in order, as one hub request defines, or the error |
| Labmaker.Topology.AddPointToPoints | src/ndlab/labmaker.py:77-81 | the point-to-point loops do what the expansion of that section defines, stopping at the first error |
| Labmaker.Topology.AddRow | src/ndlab/labmaker.py:78-81 | one device's bridges, a bridge per neighbour in order, as the expansion defines |
| Labmaker.Topology.AddFullMeshes | src/ndlab/labmaker.py:83-87 | the full-mesh loops do what the expansion of that section defines |
| Labmaker.Topology.AddHubs | src/ndlab/labmaker.py:89-101 | the multipoint loop does what the expansion of that section defines |
| Labmaker.Topology.BuildLinks | src/ndlab/labmaker.py:103-112 | links_by_device is the fold over the bridges built; the bridges and counters are unchanged |
| Labmaker.Topology.Expand | src/ndlab/labmaker.py:77-112 | the constructor's loops fail exactly when the expansion does, with its error; otherwise they leave the bridges and counters it defines, and the links built from them |
| Labmaker.Topology.AddShapes | src/ndlab/labmaker.py:77-101 | the three loops in order end in the expansion's result or its first error |
| Labmaker.Topology.AddGroups | src/ndlab/labmaker.py:83-101 | the full-mesh and multipoint loops finish the expansion the point-to-point loop began |
| Labmaker.NewTopology | src/ndlab/labmaker.py:67-118 | the constructor raises exactly when the specification fails, with its error, and otherwise its low-level dict is the one specified |
| Paths.Anchor | src/ndlab/cli/cli_common.py:39 | the anchor is "", "/" or "//", and "//" only for exactly two leading slashes |
| Paths.Components | src/ndlab/cli/cli_common.py:39 | the pieces between slashes that survive parsing are components (not "", not "."), no more of them than pieces |
| Paths.Parse | src/ndlab/cli/cli_common.py:39 | `PurePosixPath(s)` is well formed: a valid anchor and only components |
| Paths.Child | src/ndlab/cli/cli_common.py:40 | `p / name` of a well-formed path is well formed |
| Paths.ChildName | src/ndlab/cli/cli_common.py:40 | a component joined to a path is the new path's name, and the path is its parent |
| Paths.ParentChildName | src/ndlab/cli/cli_common.py:40 | a path with components is its parent joined with its name, and that name is a component |
| Paths.ComponentsAppend | src/ndlab/cli/cli_common.py:39 | the components of two piece lists put together are the components of each, in order |
| Paths.ComponentsFixed | src/ndlab/cli/cli_common.py:39 | a list of components parses to itself |
| Paths.SplitJoin | src/ndlab/cli/cli_common.py:40 | splitting components joined by '/' at '/' gives the components back |
| Paths.PartsOfStr | src/ndlab/cli/cli_common.py:40 | the components read from the joined text of components are those components |
| Paths.SplitAppend | src/ndlab/cli/cli_common.py:39 | splitting `f/e` at '/' gives the pieces of `f` followed by the pieces of `e` |
| Paths.AnchorOfStr | src/ndlab/cli/cli_common.py:40 | parsing the text of a well-formed path reads back that path's anchor |
| Paths.ComponentsOfStr | src/ndlab/cli/cli_common.py:40 | parsing the text of a well-formed path finds that path's components |
| Paths.ParseStr | src/ndlab/cli/cli_common.py:40 | `PurePosixPath(str(p)) == p` for every well-formed path |
| Paths.AnchorAppend | src/ndlab/cli/cli_common.py:39 | text added after a character other than '/' does not change the anchor |
| Paths.ParseAppend | src/ndlab/cli/cli_common.py:39 | parsing `f/e`, where `f` has a character other than '/', gives `f`'s anchor and components followed by the components of `e` |
| Paths.ParseTrailing | src/ndlab/cli/cli_common.py:39 | a trailing '/' or a trailing "/." does not change a path that has a character other than '/' |
| Paths.NameOfJoin | src/ndlab/images.py:51 | the name of `dir/name` is `name`, whatever `dir` is |
| CliCommon.Clean | src/ndlab/cli/cli_common.py:40 | the cleaned name is no longer than the original and holds only word characters, '.' and '-' |
| CliCommon.CleanConcat | src/ndlab/cli/cli_common.py:40 | cleaning works character by character, so the kept characters stay in order |
| CliCommon.CleanMembers | src/ndlab/cli/cli_common.py:40 | a character survives exactly when it occurs in the name and is a kept character |
| CliCommon.CleanFixed | src/ndlab/cli/cli_common.py:40 | a name made only of kept characters is left as it is |
| CliCommon.CleanedName | src/ndlab/cli/cli_common.py:40 | the cleaned name of a path holds no '/' |
| CliCommon.SanitizeLogFileSpec | src/ndlab/cli/cli_common.py:35-40 | sanitize_log_file keeps the path's parent and puts the cleaned name under it; a name cleaned to "" or "." adds nothing, so the result is the parent; otherwise the result's name is the cleaned name, and sanitising again changes nothing |
| CliCommon.SanitizeIgnoresTrailing | src/ndlab/cli/cli_common.py:39-40 | a path with a name is sanitised the same with a trailing '/' or a trailing "/." added, because pathlib drops both before taking the name |
| CliCommon.SanitizeDoubleSlash | src/ndlab/cli/cli_common.py:39-40 | exactly two leading slashes survive: "//" followed by an already clean name is returned unchanged |
| CliCommon.PrefixFilter | src/ndlab/cli/cli_common.py:72-76 | every completion offered starts with what was typed, and there are no more of them than candidates |
| CliCommon.PrefixFilterMembers | src/ndlab/cli/cli_common.py:72-76 | a completion offers exactly the candidates that start with what was typed |
| CliCommon.PrefixFilterConcat | src/ndlab/cli/cli_common.py:72-76 | filtering works item by item, so completions keep the candidates' order |
| CliCommon.PrefixFilterEmpty | src/ndlab/cli/cli_common.py:72-76 | with nothing typed, every candidate is offered |
| CliCommon.PrefixFilterSorted | src/ndlab/cli/cli_common.py:164-170 | filtering a sorted list of candidates leaves it sorted |
| CliCommon.PidFilter | src/ndlab/cli/cli_common.py:108-112 | the running or stopped completions are no more than the candidates |
| CliCommon.PidFilterPartition | src/ndlab/cli/cli_common.py:106-121 | the running and stopped filters split the prefix matches by pid: each match is in exactly one of them and their sizes add up |
| CliCommon.DevicePids | src/ndlab/cli/cli_common.py:110 | there is one pid entry per device |
| CliCommon.BridgePids | src/ndlab/cli/cli_common.py:137 | there is one pid entry per bridge |
| CliCommon.NameCompletions | src/ndlab/cli/cli_common.py:70-130 | the tag, device and bridge completions offer exactly the stored keys that start with what was typed; with nothing typed, the device completion is every device in order |
| CliCommon.ActiveBuildTagCompletionSpec | src/ndlab/cli/cli_common.py:79-85 | offers exactly the matching devices that carry a build tag |
| CliCommon.BaseTagCompletionSpec | src/ndlab/cli/cli_common.py:88-94 | fails exactly when get_base_tags fails; otherwise offers exactly the matching stored tags that have no build part |
| CliCommon.DevicePidCompletionSpec | src/ndlab/cli/cli_common.py:106-121 | the running and stopped device completions split device_completion by whether the pid is set; their sizes add up |
| CliCommon.BridgePidCompletionSpec | src/ndlab/cli/cli_common.py:133-148 | the running and stopped bridge completions split bridge_completion by whether the pid is set; their sizes add up |
| CliCommon.OpenInterfaceCompletionSpec | src/ndlab/cli/cli_common.py:151-158 | offers exactly the matching free interfaces of all devices, in ascending order |
| CliCommon.PhysicalInterfaceCompletionSpec | src/ndlab/cli/cli_common.py:161-170 | offers exactly the matching host NICs, in ascending order |
| CurrentState.AddTagFacts | src/ndlab/current_state.py:383-394 | add_tag raises exactly when the tag names a non-empty image and overwrite is off; otherwise the tag maps to the image and nothing else changes |
| CurrentState.DeleteTagFacts | src/ndlab/current_state.py:396-400 | delete_tag raises exactly when the tag is missing or maps to the empty string; otherwise only that tag is gone |
| CurrentState.AddThenDeleteTag | src/ndlab/current_state.py:383-400 | adding a new tag and deleting it restores the tables |
| CurrentState.SplitEndpoint | src/ndlab/current_state.py:161-168 | a split endpoint has a device without '/' and a non-negative index; anything else raises naming the endpoint |
| CurrentState.SplitEndpointText | src/ndlab/current_state.py:161-168 | "device/index" as written by get_open_interfaces splits back into the same device and index |
| CurrentState.CheckEndpoint | src/ndlab/current_state.py:176-195 | an endpoint that passes the checks names an existing interface |
| CurrentState.FirstInvalidNone | src/ndlab/current_state.py:176-195 | _validate_tcp_endpoints passes exactly when every endpoint passes its checks |
| CurrentState.ValidEndpointsPresent | src/ndlab/current_state.py:176-195 | validated endpoints each name an existing interface |
| CurrentState.OpenInterfaceIsValidEndpoint | src/ndlab/current_state.py:176-195 | a free interface, written as get_open_interfaces writes it, passes the checks of add_bridge |
| CurrentState.NamesSnoc | src/ndlab/current_state.py:433-435 | one more endpoint names what the shorter list names and what it names itself |
| CurrentState.SetConnectionEffect | src/ndlab/current_state.py:433-435 | one turn of the loop sets only the connection of the interface the endpoint names |
| CurrentState.ConnectEffect | src/ndlab/current_state.py:433-435 | the loop keeps the devices, interfaces and TCP ports, and an interface ends in the bridge exactly when an endpoint names it |
| CurrentState.ConnectShape | src/ndlab/current_state.py:433-435 | the loop keeps the keys of every device and of its interfaces |
| CurrentState.AddBridgeFails | src/ndlab/current_state.py:402-424 | add_bridge raises exactly when the bridge exists, an endpoint fails its checks, a tap or NIC is given on a host without NICs, or there are fewer than two endpoints |
| CurrentState.AddBridgeSucceeds | src/ndlab/current_state.py:426-436 | a successful add_bridge records the bridge without pid or sniffer port and its tap and physical endpoints, and puts exactly the listed interfaces in it |
| CurrentState.AddBridgeKeepsInvariants | src/ndlab/current_state.py:402-436 | add_bridge keeps the tables well formed, and every interface's bridge existing |
| CurrentState.ConnectKeys | src/ndlab/current_state.py:433-435 | the loop keeps the devices in their order |
| CurrentState.ClearedInterfaces | src/ndlab/current_state.py:455-463 | the interfaces keep their indices and order |
| CurrentState.ClearConnections | src/ndlab/current_state.py:454-463 | the devices keep their names and order |
| CurrentState.ClearedInterfacesAll | src/ndlab/current_state.py:455-463 | clearing the interfaces one by one is clearing each one |
| CurrentState.ClearConnectionsAll | src/ndlab/current_state.py:454-463 | clearing the devices one by one is clearing each one |
| CurrentState.StopBridgeKeeps | src/ndlab/current_state.py:464-470 | stopping a known bridge without delete only clears its pid and sniffer port |
| CurrentState.StopBridgeDeletes | src/ndlab/current_state.py:453-476 | with delete the bridge is gone from the bridge, tap and physical dicts, no interface belongs to it, and every other interface is as it was |
| CurrentState.StopBridgeKeepsInvariants | src/ndlab/current_state.py:453-476 | stop_bridge keeps the tables well formed and every interface's bridge existing |
| CurrentState.Filter | src/ndlab/current_state.py:474-476 | the keys left are those not popped |
| CurrentState.FilterDistinct | src/ndlab/current_state.py:474-476 | popping keeps the keys distinct |
| CurrentState.FilterNothing | src/ndlab/current_state.py:474-476 | popping nothing keeps every key |
| CurrentState.FilterWithout | src/ndlab/current_state.py:474-476 | popping one more key is filtering one more key out |
| CurrentState.RemoveAll | src/ndlab/current_state.py:474-476 | the popped keys are gone and the dict stays well formed |
| CurrentState.RemoveAllStep | src/ndlab/current_state.py:474-476 | popping one more key after a set of them |
| CurrentState.ResetAll | src/ndlab/current_state.py:464-466 | resetting bridges keeps the bridge names and order |
| CurrentState.StopBridgesSpec | src/ndlab/current_state.py:494-495 | stopping a set of bridges keeps the tables well formed |
| CurrentState.ClearedInterfacesNone | src/ndlab/current_state.py:455-463 | clearing no bridge changes no interface |
| CurrentState.ClearedInterfacesTwice | src/ndlab/current_state.py:455-463 | clearing one bridge after a set of others is clearing the larger set |
| CurrentState.ClearNone | src/ndlab/current_state.py:454-463 | clearing no bridge changes no device |
| CurrentState.ClearTwice | src/ndlab/current_state.py:454-463 | clearing one bridge after a set of others is clearing the larger set |
| CurrentState.RemoveAllNone | src/ndlab/current_state.py:474-476 | popping no key changes nothing |
| CurrentState.ResetAllNone | src/ndlab/current_state.py:464-466 | resetting no bridge changes nothing |
| CurrentState.ResetAllStep | src/ndlab/current_state.py:464-466 | resetting one more known bridge |
| CurrentState.ResetAllAbsent | src/ndlab/current_state.py:471-476 | an unknown bridge resets nothing and popping it changes nothing |
| CurrentState.StopBridgesNone | src/ndlab/current_state.py:494-495 | stopping no bridge changes nothing |
| CurrentState.StopBridgesStep | src/ndlab/current_state.py:494-495 | stop_bridge on one more bridge gives the closed form for the larger set, so the set's iteration order does not matter |
| CurrentState.ClearedTcpPorts | src/ndlab/current_state.py:486-489 | the interfaces keep their indices and order |
| CurrentState.ClearedAll | src/ndlab/current_state.py:486-489 | clearing the TCP ports one by one is clearing each one |
| CurrentState.ConnectionsInMembers | src/ndlab/current_state.py:485-493 | a bridge is to be stopped exactly when one of the device's interfaces belongs to it |
| CurrentState.StopDeviceFacts | src/ndlab/current_state.py:478-495 | stop_device raises exactly for an unknown device; otherwise the device does not run, its connected interfaces lose their TCP ports, and their bridges are stopped (with delete, removed); the tags are untouched |
| CurrentState.StopDeviceKeepsLinked | src/ndlab/current_state.py:478-495 | stop_device keeps every interface's bridge existing |
| CurrentState.SameConnectionsKeepLinked | src/ndlab/current_state.py:482-490 | changing a device without changing its connections keeps every interface's bridge existing |
| CurrentState.StopBridgesKeepLinked | src/ndlab/current_state.py:494-495 | stopping any set of bridges keeps every interface's bridge existing |
| CurrentState.OpenInMembers | src/ndlab/current_state.py:371-379 | a device's listed entries are exactly its free interfaces |
| CurrentState.FreeListedHas | src/ndlab/current_state.py:371-379 | each free interface walked is listed |
| CurrentState.FreeListedWitness | src/ndlab/current_state.py:371-379 | each entry listed is a free interface walked |
| CurrentState.OpenAllMembers | src/ndlab/current_state.py:370-379 | the entries listed are exactly the free interfaces of the devices |
| CurrentState.OpenAllHas | src/ndlab/current_state.py:370-379 | an entry listed for one device is listed |
| CurrentState.OpenAllWitness | src/ndlab/current_state.py:370-379 | each entry listed is a free interface of some device |
| CurrentState.OpenInterfacesExact | src/ndlab/current_state.py:368-381 | get_open_interfaces is sorted and lists exactly the interfaces that belong to no bridge, as "device/index" |
| CurrentState.OutputsInMembers | src/ndlab/current_state.py:300-308 | the output holds exactly one entry per walked device |
| CurrentState.OutputDevicesExact | src/ndlab/current_state.py:298-310 | output_devices is sorted by name, has one entry per device, each with console port 0 and qemu port, "running" exactly when the pid is truthy |
| CurrentState.OutputsInLength | src/ndlab/current_state.py:300-308 | one entry per device |
| CurrentState.ActiveBuildInMembers | src/ndlab/current_state.py:136-143 | get_active_build_tags lists exactly the devices with a truthy build tag |
| CurrentState.BaseTagsInStops | src/ndlab/current_state.py:128-134 | the first tag that cannot be split decides the outcome |
| CurrentState.BaseTagsInExact | src/ndlab/current_state.py:128-134 | get_base_tags succeeds exactly when every tag splits, and then lists exactly the tags without a build part |
| CurrentState.BaseTagsOfBuilds | src/ndlab/current_state.py:128-134 | a build tag made from a base tag is left out; the base tag is kept |
| CurrentState.RegisterBridgePidSpec | src/ndlab/current_state.py:574-581 | raises exactly for an unknown bridge; otherwise only that bridge's pid changes |
| CurrentState.FlagPairs | src/ndlab/current_state.py:540-546 | two arguments per value |
| CurrentState.TcpEndpointsInFails | src/ndlab/current_state.py:513-524 | the walk over a device raises exactly when it is stopped and one of its interfaces is in the bridge |
| CurrentState.TcpEndpointsAllFails | src/ndlab/current_state.py:512-524 | the walk raises exactly when some stopped device has an interface in the bridge |
| CurrentState.TcpEndpointsInStops | src/ndlab/current_state.py:513-524 | once the walk over a device has raised, the rest of it does not matter |
| CurrentState.TcpEndpointsAllStops | src/ndlab/current_state.py:512-524 | once the walk over the devices has raised, the rest of it does not matter |
| CurrentState.BridgeCommandFails | src/ndlab/current_state.py:506-529 | get_bridge_command raises exactly when a device with an interface in the bridge is stopped or the ndlab executable is not found |
| CurrentState.BridgeCommandShape | src/ndlab/current_state.py:530-572 | the command launches the named bridge with one --tcp-endpoint pair per endpoint, and runs under sudo ending in "$!" exactly when the bridge has a physical endpoint |
| CurrentState.BridgeArgsShape | src/ndlab/current_state.py:530-572 | the arguments sit where the command line puts them, and its length counts every flag |
| CurrentState.ClearInterfaces | src/ndlab/current_state.py:455-463 | the inner loop of stop_bridge clears exactly the interfaces of the bridge |
| CurrentState.ClearStep | src/ndlab/current_state.py:486-493 | one turn of stop_device's loop adds the interface's bridge, if any, to the bridges to stop |
| CurrentState.ClearTcpPortsOf | src/ndlab/current_state.py:485-493 | the loop clears the TCP port of each connected interface and collects exactly their bridges |
| CurrentState.OpenInterfacesOf | src/ndlab/current_state.py:371-379 | the inner loop lists the device's free interfaces in dict order |
| CurrentState.TcpEndpointsOf | src/ndlab/current_state.py:513-524 | the inner loop collects the device's endpoints in the bridge, or raises for a stopped device |
| CurrentState.ConnectEndpoints | src/ndlab/current_state.py:433-435 | the loop puts each listed interface in the bridge |
| CurrentState.ClearBridge | src/ndlab/current_state.py:454-463 | the loop over every device clears the bridge's interfaces |
| CurrentState.CollectTcpEndpoints | src/ndlab/current_state.py:511-524 | the loop collects the bridge's endpoints of every device, or the first error |
| CurrentState.State.constructor | src/ndlab/current_state.py:112-126 | the state holds the given dicts |
| CurrentState.State.AddTag | src/ndlab/current_state.py:383-394 | add_tag changes the state as specified, and reports its error |
| CurrentState.State.DeleteTag | src/ndlab/current_state.py:396-400 | delete_tag changes the state as specified, and reports its error |
| CurrentState.State.ValidateTcpEndpoints | src/ndlab/current_state.py:176-195 | the first endpoint that fails a check raises |
| CurrentState.State.AddBridge | src/ndlab/current_state.py:402-436 | add_bridge changes the state as specified, and reports its error |
| CurrentState.State.Install | src/ndlab/current_state.py:426-436 | the writes of a successful add_bridge |
| CurrentState.State.StopBridge | src/ndlab/current_state.py:453-476 | stop_bridge changes the state as specified |
| CurrentState.State.RemoveBridge | src/ndlab/current_state.py:454-476 | the bridge's connections cleared with delete, and its entries popped |
| CurrentState.State.Pop | src/ndlab/current_state.py:474-476 | the three pops |
| CurrentState.State.StopDevice | src/ndlab/current_state.py:478-495 | stop_device changes the state as specified, and reports its error |
| CurrentState.State.StopBridges | src/ndlab/current_state.py:494-495 | stopping the bridges in any order gives the closed form for the set |
| CurrentState.State.RegisterBridgePid | src/ndlab/current_state.py:574-581 | register_bridge_pid changes the state as specified, and reports its error |
| CurrentState.State.GetOpenInterfaces | src/ndlab/current_state.py:368-381 | returns what get_open_interfaces is specified to list |
| CurrentState.State.OutputDevices | src/ndlab/current_state.py:298-310 | returns what output_devices is specified to list |
| CurrentState.State.GetActiveBuildTags | src/ndlab/current_state.py:136-143 | returns the devices with a truthy build tag, in dict order |
| CurrentState.State.GetBaseTags | src/ndlab/current_state.py:128-134 | returns the base tags, or the first tag that cannot be split |
| CurrentState.State.GetBridgeCommand | src/ndlab/current_state.py:506-572 | returns what get_bridge_command is specified to build |

## Left out

- Asyncio and socket I/O in connect.py (the read/write loops, `gather`, `start_server`, `drain`), signal handling, process exit and `ipaddress` host validation: the model keeps one step of each read or write path and the list bookkeeping around it.
- `is_device_promiscuous` reads /sys and calls `eval`; it is not part of this model.
- Process control in current_state.py (`_stop_pid`, `_is_pid_running`, `_wait_command`, `_background_command`): killing or spawning a process leaves no trace in the tables, so stop_bridge and stop_device model only their table updates.
- YAML persistence (`from_file`, `save`, `auto_saving_open`, `copy`), `load_device`, `start_device`, `start_bridge`, `check_state`, `output_bridges` and `get_unused_base_mac`: outside the core modelled here.
- Console automation (console.py, the build and save step tables of the platform files), jinja2 template rendering and the click commands: interactive or external.
- The platform files csr.py, eos.py, routeros.py and openwrt.py are only present through their constants and one-line interface formatters, in `Platforms`.
- Regular expressions (`IMAGE_PATTERN`, `BOOT_IMAGE_PATTERN`, the platform version groups) are oracles passed in as functions; Python's regex engine is not modelled.
- `\w` and `\d` in the patterns that are written out (the endpoint check, the log-file cleaner, the IOSv scanner) are taken as their ASCII meaning; Python's Unicode classes are wider. Under `re.I` the class `[\da-z]` of the IOSv scanner (src/ndlab/platforms/iosv.py:68, src/ndlab/platforms/iosv.py:89) also matches 'İ' (U+0130), 'ı' (U+0131), 'ſ' (U+017F) and the Kelvin sign (U+212A), so Python's version run continues past them where Iosv.AlnumRun stops.
- CurrentState.SplitEndpoint: accepts only plain ASCII decimal digits after the '/'; Python's `int` also takes signs, surrounding whitespace and `_` separators.
- Paths: sanitize_log_file and the image file name go through `Paths`, which parses as pathlib's `PurePosixPath` does (repeated and trailing slashes and "." components dropped, ".." kept, "//" kept as an anchor). The overlay location in device.py is built by joining text with '/', so a build tag holding "" or "." components is not normalised there; `absolute()` and `Path.home()` are not modelled.
- Config.ConfigInformation.constructor: models the default arguments (10.0.0.0/16, 10.1.0.0/16, length 24) only; `_get_index`, its `range(999)` iterator and `LIMIT` are unused by the modelled functions and left out.
- IPv4 parsing is not modelled: addresses are 32-bit naturals, and `str(IPv4Address)` is written out as dotted decimal.
- Labmaker's `from_yaml` (YAML loading) and `sanitize_name` are not part of this model.
- `find_images_in_directory` lists a directory; its result is an input to the modelled tag discovery.
- CurrentState.State.StopBridges: stops the bridges in an arbitrary order; the model proves the outcome is the same for every order instead of fixing Python's set iteration order.
- Labmaker.ValidateDevices: checks "name" before "tag"; Python walks the frozenset `__required_keys__`, whose order decides which missing key is reported. The extra keys are reported as a set, not in the order the message lists them.
- The tap and NIC endpoint records of current_state.py wrap a single interface name; the model stores the name itself.
