/**
 * src/ndlab/labmaker.py: the `Topology` that expands a high-level lab
 * description (devices, point-to-point links, full-mesh groups and
 * multipoint hubs) into bridges whose TCP endpoints are (device, interface
 * index) pairs, with a per-device interface counter.
 *
 * The expansion is specified by a plan, the list of bridge requests in the
 * order the constructor makes them, and a fold of one allocation step over
 * that plan; the `Topology` methods are proved against that fold.
 */
module Labmaker {
  import opened Wrappers
  import opened Text
  import opened Dicts

  /** A validated device: exactly a non-empty name and tag. */
  datatype TopoDevice = TopoDevice(name: string, tag: string)

  datatype TcpEndpoint = TcpEndpoint(device: string, index: nat)

  /** A bridge of the low-level description; labmaker never sets the tap or NIC endpoint. */
  datatype BridgeDict = BridgeDict(name: string, tcpEndpoints: seq<TcpEndpoint>,
                                   tapEndpoint: Option<string>, interfaceEndpoint: Option<string>)

  datatype TopologyError =
    | MissingKey(key: string)
    | InvalidKeys(keys: set<string>)
    | DeviceNotFound(device: string)

  /**
   * The high-level document. A device is the YAML mapping as given; a
   * section missing from the document is an empty one.
   */
  datatype HighLevel = HighLevel(devices: seq<map<string, string>>, pointToPoint: Dict<string, seq<string>>,
                                 fullMesh: seq<seq<string>>, multipoint: Dict<string, seq<string>>)

  // ---------------------------------------------------------------------------
  // validate_devices

  /** The checks of one device: "name" first, then "tag", then no other key. */
  function CheckDevice(d: map<string, string>): Option<TopologyError> {
    if "name" !in d || d["name"] == "" then Some(MissingKey("name"))
    else if "tag" !in d || d["tag"] == "" then Some(MissingKey("tag"))
    else if d.Keys - {"name", "tag"} != {} then Some(InvalidKeys(d.Keys - {"name", "tag"}))
    else None
  }

  predicate WellFormed(d: map<string, string>) {
    "name" in d && "tag" in d && d.Keys == {"name", "tag"} && d["name"] != "" && d["tag"] != ""
  }

  /** A device passes exactly when it has a non-empty name and tag and nothing else. */
  lemma CheckDeviceNone(d: map<string, string>)
    ensures CheckDevice(d).None? <==> WellFormed(d)
  {
    if CheckDevice(d).None? {
      forall k | k in d ensures k in {"name", "tag"} {
        assert k !in d.Keys - {"name", "tag"};
      }
    }
  }

  /** The first device that fails its checks raises. */
  function FirstBadDevice(raw: seq<map<string, string>>): Option<TopologyError> {
    if raw == [] then None
    else if CheckDevice(raw[0]).Some? then CheckDevice(raw[0])
    else FirstBadDevice(raw[1..])
  }

  lemma {:induction false} FirstBadDeviceNone(raw: seq<map<string, string>>)
    ensures FirstBadDevice(raw).None? <==> forall i :: 0 <= i < |raw| ==> WellFormed(raw[i])
  {
    if raw != [] {
      FirstBadDeviceNone(raw[1..]);
      CheckDeviceNone(raw[0]);
      assert forall i :: 1 <= i < |raw| ==> raw[i] == raw[1..][i - 1];
    }
  }

  /** `[Device(**d) for d in self.devices]` once every device has passed. */
  function ToDevices(raw: seq<map<string, string>>): (r: seq<TopoDevice>)
    requires forall i :: 0 <= i < |raw| ==> "name" in raw[i] && "tag" in raw[i]
    ensures |r| == |raw|
    ensures forall i :: 0 <= i < |raw| ==> r[i] == TopoDevice(raw[i]["name"], raw[i]["tag"])
  {
    if raw == [] then []
    else ToDevices(raw[..|raw| - 1]) + [TopoDevice(raw[|raw| - 1]["name"], raw[|raw| - 1]["tag"])]
  }

  function ValidateDevicesSpec(raw: seq<map<string, string>>): Result<seq<TopoDevice>, TopologyError> {
    FirstBadDeviceNone(raw);
    if FirstBadDevice(raw).Some? then Failure(FirstBadDevice(raw).value) else Success(ToDevices(raw))
  }

  /**
   * validate_devices accepts exactly the lists whose every device has a
   * non-empty name and tag and no other key, and then keeps each device's
   * name and tag, in order.
   */
  lemma ValidateDevicesExact(raw: seq<map<string, string>>)
    ensures ValidateDevicesSpec(raw).Success? <==> forall i :: 0 <= i < |raw| ==> WellFormed(raw[i])
    ensures ValidateDevicesSpec(raw).Success? ==>
      var ds := ValidateDevicesSpec(raw).value;
      |ds| == |raw| && forall i :: 0 <= i < |raw| ==> ds[i].name == raw[i]["name"] && ds[i].tag == raw[i]["tag"]
  {
    FirstBadDeviceNone(raw);
  }

  // ---------------------------------------------------------------------------
  // get_next_available_interface

  function Names(devices: seq<TopoDevice>): set<string> {
    set i | 0 <= i < |devices| :: devices[i].name
  }

  /** `next_available_interface` is a defaultdict(int): a device never asked for is at 0. */
  function Count(next: map<string, nat>, d: string): nat {
    if d in next then next[d] else 0
  }

  datatype Allocation = Allocation(endpoints: seq<TcpEndpoint>, next: map<string, nat>)

  /**
   * get_new_tcp_endpoint for each of `ds` in turn: a device takes its
   * counter as index and the counter moves on; an unknown device raises.
   */
  function AllocateAll(names: set<string>, next: map<string, nat>, ds: seq<string>): (r: Result<Allocation, TopologyError>)
    ensures r.Success? ==> |r.value.endpoints| == |ds|
    decreases |ds|
  {
    if ds == [] then Success(Allocation([], next))
    else if ds[0] !in names then Failure(DeviceNotFound(ds[0]))
    else
      var c := Count(next, ds[0]);
      match AllocateAll(names, next[ds[0] := c + 1], ds[1..])
      case Failure(e) => Failure(e)
      case Success(a) => Success(Allocation([TcpEndpoint(ds[0], c)] + a.endpoints, a.next))
  }

  // ---------------------------------------------------------------------------
  // Counting endpoints

  /** `[lo, lo + 1, …, lo + n - 1]`. */
  function Span(lo: nat, n: nat): (r: seq<nat>)
    ensures |r| == n
  {
    if n == 0 then [] else Span(lo, n - 1) + [lo + n - 1]
  }

  lemma {:induction false} SpanAppend(lo: nat, a: nat, b: nat)
    ensures Span(lo, a) + Span(lo + a, b) == Span(lo, a + b)
  {
    if b > 0 {
      SpanAppend(lo, a, b - 1);
    }
  }

  lemma {:induction false} SpanMembers(lo: nat, n: nat, x: nat)
    ensures x in Span(lo, n) <==> lo <= x < lo + n
  {
    if n > 0 {
      SpanMembers(lo, n - 1, x);
    }
  }

  /** The interface indices of device `d` among `es`, in order. */
  function Indices(es: seq<TcpEndpoint>, d: string): seq<nat> {
    if es == [] then []
    else Indices(es[..|es| - 1], d) + (if es[|es| - 1].device == d then [es[|es| - 1].index] else [])
  }

  lemma {:induction false} IndicesAppend(x: seq<TcpEndpoint>, y: seq<TcpEndpoint>, d: string)
    ensures Indices(x + y, d) == Indices(x, d) + Indices(y, d)
    decreases |y|
  {
    if y == [] {
      assert x + y == x;
    } else {
      assert (x + y)[..|x + y| - 1] == x + y[..|y| - 1];
      IndicesAppend(x, y[..|y| - 1], d);
    }
  }

  lemma {:induction false} IndicesMember(es: seq<TcpEndpoint>, k: nat)
    requires k < |es|
    ensures es[k].index in Indices(es, es[k].device)
  {
    if k < |es| - 1 {
      IndicesMember(es[..|es| - 1], k);
    }
  }

  /**
   * Each device's endpoints among `es` carry the indices 0, 1, 2, … in
   * order: what the interface counter hands out.
   */
  ghost predicate Numbered(es: seq<TcpEndpoint>) {
    forall d :: Indices(es, d) == Span(0, |Indices(es, d)|)
  }

  /** Numbered endpoints never repeat: no (device, index) is handed out twice. */
  lemma {:induction false} NumberedDistinct(es: seq<TcpEndpoint>)
    requires Numbered(es)
    ensures Distinct(es)
  {
    if es != [] {
      var init, e := es[..|es| - 1], es[|es| - 1];
      assert es == init + [e];
      forall d ensures Indices(init, d) == Span(0, |Indices(init, d)|) {
        assert Indices(es, d) == Span(0, |Indices(es, d)|);
        if d == e.device {
          assert Indices(es, d) == Indices(init, d) + [e.index];
          assert Span(0, |Indices(es, d)|)[..|Indices(init, d)|] == Span(0, |Indices(init, d)|);
          assert Indices(es, d)[..|Indices(init, d)|] == Indices(init, d);
        }
      }
      NumberedDistinct(init);
      var c := |Indices(init, e.device)|;
      assert Indices(es, e.device) == Indices(init, e.device) + [e.index];
      assert Indices(es, e.device) == Span(0, c + 1) == Span(0, c) + [c];
      assert Indices(es, e.device)[c] == e.index == c;
      if e in init {
        var k :| 0 <= k < |init| && init[k] == e;
        IndicesMember(init, k);
        SpanMembers(0, c, e.index);
        assert false;
      }
      assert forall i :: 0 <= i < |init| ==> es[i] == init[i];
    }
  }

  /**
   * Allocating for `ds` gives each device, in order, the indices that
   * follow its counter, and moves the counter past them.
   */
  lemma {:induction false} AllocateAllNumbers(names: set<string>, next: map<string, nat>, ds: seq<string>, d: string)
    requires AllocateAll(names, next, ds).Success?
    ensures var a := AllocateAll(names, next, ds).value;
      && Count(a.next, d) == Count(next, d) + |Indices(a.endpoints, d)|
      && Indices(a.endpoints, d) == Span(Count(next, d), |Indices(a.endpoints, d)|)
    decreases |ds|
  {
    if ds != [] {
      var c := Count(next, ds[0]);
      var next1 := next[ds[0] := c + 1];
      AllocateAllNumbers(names, next1, ds[1..], d);
      var a1 := AllocateAll(names, next1, ds[1..]).value;
      var e := TcpEndpoint(ds[0], c);
      var a := AllocateAll(names, next, ds).value;
      assert a.endpoints == [e] + a1.endpoints && a.next == a1.next;
      var i1 := Indices(a1.endpoints, d);
      IndicesAppend([e], a1.endpoints, d);
      assert [e][..0] == [];
      assert Indices(a.endpoints, d) == Indices([e], d) + i1;
      if d == ds[0] {
        assert Indices([e], d) == Span(c, 1);
        assert Count(next1, d) == c + 1;
        SpanAppend(c, 1, |i1|);
        assert Indices(a.endpoints, d) == Span(c, 1 + |i1|);
        assert Count(a.next, d) == c + 1 + |i1|;
      } else {
        assert Indices([e], d) == [];
        assert Indices(a.endpoints, d) == i1;
        assert Count(next1, d) == Count(next, d);
        assert Count(a.next, d) == Count(next, d) + |i1|;
      }
    }
  }

  lemma {:induction false} AllocateAllDevices(names: set<string>, next: map<string, nat>, ds: seq<string>)
    requires AllocateAll(names, next, ds).Success?
    ensures forall k :: 0 <= k < |ds| ==> AllocateAll(names, next, ds).value.endpoints[k].device == ds[k]
    decreases |ds|
  {
    if ds != [] {
      AllocateAllDevices(names, next[ds[0] := Count(next, ds[0]) + 1], ds[1..]);
    }
  }

  /** Some device of `ds` is not in the topology. */
  ghost predicate AnyMissing(names: set<string>, ds: seq<string>) {
    exists k :: 0 <= k < |ds| && ds[k] !in names
  }

  /** `e` reports the first of `ds` that is not in the topology. */
  ghost predicate FirstMissing(names: set<string>, ds: seq<string>, e: TopologyError) {
    exists k :: 0 <= k < |ds| && ds[k] !in names && e == DeviceNotFound(ds[k]) && forall j :: 0 <= j < k ==> ds[j] in names
  }

  /**
   * Allocation fails exactly when a device is not in the topology, and
   * then names the first such device.
   */
  lemma {:induction false} AllocateAllFails(names: set<string>, next: map<string, nat>, ds: seq<string>)
    ensures AllocateAll(names, next, ds).Failure? <==> AnyMissing(names, ds)
    ensures AllocateAll(names, next, ds).Failure? ==> FirstMissing(names, ds, AllocateAll(names, next, ds).error)
    decreases |ds|
  {
    if ds != [] && ds[0] in names {
      AllocateAllFails(names, next[ds[0] := Count(next, ds[0]) + 1], ds[1..]);
      assert forall k :: 1 <= k < |ds| ==> ds[k] == ds[1..][k - 1];
      if AllocateAll(names, next, ds).Failure? {
        var k :| 0 <= k < |ds| - 1 && ds[1..][k] !in names && AllocateAll(names, next, ds).error == DeviceNotFound(ds[1..][k])
          && forall j :: 0 <= j < k ==> ds[1..][j] in names;
        assert ds[k + 1] == ds[1..][k];
      }
    } else if ds != [] {
      assert ds[0] !in names;
    }
  }

  // ---------------------------------------------------------------------------
  // Bridges

  /** One bridge request: a point-to-point link or a multipoint hub. */
  datatype Shape = PointToPoint(a: string, b: string) | Hub(name: string, members: seq<string>)

  function Members(s: Shape): seq<string> {
    match s
    case PointToPoint(a, b) => [a, b]
    case Hub(_, members) => members
  }

  /** get_new_point_to_point's name: "{a}_{index a}--{b}_{index b}". */
  function PointToPointName(ea: TcpEndpoint, eb: TcpEndpoint): string {
    ea.device + "_" + IntToString(ea.index) + "--" + eb.device + "_" + IntToString(eb.index)
  }

  function BridgeOf(s: Shape, es: seq<TcpEndpoint>): BridgeDict
    requires |es| == |Members(s)|
  {
    match s
    case PointToPoint(_, _) => BridgeDict(PointToPointName(es[0], es[1]), es, None, None)
    case Hub(name, _) => BridgeDict(name, es, None, None)
  }

  /** The bridges so far and the interface counter. */
  datatype Built = Built(bridges: seq<BridgeDict>, next: map<string, nat>)

  function Step(names: set<string>, st: Built, s: Shape): Result<Built, TopologyError> {
    match AllocateAll(names, st.next, Members(s))
    case Failure(e) => Failure(e)
    case Success(a) => Success(Built(st.bridges + [BridgeOf(s, a.endpoints)], a.next))
  }

  /** The constructor's loops over the requests of `plan`, from state `st`. */
  function BuildFrom(names: set<string>, st: Built, plan: seq<Shape>): Result<Built, TopologyError>
    decreases |plan|
  {
    if plan == [] then Success(st)
    else match Step(names, st, plan[0])
      case Failure(e) => Failure(e)
      case Success(st1) => BuildFrom(names, st1, plan[1..])
  }

  /** From no bridges and every counter at 0. */
  function Build(names: set<string>, plan: seq<Shape>): Result<Built, TopologyError> {
    BuildFrom(names, Built([], map[]), plan)
  }

  lemma BuildFromCons(names: set<string>, st: Built, s: Shape, rest: seq<Shape>)
    ensures Step(names, st, s).Failure? ==> BuildFrom(names, st, [s] + rest) == Failure(Step(names, st, s).error)
    ensures Step(names, st, s).Success? ==> BuildFrom(names, st, [s] + rest) == BuildFrom(names, Step(names, st, s).value, rest)
  {
    assert ([s] + rest)[1..] == rest;
  }

  /** Every TCP endpoint of `bs`, bridge after bridge. */
  function Endpoints(bs: seq<BridgeDict>): seq<TcpEndpoint> {
    if bs == [] then [] else Endpoints(bs[..|bs| - 1]) + bs[|bs| - 1].tcpEndpoints
  }

  /** Every device asked for by the plan, in the order of the requests. */
  function Requested(plan: seq<Shape>): seq<string> {
    if plan == [] then [] else Members(plan[0]) + Requested(plan[1..])
  }

  /** Bridge `b` answers request `s`: its endpoints are on the requested devices, and it has the right name. */
  predicate Answers(b: BridgeDict, s: Shape) {
    && |b.tcpEndpoints| == |Members(s)|
    && (forall k :: 0 <= k < |b.tcpEndpoints| ==> b.tcpEndpoints[k].device == Members(s)[k])
    && b.tapEndpoint.None? && b.interfaceEndpoint.None?
    && match s
       case PointToPoint(_, _) => b.name == PointToPointName(b.tcpEndpoints[0], b.tcpEndpoints[1])
       case Hub(name, _) => b.name == name
  }

  /** The counter of each device is the number of its endpoints, which are numbered 0, 1, 2, … in order. */
  ghost predicate Counted(st: Built) {
    && (forall d :: Count(st.next, d) == |Indices(Endpoints(st.bridges), d)|)
    && Numbered(Endpoints(st.bridges))
  }

  /** One request adds one bridge, answering it, whose endpoints follow the earlier ones. */
  lemma StepAppends(names: set<string>, st: Built, s: Shape)
    requires Step(names, st, s).Success?
    ensures var r := Step(names, st, s).value;
      && |r.bridges| == |st.bridges| + 1 && r.bridges[..|st.bridges|] == st.bridges
      && Answers(r.bridges[|st.bridges|], s)
      && Endpoints(r.bridges) == Endpoints(st.bridges) + AllocateAll(names, st.next, Members(s)).value.endpoints
  {
    var r := Step(names, st, s).value;
    AllocateAllDevices(names, st.next, Members(s));
    assert r.bridges[..|r.bridges| - 1] == st.bridges;
  }

  lemma StepCounts(names: set<string>, st: Built, s: Shape, d: string)
    requires Count(st.next, d) == |Indices(Endpoints(st.bridges), d)|
    requires Indices(Endpoints(st.bridges), d) == Span(0, |Indices(Endpoints(st.bridges), d)|)
    requires Step(names, st, s).Success?
    ensures var r := Step(names, st, s).value;
      && Count(r.next, d) == |Indices(Endpoints(r.bridges), d)|
      && Indices(Endpoints(r.bridges), d) == Span(0, |Indices(Endpoints(r.bridges), d)|)
  {
    var a := AllocateAll(names, st.next, Members(s)).value;
    StepAppends(names, st, s);
    AllocateAllNumbers(names, st.next, Members(s), d);
    IndicesAppend(Endpoints(st.bridges), a.endpoints, d);
    SpanAppend(0, Count(st.next, d), |Indices(a.endpoints, d)|);
  }

  /** One request keeps the counters consistent. */
  lemma StepKeepsCounted(names: set<string>, st: Built, s: Shape)
    requires Counted(st) && Step(names, st, s).Success?
    ensures Counted(Step(names, st, s).value)
  {
    forall d {
      StepCounts(names, st, s, d);
    }
  }

  /** The requests of `plan` add one bridge each, after the bridges already there. */
  lemma {:induction false} BuildFromAppends(names: set<string>, st: Built, plan: seq<Shape>)
    requires BuildFrom(names, st, plan).Success?
    ensures var r := BuildFrom(names, st, plan).value;
      |r.bridges| == |st.bridges| + |plan| && r.bridges[..|st.bridges|] == st.bridges
    decreases |plan|
  {
    if plan != [] {
      var st1 := Step(names, st, plan[0]).value;
      StepAppends(names, st, plan[0]);
      BuildFromAppends(names, st1, plan[1..]);
      var r := BuildFrom(names, st, plan).value;
      assert r == BuildFrom(names, st1, plan[1..]).value;
      var n := |st.bridges|;
      assert r.bridges[..n] == r.bridges[..n + 1][..n];
    }
  }

  /** The bridge the `i`-th request of `plan` adds answers that request. */
  lemma {:induction false} BuildFromAnswers(names: set<string>, st: Built, plan: seq<Shape>, i: nat)
    requires BuildFrom(names, st, plan).Success? && i < |plan|
    ensures var r := BuildFrom(names, st, plan).value;
      |st.bridges| + i < |r.bridges| && Answers(r.bridges[|st.bridges| + i], plan[i])
    decreases i
  {
    var st1 := Step(names, st, plan[0]).value;
    StepAppends(names, st, plan[0]);
    BuildFromAppends(names, st1, plan[1..]);
    var r := BuildFrom(names, st, plan).value;
    assert r == BuildFrom(names, st1, plan[1..]).value;
    var n := |st.bridges|;
    if i == 0 {
      assert r.bridges[n] == r.bridges[..n + 1][n] == st1.bridges[n];
    } else {
      BuildFromAnswers(names, st1, plan[1..], i - 1);
      assert r.bridges[n + i] == r.bridges[(n + 1) + (i - 1)];
      assert plan[i] == plan[1..][i - 1];
    }
  }

  /** The requests of `plan` keep the counters consistent. */
  lemma {:induction false} BuildFromCounted(names: set<string>, st: Built, plan: seq<Shape>)
    requires Counted(st) && BuildFrom(names, st, plan).Success?
    ensures Counted(BuildFrom(names, st, plan).value)
    decreases |plan|
  {
    if plan != [] {
      StepKeepsCounted(names, st, plan[0]);
      BuildFromCounted(names, Step(names, st, plan[0]).value, plan[1..]);
    }
  }

  /**
   * A successful expansion gives one bridge per request, in the order of
   * the requests, each answering its request; the counter of each device
   * is the number of its endpoints, and each device's endpoints are
   * numbered 0, 1, 2, … in order, so no endpoint is handed out twice.
   */
  lemma BuildSucceeds(names: set<string>, plan: seq<Shape>)
    requires Build(names, plan).Success?
    ensures var st := Build(names, plan).value;
      && |st.bridges| == |plan|
      && (forall i :: 0 <= i < |plan| ==> Answers(st.bridges[i], plan[i]))
      && Counted(st)
      && Distinct(Endpoints(st.bridges))
  {
    assert Counted(Built([], map[]));
    BuildFromAppends(names, Built([], map[]), plan);
    forall i | 0 <= i < |plan| ensures Answers(Build(names, plan).value.bridges[i], plan[i]) {
      BuildFromAnswers(names, Built([], map[]), plan, i);
    }
    BuildFromCounted(names, Built([], map[]), plan);
    NumberedDistinct(Endpoints(Build(names, plan).value.bridges));
  }

  lemma MissingConcat(names: set<string>, x: seq<string>, y: seq<string>, e: TopologyError)
    ensures AnyMissing(names, x + y) <==> AnyMissing(names, x) || AnyMissing(names, y)
    ensures FirstMissing(names, x, e) ==> FirstMissing(names, x + y, e)
    ensures !AnyMissing(names, x) && FirstMissing(names, y, e) ==> FirstMissing(names, x + y, e)
  {
    var r := x + y;
    if AnyMissing(names, r) {
      var k :| 0 <= k < |r| && r[k] !in names;
      if k >= |x| {
        assert y[k - |x|] !in names;
      }
    }
    if AnyMissing(names, x) {
      var k :| 0 <= k < |x| && x[k] !in names;
      assert r[k] == x[k];
    }
    if AnyMissing(names, y) {
      var k :| 0 <= k < |y| && y[k] !in names;
      assert r[|x| + k] == y[k];
    }
    if FirstMissing(names, x, e) {
      var k :| 0 <= k < |x| && x[k] !in names && e == DeviceNotFound(x[k]) && forall j :: 0 <= j < k ==> x[j] in names;
      assert r[k] == x[k];
    }
    if !AnyMissing(names, x) && FirstMissing(names, y, e) {
      var k :| 0 <= k < |y| && y[k] !in names && e == DeviceNotFound(y[k]) && forall j :: 0 <= j < k ==> y[j] in names;
      assert r[|x| + k] == y[k];
      forall j | 0 <= j < |x| + k ensures r[j] in names {
        if j >= |x| {
          assert r[j] == y[j - |x|];
        }
      }
    }
  }

  /**
   * The expansion raises exactly when some request names a device the
   * topology does not have, and then names the first such device.
   */
  lemma {:induction false} BuildFromFails(names: set<string>, st: Built, plan: seq<Shape>)
    ensures BuildFrom(names, st, plan).Failure? <==> AnyMissing(names, Requested(plan))
    ensures BuildFrom(names, st, plan).Failure? ==> FirstMissing(names, Requested(plan), BuildFrom(names, st, plan).error)
    decreases |plan|
  {
    if plan != [] {
      var ms, rest := Members(plan[0]), Requested(plan[1..]);
      AllocateAllFails(names, st.next, ms);
      if BuildFrom(names, st, plan).Failure? {
        MissingConcat(names, ms, rest, BuildFrom(names, st, plan).error);
      } else {
        MissingConcat(names, ms, rest, DeviceNotFound(""));
      }
      if Step(names, st, plan[0]).Success? {
        BuildFromFails(names, Step(names, st, plan[0]).value, plan[1..]);
      }
    }
  }

  // ---------------------------------------------------------------------------
  // The plan

  /** `for neighbor in neighbors`: one point-to-point request per neighbour. */
  function Row(device: string, neighbors: seq<string>): (r: seq<Shape>)
    ensures |r| == |neighbors|
    ensures forall i :: 0 <= i < |neighbors| ==> r[i] == PointToPoint(device, neighbors[i])
  {
    if neighbors == [] then [] else [PointToPoint(device, neighbors[0])] + Row(device, neighbors[1..])
  }

  /** The point_to_point section, in its key order. */
  function PointToPointPlan(p2p: Dict<string, seq<string>>, keys: seq<string>): seq<Shape> {
    if keys == [] then []
    else (if keys[0] in p2p.values then Row(keys[0], p2p.values[keys[0]]) else []) + PointToPointPlan(p2p, keys[1..])
  }

  /** `[(x, y) for y in rest]`. */
  function PairsWith(x: string, rest: seq<string>): (r: seq<(string, string)>)
    ensures |r| == |rest|
    ensures forall j :: 0 <= j < |rest| ==> r[j] == (x, rest[j])
  {
    if rest == [] then [] else [(x, rest[0])] + PairsWith(x, rest[1..])
  }

  /** `itertools.combinations(s, 2)`, in its order. */
  function Pairs(s: seq<string>): seq<(string, string)> {
    if s == [] then [] else PairsWith(s[0], s[1..]) + Pairs(s[1..])
  }

  /** A full mesh of k devices has k(k-1)/2 links. */
  lemma {:induction false} PairsLength(s: seq<string>)
    ensures 2 * |Pairs(s)| == |s| * (|s| - 1)
  {
    if s != [] {
      PairsLength(s[1..]);
    }
  }

  /** The links of a full mesh join each device to each later one, and nothing else. */
  lemma {:induction false} PairsMembers(s: seq<string>, p: (string, string))
    ensures p in Pairs(s) <==> exists i, j :: 0 <= i < j < |s| && p == (s[i], s[j])
  {
    if s != [] {
      PairsMembers(s[1..], p);
      if p in PairsWith(s[0], s[1..]) {
        var j :| 0 <= j < |s| - 1 && PairsWith(s[0], s[1..])[j] == p;
        assert p == (s[0], s[j + 1]);
      }
      if exists i, j :: 0 <= i < j < |s| && p == (s[i], s[j]) {
        var i, j :| 0 <= i < j < |s| && p == (s[i], s[j]);
        if i == 0 {
          assert PairsWith(s[0], s[1..])[j - 1] == p;
        } else {
          assert p == (s[1..][i - 1], s[1..][j - 1]);
        }
      }
      if p in Pairs(s[1..]) {
        var i, j :| 0 <= i < j < |s| - 1 && p == (s[1..][i], s[1..][j]);
        assert p == (s[i + 1], s[j + 1]);
      }
    }
  }

  /** One point-to-point request per pair. */
  function MeshRow(ps: seq<(string, string)>): (r: seq<Shape>)
    ensures |r| == |ps|
    ensures forall i :: 0 <= i < |ps| ==> r[i] == PointToPoint(ps[i].0, ps[i].1)
  {
    if ps == [] then [] else [PointToPoint(ps[0].0, ps[0].1)] + MeshRow(ps[1..])
  }

  /** The full_mesh_p2p section, group after group. */
  function MeshPlan(groups: seq<seq<string>>): seq<Shape> {
    if groups == [] then [] else MeshRow(Pairs(groups[0])) + MeshPlan(groups[1..])
  }

  /** The multipoint section, one hub request per key. */
  function HubPlan(mp: Dict<string, seq<string>>, keys: seq<string>): seq<Shape> {
    if keys == [] then []
    else (if keys[0] in mp.values then [Hub(keys[0], mp.values[keys[0]])] else []) + HubPlan(mp, keys[1..])
  }

  /** The sections of the document are dicts. */
  ghost predicate HighLevelValid(h: HighLevel) {
    h.pointToPoint.Valid() && h.multipoint.Valid()
  }

  /** Every request of the constructor: point-to-point, then full mesh, then multipoint. */
  function Plan(h: HighLevel): seq<Shape> {
    PointToPointPlan(h.pointToPoint, h.pointToPoint.keys) + MeshPlan(h.fullMesh) + HubPlan(h.multipoint, h.multipoint.keys)
  }

  /** Each hub is one request named after it, for its members in order. */
  lemma {:induction false} HubPlanShape(mp: Dict<string, seq<string>>, keys: seq<string>)
    requires forall k :: k in keys ==> k in mp.values
    ensures |HubPlan(mp, keys)| == |keys|
    ensures forall i :: 0 <= i < |keys| ==> HubPlan(mp, keys)[i] == Hub(keys[i], mp.values[keys[i]])
  {
    if keys != [] {
      HubPlanShape(mp, keys[1..]);
      assert forall i :: 1 <= i < |keys| ==> keys[i] == keys[1..][i - 1];
    }
  }

  // ---------------------------------------------------------------------------
  // links_by_device

  /** Each endpoint of `es` with the name of its bridge. */
  function TagEach(es: seq<TcpEndpoint>, name: string): (r: seq<(TcpEndpoint, string)>)
    ensures |r| == |es|
    ensures forall k :: 0 <= k < |es| ==> r[k] == (es[k], name)
  {
    if es == [] then [] else TagEach(es[..|es| - 1], name) + [(es[|es| - 1], name)]
  }

  function Tagged(bs: seq<BridgeDict>): seq<(TcpEndpoint, string)> {
    if bs == [] then [] else Tagged(bs[..|bs| - 1]) + TagEach(bs[|bs| - 1].tcpEndpoints, bs[|bs| - 1].name)
  }

  ghost predicate LinksValid(links: Dict<string, Dict<int, string>>) {
    links.Valid() && forall d :: d in links.values ==> links.values[d].Valid()
  }

  /** `device_links[device][index] = name`, a new device getting an empty dict first. */
  function SetLink(links: Dict<string, Dict<int, string>>, t: (TcpEndpoint, string)): (r: Dict<string, Dict<int, string>>)
    requires LinksValid(links)
    ensures LinksValid(r)
  {
    var inner := if t.0.device in links.values then links.values[t.0.device] else Empty();
    links.Put(t.0.device, inner.Put(t.0.index, t.1))
  }

  function LinksFold(ts: seq<(TcpEndpoint, string)>): (r: Dict<string, Dict<int, string>>)
    ensures LinksValid(r)
  {
    if ts == [] then Empty() else SetLink(LinksFold(ts[..|ts| - 1]), ts[|ts| - 1])
  }

  /** The endpoints of `ts`, without their bridge names. */
  function Firsts(ts: seq<(TcpEndpoint, string)>): (r: seq<TcpEndpoint>)
    ensures |r| == |ts|
    ensures forall k :: 0 <= k < |ts| ==> r[k] == ts[k].0
  {
    if ts == [] then [] else Firsts(ts[..|ts| - 1]) + [ts[|ts| - 1].0]
  }

  lemma {:induction false} TaggedEndpoints(bs: seq<BridgeDict>)
    ensures Firsts(Tagged(bs)) == Endpoints(bs)
  {
    if bs != [] {
      TaggedEndpoints(bs[..|bs| - 1]);
      var b := bs[|bs| - 1];
      var x, y := Tagged(bs[..|bs| - 1]), TagEach(b.tcpEndpoints, b.name);
      assert Firsts(x + y) == Firsts(x) + Firsts(y);
      assert Firsts(y) == b.tcpEndpoints;
    }
  }

  /**
   * With no endpoint listed twice, the dict built from `ts` holds, for each
   * endpoint, the bridge name it is listed with, and holds nothing else.
   */
  lemma {:induction false} LinksFoldLookup(ts: seq<(TcpEndpoint, string)>, d: string, i: int)
    requires Distinct(Firsts(ts))
    ensures var links := LinksFold(ts);
      (d in links.values && i in links.values[d].values) <==> exists k :: 0 <= k < |ts| && ts[k].0.device == d && ts[k].0.index == i
    ensures forall k :: 0 <= k < |ts| && ts[k].0.device == d && ts[k].0.index == i ==>
      var links := LinksFold(ts);
      d in links.values && i in links.values[d].values && links.values[d].values[i] == ts[k].1
  {
    if ts != [] {
      var init, t := ts[..|ts| - 1], ts[|ts| - 1];
      assert Firsts(init) == Firsts(ts)[..|ts| - 1];
      LinksFoldLookup(init, d, i);
      forall k | 0 <= k < |init| ensures init[k].0 != t.0 {
        assert Firsts(ts)[k] == init[k].0 && Firsts(ts)[|ts| - 1] == t.0;
      }
    }
  }

  /** Each endpoint of each bridge is listed with the bridge's name. */
  lemma {:induction false} TaggedHas(bs: seq<BridgeDict>, i: nat, j: nat)
    requires i < |bs| && j < |bs[i].tcpEndpoints|
    ensures exists k :: 0 <= k < |Tagged(bs)| && Tagged(bs)[k] == (bs[i].tcpEndpoints[j], bs[i].name)
  {
    var init := bs[..|bs| - 1];
    if i < |bs| - 1 {
      TaggedHas(init, i, j);
      var k :| 0 <= k < |Tagged(init)| && Tagged(init)[k] == (init[i].tcpEndpoints[j], init[i].name);
      assert Tagged(bs)[k] == Tagged(init)[k];
    } else {
      var b := bs[i];
      assert Tagged(bs)[|Tagged(init)| + j] == TagEach(b.tcpEndpoints, b.name)[j];
    }
  }

  /**
   * When no endpoint is handed out twice, `links_by_device[d][i]` is the
   * name of the bridge holding endpoint (d, i)…
   */
  lemma LinksNameBridges(bs: seq<BridgeDict>, i: nat, j: nat)
    requires Distinct(Endpoints(bs)) && i < |bs| && j < |bs[i].tcpEndpoints|
    ensures var e, links := bs[i].tcpEndpoints[j], LinksFold(Tagged(bs));
      && e.device in links.values && e.index in links.values[e.device].values
      && links.values[e.device].values[e.index] == bs[i].name
  {
    TaggedEndpoints(bs);
    TaggedHas(bs, i, j);
    var e := bs[i].tcpEndpoints[j];
    LinksFoldLookup(Tagged(bs), e.device, e.index);
  }

  /** …and it lists nothing but the endpoints of the bridges. */
  lemma LinksOnlyEndpoints(bs: seq<BridgeDict>, d: string, idx: int)
    requires Distinct(Endpoints(bs))
    ensures var links, es := LinksFold(Tagged(bs)), Endpoints(bs);
      (d in links.values && idx in links.values[d].values) <==>
      exists k :: 0 <= k < |es| && es[k].device == d && es[k].index == idx
  {
    TaggedEndpoints(bs);
    LinksFoldLookup(Tagged(bs), d, idx);
  }

  // ---------------------------------------------------------------------------
  // The whole expansion

  /** `Topology.low_level`. */
  datatype LowLevel = LowLevel(devices: seq<TopoDevice>, bridges: seq<BridgeDict>, linksByDevice: Dict<string, Dict<int, string>>)

  /** What `Topology(high_level_data)` computes, or the error it raises. */
  function TopologySpec(h: HighLevel): Result<LowLevel, TopologyError> {
    match ValidateDevicesSpec(h.devices)
    case Failure(e) => Failure(e)
    case Success(ds) =>
      match Build(Names(ds), Plan(h))
      case Failure(e) => Failure(e)
      case Success(st) => Success(LowLevel(ds, st.bridges, LinksFold(Tagged(st.bridges))))
  }

  /**
   * A topology is built exactly when its devices are valid and every link
   * names one of them; it then has one bridge per request, in the order
   * point-to-point, full mesh, multipoint, and no endpoint twice.
   */
  lemma TopologyBuilt(h: HighLevel)
    ensures TopologySpec(h).Success? <==>
      && ValidateDevicesSpec(h.devices).Success?
      && !AnyMissing(Names(ValidateDevicesSpec(h.devices).value), Requested(Plan(h)))
    ensures TopologySpec(h).Success? ==>
      var low := TopologySpec(h).value;
      && |low.bridges| == |Plan(h)|
      && (forall i :: 0 <= i < |Plan(h)| ==> Answers(low.bridges[i], Plan(h)[i]))
      && Distinct(Endpoints(low.bridges))
  {
    if ValidateDevicesSpec(h.devices).Success? {
      var names := Names(ValidateDevicesSpec(h.devices).value);
      BuildFromFails(names, Built([], map[]), Plan(h));
      if Build(names, Plan(h)).Success? {
        BuildSucceeds(names, Plan(h));
      }
    }
  }

  // ---------------------------------------------------------------------------
  // The imperative model

  /** validate_devices: every device is checked before any is converted. */
  method ValidateDevices(raw: seq<map<string, string>>) returns (r: Result<seq<TopoDevice>, TopologyError>)
    ensures r == ValidateDevicesSpec(raw)
  {
    var k := 0;
    while k < |raw|
      invariant 0 <= k <= |raw|
      invariant FirstBadDevice(raw) == FirstBadDevice(raw[k..])
    {
      var bad := CheckDevice(raw[k]);
      assert raw[k..][0] == raw[k] && raw[k..][1..] == raw[k + 1..];
      if bad.Some? {
        return Failure(bad.value);
      }
      k := k + 1;
    }
    FirstBadDeviceNone(raw);
    var ds := [];
    k := 0;
    while k < |raw|
      invariant 0 <= k <= |raw|
      invariant ds == ToDevices(raw[..k])
    {
      ds := ds + [TopoDevice(raw[k]["name"], raw[k]["tag"])];
      k := k + 1;
      assert raw[..k][..k - 1] == raw[..k - 1];
    }
    assert raw[..k] == raw;
    return Success(ds);
  }

  /** `[e] + …` on a successful allocation. */
  function Prepend(es: seq<TcpEndpoint>, r: Result<Allocation, TopologyError>): Result<Allocation, TopologyError> {
    match r
    case Failure(e) => Failure(e)
    case Success(a) => Success(Allocation(es + a.endpoints, a.next))
  }

  /** Allocating for a first device, then for the others. */
  lemma AllocateAllCons(names: set<string>, next: map<string, nat>, d: string, rest: seq<string>)
    ensures d !in names ==> AllocateAll(names, next, [d] + rest) == Failure(DeviceNotFound(d))
    ensures d in names ==> (AllocateAll(names, next, [d] + rest) ==
      Prepend([TcpEndpoint(d, Count(next, d))], AllocateAll(names, next[d := Count(next, d) + 1], rest)))
  {
    assert ([d] + rest)[0] == d && ([d] + rest)[1..] == rest;
  }

  lemma PrependTwice(x: seq<TcpEndpoint>, y: seq<TcpEndpoint>, r: Result<Allocation, TopologyError>)
    ensures Prepend(x, Prepend(y, r)) == Prepend(x + y, r)
  {
    if r.Success? {
      assert x + (y + r.value.endpoints) == (x + y) + r.value.endpoints;
    }
  }

  lemma PrependNothing(r: Result<Allocation, TopologyError>)
    ensures Prepend([], r) == r
  {
    if r.Success? {
      assert [] + r.value.endpoints == r.value.endpoints;
    }
  }

  // One turn of each of the constructor's loops.

  lemma PointToPointPlanAt(p2p: Dict<string, seq<string>>, k: nat, later: seq<Shape>)
    requires p2p.Valid() && k < |p2p.keys|
    ensures p2p.keys[k] in p2p.values
    ensures PointToPointPlan(p2p, p2p.keys[k..]) + later ==
      Row(p2p.keys[k], p2p.values[p2p.keys[k]]) + (PointToPointPlan(p2p, p2p.keys[k + 1..]) + later)
  {
    assert p2p.keys[k..][0] == p2p.keys[k] && p2p.keys[k..][1..] == p2p.keys[k + 1..];
  }

  lemma RowAt(device: string, neighbors: seq<string>, j: nat, rest: seq<Shape>)
    requires j < |neighbors|
    ensures Row(device, neighbors[j..]) + rest == [PointToPoint(device, neighbors[j])] + (Row(device, neighbors[j + 1..]) + rest)
  {
    assert neighbors[j..][0] == neighbors[j] && neighbors[j..][1..] == neighbors[j + 1..];
  }

  lemma MeshPlanAt(groups: seq<seq<string>>, k: nat, later: seq<Shape>)
    requires k < |groups|
    ensures MeshPlan(groups[k..]) + later == MeshRow(Pairs(groups[k])) + (MeshPlan(groups[k + 1..]) + later)
  {
    assert groups[k..][0] == groups[k] && groups[k..][1..] == groups[k + 1..];
  }

  lemma MeshRowAt(pairs: seq<(string, string)>, j: nat, rest: seq<Shape>)
    requires j < |pairs|
    ensures MeshRow(pairs[j..]) + rest == [PointToPoint(pairs[j].0, pairs[j].1)] + (MeshRow(pairs[j + 1..]) + rest)
  {
    assert pairs[j..][0] == pairs[j] && pairs[j..][1..] == pairs[j + 1..];
  }

  lemma HubPlanAt(mp: Dict<string, seq<string>>, k: nat, later: seq<Shape>)
    requires mp.Valid() && k < |mp.keys|
    ensures mp.keys[k] in mp.values
    ensures HubPlan(mp, mp.keys[k..]) + later == [Hub(mp.keys[k], mp.values[mp.keys[k]])] + (HubPlan(mp, mp.keys[k + 1..]) + later)
  {
    assert mp.keys[k..][0] == mp.keys[k] && mp.keys[k..][1..] == mp.keys[k + 1..];
  }

  lemma LinksStep(ts: seq<(TcpEndpoint, string)>, es: seq<TcpEndpoint>, name: string, j: nat)
    requires j < |es|
    ensures LinksFold(ts + TagEach(es[..j + 1], name)) == SetLink(LinksFold(ts + TagEach(es[..j], name)), (es[j], name))
  {
    TagEachSnoc(es, name, j);
    assert ts + TagEach(es[..j + 1], name) == (ts + TagEach(es[..j], name)) + [(es[j], name)];
    LinksFoldSnoc(ts + TagEach(es[..j], name), (es[j], name));
  }

  lemma LinksEnd(ts: seq<(TcpEndpoint, string)>, es: seq<TcpEndpoint>, name: string)
    ensures LinksFold(ts + TagEach(es[..|es|], name)) == LinksFold(ts + TagEach(es, name))
  {
    assert es[..|es|] == es;
  }

  lemma TagEachSnoc(es: seq<TcpEndpoint>, name: string, j: nat)
    requires j < |es|
    ensures TagEach(es[..j + 1], name) == TagEach(es[..j], name) + [(es[j], name)]
  {
    assert es[..j + 1][..j] == es[..j];
  }

  lemma LinksFoldSnoc(ts: seq<(TcpEndpoint, string)>, t: (TcpEndpoint, string))
    ensures LinksFold(ts + [t]) == SetLink(LinksFold(ts), t)
  {
    assert (ts + [t])[..|ts|] == ts;
  }

  /** The inner `device_links` loop: one bridge's endpoints, each with the bridge's name. */
  method AddBridgeLinks(links0: Dict<string, Dict<int, string>>, ghost ts: seq<(TcpEndpoint, string)>, bridge: BridgeDict)
    returns (links: Dict<string, Dict<int, string>>)
    requires links0 == LinksFold(ts)
    ensures links == LinksFold(ts + TagEach(bridge.tcpEndpoints, bridge.name))
  {
    links := links0;
    var es := bridge.tcpEndpoints;
    var j := 0;
    assert ts + TagEach(es[..0], bridge.name) == ts;
    while j < |es|
      invariant 0 <= j <= |es|
      invariant links == LinksFold(ts + TagEach(es[..j], bridge.name))
    {
      var e := es[j];
      LinksStep(ts, es, bridge.name, j);
      var inner := if e.device in links.values then links.values[e.device] else Empty();
      links := links.Put(e.device, inner.Put(e.index, bridge.name));
      j := j + 1;
    }
    LinksEnd(ts, es, bridge.name);
  }

  /** The `device_links` loops: for each bridge and each of its endpoints, the bridge's name. */
  method LinksOf(bs: seq<BridgeDict>) returns (links: Dict<string, Dict<int, string>>)
    ensures links == LinksFold(Tagged(bs))
  {
    links := Empty();
    var k := 0;
    while k < |bs|
      invariant 0 <= k <= |bs|
      invariant links == LinksFold(Tagged(bs[..k]))
    {
      links := AddBridgeLinks(links, Tagged(bs[..k]), bs[k]);
      assert bs[..k + 1][..k] == bs[..k];
      k := k + 1;
    }
    assert bs[..k] == bs;
  }

  class Topology {
    const devices: seq<TopoDevice>
    var bridges: seq<BridgeDict>
    var nextAvailableInterface: map<string, nat>
    var linksByDevice: Dict<string, Dict<int, string>>

    /** The state before the constructor's loops: validated devices, nothing allocated. */
    constructor (ds: seq<TopoDevice>)
      ensures devices == ds && bridges == [] && nextAvailableInterface == map[] && linksByDevice == Empty()
    {
      devices := ds;
      bridges := [];
      nextAvailableInterface := map[];
      linksByDevice := Empty();
    }

    function Snapshot(): Built
      reads this
    {
      Built(bridges, nextAvailableInterface)
    }

    /** `self.low_level`. */
    function LowLevelDict(): LowLevel
      reads this
    {
      LowLevel(devices, bridges, linksByDevice)
    }

    /**
     * get_next_available_interface: a device of the topology gets its
     * counter, which moves on by one; any other device raises and nothing
     * changes.
     */
    method NextAvailableInterface(device: string) returns (r: Result<nat, TopologyError>)
      modifies this
      ensures bridges == old(bridges) && linksByDevice == old(linksByDevice)
      ensures device !in Names(devices) ==>
        r == Failure(DeviceNotFound(device)) && nextAvailableInterface == old(nextAvailableInterface)
      ensures device in Names(devices) ==>
        && r == Success(Count(old(nextAvailableInterface), device))
        && nextAvailableInterface == old(nextAvailableInterface)[device := r.value + 1]
    {
      var k := 0;
      while k < |devices| && devices[k].name != device
        invariant 0 <= k <= |devices|
        invariant forall j :: 0 <= j < k ==> devices[j].name != device
      {
        k := k + 1;
      }
      if k == |devices| {
        return Failure(DeviceNotFound(device));
      }
      var index := if device in nextAvailableInterface then nextAvailableInterface[device] else 0;
      nextAvailableInterface := nextAvailableInterface[device := index + 1];
      return Success(index);
    }

    /** get_new_tcp_endpoint: the device with its next interface index. */
    method NewTcpEndpoint(device: string) returns (r: Result<TcpEndpoint, TopologyError>)
      modifies this
      ensures bridges == old(bridges) && linksByDevice == old(linksByDevice)
      ensures device !in Names(devices) ==>
        r == Failure(DeviceNotFound(device)) && nextAvailableInterface == old(nextAvailableInterface)
      ensures device in Names(devices) ==>
        && r == Success(TcpEndpoint(device, Count(old(nextAvailableInterface), device)))
        && nextAvailableInterface == old(nextAvailableInterface)[device := r.value.index + 1]
    {
      var index := NextAvailableInterface(device);
      if index.Failure? {
        return Failure(index.error);
      }
      return Success(TcpEndpoint(device, index.value));
    }

    /** get_new_point_to_point: an endpoint on each device, and the bridge joining them. */
    method NewPointToPoint(a: string, b: string) returns (r: Result<BridgeDict, TopologyError>)
      modifies this
      ensures bridges == old(bridges) && linksByDevice == old(linksByDevice)
      ensures var st := Step(Names(devices), old(Snapshot()), PointToPoint(a, b));
        && (r.Failure? <==> st.Failure?)
        && (r.Failure? ==> r.error == st.error)
        && (r.Success? ==> st.value == Built(bridges + [r.value], nextAvailableInterface))
    {
      ghost var names, next0 := Names(devices), nextAvailableInterface;
      assert [a, b] == [a] + [b] && [b] == [b] + [];
      AllocateAllCons(names, next0, a, [b]);
      var ea := NewTcpEndpoint(a);
      if ea.Failure? {
        return Failure(ea.error);
      }
      ghost var next1 := nextAvailableInterface;
      AllocateAllCons(names, next1, b, []);
      var eb := NewTcpEndpoint(b);
      if eb.Failure? {
        return Failure(eb.error);
      }
      assert AllocateAll(names, nextAvailableInterface, []) == Success(Allocation([], nextAvailableInterface));
      assert [eb.value] + [] == [eb.value];
      assert [ea.value] + [eb.value] == [ea.value, eb.value];
      assert AllocateAll(names, next0, [a, b]) == Success(Allocation([ea.value, eb.value], nextAvailableInterface));
      var bridge := BridgeDict(PointToPointName(ea.value, eb.value), [ea.value, eb.value], None, None);
      assert Step(names, Built(bridges, next0), PointToPoint(a, b)) == Success(Built(bridges + [bridge], nextAvailableInterface));
      return Success(BridgeDict(PointToPointName(ea.value, eb.value), [ea.value, eb.value], None, None));
    }

    /** `point_to_point = self.get_new_point_to_point(…); self.bridges.append(point_to_point)`. */
    method AppendPointToPoint(a: string, b: string) returns (err: Option<TopologyError>)
      modifies this
      ensures linksByDevice == old(linksByDevice)
      ensures var st := Step(Names(devices), old(Snapshot()), PointToPoint(a, b));
        && (err.Some? <==> st.Failure?)
        && (err.Some? ==> err.value == st.error)
        && (err.None? ==> st.value == Snapshot())
    {
      var r := NewPointToPoint(a, b);
      if r.Failure? {
        return Some(r.error);
      }
      bridges := bridges + [r.value];
      return None;
    }

    /** One multipoint hub: an endpoint per member, in order, then the bridge. */
    method AddHub(hubname: string, members: seq<string>) returns (err: Option<TopologyError>)
      modifies this
      ensures linksByDevice == old(linksByDevice)
      ensures var st := Step(Names(devices), old(Snapshot()), Hub(hubname, members));
        && (err.Some? <==> st.Failure?)
        && (err.Some? ==> err.value == st.error)
        && (err.None? ==> st.value == Snapshot())
    {
      ghost var names, next0 := Names(devices), nextAvailableInterface;
      var tcpEndpoints := [];
      var j := 0;
      PrependNothing(AllocateAll(names, next0, members));
      while j < |members|
        invariant 0 <= j <= |members|
        invariant bridges == old(bridges) && linksByDevice == old(linksByDevice)
        invariant AllocateAll(names, next0, members) == Prepend(tcpEndpoints, AllocateAll(names, nextAvailableInterface, members[j..]))
      {
        assert members[j..] == [members[j]] + members[j + 1..];
        AllocateAllCons(names, nextAvailableInterface, members[j], members[j + 1..]);
        var e := NewTcpEndpoint(members[j]);
        if e.Failure? {
          return Some(e.error);
        }
        PrependTwice(tcpEndpoints, [e.value], AllocateAll(names, nextAvailableInterface, members[j + 1..]));
        tcpEndpoints := tcpEndpoints + [e.value];
        j := j + 1;
      }
      assert members[j..] == [];
      assert tcpEndpoints + [] == tcpEndpoints;
      assert AllocateAll(names, next0, members) == Success(Allocation(tcpEndpoints, nextAvailableInterface));
      bridges := bridges + [BridgeDict(hubname, tcpEndpoints, None, None)];
      return None;
    }

    /**
     * The point_to_point section: for each device in key order, a bridge
     * to each of its neighbours. `later` are the requests that follow, and
     * `goal` what the whole expansion gives.
     */
    method AddPointToPoints(p2p: Dict<string, seq<string>>, ghost later: seq<Shape>, ghost goal: Result<Built, TopologyError>)
      returns (err: Option<TopologyError>)
      requires p2p.Valid()
      requires BuildFrom(Names(devices), Snapshot(), PointToPointPlan(p2p, p2p.keys) + later) == goal
      modifies this
      ensures linksByDevice == old(linksByDevice)
      ensures err.Some? ==> goal == Failure(err.value)
      ensures err.None? ==> BuildFrom(Names(devices), Snapshot(), later) == goal
    {
      ghost var names := Names(devices);
      var k := 0;
      while k < |p2p.keys|
        invariant 0 <= k <= |p2p.keys|
        invariant linksByDevice == old(linksByDevice)
        invariant BuildFrom(names, Snapshot(), PointToPointPlan(p2p, p2p.keys[k..]) + later) == goal
      {
        PointToPointPlanAt(p2p, k, later);
        var device := p2p.keys[k];
        var neighbors := p2p.values[device];
        err := AddRow(device, neighbors, PointToPointPlan(p2p, p2p.keys[k + 1..]) + later, goal);
        if err.Some? {
          return;
        }
        k := k + 1;
      }
      assert p2p.keys[k..] == [] && [] + later == later;
      return None;
    }

    /** One device's row of the point-to-point section, a bridge per neighbour in order. */
    method AddRow(device: string, neighbors: seq<string>, ghost later: seq<Shape>, ghost goal: Result<Built, TopologyError>)
      returns (err: Option<TopologyError>)
      requires BuildFrom(Names(devices), Snapshot(), Row(device, neighbors) + later) == goal
      modifies this
      ensures linksByDevice == old(linksByDevice)
      ensures err.Some? ==> goal == Failure(err.value)
      ensures err.None? ==> BuildFrom(Names(devices), Snapshot(), later) == goal
    {
      ghost var names := Names(devices);
      assert neighbors[0..] == neighbors;
      var j := 0;
      while j < |neighbors|
        invariant 0 <= j <= |neighbors|
        invariant linksByDevice == old(linksByDevice)
        invariant BuildFrom(names, Snapshot(), Row(device, neighbors[j..]) + later) == goal
      {
        RowAt(device, neighbors, j, later);
        BuildFromCons(names, Snapshot(), PointToPoint(device, neighbors[j]), Row(device, neighbors[j + 1..]) + later);
        err := AppendPointToPoint(device, neighbors[j]);
        if err.Some? {
          return;
        }
        j := j + 1;
      }
      assert neighbors[j..] == [] && [] + later == later;
      return None;
    }

    /** The full_mesh_p2p section: for each group, a bridge per pair, in combinations order. */
    method AddFullMeshes(groups: seq<seq<string>>, ghost later: seq<Shape>, ghost goal: Result<Built, TopologyError>)
      returns (err: Option<TopologyError>)
      requires BuildFrom(Names(devices), Snapshot(), MeshPlan(groups) + later) == goal
      modifies this
      ensures linksByDevice == old(linksByDevice)
      ensures err.Some? ==> goal == Failure(err.value)
      ensures err.None? ==> BuildFrom(Names(devices), Snapshot(), later) == goal
    {
      ghost var names := Names(devices);
      var k := 0;
      while k < |groups|
        invariant 0 <= k <= |groups|
        invariant linksByDevice == old(linksByDevice)
        invariant BuildFrom(names, Snapshot(), MeshPlan(groups[k..]) + later) == goal
      {
        MeshPlanAt(groups, k, later);
        var pairs := Pairs(groups[k]);
        ghost var rest := MeshPlan(groups[k + 1..]) + later;
        assert pairs[0..] == pairs;
        var j := 0;
        while j < |pairs|
          invariant 0 <= j <= |pairs|
          invariant linksByDevice == old(linksByDevice)
          invariant BuildFrom(names, Snapshot(), MeshRow(pairs[j..]) + rest) == goal
        {
          var (left, right) := pairs[j];
          MeshRowAt(pairs, j, rest);
          BuildFromCons(names, Snapshot(), PointToPoint(left, right), MeshRow(pairs[j + 1..]) + rest);
          err := AppendPointToPoint(left, right);
          if err.Some? {
            return;
          }
          j := j + 1;
        }
        assert pairs[j..] == [] && [] + rest == rest;
        k := k + 1;
      }
      assert groups[k..] == [] && [] + later == later;
      return None;
    }

    /** The multipoint section: one hub bridge per key, in key order. */
    method AddHubs(mp: Dict<string, seq<string>>, ghost later: seq<Shape>, ghost goal: Result<Built, TopologyError>)
      returns (err: Option<TopologyError>)
      requires mp.Valid()
      requires BuildFrom(Names(devices), Snapshot(), HubPlan(mp, mp.keys) + later) == goal
      modifies this
      ensures linksByDevice == old(linksByDevice)
      ensures err.Some? ==> goal == Failure(err.value)
      ensures err.None? ==> BuildFrom(Names(devices), Snapshot(), later) == goal
    {
      ghost var names := Names(devices);
      var k := 0;
      while k < |mp.keys|
        invariant 0 <= k <= |mp.keys|
        invariant linksByDevice == old(linksByDevice)
        invariant BuildFrom(names, Snapshot(), HubPlan(mp, mp.keys[k..]) + later) == goal
      {
        HubPlanAt(mp, k, later);
        var hubname := mp.keys[k];
        ghost var rest := HubPlan(mp, mp.keys[k + 1..]) + later;
        BuildFromCons(names, Snapshot(), Hub(hubname, mp.values[hubname]), rest);
        err := AddHub(hubname, mp.values[hubname]);
        if err.Some? {
          return;
        }
        k := k + 1;
      }
      assert mp.keys[k..] == [] && [] + later == later;
      return None;
    }

    /** `self.links_by_device`, from the bridges built. */
    method BuildLinks()
      modifies this
      ensures bridges == old(bridges) && nextAvailableInterface == old(nextAvailableInterface)
      ensures linksByDevice == LinksFold(Tagged(bridges))
    {
      linksByDevice := LinksOf(bridges);
    }

    /** The constructor's loops, from the validated devices. */
    method Expand(h: HighLevel) returns (err: Option<TopologyError>)
      requires HighLevelValid(h) && bridges == [] && nextAvailableInterface == map[]
      modifies this
      ensures err.Some? <==> Build(Names(devices), Plan(h)).Failure?
      ensures err.Some? ==> err.value == Build(Names(devices), Plan(h)).error
      ensures err.None? ==> Build(Names(devices), Plan(h)).value == Snapshot()
      ensures err.None? ==> linksByDevice == LinksFold(Tagged(bridges))
    {
      err := AddShapes(h);
      if err.None? {
        BuildLinks();
      }
    }

    /** The point-to-point, full-mesh and multipoint loops, in that order; the first error stops them. */
    method AddShapes(h: HighLevel) returns (err: Option<TopologyError>)
      requires HighLevelValid(h) && bridges == [] && nextAvailableInterface == map[]
      modifies this
      ensures err.Some? ==> Build(Names(devices), Plan(h)) == Failure(err.value)
      ensures err.None? ==> Build(Names(devices), Plan(h)) == Success(Snapshot())
    {
      ghost var goal := Build(Names(devices), Plan(h));
      ghost var mesh, hubs := MeshPlan(h.fullMesh), HubPlan(h.multipoint, h.multipoint.keys);
      assert Plan(h) == PointToPointPlan(h.pointToPoint, h.pointToPoint.keys) + (mesh + hubs);
      assert Snapshot() == Built([], map[]);
      err := AddPointToPoints(h.pointToPoint, mesh + hubs, goal);
      if err.Some? {
        return;
      }
      err := AddGroups(h, goal);
    }

    /** The full-mesh and multipoint loops, after the point-to-point one. */
    method AddGroups(h: HighLevel, ghost goal: Result<Built, TopologyError>) returns (err: Option<TopologyError>)
      requires h.multipoint.Valid()
      requires BuildFrom(Names(devices), Snapshot(), MeshPlan(h.fullMesh) + HubPlan(h.multipoint, h.multipoint.keys)) == goal
      modifies this
      ensures err.Some? ==> goal == Failure(err.value)
      ensures err.None? ==> goal == Success(Snapshot())
    {
      ghost var hubs := HubPlan(h.multipoint, h.multipoint.keys);
      err := AddFullMeshes(h.fullMesh, hubs, goal);
      if err.Some? {
        return;
      }
      assert hubs + [] == hubs;
      err := AddHubs(h.multipoint, [], goal);
    }
  }

  /** `Topology(high_level_data)`: a new topology, or the error the constructor raises. */
  method NewTopology(h: HighLevel) returns (r: Result<Topology, TopologyError>)
    requires HighLevelValid(h)
    ensures r.Failure? <==> TopologySpec(h).Failure?
    ensures r.Failure? ==> r.error == TopologySpec(h).error
    ensures r.Success? ==> fresh(r.value) && r.value.LowLevelDict() == TopologySpec(h).value
  {
    var ds := ValidateDevices(h.devices);
    if ds.Failure? {
      return Failure(ds.error);
    }
    var t := new Topology(ds.value);
    var err := t.Expand(h);
    if err.Some? {
      return Failure(err.value);
    }
    return Success(t);
  }
}
