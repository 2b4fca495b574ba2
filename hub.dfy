/**
 * The bridge process of src/ndlab/connect.py as bookkeeping: queues of byte
 * strings, endpoints that own one receive queue and forward into a list of
 * send queues, the hub wiring of `Bridge.connect`, and the sniffer's capture
 * sessions. Each asyncio handler is modelled by the step it performs for one
 * frame; the event loop that interleaves those steps is not modelled.
 */
module Hub {
  import opened Wrappers
  import opened Dicts
  import opened Framing

  /** Sniffer sessions allowed at once (connect.py MAX_CAPTURE_CONNECTIONS). */
  const MAX_CAPTURE_CONNECTIONS: nat := 1

  /** An asyncio.Queue of byte strings; `items` is what waits in it, oldest first. */
  class Queue {
    var items: seq<Bytes>

    constructor ()
      ensures items == []
    {
      items := [];
    }

    /** `await queue.put(x)` on an unbounded queue. */
    method Put(x: Bytes)
      modifies this
      ensures items == old(items) + [x]
    {
      items := items + [x];
    }

    /** `await queue.get()`: the coroutine resumes only once an item is there. */
    method Get() returns (x: Bytes)
      requires items != []
      modifies this
      ensures x == old(items[0]) && items == old(items[1..])
    {
      x := items[0];
      items := items[1..];
    }
  }

  // ---------------------------------------------------------------------------
  // Occurrence counting, for fan-out to a list that may name a queue twice

  function Count<T(==)>(s: seq<T>, x: T): (n: nat)
    ensures n <= |s|
    ensures n == 0 <==> x !in s
  {
    if |s| == 0 then 0
    else Count(s[..|s| - 1], x) + (if s[|s| - 1] == x then 1 else 0)
  }

  /** A queue named once in a list without repetitions is counted once. */
  lemma {:induction false} CountDistinct<T>(s: seq<T>, x: T)
    requires Distinct(s) && x in s
    ensures Count(s, x) == 1
  {
    var init := s[..|s| - 1];
    if s[|s| - 1] == x {
      assert x !in init;
    } else {
      assert x in init;
      CountDistinct(init, x);
    }
  }

  function Repeat(x: Bytes, n: nat): (r: seq<Bytes>)
    ensures |r| == n && forall i :: 0 <= i < n ==> r[i] == x
  {
    if n == 0 then [] else Repeat(x, n - 1) + [x]
  }

  /**
   * `for queue in queues: await queue.put(x)`: every queue receives `x` once
   * for each time the list names it.
   */
  method PutAll(queues: seq<Queue>, x: Bytes)
    modifies queues
    ensures forall q :: q in queues ==> q.items == old(q.items) + Repeat(x, Count(queues, q))
  {
    var i := 0;
    while i < |queues|
      invariant 0 <= i <= |queues|
      invariant forall q :: q in queues ==> q.items == old(q.items) + Repeat(x, Count(queues[..i], q))
    {
      assert queues[..i + 1][..i] == queues[..i];
      queues[i].Put(x);
      i := i + 1;
    }
    assert queues[..i] == queues;
  }

  // ---------------------------------------------------------------------------
  // Endpoints

  /** The three endpoint classes of connect.py, told apart by what they connect to. */
  datatype Kind =
    | TcpClient(ipAddress: string, port: int)
    | PhysicalInterface(interface: string)
    | SnifferServer(bindAddress: string, port: int)

  class Endpoint {
    const kind: Kind
    /** Frames other endpoints put here for this one to send out. */
    const receiveQueue: Queue
    /** The receive queues of the other endpoints, filled by `Bridge.Connect`. */
    var sendQueues: seq<Queue>
    /** What this endpoint has written to its socket or interface, in order. */
    var transmitted: seq<Bytes>
    /** Sniffer only: one queue per open capture session. */
    var captureQueues: seq<Queue>

    constructor (kind: Kind)
      ensures this.kind == kind
      ensures fresh(receiveQueue) && receiveQueue.items == []
      ensures sendQueues == [] && transmitted == [] && captureQueues == []
    {
      this.kind := kind;
      receiveQueue := new Queue();
      sendQueues := [];
      transmitted := [];
      captureQueues := [];
    }

    /**
     * One iteration of TCPClient.read_handler: an empty read ends the loop;
     * any other chunk goes to every send queue unchanged.
     */
    method TcpRead(data: Bytes) returns (keepReading: bool)
      requires kind.TcpClient?
      modifies sendQueues
      ensures keepReading <==> data != []
      ensures !keepReading ==> forall q :: q in sendQueues ==> q.items == old(q.items)
      ensures keepReading ==> forall q :: q in sendQueues ==> q.items == old(q.items) + Repeat(data, Count(sendQueues, q))
    {
      if data == [] {
        return false;
      }
      PutAll(sendQueues, data);
      return true;
    }

    /** One iteration of TCPClient.write_handler: the next queued chunk is written as is. */
    method TcpWrite()
      requires kind.TcpClient? && receiveQueue.items != []
      modifies this, receiveQueue
      ensures receiveQueue.items == old(receiveQueue.items[1..])
      ensures transmitted == old(transmitted) + [old(receiveQueue.items[0])]
      ensures sendQueues == old(sendQueues) && captureQueues == old(captureQueues)
    {
      var chunk := receiveQueue.Get();
      transmitted := transmitted + [chunk];
    }

    /**
     * One iteration of write_physical: the queued payload is unwrapped; an
     * empty result is dropped, anything else is sent on the interface.
     */
    method PhysicalWrite()
      requires kind.PhysicalInterface? && receiveQueue.items != []
      modifies this, receiveQueue
      ensures receiveQueue.items == old(receiveQueue.items[1..])
      ensures var packet := GetPacketFromPayload(old(receiveQueue.items[0]));
        transmitted == old(transmitted) + (if packet == [] then [] else [packet])
      ensures sendQueues == old(sendQueues) && captureQueues == old(captureQueues)
    {
      var payload := receiveQueue.Get();
      var packet := GetPacketFromPayload(payload);
      if packet == [] {
        return;
      }
      transmitted := transmitted + [packet];
    }

    /**
     * One iteration of read_physical: the raw frame (at most MAX_READ bytes)
     * is wrapped with its length prefix and put to every send queue.
     */
    method PhysicalRead(frame: Bytes)
      requires kind.PhysicalInterface? && |frame| <= MAX_READ
      modifies sendQueues
      ensures forall q :: q in sendQueues ==>
        q.items == old(q.items) + Repeat(GetPayloadFromPacket(frame), Count(sendQueues, q))
    {
      var payload := GetPayloadFromPacket(frame);
      PutAll(sendQueues, payload);
    }

    /** The sniffer's session list: no more than allowed, no queue twice. */
    ghost predicate SessionsValid()
      reads this
    {
      |captureQueues| <= MAX_CAPTURE_CONNECTIONS && Distinct(captureQueues)
    }

    /**
     * TCPSnifferServer.start_session up to its handlers: with the limit
     * reached the client is turned away and nothing changes; otherwise a new
     * queue holding the libpcap global header joins the session list.
     */
    method StartSession() returns (session: Option<Queue>)
      requires kind.SnifferServer? && SessionsValid()
      modifies this
      ensures SessionsValid()
      ensures old(|captureQueues|) >= MAX_CAPTURE_CONNECTIONS ==>
        session.None? && captureQueues == old(captureQueues)
      ensures old(|captureQueues|) < MAX_CAPTURE_CONNECTIONS ==>
        && session.Some? && fresh(session.value)
        && session.value.items == [PcapHeader()]
        && captureQueues == old(captureQueues) + [session.value]
      ensures sendQueues == old(sendQueues) && transmitted == old(transmitted)
    {
      if |captureQueues| >= MAX_CAPTURE_CONNECTIONS {
        return None;
      }
      var q := new Queue();
      q.Put(PcapHeader());
      captureQueues := captureQueues + [q];
      return Some(q);
    }

    /** The `finally` of start_session: the session's own queue, and only it, leaves the list. */
    method EndSession(session: Queue)
      requires kind.SnifferServer? && SessionsValid() && session in captureQueues
      modifies this
      ensures SessionsValid()
      ensures captureQueues == Without(old(captureQueues), session)
      ensures |captureQueues| == old(|captureQueues|) - 1
      ensures sendQueues == old(sendQueues) && transmitted == old(transmitted)
    {
      captureQueues := RemoveFirst(captureQueues, session);
      RemoveFirstDistinct(old(captureQueues), session);
      WithoutDistinct(old(captureQueues), session);
    }

    /**
     * One iteration of forward_payloads_to_sessions: the payload is
     * unwrapped (possibly to nothing), stamped with the given time, and the
     * same record is put to every open session.
     */
    method SnifferForward(seconds: nat, microseconds: nat)
      requires kind.SnifferServer? && receiveQueue.items != []
      requires seconds < TWO_TO_32 && microseconds < 1_000_000
      requires receiveQueue !in captureQueues
      modifies receiveQueue, captureQueues
      ensures receiveQueue.items == old(receiveQueue.items[1..])
      ensures var record := PcapRecord(seconds, microseconds, GetPacketFromPayload(old(receiveQueue.items[0])));
        forall q :: q in captureQueues ==> q.items == old(q.items) + Repeat(record, Count(captureQueues, q))
    {
      var payload := receiveQueue.Get();
      var packet := GetPacketFromPayload(payload);
      var record := PcapRecord(seconds, microseconds, packet);
      PutAll(captureQueues, record);
    }
  }

  /** `list.remove(x)`: the first occurrence goes. */
  function RemoveFirst<T(==)>(s: seq<T>, x: T): (r: seq<T>)
    requires x in s
    ensures |r| == |s| - 1
    ensures multiset(r) == multiset(s) - multiset{x}
  {
    assert s == [s[0]] + s[1..];
    if s[0] == x then s[1..] else [s[0]] + RemoveFirst(s[1..], x)
  }

  /** In a list without repetitions, removing the first occurrence removes the element. */
  lemma {:induction false} RemoveFirstDistinct<T>(s: seq<T>, x: T)
    requires Distinct(s) && x in s
    ensures RemoveFirst(s, x) == Without(s, x)
  {
    assert s == [s[0]] + s[1..];
    if s[0] == x {
      assert x !in s[1..];
      WithoutAbsent(s[1..], x);
      WithoutCons(s[0], s[1..], x);
    } else {
      RemoveFirstDistinct(s[1..], x);
      WithoutCons(s[0], s[1..], x);
    }
  }

  lemma {:induction false} WithoutCons<T>(a: T, s: seq<T>, x: T)
    ensures Without([a] + s, x) == (if a == x then [] else [a]) + Without(s, x)
    decreases |s|
  {
    if |s| > 0 {
      var t := [a] + s;
      assert t[..|t| - 1] == [a] + s[..|s| - 1];
      WithoutCons(a, s[..|s| - 1], x);
    } else {
      assert [a] + s == [a];
      assert [a][..0] == [];
    }
  }

  // ---------------------------------------------------------------------------
  // Hub wiring

  function ReceiveQueues(endpoints: seq<Endpoint>): (qs: seq<Queue>)
    ensures |qs| == |endpoints|
    ensures forall k :: 0 <= k < |endpoints| ==> qs[k] == endpoints[k].receiveQueue
  {
    seq(|endpoints|, k requires 0 <= k < |endpoints| => endpoints[k].receiveQueue)
  }

  /**
   * What endpoint `k` has been given by the first `i` rounds of the
   * permutation loop: the receive queue of every earlier endpoint but itself.
   */
  function LinksBefore(qs: seq<Queue>, k: nat, i: nat): seq<Queue>
    requires i <= |qs|
  {
    if i == 0 then []
    else LinksBefore(qs, k, i - 1) + (if i - 1 != k then [qs[i - 1]] else [])
  }

  /** The send queues of endpoint `k` once the loop is done. */
  function Links(qs: seq<Queue>, k: nat): seq<Queue>
  {
    LinksBefore(qs, k, |qs|)
  }

  /** The same prefix in closed form: the first `i` queues, without the `k`-th. */
  function OthersBefore(qs: seq<Queue>, k: nat, i: nat): (r: seq<Queue>)
    requires k < |qs| && i <= |qs|
    ensures |r| == if i <= k then i else i - 1
  {
    if i <= k then qs[..i] else qs[..k] + qs[k + 1..i]
  }

  /** One more round: every endpoint but `i` gets `qs[i]` at the end of its prefix. */
  lemma OthersStep(qs: seq<Queue>, i: nat)
    requires i < |qs|
    ensures forall k :: 0 <= k < |qs| && k != i ==> OthersBefore(qs, k, i + 1) == OthersBefore(qs, k, i) + [qs[i]]
    ensures OthersBefore(qs, i, i + 1) == OthersBefore(qs, i, i)
  {
    forall k | 0 <= k < |qs| && k != i
      ensures OthersBefore(qs, k, i + 1) == OthersBefore(qs, k, i) + [qs[i]]
    {
      if i < k {
        assert qs[..i + 1] == qs[..i] + [qs[i]];
      } else {
        assert qs[k + 1..i + 1] == qs[k + 1..i] + [qs[i]];
      }
    }
  }

  /** The loop-order definition agrees with the closed form. */
  lemma {:induction false} LinksBeforeClosedForm(qs: seq<Queue>, k: nat, i: nat)
    requires k < |qs| && i <= |qs|
    ensures LinksBefore(qs, k, i) == OthersBefore(qs, k, i)
  {
    if i > 0 {
      LinksBeforeClosedForm(qs, k, i - 1);
      if i - 1 > k {
        assert qs[k + 1..i] == qs[k + 1..i - 1] + [qs[i - 1]];
      } else if i - 1 < k {
        assert qs[..i] == qs[..i - 1] + [qs[i - 1]];
      }
    }
  }

  lemma LinksAreOthers(qs: seq<Queue>)
    ensures forall k :: 0 <= k < |qs| ==> Links(qs, k) == OthersBefore(qs, k, |qs|)
  {
    forall k | 0 <= k < |qs|
      ensures Links(qs, k) == OthersBefore(qs, k, |qs|)
    {
      LinksBeforeClosedForm(qs, k, |qs|);
    }
  }

  /** Endpoint `k` is linked to all the others, in list order, and not to itself. */
  lemma LinksInOrder(qs: seq<Queue>, k: nat)
    requires k < |qs|
    ensures Links(qs, k) == qs[..k] + qs[k + 1..]
    ensures |Links(qs, k)| == |qs| - 1
  {
    LinksBeforeClosedForm(qs, k, |qs|);
  }

  /**
   * With one receive queue per endpoint, endpoint `k` sends to each other
   * endpoint's queue exactly once and never to its own.
   */
  lemma LinksExactlyOnce(qs: seq<Queue>, k: nat, q: Queue)
    requires Distinct(qs) && k < |qs|
    ensures Distinct(Links(qs, k))
    ensures Count(Links(qs, k), q) == if q in qs && q != qs[k] then 1 else 0
  {
    LinksInOrder(qs, k);
    var l := Links(qs, k);
    assert forall i :: 0 <= i < |l| ==> l[i] == if i < k then qs[i] else qs[i + 1];
    if q in qs && q != qs[k] {
      CountDistinct(l, q);
    } else {
      assert q !in l;
    }
  }

  /** Sum of the link counts of the first `m` endpoints. */
  function TotalLinks(qs: seq<Queue>, m: nat): nat
    requires m <= |qs|
  {
    if m == 0 then 0 else TotalLinks(qs, m - 1) + |Links(qs, m - 1)|
  }

  /** The mesh has n * (n - 1) links. */
  lemma {:induction false} TotalLinksCount(qs: seq<Queue>, m: nat)
    requires m <= |qs|
    ensures TotalLinks(qs, m) == m * (|qs| - 1)
  {
    if m > 0 {
      TotalLinksCount(qs, m - 1);
      LinksInOrder(qs, m - 1);
    }
  }

  class Bridge {
    const name: string
    /** Shares its list with `combined` (Bridge.__init__ aliases the two). */
    const tcpEndpoints: seq<Endpoint>
    const physicalEndpoint: Endpoint?
    const snifferEndpoint: Endpoint?
    const combined: seq<Endpoint>

    /** Bridge.__init__: the TCP endpoints, then the physical one, then the sniffer, each when present. */
    constructor (name: string, tcpEndpoints: seq<Endpoint>, physicalEndpoint: Endpoint?, snifferEndpoint: Endpoint?)
      ensures this.name == name
      ensures this.physicalEndpoint == physicalEndpoint && this.snifferEndpoint == snifferEndpoint
      ensures combined == tcpEndpoints
                          + (if physicalEndpoint != null then [physicalEndpoint] else [])
                          + (if snifferEndpoint != null then [snifferEndpoint] else [])
      ensures this.tcpEndpoints == combined
    {
      this.name := name;
      this.physicalEndpoint := physicalEndpoint;
      this.snifferEndpoint := snifferEndpoint;
      var all := tcpEndpoints;
      if physicalEndpoint != null {
        all := all + [physicalEndpoint];
      }
      if snifferEndpoint != null {
        all := all + [snifferEndpoint];
      }
      this.combined := all;
      this.tcpEndpoints := all;
    }

    /** Each endpoint of the bridge owns its own receive queue. */
    ghost predicate OwnQueues() {
      forall i, j :: 0 <= i < j < |combined| ==> combined[i].receiveQueue != combined[j].receiveQueue
    }

    /**
     * The wiring loop of Bridge.connect: for every ordered pair of distinct
     * positions (i, j), endpoint j is given endpoint i's receive queue.
     */
    method Connect()
      requires OwnQueues()
      modifies combined
      ensures forall k :: 0 <= k < |combined| ==>
        combined[k].sendQueues == old(combined[k].sendQueues) + Links(ReceiveQueues(combined), k)
    {
      var n := |combined|;
      ghost var qs := ReceiveQueues(combined);
      ghost var before := SendQueuesOf(combined);
      var i := 0;
      while i < n
        invariant 0 <= i <= n
        invariant forall k :: 0 <= k < n ==> combined[k].sendQueues == before[k] + OthersBefore(qs, k, i)
      {
        ConnectRound(i);
        OthersStep(qs, i);
        i := i + 1;
      }
      LinksAreOthers(qs);
    }

    /**
     * Round i of the permutation loop: every endpoint but i is given
     * endpoint i's receive queue.
     */
    method ConnectRound(i: nat)
      requires OwnQueues() && i < |combined|
      modifies combined
      ensures forall k :: 0 <= k < |combined| && k != i ==>
        combined[k].sendQueues == old(combined[k].sendQueues) + [combined[i].receiveQueue]
      ensures combined[i].sendQueues == old(combined[i].sendQueues)
    {
      var n := |combined|;
      var j := 0;
      while j < n
        invariant 0 <= j <= n
        invariant forall k :: 0 <= k < j && k != i ==>
          combined[k].sendQueues == old(combined[k].sendQueues) + [combined[i].receiveQueue]
        invariant forall k :: j <= k < n || k == i ==> 0 <= k < n ==>
          combined[k].sendQueues == old(combined[k].sendQueues)
      {
        if j != i {
          var e := combined[j];
          assert forall k :: 0 <= k < n && k != j ==> combined[k] != e;
          e.sendQueues := e.sendQueues + [combined[i].receiveQueue];
        }
        j := j + 1;
      }
    }
  }

  ghost function SendQueuesOf(endpoints: seq<Endpoint>): (r: seq<seq<Queue>>)
    reads endpoints
    ensures |r| == |endpoints|
    ensures forall k :: 0 <= k < |endpoints| ==> r[k] == endpoints[k].sendQueues
  {
    if |endpoints| == 0 then []
    else SendQueuesOf(endpoints[..|endpoints| - 1]) + [endpoints[|endpoints| - 1].sendQueues]
  }

}
