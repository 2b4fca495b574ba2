/**
 * The byte formats of the bridge process (src/ndlab/connect.py):
 *
 *  - a payload on a TCP endpoint is a 4-byte network-order length followed
 *    by the Ethernet frame (the QEMU socket netdev format);
 *  - the sniffer speaks the libpcap file format: a 24-byte global header
 *    once, then a 16-byte record header before every frame.
 *
 * All multi-byte integers are big-endian.
 */
module Framing {

  newtype byte = x: int | 0 <= x < 256

  type Bytes = seq<byte>

  /** Size of the length prefix (connect.py LENGTH). */
  const LENGTH: nat := 4

  const TWO_TO_32: nat := 0x1_0000_0000

  /** Largest chunk read from a socket in one call (connect.py MAX_READ). */
  const MAX_READ: nat := 10000

  // ---------------------------------------------------------------------------
  // Big-endian integers, struct formats "!I", "!H" and "!i"

  function DecodeU16BE(b: Bytes): (n: nat)
    requires |b| == 2
    ensures n < 0x1_0000
  {
    b[0] as nat * 256 + b[1] as nat
  }

  function DecodeU32BE(b: Bytes): (n: nat)
    requires |b| == 4
    ensures n < TWO_TO_32
  {
    DecodeU16BE(b[..2]) * 0x1_0000 + DecodeU16BE(b[2..])
  }

  /** `struct.pack("!H", n)`. */
  function U16BE(n: nat): (r: Bytes)
    requires n < 0x1_0000
    ensures |r| == 2 && DecodeU16BE(r) == n
  {
    [(n / 256) as byte, (n % 256) as byte]
  }

  /** `struct.pack("!I", n)`: the high half, then the low half. */
  function U32BE(n: nat): (r: Bytes)
    requires n < TWO_TO_32
    ensures |r| == 4 && DecodeU32BE(r) == n
  {
    var r := U16BE(n / 0x1_0000) + U16BE(n % 0x1_0000);
    assert r[..2] == U16BE(n / 0x1_0000) && r[2..] == U16BE(n % 0x1_0000);
    r
  }

  /** `struct.pack("!i", i)`: two's complement. */
  function I32BE(i: int): (r: Bytes)
    requires -0x8000_0000 <= i < 0x8000_0000
    ensures |r| == 4
    ensures DecodeU32BE(r) == if i < 0 then i + TWO_TO_32 else i
  {
    U32BE(if i < 0 then i + TWO_TO_32 else i)
  }

  lemma U16BEOfDecode(b: Bytes)
    requires |b| == 2
    ensures U16BE(DecodeU16BE(b)) == b
  {
    var n := DecodeU16BE(b);
    assert n / 256 == b[0] as nat && n % 256 == b[1] as nat;
  }

  /** Four bytes are the encoding of the number they decode to. */
  lemma U32BEOfDecode(b: Bytes)
    requires |b| == 4
    ensures U32BE(DecodeU32BE(b)) == b
  {
    var hi, lo := DecodeU16BE(b[..2]), DecodeU16BE(b[2..]);
    var n := DecodeU32BE(b);
    assert n / 0x1_0000 == hi && n % 0x1_0000 == lo;
    U16BEOfDecode(b[..2]);
    U16BEOfDecode(b[2..]);
    assert b == b[..2] + b[2..];
  }

  // ---------------------------------------------------------------------------
  // Length-prefix framing (get_payload_from_packet / get_packet_from_payload)

  /** A payload whose prefix announces exactly the number of bytes after it. */
  predicate WellFramed(payload: Bytes) {
    |payload| >= LENGTH && DecodeU32BE(payload[..LENGTH]) == |payload| - LENGTH
  }

  /**
   * get_payload_from_packet: `struct.pack("I", htonl(len))` is the length in
   * network order on every host, followed by the packet itself.
   */
  function GetPayloadFromPacket(packet: Bytes): (payload: Bytes)
    requires |packet| < TWO_TO_32
    ensures |payload| == |packet| + LENGTH
    ensures DecodeU32BE(payload[..LENGTH]) == |packet|
    ensures payload[LENGTH..] == packet
  {
    U32BE(|packet|) + packet
  }

  /**
   * get_packet_from_payload: the bytes after the prefix, or the empty string
   * when the payload is too short or the prefix disagrees with its length.
   */
  function GetPacketFromPayload(payload: Bytes): (packet: Bytes)
    ensures packet == [] || (|payload| >= LENGTH && packet == payload[LENGTH..])
    ensures |packet| < TWO_TO_32
  {
    if |payload| < LENGTH then []
    else
      var reportedSize := DecodeU32BE(payload[..LENGTH]);
      var packet := payload[LENGTH..];
      if |packet| != reportedSize then [] else packet
  }

  lemma PayloadIsWellFramed(packet: Bytes)
    requires |packet| < TWO_TO_32
    ensures WellFramed(GetPayloadFromPacket(packet))
  {
  }

  /** Unwrapping what was wrapped gives back the packet, the empty one included. */
  lemma UnwrapWrap(packet: Bytes)
    requires |packet| < TWO_TO_32
    ensures GetPacketFromPayload(GetPayloadFromPacket(packet)) == packet
  {
    var payload := GetPayloadFromPacket(packet);
    assert payload[LENGTH..] == packet;
  }

  /** A payload is rejected (empty result) exactly when it is not well framed, or frames the empty packet. */
  lemma UnwrapEmpty(payload: Bytes)
    ensures GetPacketFromPayload(payload) == [] <==> !WellFramed(payload) || |payload| == LENGTH
  {
  }

  /** Every well-framed payload is the wrapping of what it unwraps to. */
  lemma WrapUnwrap(payload: Bytes)
    requires WellFramed(payload)
    ensures |GetPacketFromPayload(payload)| < TWO_TO_32
    ensures GetPayloadFromPacket(GetPacketFromPayload(payload)) == payload
  {
    U32BEOfDecode(payload[..LENGTH]);
    assert payload == payload[..LENGTH] + payload[LENGTH..];
  }

  // ---------------------------------------------------------------------------
  // libpcap (PCAP.HEADER, PCAP.get_pcap_from_packet)

  const MAGIC_NUMBER: nat := 0xA1B2C3D4
  const VERSION_MAJOR: nat := 2
  const VERSION_MINOR: nat := 4
  const GMT_OFFSET: int := 0
  const TIMESTAMP_ACCURACY: nat := 0
  const MAX_PACKET_LENGTH: nat := 65535
  const DATA_LINK_TYPE: nat := 1

  /** `struct.pack("!IHHiIII", ...)`: the libpcap global header. */
  function PcapHeader(): (h: Bytes)
    ensures |h| == 24
  {
    U32BE(MAGIC_NUMBER) + U16BE(VERSION_MAJOR) + U16BE(VERSION_MINOR) + I32BE(GMT_OFFSET)
    + U32BE(TIMESTAMP_ACCURACY) + U32BE(MAX_PACKET_LENGTH) + U32BE(DATA_LINK_TYPE)
  }

  /** The global header read back field by field gives the libpcap constants. */
  lemma PcapHeaderFields()
    ensures var h := PcapHeader();
      && DecodeU32BE(h[0..4]) == 0xA1B2C3D4
      && DecodeU16BE(h[4..6]) == 2 && DecodeU16BE(h[6..8]) == 4
      && DecodeU32BE(h[8..12]) == 0 && DecodeU32BE(h[12..16]) == 0
      && DecodeU32BE(h[16..20]) == 65535 && DecodeU32BE(h[20..24]) == 1
  {
    var h := PcapHeader();
    assert h[0..4] == U32BE(MAGIC_NUMBER);
    assert h[4..6] == U16BE(VERSION_MAJOR);
    assert h[6..8] == U16BE(VERSION_MINOR);
    assert h[8..12] == I32BE(GMT_OFFSET);
    assert h[12..16] == U32BE(TIMESTAMP_ACCURACY);
    assert h[16..20] == U32BE(MAX_PACKET_LENGTH);
    assert h[20..24] == U32BE(DATA_LINK_TYPE);
  }

  /**
   * get_pcap_from_packet: record header (seconds, microseconds, captured
   * length, original length, each "!I") and then the packet verbatim. The
   * time is an input: the source reads it from time.time().
   */
  function PcapRecord(seconds: nat, microseconds: nat, packet: Bytes): (r: Bytes)
    requires seconds < TWO_TO_32 && microseconds < TWO_TO_32 && |packet| < TWO_TO_32
    ensures |r| == 16 + |packet|
    ensures DecodeU32BE(r[0..4]) == seconds && DecodeU32BE(r[4..8]) == microseconds
    ensures DecodeU32BE(r[8..12]) == |packet| && DecodeU32BE(r[12..16]) == |packet|
    ensures r[16..] == packet
  {
    var r := U32BE(seconds) + U32BE(microseconds) + U32BE(|packet|) + U32BE(|packet|) + packet;
    assert r[0..4] == U32BE(seconds) && r[4..8] == U32BE(microseconds);
    assert r[8..12] == U32BE(|packet|) && r[12..16] == U32BE(|packet|);
    r
  }
}
