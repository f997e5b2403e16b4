/**
 The in-kernel packet filter and the user-side payload extraction behind it.
 Multi-byte fields are loaded in host order and converted, as the C code does, so
 the results below hold on little- and big-endian hosts alike.
 */
module PacketFilter {

  type byte = b: nat | b < 256

  datatype Host = LittleEndian | BigEndian

  datatype Verdict = Pass | Redirect

  const ETH_LEN: nat := 14
  const IP_LEN: nat := 20
  const UDP_LEN: nat := 8
  const TOTAL_HEADERS: nat := 42
  const ETHERTYPE_IPV4: nat := 0x0800
  const PROTOCOL_UDP: nat := 17
  const SOVEREIGN_PORT: nat := 12345
  const MAX_LEN: nat := 0xFFFF_FFFF   // a descriptor's length field has 32 bits

  /** Two bytes as one number. */
  function Pair(high: nat, low: nat): nat { 256 * high + low }

  /** A 16-bit field as the CPU loads it. */
  function Load16(host: Host, f: seq<byte>, i: nat): nat
    requires i + 2 <= |f|
  {
    if host.LittleEndian? then Pair(f[i + 1], f[i]) else Pair(f[i], f[i + 1])
  }

  /** `htons` and `ntohs`. */
  function Swap16(host: Host, x: nat): nat {
    if host.LittleEndian? then x % 256 * 256 + x / 256 else x
  }

  function HeaderWords(f: seq<byte>): nat
    requires |f| >= ETH_LEN + IP_LEN
  {
    f[ETH_LEN] % 16
  }

  /** Where the filter looks for the UDP header: after as many words as IHL says, even fewer than five. */
  function UdpOffset(f: seq<byte>): nat
    requires |f| >= ETH_LEN + IP_LEN
  {
    ETH_LEN + 4 * HeaderWords(f)
  }

  /** `porth_xdp_prog`.  `bound` says whether a socket is bound to the receive queue.
      Every byte access is within the frame. */
  function Filter(host: Host, f: seq<byte>, bound: bool): Verdict {
    if ETH_LEN > |f| then Pass
    else if Load16(host, f, 12) != Swap16(host, ETHERTYPE_IPV4) then Pass
    else if ETH_LEN + IP_LEN > |f| then Pass
    else if f[ETH_LEN + 9] != PROTOCOL_UDP then Pass
    else
      var udp := UdpOffset(f);
      if udp + UDP_LEN > |f| then Pass
      else if Swap16(host, Load16(host, f, udp + 2)) == SOVEREIGN_PORT then
        if bound then Redirect else Pass
      else Pass
  }

  datatype Extraction =
    | Ignored
    | Payload(bytes: seq<byte>)
    | Underflow(length: nat)   // the 64-bit length computed for a frame shorter than its headers

  /** The body of `poll_rx` for one descriptor: `memory` is the frame buffer, `len` the received length. */
  function Extract(memory: seq<byte>, len: nat): Extraction
    requires ETH_LEN <= |memory| && len <= |memory|
  {
    if memory[12] == 0x08 && memory[13] == 0x00 then
      var length := (len - TOTAL_HEADERS) % 0x1_0000_0000_0000_0000;
      if length > len then Underflow(length)
      else if TOTAL_HEADERS + length <= |memory| then Payload(memory[TOTAL_HEADERS..TOTAL_HEADERS + length])
      else Underflow(length)
    else Ignored
  }

  // ---------------------------------------------------------------- what the filter means

  /** UDP over IPv4 to port 12345, byte by byte as on the wire. */
  predicate Sovereign(f: seq<byte>) {
    && |f| >= 34
    && f[12] == 0x08 && f[13] == 0x00
    && f[23] == 17
    && |f| >= UdpOffset(f) + 8
    && f[UdpOffset(f) + 2] == 0x30 && f[UdpOffset(f) + 3] == 0x39
  }

  /** Byte 14 holds the version and the header length in words, four bits each; the UDP
      header follows that many words after the Ethernet header. */
  lemma UdpOffsetByBytes(f: seq<byte>, version: nat, words: nat)
    requires |f| >= 34 && words < 16 && f[14] == 16 * version + words
    ensures UdpOffset(f) == 14 + 4 * words
  {
  }

  lemma LoadSwap(host: Host, f: seq<byte>, i: nat)
    requires i + 2 <= |f|
    ensures Swap16(host, Load16(host, f, i)) == Pair(f[i], f[i + 1])
    ensures Load16(host, f, i) == Swap16(host, ETHERTYPE_IPV4) <==> f[i] == 0x08 && f[i + 1] == 0x00
  {
    if host.LittleEndian? {
      assert Pair(f[i + 1], f[i]) % 256 == f[i];
      assert Pair(f[i + 1], f[i]) / 256 == f[i + 1];
    }
  }

  /** The verdict does not depend on the host's byte order. */
  lemma FilterExactly(host: Host, f: seq<byte>, bound: bool)
    ensures Filter(host, f, bound) == Redirect <==> bound && Sovereign(f)
  {
    hide Load16, Swap16, Pair;
    if |f| >= ETH_LEN {
      LoadSwap(host, f, 12);
      if |f| >= ETH_LEN + IP_LEN && UdpOffset(f) + UDP_LEN <= |f| {
        LoadSwap(host, f, UdpOffset(f) + 2);
        PortBytes(f[UdpOffset(f) + 2], f[UdpOffset(f) + 3]);
      }
    }
  }

  lemma PortBytes(high: byte, low: byte)
    ensures Pair(high, low) == SOVEREIGN_PORT <==> high == 0x30 && low == 0x39
  {
  }

  // ---------------------------------------------------------------- filter and extractor

  /** Whatever follows the UDP header the filter looked at. */
  function UdpPayload(f: seq<byte>): seq<byte>
    requires Sovereign(f)
  {
    f[UdpOffset(f) + UDP_LEN..]
  }

  /**
   What is extracted from any buffer that holds a frame of any length: nothing without
   the IPv4 EtherType; else, byte by byte, what lies between 42 and the received length,
   whatever follows in the buffer; and below 42 a length that wraps.
   */
  lemma ExtractExactly(memory: seq<byte>, len: nat)
    requires 14 <= |memory| && len <= |memory| && len <= MAX_LEN
    ensures Extract(memory, len).Ignored? <==> !(memory[12] == 0x08 && memory[13] == 0x00)
    ensures memory[12] == 0x08 && memory[13] == 0x00 && len < 42 ==>
              Extract(memory, len) == Underflow(0x1_0000_0000_0000_0000 + len - 42)
    ensures memory[12] == 0x08 && memory[13] == 0x00 && len >= 42 ==>
              && Extract(memory, len).Payload?
              && |Extract(memory, len).bytes| == len - 42
              && forall i :: 42 <= i < len ==> Extract(memory, len).bytes[i - 42] == memory[i]
  {
    var n: int := len - TOTAL_HEADERS;
    if len < 42 {
      assert n % 0x1_0000_0000_0000_0000 == 0x1_0000_0000_0000_0000 + n;
    } else {
      assert n % 0x1_0000_0000_0000_0000 == n;
    }
  }

  /** A redirected frame, at the front of whatever buffer it lies in, always passes the
      extractor's EtherType test; the length cannot underflow once the IP header is at
      least five words, and underflows exactly for frames under 42 bytes; and what is
      extracted is the UDP payload exactly when the IP header has no options. */
  lemma ExtractionOfRedirected(host: Host, f: seq<byte>, rest: seq<byte>)
    requires Filter(host, f, true) == Redirect && |f| <= MAX_LEN
    ensures |f| >= 34 && Sovereign(f)
    ensures !Extract(f + rest, |f|).Ignored?
    ensures Extract(f + rest, |f|).Payload? <==> |f| >= 42
    ensures HeaderWords(f) >= 5 ==> Extract(f + rest, |f|).Payload?
    ensures Extract(f + rest, |f|) == Payload(UdpPayload(f)) <==> HeaderWords(f) == 5
  {
    FilterExactly(host, f, true);
    ExtractExactly(f + rest, |f|);
    hide Load16, Swap16, Filter, Extract;
    if HeaderWords(f) == 5 {
      assert Extract(f + rest, |f|).bytes == UdpPayload(f);
    } else if |f| >= 42 {
      assert |Extract(f + rest, |f|).bytes| != |UdpPayload(f)|;
    }
  }

  function Zeros(n: nat): (r: seq<byte>)
    ensures |r| == n
  {
    seq(n, _ => 0)
  }

  /** The five-word condition cannot be dropped: this 34-byte frame, with IHL 0, is
      redirected and makes the length wrap. */
  lemma ShortHeaderUnderflows(host: Host, f: seq<byte>)
    requires f == Zeros(12) + [0x08, 0x00, 0x40, 0x00, 0x30, 0x39] + Zeros(5) + [17] + Zeros(10)
    ensures Filter(host, f, true) == Redirect
    ensures Extract(f, |f|) == Underflow(0x1_0000_0000_0000_0000 - 8)
  {
    assert f[12] == 0x08 && f[13] == 0x00 && f[14] == 0x40 && f[16] == 0x30 && f[17] == 0x39 && f[23] == 17;
    FilterExactly(host, f, true);
  }

  /** Nor can "no options": with IHL 6 this frame is redirected and carries no payload,
      yet the last four bytes of its UDP header are extracted as one. */
  lemma LongHeaderMisread(host: Host, f: seq<byte>)
    requires f == Zeros(12) + [0x08, 0x00, 0x46] + Zeros(8) + [17] + Zeros(16) + [0x30, 0x39] + Zeros(4)
    ensures Filter(host, f, true) == Redirect && Sovereign(f) && UdpPayload(f) == []
    ensures Extract(f, |f|) == Payload(Zeros(4))
  {
    assert f[12] == 0x08 && f[13] == 0x00 && f[14] == 0x46 && f[23] == 17 && f[40] == 0x30 && f[41] == 0x39;
    FilterExactly(host, f, true);
    assert f[42..46] == Zeros(4);
  }

  // ---------------------------------------------------------------- round trip

  /** A frame around a payload; everything the filter does not look at is free. */
  function Build(macs: seq<byte>, ipHead: seq<byte>, ipTail: seq<byte>, source: seq<byte>,
                 udpTail: seq<byte>, payload: seq<byte>): (f: seq<byte>)
    requires |macs| == 12 && |ipHead| == 8 && |ipTail| == 10 && |source| == 2 && |udpTail| == 4
  {
    macs + [0x08, 0x00] + [0x45] + ipHead + [17] + ipTail + source + [0x30, 0x39] + udpTail + payload
  }

  lemma RoundTrip(host: Host, macs: seq<byte>, ipHead: seq<byte>, ipTail: seq<byte>, source: seq<byte>,
                  udpTail: seq<byte>, payload: seq<byte>, rest: seq<byte>)
    requires |macs| == 12 && |ipHead| == 8 && |ipTail| == 10 && |source| == 2 && |udpTail| == 4
    requires |payload| <= MAX_LEN - TOTAL_HEADERS
    ensures var f := Build(macs, ipHead, ipTail, source, udpTail, payload);
      Filter(host, f, true) == Redirect && |f| >= 42 && Extract(f + rest, |f|) == Payload(payload)
  {
    BuildLayout(macs, ipHead, ipTail, source, udpTail, payload);
    hide Load16, Swap16, Filter, Extract, Build;
    var f := Build(macs, ipHead, ipTail, source, udpTail, payload);
    FilterExactly(host, f, true);
    ExtractionOfRedirected(host, f, rest);
  }

  /** Where the fields the filter looks at, and the payload, end up. */
  lemma BuildLayout(macs: seq<byte>, ipHead: seq<byte>, ipTail: seq<byte>, source: seq<byte>,
                    udpTail: seq<byte>, payload: seq<byte>)
    requires |macs| == 12 && |ipHead| == 8 && |ipTail| == 10 && |source| == 2 && |udpTail| == 4
    ensures var f := Build(macs, ipHead, ipTail, source, udpTail, payload);
      && |f| == TOTAL_HEADERS + |payload| && f[TOTAL_HEADERS..] == payload
      && f[12] == 0x08 && f[13] == 0x00 && f[14] == 0x45 && f[23] == PROTOCOL_UDP
      && Pair(f[36], f[37]) == SOVEREIGN_PORT
  {
    var ip := macs + [0x08, 0x00] + [0x45] + ipHead + [17] + ipTail;
    assert |ip| == 34 && ip[12] == 0x08 && ip[13] == 0x00 && ip[14] == 0x45 && ip[23] == 17;
    var udp := ip + source + [0x30, 0x39] + udpTail;
    assert |udp| == 42 && udp[..34] == ip && udp[36] == 0x30 && udp[37] == 0x39;
    assert udp[12] == 0x08 && udp[13] == 0x00 && udp[14] == 0x45 && udp[23] == 17;
    assert Build(macs, ipHead, ipTail, source, udpTail, payload) == udp + payload;
  }
}
