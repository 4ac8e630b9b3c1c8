/** IP packets behind an Ethernet header, built from their header fields after section 3.1 of RFC 791
    and section 3 of RFC 8200. */
module IpHeaders {
  import opened Bytes
  import opened InternetChecksum
  import opened Xdp

  type Ipv4Address = s: seq<byte> | |s| == 4 witness [0, 0, 0, 0]
  type Ipv6Address = s: seq<byte> | |s| == 16 witness [0, 0, 0, 0, 0, 0, 0, 0, 0, 0, 0, 0, 0, 0, 0, 0]

  type Nibble = x: int | 0 <= x < 16

  /** The fixed part of an IPv4 header. Neither the version nor the length in words is restricted,
      and options are the head of the payload. */
  datatype Ipv4 = Ipv4(version: Nibble, headerLength: Nibble, tos: byte, totalLength: u16, identification: u16,
                       fragment: u16, ttl: byte, protocol: byte, checksum: u16,
                       source: Ipv4Address, destination: Ipv4Address)

  type FlowLabel = x: int | 0 <= x < 0x10_0000

  datatype Ipv6 = Ipv6(version: Nibble, trafficClass: byte, flowLabel: FlowLabel, payloadLength: u16, nextHeader: byte,
                       hopLimit: byte, source: Ipv6Address, destination: Ipv6Address)

  // ----- serialising

  /** The EtherType and the first three words of the header. */
  function Start4(f: Ipv4): (s: seq<byte>)
    ensures |s| == 14
  {
    [0x08, 0x00, 16 * f.version + f.headerLength, f.tos, f.totalLength / 256, f.totalLength % 256,
     f.identification / 256, f.identification % 256, f.fragment / 256, f.fragment % 256,
     f.ttl, f.protocol, f.checksum / 256, f.checksum % 256]
  }

  function Packet4(dmac: Mac, smac: Mac, f: Ipv4, payload: seq<byte>): seq<byte> {
    dmac + smac + (Start4(f) + (f.source + f.destination + payload))
  }

  function Start6(f: Ipv6): (s: seq<byte>)
    ensures |s| == 10
  {
    [0x86, 0xDD, 16 * f.version + f.trafficClass / 16] + FlowBytes(f) +
    [f.payloadLength / 256, f.payloadLength % 256, f.nextHeader, f.hopLimit]
  }

  /** The low half of the traffic class and the flow label. */
  function FlowBytes(f: Ipv6): (s: seq<byte>)
    ensures |s| == 3
  {
    [f.trafficClass % 16 * 16 + f.flowLabel / 0x1_0000, f.flowLabel / 256 % 256, f.flowLabel % 256]
  }

  /** The first word of the header without the version. */
  function FlowInfo(f: Ipv6): (s: seq<byte>)
    ensures |s| == 4
  {
    [f.trafficClass / 16] + FlowBytes(f)
  }

  function Packet6(dmac: Mac, smac: Mac, f: Ipv6, payload: seq<byte>): seq<byte> {
    dmac + smac + (Start6(f) + (f.source + f.destination + payload))
  }

  // ----- reading them back

  lemma Parts(a: seq<byte>, b: seq<byte>, c: seq<byte>, d: seq<byte>, e: seq<byte>, x: seq<byte>, o: nat, n: nat)
    requires |a| == 6 && |b| == 6 && o == 12 + |c| && |d| == n && |e| == n
    ensures var p := a + b + (c + (d + e + x));
            && |p| == o + 2 * n + |x|
            && p[12..] == c + (d + e + x)
            && (forall i {:trigger c[i]} :: 0 <= i < |c| ==> p[12 + i] == c[i])
            && p[o..o + n] == d && p[o + n..o + 2 * n] == e && p[o + 2 * n..] == x
  {
  }

  /** The flow information is the number 2^20 * traffic class + flow label in network order. */
  lemma FlowInfoValue(f: Ipv6)
    ensures 0x100_0000 * (FlowInfo(f)[0] as int) + 0x1_0000 * (FlowInfo(f)[1] as int)
            + 0x100 * (FlowInfo(f)[2] as int) + FlowInfo(f)[3]
         == 0x10_0000 * (f.trafficClass as int) + f.flowLabel
  {
    var c, l: int := f.trafficClass, f.flowLabel;
    assert c == 16 * (c / 16) + c % 16;
    assert l == 0x1_0000 * (l / 0x1_0000) + l % 0x1_0000;
    assert l == 256 * (l / 256) + l % 256;
    assert l / 256 == 256 * (l / 0x1_0000) + l / 256 % 256;
  }

  lemma WordBytes(first: byte, second: byte)
    ensures Be16(first, second) / 256 == first && Be16(first, second) % 256 == second
  {
  }

  /** Every packet of type IPv4 that holds a fixed header is built like this. */
  lemma Ipv4Packet(p: seq<byte>) returns (dmac: Mac, smac: Mac, f: Ipv4, payload: seq<byte>)
    requires |p| >= 34 && p[12] == 0x08 && p[13] == 0x00
    ensures p == Packet4(dmac, smac, f, payload)
  {
    dmac, smac, payload := p[..6], p[6..12], p[34..];
    f := Ipv4(p[14] / 16, p[14] % 16, p[15], Be16At(p, 16), Be16At(p, 18), Be16At(p, 20), p[22], p[23], Be16At(p, 24),
              p[26..30], p[30..34]);
    WordBytes(p[16], p[17]);
    WordBytes(p[18], p[19]);
    WordBytes(p[20], p[21]);
    WordBytes(p[24], p[25]);
    assert p[12..26] == Start4(f);
    SixParts(p, 26, 4);
  }

  lemma Ipv6Packet(p: seq<byte>) returns (dmac: Mac, smac: Mac, f: Ipv6, payload: seq<byte>)
    requires |p| >= 54 && p[12] == 0x86 && p[13] == 0xDD
    ensures p == Packet6(dmac, smac, f, payload)
  {
    dmac, smac, payload := p[..6], p[6..12], p[54..];
    var trafficClass, flowLabel := Nibbles(p[14], p[15], p[16], p[17]);
    f := Ipv6(p[14] / 16, trafficClass, flowLabel, Be16At(p, 18), p[20], p[21], p[22..38], p[38..54]);
    WordBytes(p[18], p[19]);
    assert p[12..22] == Start6(f);
    SixParts(p, 22, 16);
  }

  lemma SixParts(p: seq<byte>, o: nat, n: nat)
    requires 12 <= o && o + 2 * n <= |p|
    ensures p == p[..6] + p[6..12] + (p[12..o] + (p[o..o + n] + p[o + n..o + 2 * n] + p[o + 2 * n..]))
  {
  }

  lemma Nibbles(b0: byte, b1: byte, b2: byte, b3: byte) returns (trafficClass: byte, flowLabel: FlowLabel)
    ensures b0 % 16 == trafficClass / 16 && b1 == trafficClass % 16 * 16 + flowLabel / 0x1_0000
    ensures b2 == flowLabel / 256 % 256 && b3 == flowLabel % 256
  {
    trafficClass, flowLabel := b0 % 16 * 16 + b1 / 16, 0x1_0000 * (b1 % 16) + 256 * b2 + b3;
  }

  // ----- what an ICMPv6 checksum covers

  /** The pseudo-header of section 8.1 of RFC 8200, and as much of the payload as the length field says. */
  lemma CoveredOnPacket(dmac: Mac, smac: Mac, f: Ipv6, payload: seq<byte>)
    ensures var p := Packet6(dmac, smac, f, payload);
            && (HasMessage6(p, 14) <==> 4 <= f.payloadLength <= |payload|)
            && (HasMessage6(p, 14) ==>
                Covered6(p, 14) == f.source + f.destination
                                   + [0, 0, f.payloadLength / 256, f.payloadLength % 256, 0, 0, 0, 58]
                                   + payload[..f.payloadLength])
  {
    var p, s := Packet6(dmac, smac, f, payload), Start6(f);
    Parts(dmac, smac, s, f.source, f.destination, payload, 22, 16);
    assert p[12 + 6] == s[6] && p[12 + 7] == s[7];
    if 4 <= f.payloadLength <= |payload| {
      assert p[22..54] == p[22..38] + p[38..54];
      assert p[54..] == payload;
      assert p[54..54 + f.payloadLength] == payload[..f.payloadLength];
    }
  }
}
