/** The router of xdp_prog_kern_03.c on packets given by their header fields: what the routing table
    is asked about, and which packet leaves. */
module RouterFields {
  import opened Bytes
  import opened OnesComplement
  import opened Xdp
  import opened IpHeaders
  import opened Router

  // ----- where the fields lie

  lemma Fields4(dmac: Mac, smac: Mac, f: Ipv4, payload: seq<byte>)
    ensures var p := Packet4(dmac, smac, f, payload);
            && IsIpv4(p) && Life(p) == f.ttl && Load16At(Big, p, 24) == f.checksum
            && p[12..] == Start4(f) + (f.source + f.destination + payload)
            && forall ifindex {:trigger QueryOf(p, ifindex)} ::
                 QueryOf(p, ifindex) == Query4(ifindex, f.tos, f.protocol, f.totalLength, f.source, f.destination)
  {
    var p, s := Packet4(dmac, smac, f, payload), Start4(f);
    Parts(dmac, smac, s, f.source, f.destination, payload, 26, 4);
    assert p[12 + 0] == s[0] && p[12 + 1] == s[1] && p[12 + 3] == s[3] && p[12 + 4] == s[4] && p[12 + 5] == s[5];
    assert p[12 + 10] == s[10] && p[12 + 11] == s[11] && p[12 + 12] == s[12] && p[12 + 13] == s[13];
  }

  lemma Fields6(dmac: Mac, smac: Mac, f: Ipv6, payload: seq<byte>)
    ensures var p := Packet6(dmac, smac, f, payload);
            && IsIpv6(p) && Life(p) == f.hopLimit
            && p[12..] == Start6(f) + (f.source + f.destination + payload)
            && forall ifindex {:trigger QueryOf(p, ifindex)} ::
                 QueryOf(p, ifindex) ==
                 Query6(ifindex, FlowInfo(f), f.nextHeader, f.payloadLength, f.source, f.destination)
  {
    var p, s := Packet6(dmac, smac, f, payload), Start6(f);
    Parts(dmac, smac, s, f.source, f.destination, payload, 22, 16);
    Start6Bytes(f);
    assert p[12 + 0] == s[0] && p[12 + 1] == s[1] && p[12 + 2] == s[2];
    assert p[12 + 6] == s[6] && p[12 + 7] == s[7] && p[12 + 8] == s[8] && p[12 + 9] == s[9];
    assert p[12 + 3] == s[3] && p[12 + 4] == s[4] && p[12 + 5] == s[5];
    assert p[15..18] == FlowBytes(f);
    assert Be16At(p, 18) == f.payloadLength;
  }

  lemma Start6Bytes(f: Ipv6)
    ensures var s := Start6(f);
            && s[0] == 0x86 && s[1] == 0xDD && s[2] % 16 == f.trafficClass / 16
            && s[3] == FlowBytes(f)[0] && s[4] == FlowBytes(f)[1] && s[5] == FlowBytes(f)[2]
            && s[6] == f.payloadLength / 256 && s[7] == f.payloadLength % 256
            && s[8] == f.nextHeader && s[9] == f.hopLimit
  {
    LowNibble(f.version, f.trafficClass / 16);
  }

  lemma LowNibble(high: nat, low: nat)
    requires low < 16
    ensures (16 * high + low) % 16 == low
  {
  }

  // ----- one hop

  /** The fields behind a hop: the checksum goes up by 0x0100, with the carry of one's complement
      added as soon as the sum reaches 0xFFFF. */
  function NextHop4(f: Ipv4): Ipv4
    requires f.ttl > 0
  {
    var sum := f.checksum + 0x0100;
    f.(ttl := f.ttl - 1, checksum := if sum >= 0xFFFF then sum - 0xFFFF else sum)
  }

  function NextHop6(f: Ipv6): Ipv6
    requires f.hopLimit > 0
  {
    f.(hopLimit := f.hopLimit - 1)
  }

  lemma Forwarded4(dmac: Mac, smac: Mac, f: Ipv4, payload: seq<byte>, dmac': Mac, smac': Mac)
    requires f.ttl > 0
    ensures var p := Packet4(dmac, smac, f, payload);
            && IsIpv4(p) && Life(p) == f.ttl
            && Forwarded(Big, p, dmac', smac') == Packet4(dmac', smac', NextHop4(f), payload)
  {
    var p, f' := Packet4(dmac, smac, f, payload), NextHop4(f);
    var rest := f.source + f.destination + payload;
    Fields4(dmac, smac, f, payload);
    var c := f'.checksum;
    assert TtlDecrementCheck(Big, f.checksum) == c;
    var q := p[24 := c / 256][25 := c % 256][22 := f.ttl - 1];
    assert q[12..] == p[12..][12 := c / 256][13 := c % 256][10 := f.ttl - 1];
    assert Start4(f)[12 := c / 256][13 := c % 256][10 := f.ttl - 1] == Start4(f');
    assert q[12..] == Start4(f') + rest;
  }

  lemma Forwarded6(dmac: Mac, smac: Mac, f: Ipv6, payload: seq<byte>, dmac': Mac, smac': Mac)
    requires f.hopLimit > 0
    ensures var p := Packet6(dmac, smac, f, payload);
            && IsIpv6(p) && Life(p) == f.hopLimit
            && Forwarded(Big, p, dmac', smac') == Packet6(dmac', smac', NextHop6(f), payload)
  {
    var p, f' := Packet6(dmac, smac, f, payload), NextHop6(f);
    var rest := f.source + f.destination + payload;
    Fields6(dmac, smac, f, payload);
    var q := p[21 := f.hopLimit - 1];
    assert q[12..] == p[12..][9 := f.hopLimit - 1];
    assert Start6(f)[9 := f.hopLimit - 1] == Start6(f');
    assert q[12..] == Start6(f') + rest;
  }

  /** What the reply makes of a packet: the verdict, and the packet that leaves. */
  function Outcome(r: Reply, p: seq<byte>, forwarded: (Mac, Mac) -> seq<byte>): (Action, seq<byte>) {
    if r.rc == 0 then (if r.portFound then Redirect else Aborted, forwarded(r.dmac, r.smac))
    else (if 1 <= r.rc <= 3 then Drop else Pass, p)
  }

  /** An IPv4 packet with any fields and payload: the table is asked about exactly these
      fields, and a packet that is forwarded carries the addresses of the reply, one hop less, the
      adapted checksum and everything else as before. */
  lemma RouteIpv4(h: Host, dmac: Mac, smac: Mac, f: Ipv4, payload: seq<byte>, ifindex: u32, fib: Fib)
    ensures var p := Packet4(dmac, smac, f, payload);
            Route(h, p, ifindex, fib) ==
              if f.ttl <= 1 then (Pass, p)
              else Outcome(fib(Query4(ifindex, f.tos, f.protocol, f.totalLength, f.source, f.destination)), p,
                           (dmac', smac') => Packet4(dmac', smac', NextHop4(f), payload))
  {
    var p := Packet4(dmac, smac, f, payload);
    RouteByteOrder(p, ifindex, fib);
    Fields4(dmac, smac, f, payload);
    if f.ttl > 1 {
      var r := fib(QueryOf(p, ifindex));
      Forwarded4(dmac, smac, f, payload, r.dmac, r.smac);
    }
  }

  lemma RouteIpv6(h: Host, dmac: Mac, smac: Mac, f: Ipv6, payload: seq<byte>, ifindex: u32, fib: Fib)
    ensures var p := Packet6(dmac, smac, f, payload);
            Route(h, p, ifindex, fib) ==
              if f.hopLimit <= 1 then (Pass, p)
              else Outcome(fib(Query6(ifindex, FlowInfo(f), f.nextHeader, f.payloadLength, f.source, f.destination)), p,
                           (dmac', smac') => Packet6(dmac', smac', NextHop6(f), payload))
  {
    var p := Packet6(dmac, smac, f, payload);
    RouteByteOrder(p, ifindex, fib);
    Fields6(dmac, smac, f, payload);
    if f.hopLimit > 1 {
      var r := fib(QueryOf(p, ifindex));
      Forwarded6(dmac, smac, f, payload, r.dmac, r.smac);
    }
  }
}
