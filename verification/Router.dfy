/** The router of packet-solutions/xdp_prog_kern_03.c: one hop in place on the packet, and what
    any number of hops keep. The packet is the array between data and data_end; the routing
    table is an arbitrary function of the query the program builds. */
module Router {
  import opened Bytes
  import opened OnesComplement
  import opened InternetChecksum
  import opened Xdp

  /** What the program asks bpf_fib_lookup. */
  datatype Query =
    | Query4(ifindex: u32, tos: byte, protocol: byte, totLen: u16, src: seq<byte>, dst: seq<byte>)
    | Query6(ifindex: u32, flowinfo: seq<byte>, nexthdr: byte, payloadLen: u16, src: seq<byte>, dst: seq<byte>)

  const LKUP_SUCCESS := 0
  const LKUP_BLACKHOLE := 1
  const LKUP_UNREACHABLE := 2
  const LKUP_PROHIBIT := 3

  /** What the kernel answers: the lookup code, the addresses of the next hop, and whether
      bpf_redirect_map finds the outgoing port. */
  datatype Reply = Reply(rc: int, dmac: Mac, smac: Mac, portFound: bool)

  type Fib = Query -> Reply

  // ----- the header fields the router looks at

  predicate IsIpv4(p: seq<byte>) {
    |p| >= 14 + 20 && Be16At(p, 12) == ETH_P_IP
  }

  predicate IsIpv6(p: seq<byte>) {
    |p| >= 14 + 40 && Be16At(p, 12) == ETH_P_IPV6
  }

  /** Position of the TTL or of the hop limit. */
  function LifeAt(p: seq<byte>): nat
    requires IsIpv4(p) || IsIpv6(p)
  {
    if IsIpv4(p) then 22 else 21
  }

  /** The TTL or the hop limit. */
  function Life(p: seq<byte>): byte
    requires IsIpv4(p) || IsIpv6(p)
  {
    p[LifeAt(p)]
  }

  function QueryOf(p: seq<byte>, ifindex: u32): Query
    requires IsIpv4(p) || IsIpv6(p)
  {
    if IsIpv4(p) then
      Query4(ifindex, p[15], p[23], Be16At(p, 16), p[26..30], p[30..34])
    else
      Query6(ifindex, [p[14] % 16] + p[15..18], p[20], Be16At(p, 18), p[22..38], p[38..54])
  }

  /** p as it leaves the router. */
  function Forwarded(h: Host, p: seq<byte>, dmac: Mac, smac: Mac): seq<byte>
    requires (IsIpv4(p) || IsIpv6(p)) && Life(p) > 0
  {
    var q := if IsIpv4(p)
             then Store16At(h, p, 24, TtlDecrementCheck(h, Load16At(h, p, 24)))
             else p;
    dmac + smac + q[LifeAt(p) := Life(p) - 1][12..]
  }

  /** The verdict of one hop and the packet after it. */
  function Route(h: Host, p: seq<byte>, ifindex: u32, fib: Fib): (Action, seq<byte>)
  {
    if |p| < 14 then (Drop, p)
    else if IsIpv4(p) || IsIpv6(p) then
      if Life(p) <= 1 then (Pass, p)
      else
        var r := fib(QueryOf(p, ifindex));
        if r.rc == LKUP_SUCCESS then
          (if r.portFound then Redirect else Aborted, Forwarded(h, p, r.dmac, r.smac))
        else if r.rc in {LKUP_BLACKHOLE, LKUP_UNREACHABLE, LKUP_PROHIBIT} then (Drop, p)
        else (Pass, p)
    else if Be16At(p, 12) == ETH_P_IP || Be16At(p, 12) == ETH_P_IPV6 then (Drop, p)
    else (Pass, p)
  }

  // ----- the program

  /** ip_decrease_ttl on the IPv4 header at offset iph. */
  method IpDecreaseTtl(h: Host, pkt: array<byte>, iph: nat) returns (ttl: byte)
    requires iph + 20 <= pkt.Length && pkt[iph + 8] >= 1
    modifies pkt
    ensures ttl == old(pkt[iph + 8]) - 1
    ensures pkt[..] == Store16At(h, old(pkt[..]), iph + 10, TtlDecrementCheck(h, Load16At(h, old(pkt[..]), iph + 10)))
                       [iph + 8 := ttl]
  {
    var check: u32 := Load16(h, pkt[iph + 10], pkt[iph + 11]);
    check := check + Htons(h, 0x0100);
    var stored: u16 := (check + if check >= 0xFFFF then 1 else 0) % 0x1_0000;
    pkt[iph + 10], pkt[iph + 11] := FirstByte(h, stored), SecondByte(h, stored);
    pkt[iph + 8] := pkt[iph + 8] - 1;
    ttl := pkt[iph + 8];
  }

  /** The two memcpy calls that replace the MAC addresses. */
  method SetMacs(pkt: array<byte>, dmac: Mac, smac: Mac)
    requires pkt.Length >= 14
    modifies pkt
    ensures pkt[..] == dmac + smac + old(pkt[12..])
  {
    forall i | 0 <= i < 6 {
      pkt[i] := dmac[i];
    }
    forall i | 0 <= i < 6 {
      pkt[6 + i] := smac[i];
    }
  }

  method ForwardInPlace(h: Host, pkt: array<byte>, dmac: Mac, smac: Mac)
    requires (IsIpv4(pkt[..]) || IsIpv6(pkt[..])) && Life(pkt[..]) > 0
    modifies pkt
    ensures pkt[..] == Forwarded(h, old(pkt[..]), dmac, smac)
  {
    if Load16(h, pkt[12], pkt[13]) == Htons(h, ETH_P_IP) {
      var _ := IpDecreaseTtl(h, pkt, 14);
    } else {
      pkt[21] := pkt[21] - 1;
    }
    SetMacs(pkt, dmac, smac);
  }

  /** The fields of fib_params that the program fills in. */
  method BuildQuery(h: Host, pkt: array<byte>, ifindex: u32) returns (query: Query)
    requires IsIpv4(pkt[..]) || IsIpv6(pkt[..])
    ensures query == QueryOf(pkt[..], ifindex)
  {
    if Load16(h, pkt[12], pkt[13]) == Htons(h, ETH_P_IP) {
      LoadIsHtons(h, pkt[16], pkt[17]);
      HtonsInvolution(h, Be16(pkt[16], pkt[17]));
      query := Query4(ifindex, pkt[15], pkt[23], Htons(h, Load16(h, pkt[16], pkt[17])), pkt[26..30], pkt[30..34]);
    } else {
      LoadIsHtons(h, pkt[18], pkt[19]);
      HtonsInvolution(h, Be16(pkt[18], pkt[19]));
      query := Query6(ifindex, [pkt[14] % 16] + pkt[15..18], pkt[20], Htons(h, Load16(h, pkt[18], pkt[19])),
                      pkt[22..38], pkt[38..54]);
    }
  }

  method XdpRouter(h: Host, pkt: array<byte>, ifindex: u32, fib: Fib) returns (action: Action)
    modifies pkt
    ensures (action, pkt[..]) == Route(h, old(pkt[..]), ifindex, fib)
  {
    action := Pass;
    var dataEnd := pkt.Length;
    if 14 > dataEnd {
      return Drop;
    }
    var proto := Load16(h, pkt[12], pkt[13]);
    LoadIsHtons(h, pkt[12], pkt[13]);
    if proto == Htons(h, ETH_P_IP) {
      if 14 + 20 > dataEnd {
        return Drop;
      }
      if pkt[22] <= 1 {
        return Pass;
      }
    } else if proto == Htons(h, ETH_P_IPV6) {
      if 14 + 40 > dataEnd {
        return Drop;
      }
      if pkt[21] <= 1 {
        return Pass;
      }
    } else {
      return Pass;
    }
    var query := BuildQuery(h, pkt, ifindex);
    var reply := fib(query);
    if reply.rc == LKUP_SUCCESS {
      ForwardInPlace(h, pkt, reply.dmac, reply.smac);
      action := if reply.portFound then Redirect else Aborted;
    } else if reply.rc in {LKUP_BLACKHOLE, LKUP_UNREACHABLE, LKUP_PROHIBIT} {
      action := Drop;
    }
  }

  // ----- one hop

  /** A packet cut off inside its Ethernet header or inside the fixed header its type announces. */
  predicate Truncated(p: seq<byte>) {
    || |p| < 14
    || (Be16At(p, 12) == ETH_P_IP && |p| < 34)
    || (Be16At(p, 12) == ETH_P_IPV6 && |p| < 54)
  }

  /** When each verdict is given, and that only a packet the next hop is asked to take is written
      to: it gets the addresses the lookup answered. */
  lemma VerdictAndBytes(h: Host, p: seq<byte>, ifindex: u32, fib: Fib)
    ensures var (action, q) := Route(h, p, ifindex, fib);
            var asked := (IsIpv4(p) || IsIpv6(p)) && Life(p) > 1;
            && (action in {Pass, Drop} ==> q == p)
            && (action in {Redirect, Aborted} <==> asked && fib(QueryOf(p, ifindex)).rc == LKUP_SUCCESS)
            && (action == Drop <==> Truncated(p) || (asked && 1 <= fib(QueryOf(p, ifindex)).rc <= 3))
            && (action in {Redirect, Aborted} ==>
                var r := fib(QueryOf(p, ifindex));
                q[..6] == r.dmac && q[6..12] == r.smac && (action == Redirect <==> r.portFound))
            && |q| == |p|
  {
    if IsIpv4(p) {
      HeadersReplaced(h, p, fib(QueryOf(p, ifindex)));
    } else if IsIpv6(p) {
      HeadersReplaced(h, p, fib(QueryOf(p, ifindex)));
    }
  }

  lemma HeadersReplaced(h: Host, p: seq<byte>, r: Reply)
    requires IsIpv4(p) || IsIpv6(p)
    ensures Life(p) > 0 ==> Forwarded(h, p, r.dmac, r.smac)[..6] == r.dmac
    ensures Life(p) > 0 ==> Forwarded(h, p, r.dmac, r.smac)[6..12] == r.smac
    ensures Life(p) > 0 ==> |Forwarded(h, p, r.dmac, r.smac)| == |p|
  {
  }

  /** The IPv4 header with its options, as its own length field delimits it. */
  predicate HasIpv4Header(p: seq<byte>) {
    IsIpv4(p) && p[14] % 16 >= 5 && 14 + 4 * (p[14] % 16) <= |p|
  }

  function Ipv4Header(p: seq<byte>): seq<byte>
    requires HasIpv4Header(p)
  {
    p[14..14 + 4 * (p[14] % 16)]
  }

  /** Everything a hop may not touch: the bytes after the two MAC addresses except TTL and
      checksum. */
  predicate SameElsewhere(p: seq<byte>, q: seq<byte>)
    requires IsIpv4(p) || IsIpv6(p)
  {
    && |q| == |p|
    && (forall i {:trigger q[i]} :: 12 <= i < |p| && i != LifeAt(p) && !(IsIpv4(p) && i in {24, 25}) ==> q[i] == p[i])
  }

  /** The effect of one hop on the header of an IPv4 packet: its checksum is valid afterwards
      if and only if it was before. */
  lemma HopKeepsValidity(h: Host, p: seq<byte>, dmac: Mac, smac: Mac)
    requires HasIpv4Header(p) && Life(p) > 0
    ensures var q := Forwarded(h, p, dmac, smac);
            && HasIpv4Header(q) && SameElsewhere(p, q) && Life(q) == Life(p) - 1
            && (ValidSum(h, Ipv4Header(q)) <==> ValidSum(h, Ipv4Header(p)))
  {
    var s := Ipv4Header(p);
    var word := Load16(h, p[22] - 1, p[23]);
    DecrementIsReplace(h, p[22], p[23], Load16At(h, p, 24));
    PatchKeepsValidity(h, s, 8, 10, word);
    HeaderOfForwarded(h, p, dmac, smac);
  }

  lemma HeaderOfForwarded(h: Host, p: seq<byte>, dmac: Mac, smac: Mac)
    requires HasIpv4Header(p) && Life(p) > 0
    ensures HasIpv4Header(Forwarded(h, p, dmac, smac))
    ensures var s := Ipv4Header(p);
            Ipv4Header(Forwarded(h, p, dmac, smac)) ==
            Store16At(h, Store16At(h, s, 8, Load16(h, p[22] - 1, p[23])), 10, TtlDecrementCheck(h, Load16At(h, s, 10)))
  {
    var s, q := Ipv4Header(p), Forwarded(h, p, dmac, smac);
    assert s[8] == p[22] && s[9] == p[23] && s[10] == p[24] && s[11] == p[25];
    StoreLoaded(h, p[22] - 1, p[23]);
    assert q[14] == p[14];
  }

  /** A header that was valid leaves with exactly the checksum a full recomputation would
      give, bit for bit. */
  lemma HopChecksumIsFresh(h: Host, p: seq<byte>, dmac: Mac, smac: Mac)
    requires HasIpv4Header(p) && Life(p) > 0
    requires ValidSum(h, Ipv4Header(p))
    ensures var s := Ipv4Header(Forwarded(h, p, dmac, smac));
            Load16At(h, s, 10) == Checksum(h, Store16At(h, s, 10, 0))
  {
    HopKeepsValidity(h, p, dmac, smac);
    var s := Ipv4Header(Forwarded(h, p, dmac, smac));
    assert s[0] == p[14] > 0;
    assert Store16At(h, s, 10, 0)[0] == s[0];
    assert Load16At(h, s, 10) == TtlDecrementCheck(h, Load16At(h, p, 24)) != 0xFFFF;
    FreshIffValid(h, s, 10);
  }

  // ----- any number of hops

  datatype Hop = Hop(ifindex: u32, fib: Fib)

  /** The packet after all hops. */
  function Travel(h: Host, p: seq<byte>, hops: seq<Hop>): seq<byte>
    decreases |hops|
  {
    if |hops| == 0 then p
    else Travel(h, Route(h, p, hops[0].ifindex, hops[0].fib).1, hops[1..])
  }

  /** Every hop redirects the packet to the next. */
  predicate AllRedirect(h: Host, p: seq<byte>, hops: seq<Hop>)
    decreases |hops|
  {
    |hops| == 0 ||
    var (action, q) := Route(h, p, hops[0].ifindex, hops[0].fib);
    action == Redirect && AllRedirect(h, q, hops[1..])
  }

  lemma {:induction false} TravelLife(h: Host, p: seq<byte>, hops: seq<Hop>)
    requires IsIpv4(p) || IsIpv6(p)
    requires AllRedirect(h, p, hops)
    ensures var q := Travel(h, p, hops);
            && (IsIpv4(q) <==> IsIpv4(p)) && (IsIpv6(q) <==> IsIpv6(p))
            && SameElsewhere(p, q)
            && Life(q) == Life(p) - |hops|
            && (|hops| > 0 ==> |hops| <= Life(p) - 1)
    decreases |hops|
  {
    if |hops| > 0 {
      var (action, q) := Route(h, p, hops[0].ifindex, hops[0].fib);
      assert q[12] == p[12] && q[13] == p[13];
      TravelLife(h, q, hops[1..]);
    }
  }

  lemma {:induction false} TravelValidity(h: Host, p: seq<byte>, hops: seq<Hop>)
    requires HasIpv4Header(p)
    requires AllRedirect(h, p, hops)
    ensures HasIpv4Header(Travel(h, p, hops))
    ensures ValidSum(h, Ipv4Header(Travel(h, p, hops))) <==> ValidSum(h, Ipv4Header(p))
    decreases |hops|
  {
    if |hops| > 0 {
      var r := hops[0].fib(QueryOf(p, hops[0].ifindex));
      HopKeepsValidity(h, p, r.dmac, r.smac);
      TravelValidity(h, Forwarded(h, p, r.dmac, r.smac), hops[1..]);
    }
  }

  /** Over any sequence of successful hops through any routing tables: a packet is forwarded at
      most its initial TTL or hop limit minus one times, loses exactly one per hop, keeps its
      other bytes, and an IPv4 header of any length keeps its validity. */
  lemma RouterRun(h: Host, p: seq<byte>, hops: seq<Hop>)
    requires |hops| > 0 && AllRedirect(h, p, hops)
    ensures IsIpv4(p) || IsIpv6(p)
    ensures |hops| <= Life(p) - 1
    ensures var q := Travel(h, p, hops);
            && (IsIpv4(q) || IsIpv6(q)) && Life(q) == Life(p) - |hops| && SameElsewhere(p, q)
            && (HasIpv4Header(p) ==>
                HasIpv4Header(q) && (ValidSum(h, Ipv4Header(q)) <==> ValidSum(h, Ipv4Header(p))))
  {
    VerdictAndBytes(h, p, hops[0].ifindex, hops[0].fib);
    TravelLife(h, p, hops);
    if HasIpv4Header(p) {
      TravelValidity(h, p, hops);
    }
  }

  /** The bytes on the wire do not depend on the router's byte order. */
  lemma RouteByteOrder(p: seq<byte>, ifindex: u32, fib: Fib)
    ensures Route(Little, p, ifindex, fib) == Route(Big, p, ifindex, fib)
  {
    if IsIpv4(p) && Life(p) > 1 {
      LoadSwap(p[24], p[25]);
      DecrementSwap(Load16At(Big, p, 24));
      StoreSwapped(p, 24, TtlDecrementCheck(Big, Load16At(Big, p, 24)));
    }
  }

  lemma DecrementSwap(big: u16)
    ensures TtlDecrementCheck(Little, Swap16(big)) == Swap16(TtlDecrementCheck(Big, big))
  {
    var l, b := TtlDecrementCheck(Little, Swap16(big)), TtlDecrementCheck(Big, big);
    DecrementCharacterised(Little, Swap16(big));
    DecrementCharacterised(Big, big);
    SwapIsTimes256(big);
    SwapIsTimes256(b);
    SwapNotAllOnes(b);
    SwappedResidues(big, Swap16(big), l, b, Swap16(b));
  }

  lemma SwappedResidues(big: u16, little: u16, l: u16, b: u16, swapped: u16)
    requires little % M == 256 * big % M && swapped % M == 256 * b % M
    requires l % M == (little + 1) % M && b % M == (big + 256) % M
    requires l != 0xFFFF && swapped != 0xFFFF
    ensures l == swapped
  {
    Times256(b, big + 256);
    AddMod(little as int, 256 * (big as int), 1, 256 * 256);
    SameRemainder(l, swapped);
  }
}
