/** xdp_parser_func of packet02-rewriting/xdp_prog_kern.c: the whole parse chain and its verdict. */
module EchoVerdict {
  import opened Bytes
  import opened Xdp
  import opened Parsing

  /** An ICMPv6 echo request with an even sequence number starts its IPv6 header at o. */
  predicate EvenEcho6(p: seq<byte>, o: nat) {
    && o + 40 + 8 <= |p|
    && p[o + 6] == IPPROTO_ICMPV6 && p[o + 40] == ICMPV6_ECHO_REQUEST
    && Be16At(p, o + 46) % 2 == 0
  }

  /** An ICMP echo request with an even sequence number starts its IPv4 header at o; the header
      is as long as its length field says, and that may be as little as eight bytes. */
  predicate EvenEcho4(p: seq<byte>, o: nat) {
    && o + 20 <= |p|
    && var n := 4 * (p[o] % 16);
    && n >= 8 && o + n + 8 <= |p|
    && p[o + 9] == IPPROTO_ICMP && p[o + n] == ICMP_ECHO
    && Be16At(p, o + n + 6) % 2 == 0
  }

  /** The packets to drop, read declaratively: behind the tags, an echo request of either
      version with an even sequence number. */
  ghost predicate ShouldDrop(p: seq<byte>) {
    exists k: nat {:trigger TagDepth(p, 0, k, 4)} :: TagDepth(p, 0, k, 4) &&
      ((TypeAt(p, 0, k) == ETH_P_IPV6 && EvenEcho6(p, 14 + 4 * k)) ||
       (TypeAt(p, 0, k) == ETH_P_IP && EvenEcho4(p, 14 + 4 * k)))
  }

  lemma ShouldDropAt(p: seq<byte>, k: nat)
    requires TagDepth(p, 0, k, 4)
    ensures ShouldDrop(p) <==>
              ((TypeAt(p, 0, k) == ETH_P_IPV6 && EvenEcho6(p, 14 + 4 * k)) ||
               (TypeAt(p, 0, k) == ETH_P_IP && EvenEcho4(p, 14 + 4 * k)))
  {
    if ShouldDrop(p) {
      var m: nat :| TagDepth(p, 0, m, 4) &&
        ((TypeAt(p, 0, m) == ETH_P_IPV6 && EvenEcho6(p, 14 + 4 * m)) ||
         (TypeAt(p, 0, m) == ETH_P_IP && EvenEcho4(p, 14 + 4 * m)));
      TagDepthUnique(p, 0, k, m, 4);
    }
  }

  lemma NtohsOfLoad(h: Host, first: byte, second: byte)
    ensures Htons(h, Load16(h, first, second)) == Be16(first, second)
  {
  }

  /** For every byte string and on either kind of host, the program drops exactly what should be
      dropped and passes the rest. */
  method XdpParserFunc(h: Host, pkt: array<byte>) returns (action: Action)
    ensures action == if ShouldDrop(pkt[..]) then Drop else Pass
  {
    action := Pass;
    var dataEnd := pkt.Length;
    ghost var p := pkt[..dataEnd];
    assert p == pkt[..];
    var nh := new HdrCursor(0);
    var ty, eth := nh.ParseEthhdr(h, pkt, dataEnd, 4);
    if ty < 0 {
      return;
    }
    ghost var k := WalkFrom(h, p, 0, 0, 4);
    WalkExact(h, p, 0, k, 4);
    ShouldDropAt(p, k);
    LoadIsHtons(h, p[12 + 4 * k], p[13 + 4 * k]);
    if ty == Htons(h, ETH_P_IPV6) {
      action := Icmp6Verdict(h, pkt, nh, p);
    } else if ty == Htons(h, ETH_P_IP) {
      action := IcmpVerdict(h, pkt, nh, p);
    }
  }

  /** The IPv6 branch, from the cursor on. */
  method Icmp6Verdict(h: Host, pkt: array<byte>, nh: HdrCursor, ghost p: seq<byte>) returns (action: Action)
    requires p == pkt[..]
    modifies nh
    ensures action == if EvenEcho6(p, old(nh.pos)) then Drop else Pass
  {
    var dataEnd := pkt.Length;
    assert pkt[..dataEnd] == p;
    var ty, ip6h := nh.ParseIp6hdr(pkt, dataEnd);
    if ty != IPPROTO_ICMPV6 {
      return Pass;
    }
    var ty', icmp6h := nh.ParseIcmp(pkt, dataEnd, 8);
    if ty' != ICMPV6_ECHO_REQUEST {
      return Pass;
    }
    var o := icmp6h.value;
    NtohsOfLoad(h, pkt[o + 6], pkt[o + 7]);
    return if Htons(h, Load16(h, pkt[o + 6], pkt[o + 7])) % 2 == 0 then Drop else Pass;
  }

  /** The IPv4 branch. */
  method IcmpVerdict(h: Host, pkt: array<byte>, nh: HdrCursor, ghost p: seq<byte>) returns (action: Action)
    requires p == pkt[..]
    modifies nh
    ensures action == if EvenEcho4(p, old(nh.pos)) then Drop else Pass
  {
    var dataEnd := pkt.Length;
    assert pkt[..dataEnd] == p;
    var ty, iph := nh.ParseIphdr(pkt, dataEnd);
    if ty != IPPROTO_ICMP {
      return Pass;
    }
    var ty', icmph := nh.ParseIcmp(pkt, dataEnd, 8);
    if ty' != ICMP_ECHO {
      return Pass;
    }
    var o := icmph.value;
    NtohsOfLoad(h, pkt[o + 6], pkt[o + 7]);
    return if Htons(h, Load16(h, pkt[o + 6], pkt[o + 7])) % 2 == 0 then Drop else Pass;
  }

  /** An ICMP header of that protocol is an echo request with an even sequence number. */
  predicate EvenRequest(v4: bool, protocol: byte, icmp: seq<byte>)
    requires |icmp| == 8
  {
    && protocol == (if v4 then 1 else 58) && icmp[0] == (if v4 then 8 else 128)
    && (256 * (icmp[6] as int) + icmp[7]) % 2 == 0
  }

  /** The verdict on any serialised frame: it is dropped exactly if it has at most four tags and
      holds an echo request of its own IP version with an even sequence number. */
  lemma VerdictOnFrame(macs: seq<byte>, tags: seq<Tag>, l3: Layer3, icmp: seq<byte>, payload: seq<byte>)
    requires |macs| == 12 && l3.Valid() && |icmp| == 8
    ensures ShouldDrop(Frame(macs, tags, l3, icmp, payload))
       <==> |tags| <= 4 && EvenRequest(l3.V4?, l3.Protocol(), icmp)
  {
    if |tags| <= 4 {
      VerdictBehindTags(macs, tags, l3, icmp, payload);
    } else {
      WalkOnFrame(Big, macs, tags, l3, icmp, payload, 4);
      NoVerdict(Frame(macs, tags, l3, icmp, payload), if tags[4].dot1ad then 0x88A8 else 0x8100, 30);
    }
  }

  lemma VerdictBehindTags(macs: seq<byte>, tags: seq<Tag>, l3: Layer3, icmp: seq<byte>, payload: seq<byte>)
    requires |macs| == 12 && |tags| <= 4 && l3.Valid() && |icmp| == 8
    ensures ShouldDrop(Frame(macs, tags, l3, icmp, payload)) <==> EvenRequest(l3.V4?, l3.Protocol(), icmp)
  {
    var o := 14 + 4 * |tags|;
    SerialiseThenParse(Big, macs, tags, l3, icmp, payload);
    VerdictFromWalks(Frame(macs, tags, l3, icmp, payload), o, l3.V4?, l3.Protocol(), o + |l3.Serialised()|, icmp);
  }

  lemma NoVerdict(f: seq<byte>, proto: u16, o: nat)
    requires EthWalk(Big, f, 0, 4) == Some(Walk(proto, o)) && proto != ETH_P_IP && proto != ETH_P_IPV6
    ensures !ShouldDrop(f)
  {
    var k := WalkFrom(Big, f, 0, 0, 4);
    WalkExact(Big, f, 0, k, 4);
    ShouldDropAt(f, k);
  }

  lemma VerdictFromWalks(f: seq<byte>, o: nat, v4: bool, protocol: byte, n: nat, icmp: seq<byte>)
    requires EthWalk(Big, f, 0, 4) == Some(Walk(if v4 then ETH_P_IP else ETH_P_IPV6, o))
    requires (if v4 then IpWalk(f, o) else Ip6Walk(f, o)) == Some(Walk(protocol, n))
    requires n + 8 <= |f| && |icmp| == 8 && f[n..n + 8] == icmp
    ensures ShouldDrop(f) <==> EvenRequest(v4, protocol, icmp)
  {
    var k := WalkFrom(Big, f, 0, 0, 4);
    WalkExact(Big, f, 0, k, 4);
    ShouldDropAt(f, k);
    assert f[n] == icmp[0] && f[n + 6] == icmp[6] && f[n + 7] == icmp[7];
  }
}
