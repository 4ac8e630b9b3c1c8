/** The ICMPv6 echo reply that process_packet in advanced03-AF_XDP/af_xdp_user.c builds in
    place in a received frame. */
module EchoReply {
  import opened Bytes
  import opened OnesComplement
  import opened InternetChecksum
  import opened IpHeaders
  import opened SwapHelpers
  import opened Xdp

  /** The frames process_packet answers. */
  predicate IsEchoRequest(p: seq<byte>) {
    && |p| >= 14 + 40 + 8
    && Be16At(p, 12) == ETH_P_IPV6
    && p[20] == IPPROTO_ICMPV6
    && p[54] == ICMPV6_ECHO_REQUEST
  }

  /** On an IPv6 packet given by its fields: the requests are those whose next header is ICMPv6 and
      whose payload is at least an ICMPv6 header and starts with the type of an echo request. */
  lemma RequestOnPacket(dmac: Mac, smac: Mac, f: Ipv6, payload: seq<byte>)
    ensures IsEchoRequest(Packet6(dmac, smac, f, payload))
       <==> f.nextHeader == 58 && |payload| >= 8 && payload[0] == 128
  {
    var p, s := Packet6(dmac, smac, f, payload), Start6(f);
    Parts(dmac, smac, s, f.source, f.destination, payload, 22, 16);
    assert p[12 + 0] == s[0] && p[12 + 1] == s[1] && p[12 + 8] == s[8];
    assert |payload| > 0 ==> p[54..][0] == payload[0];
  }

  /** And every request is such a packet. */
  lemma RequestIsPacket(p: seq<byte>) returns (dmac: Mac, smac: Mac, f: Ipv6, payload: seq<byte>)
    requires IsEchoRequest(p)
    ensures p == Packet6(dmac, smac, f, payload)
    ensures f.nextHeader == 58 && |payload| >= 8 && payload[0] == 128
  {
    dmac, smac, f, payload := Ipv6Packet(p);
    RequestOnPacket(dmac, smac, f, payload);
  }

  /** The checksum csum_replace2 leaves: it is told the type words with a zero code. */
  function ReplyCheck(h: Host, check: u16): u16 {
    CsumReplace2(check, Load16(h, ICMPV6_ECHO_REQUEST, 0), Load16(h, ICMPV6_ECHO_REPLY, 0))
  }

  /** The frame sent back for p. */
  function Answer(h: Host, p: seq<byte>): seq<byte>
    requires IsEchoRequest(p)
  {
    var swapped := Exchanged(Exchanged(p, 0, 6, 6), 22, 38, 16);
    Store16At(h, swapped[54 := ICMPV6_ECHO_REPLY], 56, ReplyCheck(h, Load16At(h, p, 56)))
  }

  /** The memory after the frame of len bytes at addr was answered in place, if it asked for it. */
  function Rewritten(h: Host, memory: seq<byte>, addr: nat, len: nat): seq<byte>
    requires addr + len <= |memory|
  {
    var p := memory[addr..addr + len];
    if IsEchoRequest(p) then memory[..addr] + Answer(h, p) + memory[addr + len..] else memory
  }

  /** csum_replace2 on the checksum field of a buffer. */
  method CsumReplaceField(h: Host, buf: array<byte>, o: nat, old16: u16, new16: u16)
    requires o + 2 <= buf.Length
    modifies buf
    ensures buf[..] == Store16At(h, old(buf[..]), o, CsumReplace2(Load16At(h, old(buf[..]), o), old16, new16))
  {
    var sum := Load16(h, buf[o], buf[o + 1]);
    sum := Not16(Csum16Add(Csum16Sub(Not16(sum), old16), new16));
    buf[o], buf[o + 1] := FirstByte(h, sum), SecondByte(h, sum);
  }

  /** The header checks at the start of process_packet. */
  method CheckEcho(h: Host, umem: array<byte>, addr: nat, len: nat) returns (request: bool)
    requires addr + 14 <= umem.Length && addr + len <= umem.Length
    ensures request <==> IsEchoRequest(umem[addr..addr + len])
  {
    LoadIsHtons(h, umem[addr + 12], umem[addr + 13]);
    HtonsInvolution(h, Be16(umem[addr + 12], umem[addr + 13]));
    if Htons(h, Load16(h, umem[addr + 12], umem[addr + 13])) != ETH_P_IPV6
       || len < 14 + 40 + 8
       || umem[addr + 20] != IPPROTO_ICMPV6
       || umem[addr + 54] != ICMPV6_ECHO_REQUEST {
      return false;
    }
    return true;
  }

  /** The six memcpy calls that exchange the MAC and the IPv6 addresses. */
  method SwapAddresses(umem: array<byte>, addr: nat)
    requires addr + 54 <= umem.Length
    modifies umem
    ensures umem[..] == Exchanged(Exchanged(old(umem[..]), addr, addr + 6, 6), addr + 22, addr + 38, 16)
    ensures forall i :: addr + 54 <= i < umem.Length ==> umem[i] == old(umem[i])
  {
    SwapRanges(umem, addr, addr + 6, 6);
    SwapRanges(umem, addr + 22, addr + 38, 16);
  }

  /** The rewrites that follow, on the frame at addr. */
  method BuildAnswer(h: Host, umem: array<byte>, addr: nat, len: nat)
    requires addr + len <= umem.Length && IsEchoRequest(umem[addr..addr + len])
    modifies umem
    ensures umem[..] == old(umem[..addr]) + Answer(h, old(umem[addr..addr + len])) + old(umem[addr + len..])
  {
    ghost var before, p, tail := umem[..], umem[addr..addr + len], umem[addr + len..];
    assert before == before[..addr] + p + tail;
    SwapAddresses(umem, addr);
    umem[addr + 54] := ICMPV6_ECHO_REPLY;
    ghost var swapped := Exchanged(Exchanged(before, addr, addr + 6, 6), addr + 22, addr + 38, 16);
    assert umem[..] == swapped[addr + 54 := ICMPV6_ECHO_REPLY];
    assert swapped[addr + 56] == p[56] && swapped[addr + 57] == p[57];
    CsumReplaceField(h, umem, addr + 56, Htons(h, ICMPV6_ECHO_REQUEST * 256), Htons(h, ICMPV6_ECHO_REPLY * 256));
    AnswerInBuffer(h, before, addr, p, tail);
  }

  /** What process_packet does to the frame at addr, of len bytes, in the UMEM area. */
  method RewriteEcho(h: Host, umem: array<byte>, addr: nat, len: nat) returns (answered: bool)
    requires addr + 14 <= umem.Length && addr + len <= umem.Length
    modifies umem
    ensures answered <==> IsEchoRequest(old(umem[..])[addr..addr + len])
    ensures umem[..] == Rewritten(h, old(umem[..]), addr, len)
  {
    assert umem[..][addr..addr + len] == umem[addr..addr + len];
    assert umem[..][..addr] == umem[..addr] && umem[..][addr + len..] == umem[addr + len..];
    answered := CheckEcho(h, umem, addr, len);
    if answered {
      BuildAnswer(h, umem, addr, len);
    }
  }

  /** Nothing outside the frame is touched. */
  lemma RewrittenInside(h: Host, memory: seq<byte>, addr: nat, len: nat)
    requires addr + len <= |memory|
    ensures var m, p := Rewritten(h, memory, addr, len), memory[addr..addr + len];
            && |m| == |memory| && m[..addr] == memory[..addr] && m[addr + len..] == memory[addr + len..]
            && m[addr..addr + len] == if IsEchoRequest(p) then Answer(h, p) else p
  {
    var p := memory[addr..addr + len];
    if IsEchoRequest(p) {
      AnswerFields(h, p);
      Middle(memory[..addr], Answer(h, p), memory[addr + len..]);
    }
  }

  lemma Middle(a: seq<byte>, m: seq<byte>, z: seq<byte>)
    ensures (a + m + z)[..|a|] == a && (a + m + z)[|a|..|a| + |m|] == m && (a + m + z)[|a| + |m|..] == z
  {
  }

  /** Rewriting the frame inside the buffer is rewriting the frame alone. */
  lemma AnswerInBuffer(h: Host, umem: seq<byte>, addr: nat, p: seq<byte>, tail: seq<byte>)
    requires addr <= |umem| && umem == umem[..addr] + p + tail && IsEchoRequest(p)
    ensures var swapped := Exchanged(Exchanged(umem, addr, addr + 6, 6), addr + 22, addr + 38, 16);
            Store16At(h, swapped[addr + 54 := ICMPV6_ECHO_REPLY], addr + 56, ReplyCheck(h, Load16At(h, p, 56)))
            == umem[..addr] + Answer(h, p) + tail
  {
    var pre := umem[..addr];
    var p1 := Exchanged(p, 0, 6, 6);
    ExchangedInside(umem, pre, p, tail, addr, addr + 6, 0, 6, 6);
    ExchangedInside(pre + p1 + tail, pre, p1, tail, addr + 22, addr + 38, 22, 38, 16);
    var p2 := Exchanged(p1, 22, 38, 16);
    assert (pre + p2 + tail)[addr + 54 := ICMPV6_ECHO_REPLY] == pre + p2[54 := ICMPV6_ECHO_REPLY] + tail;
  }

  // ----- what the reply is worth

  /** The code byte does not enter: the same value results with the true type words. */
  lemma ReplyCheckAnyCode(h: Host, check: u16, code: byte)
    ensures ReplyCheck(h, check)
         == CsumReplace2(check, Load16(h, ICMPV6_ECHO_REQUEST, code), Load16(h, ICMPV6_ECHO_REPLY, code))
    ensures ReplyCheck(h, check) != 0xFFFF
  {
    var o0, n0 := Load16(h, ICMPV6_ECHO_REQUEST, 0), Load16(h, ICMPV6_ECHO_REPLY, 0);
    var o1, n1 := Load16(h, ICMPV6_ECHO_REQUEST, code), Load16(h, ICMPV6_ECHO_REPLY, code);
    ReplaceCharacterised(check, o0, n0);
    ReplaceCharacterised(check, o1, n1);
    assert (o0 as int) - n0 == (o1 as int) - n1;
    var r0, r1 := CsumReplace2(check, o0, n0), CsumReplace2(check, o1, n1);
    AddMod((r0 as int) + n0, (check as int) + o0, -(n0 as int), -(n0 as int));
    AddMod((r1 as int) + n1, (check as int) + o1, -(n1 as int), -(n1 as int));
    SameRemainder(r0, r1);
  }

  /** The reply, field by field. */
  lemma AnswerFields(h: Host, p: seq<byte>)
    requires IsEchoRequest(p)
    ensures var q := Answer(h, p);
            && |q| == |p| && q[..6] == p[6..12] && q[6..12] == p[..6] && q[12..22] == p[12..22]
            && q[22..38] == p[38..54] && q[38..54] == p[22..38] && q[54] == ICMPV6_ECHO_REPLY && q[55] == p[55]
            && Load16At(h, q, 56) == ReplyCheck(h, Load16At(h, p, 56))
            && q[56] == FirstByte(h, ReplyCheck(h, Load16At(h, p, 56)))
            && q[57] == SecondByte(h, ReplyCheck(h, Load16At(h, p, 56)))
            && q[58..] == p[58..]
  {
    var p1 := Exchanged(p, 0, 6, 6);
    var p2 := Exchanged(p1, 22, 38, 16);
    assert p1[..6] == p[6..12] && p1[6..12] == p[..6] && p1[12..] == p[12..];
    assert p2[..22] == p1[..22] && p2[22..38] == p1[38..54] && p2[38..54] == p1[22..38] && p2[54..] == p1[54..];
    assert p2[..22][..6] == p1[..22][..6] && p2[..22][6..12] == p1[..22][6..12] && p2[..22][12..22] == p1[..22][12..22];
    assert p1[38..54] == p1[12..][26..42] && p1[22..38] == p1[12..][10..26] && p1[54..] == p1[12..][42..];
    var q := Answer(h, p);
    assert q[..54] == p2[..54] && q[55] == p2[55] && q[58..] == p2[58..];
    assert q[..6] == q[..54][..6] && q[6..12] == q[..54][6..12] && q[12..22] == q[..54][12..22]
        && q[22..38] == q[..54][22..38] && q[38..54] == q[..54][38..54];
    assert p2[54..][4..] == p2[58..] && p2[54..][1] == p2[55];
    StoreThenLoad(h, ReplyCheck(h, Load16At(h, p, 56)));
  }

  /** What the checksum of the reply covers is what that of the request covered, with the
      addresses exchanged, the type replaced and the checksum field patched. */
  lemma CoveredOfAnswer(h: Host, p: seq<byte>)
    requires IsEchoRequest(p) && HasMessage6(p, 14)
    ensures HasMessage6(Answer(h, p), 14)
    ensures var s := Exchanged(Covered6(p, 14), 0, 16, 16);
            Covered6(Answer(h, p), 14) ==
            Store16At(h, Store16At(h, s, 40, Load16(h, ICMPV6_ECHO_REPLY, p[55])), 42,
                      ReplyCheck(h, Load16At(h, p, 56)))
  {
    var q, plen := Answer(h, p), Be16At(p, 18);
    AnswerFields(h, p);
    assert q[18] == q[12..22][6] == p[18] && q[19] == q[12..22][7] == p[19];
    var a, l, m := p[22..54], PseudoTail(p, 14), p[54..54 + plen];
    var check := ReplyCheck(h, Load16At(h, p, 56));
    assert m[0] == p[54] && m[1] == p[55];
    StoreLoaded(h, ICMPV6_ECHO_REPLY, p[55]);
    PatchedMessage(h, p, q, plen, check);
    assert q[22..54] == q[22..38] + q[38..54] == p[38..54] + p[22..38] == Exchanged(a, 0, 16, 16);
    PatchedCover(h, a, l, m, Load16(h, ICMPV6_ECHO_REPLY, p[55]), check);
  }

  lemma PatchedMessage(h: Host, p: seq<byte>, q: seq<byte>, plen: nat, check: u16)
    requires 4 <= plen && 54 + plen <= |p| == |q| && q[58..] == p[58..]
    requires q[54] == ICMPV6_ECHO_REPLY && q[55] == p[55]
    requires q[56] == FirstByte(h, check) && q[57] == SecondByte(h, check)
    ensures q[54..54 + plen] ==
              Store16At(h, Store16At(h, p[54..54 + plen], 0, Load16(h, ICMPV6_ECHO_REPLY, p[55])), 2, check)
  {
    StoreLoaded(h, ICMPV6_ECHO_REPLY, p[55]);
    forall i | 58 <= i < 54 + plen ensures q[i] == p[i] {
      assert q[i] == q[58..][i - 58] && p[i] == p[58..][i - 58];
    }
  }

  /** Exchanging the addresses in the head and storing two words in the tail do not interfere. */
  lemma PatchedCover(h: Host, a: seq<byte>, l: seq<byte>, m: seq<byte>, x: u16, y: u16)
    requires |a| == 32 && |l| == 8 && |m| >= 4
    ensures Exchanged(a, 0, 16, 16) + l + Store16At(h, Store16At(h, m, 0, x), 2, y)
         == Store16At(h, Store16At(h, Exchanged(a + l + m, 0, 16, 16), 40, x), 42, y)
  {
    assert a + l + m == [] + a + (l + m);
    ExchangedInside(a + l + m, [], a, l + m, 0, 16, 0, 16, 16);
    assert [] + Exchanged(a, 0, 16, 16) + (l + m) == (Exchanged(a, 0, 16, 16) + l) + m;
    StoreInTail(h, Exchanged(a, 0, 16, 16) + l, m, 0, x);
    StoreInTail(h, Exchanged(a, 0, 16, 16) + l, Store16At(h, m, 0, x), 2, y);
  }

  lemma StoreInTail(h: Host, head: seq<byte>, m: seq<byte>, o: nat, x: u16)
    requires o + 2 <= |m|
    ensures Store16At(h, head + m, |head| + o, x) == head + Store16At(h, m, o, x)
  {
  }

  /** For a payload of any length and any code: the sum that the ICMPv6 checksum covers stays the
      same modulo 0xFFFF, so it is valid if and only if the request's was, every byte outside the
      swapped addresses, the type and the checksum is the request's, and the reply is not itself
      answered. */
  lemma AnswerKeepsValidity(h: Host, p: seq<byte>)
    requires IsEchoRequest(p) && HasMessage6(p, 14)
    ensures var q := Answer(h, p);
            && HasMessage6(q, 14)
            && WordSum(h, Covered6(q, 14)) % M == WordSum(h, Covered6(p, 14)) % M
            && (ValidSum(h, Covered6(q, 14)) <==> ValidSum(h, Covered6(p, 14)))
            && !IsEchoRequest(q) && q[54] == 129
            && |q| == |p| && q[12..22] == p[12..22] && q[55] == p[55] && q[58..] == p[58..]
            && q[..6] == p[6..12] && q[6..12] == p[..6] && q[22..38] == p[38..54] && q[38..54] == p[22..38]
  {
    CoveredOfAnswer(h, p);
    AnswerFields(h, p);
    ReplyCheckAnyCode(h, Load16At(h, p, 56), p[55]);
    var s := Exchanged(Covered6(p, 14), 0, 16, 16);
    ExchangeKeepsSum(h, Covered6(p, 14), 0, 16);
    assert s[40] == ICMPV6_ECHO_REQUEST && s[41] == p[55] && s[42] == p[56] && s[43] == p[57];
    PatchKeepsValidity(h, s, 40, 42, Load16(h, ICMPV6_ECHO_REPLY, p[55]));
  }

  /** The reply on the wire does not depend on the byte order of the host that builds it. */
  lemma AnswerByteOrder(p: seq<byte>)
    requires IsEchoRequest(p)
    ensures Answer(Little, p) == Answer(Big, p)
  {
    var swapped := Exchanged(Exchanged(p, 0, 6, 6), 22, 38, 16);
    var check := Load16At(Big, p, 56);
    LoadSwap(p[56], p[57]);
    LoadSwap(ICMPV6_ECHO_REQUEST, 0);
    LoadSwap(ICMPV6_ECHO_REPLY, 0);
    ReplaceCommutesWithSwap(check, Load16(Big, ICMPV6_ECHO_REQUEST, 0), Load16(Big, ICMPV6_ECHO_REPLY, 0));
    StoreSwapped(swapped[54 := ICMPV6_ECHO_REPLY], 56, ReplyCheck(Big, check));
  }

  /** A valid request gets the checksum a full recomputation would give, bit for bit, so the
      incremental update never leaves the second zero in the field. */
  lemma AnswerChecksumIsFresh(h: Host, p: seq<byte>)
    requires IsEchoRequest(p) && HasMessage6(p, 14)
    ensures var s := Covered6(Answer(h, p), 14);
            Load16At(h, s, 42) == Checksum(h, Store16At(h, s, 42, 0)) <==> ValidSum(h, Covered6(p, 14))
  {
    AnswerKeepsValidity(h, p);
    CoveredOfAnswer(h, p);
    ReplyCheckAnyCode(h, Load16At(h, p, 56), p[55]);
    var s := Covered6(Answer(h, p), 14);
    assert Store16At(h, s, 42, 0)[39] == IPPROTO_ICMPV6;
    FreshIffValid(h, s, 42);
    StoreThenLoad(h, ReplyCheck(h, Load16At(h, p, 56)));
  }
}
