/** The ICMP echo server xdp_icmp_echo_func of packet-solutions/xdp_prog_kern_03.c, in place on
    the packet. The kernel helper bpf_csum_diff is an arbitrary function; what it promises is a
    hypothesis of the theorems, not of the program. */
module IcmpEcho {
  import opened Bytes
  import opened OnesComplement
  import opened InternetChecksum
  import opened Xdp
  import opened Parsing
  import opened SwapHelpers

  /** bpf_csum_diff on two four-byte headers and a seed. */
  type CsumDiff = (seq<byte>, seq<byte>, u16) -> u32

  /** Where an echo request is found: its network header and its ICMP header. */
  datatype Target = NoEcho | Echo4(ip: nat, icmp: nat) | Echo6(ip: nat, icmp: nat)

  function FindEcho(h: Host, p: seq<byte>): (t: Target)
    ensures t.Echo4? ==>
              && 14 <= t.ip && t.ip + 20 <= |p|
              && t.icmp == t.ip + 4 * (p[t.ip] % 16) && t.ip + 8 <= t.icmp && t.icmp + 4 <= |p|
    ensures t.Echo6? ==> 14 <= t.ip && t.icmp == t.ip + 40 && t.icmp + 4 <= |p|
  {
    match EthWalk(h, p, 0, 4)
    case None => NoEcho
    case Some(eth) =>
      WalkAdvances(h, p, Load16At(h, p, 12), 14, 4);
      if eth.proto == Htons(h, ETH_P_IP) then
        match IpWalk(p, eth.pos)
        case None => NoEcho
        case Some(ip) =>
          if ip.proto == IPPROTO_ICMP && IcmpWalk(p, ip.pos, 4).Some? && p[ip.pos] == ICMP_ECHO
          then Echo4(eth.pos, ip.pos) else NoEcho
      else if eth.proto == Htons(h, ETH_P_IPV6) then
        match Ip6Walk(p, eth.pos)
        case None => NoEcho
        case Some(ip) =>
          if ip.proto == IPPROTO_ICMPV6 && IcmpWalk(p, ip.pos, 4).Some? && p[ip.pos] == ICMPV6_ECHO_REQUEST
          then Echo6(eth.pos, ip.pos) else NoEcho
      else NoEcho
  }

  lemma {:induction false} WalkAdvances(h: Host, b: seq<byte>, proto: u16, pos: nat, depth: nat)
    requires pos <= |b|
    ensures pos <= VlanWalk(h, b, proto, pos, depth).pos <= |b|
    decreases depth
  {
    if depth > 0 && ProtoIsVlan(h, proto) && pos + 4 <= |b| {
      WalkAdvances(h, b, Load16At(h, b, pos + 2), pos + 4, depth - 1);
    }
  }

  /** The ICMP header at icmp answered: the type replaced, the checksum taken from the helper. */
  function PatchedIcmp(h: Host, q: seq<byte>, icmp: nat, reply: byte, diff: CsumDiff): seq<byte>
    requires icmp + 4 <= |q|
  {
    var csum := diff([q[icmp], q[icmp + 1], 0, 0], [reply, q[icmp + 1], 0, 0], Not16(Load16At(h, q, icmp + 2)));
    Store16At(h, q[icmp := reply], icmp + 2, CsumFoldHelper(csum))
  }

  function Answer4(h: Host, p: seq<byte>, ip: nat, icmp: nat, diff: CsumDiff): seq<byte>
    requires 14 <= ip && ip + 20 <= |p| && icmp + 4 <= |p|
  {
    PatchedIcmp(h, Exchanged(Exchanged(p, ip + 12, ip + 16, 4), 0, 6, 6), icmp, ICMP_ECHOREPLY, diff)
  }

  function Answer6(h: Host, p: seq<byte>, ip: nat, diff: CsumDiff): seq<byte>
    requires 14 <= ip && ip + 44 <= |p|
  {
    PatchedIcmp(h, Exchanged(Exchanged(p, ip + 8, ip + 24, 16), 0, 6, 6), ip + 40, ICMPV6_ECHO_REPLY, diff)
  }

  /** The packet after the program. */
  function EchoAnswer(h: Host, p: seq<byte>, diff: CsumDiff): seq<byte> {
    match FindEcho(h, p)
    case NoEcho => p
    case Echo4(ip, icmp) => Answer4(h, p, ip, icmp, diff)
    case Echo6(ip, icmp) => Answer6(h, p, ip, diff)
  }

  // ----- the program

  method XdpIcmpEcho(h: Host, pkt: array<byte>, diff: CsumDiff) returns (action: Action)
    modifies pkt
    ensures action == if FindEcho(h, old(pkt[..])).NoEcho? then Pass else Tx
    ensures pkt[..] == EchoAnswer(h, old(pkt[..]), diff)
    ensures action == Pass ==> pkt[..] == old(pkt[..])
  {
    var target := ParseEcho(h, pkt);
    match target {
      case NoEcho =>
        action := Pass;
      case Echo4(ip, icmp) =>
        AnswerIpv4(h, pkt, ip, icmp, diff);
        action := Tx;
      case Echo6(ip, icmp) =>
        AnswerIpv6(h, pkt, ip, diff);
        action := Tx;
    }
  }

  method AnswerIpv4(h: Host, pkt: array<byte>, ip: nat, icmp: nat, diff: CsumDiff)
    requires 14 <= ip && ip + 20 <= pkt.Length && icmp + 4 <= pkt.Length
    modifies pkt
    ensures pkt[..] == Answer4(h, old(pkt[..]), ip, icmp, diff)
  {
    SwapSrcDstIpv4(pkt, ip);
    SwapSrcDstMac(pkt, 0);
    PatchIcmp(h, pkt, icmp, ICMP_ECHOREPLY, diff);
  }

  method AnswerIpv6(h: Host, pkt: array<byte>, ip: nat, diff: CsumDiff)
    requires 14 <= ip && ip + 44 <= pkt.Length
    modifies pkt
    ensures pkt[..] == Answer6(h, old(pkt[..]), ip, diff)
  {
    SwapSrcDstIpv6(pkt, ip);
    SwapSrcDstMac(pkt, 0);
    PatchIcmp(h, pkt, ip + 40, ICMPV6_ECHO_REPLY, diff);
  }

  /** The parsing half of the program. */
  method ParseEcho(h: Host, pkt: array<byte>) returns (target: Target)
    ensures target == FindEcho(h, pkt[..])
  {
    var dataEnd := pkt.Length;
    assert pkt[..dataEnd] == pkt[..];
    var nh := new HdrCursor(0);
    var ethType, eth := nh.ParseEthhdr(h, pkt, dataEnd, 4);
    var ipType, ip, icmpType, icmp;
    if ethType == Htons(h, ETH_P_IP) {
      ipType, ip := nh.ParseIphdr(pkt, dataEnd);
      if ipType != IPPROTO_ICMP {
        return NoEcho;
      }
      icmpType, icmp := nh.ParseIcmp(pkt, dataEnd, 4);
      return if icmpType == ICMP_ECHO then Echo4(ip.value, icmp.value) else NoEcho;
    } else if ethType == Htons(h, ETH_P_IPV6) {
      ipType, ip := nh.ParseIp6hdr(pkt, dataEnd);
      if ipType != IPPROTO_ICMPV6 {
        return NoEcho;
      }
      icmpType, icmp := nh.ParseIcmp(pkt, dataEnd, 4);
      return if icmpType == ICMPV6_ECHO_REQUEST then Echo6(ip.value, icmp.value) else NoEcho;
    }
    return NoEcho;
  }

  method PatchIcmp(h: Host, pkt: array<byte>, icmp: nat, reply: byte, diff: CsumDiff)
    requires icmp + 4 <= pkt.Length
    modifies pkt
    ensures pkt[..] == PatchedIcmp(h, old(pkt[..]), icmp, reply, diff)
  {
    var oldCsum := Load16(h, pkt[icmp + 2], pkt[icmp + 3]);
    pkt[icmp + 2], pkt[icmp + 3] := 0, 0;
    var before := pkt[icmp..icmp + 4];
    pkt[icmp] := reply;
    var after := pkt[icmp..icmp + 4];
    assert before == [old(pkt[icmp]), old(pkt[icmp + 1]), 0, 0];
    assert after == [reply, old(pkt[icmp + 1]), 0, 0];
    var csum := CsumFoldHelper(diff(before, after, Not16(oldCsum)));
    pkt[icmp + 2], pkt[icmp + 3] := FirstByte(h, csum), SecondByte(h, csum);
  }

  // ----- the checksum of the reply

  /** What bpf_csum_diff promises: the sum of the seed, the complemented old words and the new
      words, in any representation modulo 0xFFFF. */
  ghost predicate IsCsumDiff(h: Host, diff: CsumDiff) {
    forall a: seq<byte>, b: seq<byte>, seed: u16 {:trigger diff(a, b, seed)} :: |a| == 4 && |b| == 4 ==>
      (diff(a, b, seed) + WordSum(h, a)) % M == (seed + WordSum(h, b)) % M
  }

  /** The two halves of a 32-bit sum add without carry. */
  predicate NoCarry(csum: u32) {
    csum % 0x1_0000 + csum / 0x1_0000 < 0x1_0000
  }

  /** The carry as a number. */
  function Carry(csum: u32): nat {
    if NoCarry(csum) then 0 else 1
  }

  lemma HeaderWords(h: Host, first: byte, second: byte)
    ensures WordSum(h, [first, second, 0, 0]) == Load16(h, first, second)
  {
    var a, b := [first, second], [0, 0];
    assert [first, second, 0, 0] == a + b;
    WordSumConcat(h, a, b);
    assert a[2..] == [] && b[2..] == [];
    assert WordSum(h, a) == Load16(h, first, second);
    assert WordSum(h, b) == 0;
  }

  /** Patching the type word and the checksum of any message adds the carry of the helper's result
      to its sum. So a valid message gives a valid one if and only if there is no carry. */
  lemma PatchExact(h: Host, s: seq<byte>, o: nat, new16: u16, csum: u32)
    requires o % 2 == 0 && o + 4 <= |s|
    requires (csum + Load16At(h, s, o)) % M == (Not16(Load16At(h, s, o + 2)) + new16) % M
    ensures var r := Store16At(h, Store16At(h, s, o, new16), o + 2, CsumFoldHelper(csum));
            && WordSum(h, r) % M == (WordSum(h, s) + Carry(csum)) % M
            && (ValidSum(h, s) ==> (ValidSum(h, r) <==> NoCarry(csum)))
  {
    var old16, check, fold := Load16At(h, s, o), Load16At(h, s, o + 2), CsumFoldHelper(csum);
    WordSumPatch(h, s, o, o + 2, new16, fold);
    var before, after := WordSum(h, s), WordSum(h, Store16At(h, Store16At(h, s, o, new16), o + 2, fold));
    HelperResidue(csum);
    PatchResidue(before, after, old16, new16, check, fold, csum, Carry(csum));
    CarryOnValid(before, after, Carry(csum));
  }

  lemma CarryOnValid(before: nat, after: nat, carry: nat)
    requires after % M == (before + carry) % M && carry <= 1
    ensures before % M == 0 ==> (after % M == 0 <==> carry == 0)
  {
    if before % M == 0 {
      AddMod(before, 0, carry, carry);
    }
  }

  /** The helper is the negated sum, plus one if the halves carry. */
  lemma HelperResidue(csum: u32)
    ensures (CsumFoldHelper(csum) + csum) % M == Carry(csum)
  {
    var fold, carry := CsumFoldHelper(csum), Carry(csum);
    FoldHelperExact(csum);
    if !NoCarry(csum) {
      FoldHelperOffByOne(csum);
    }
    assert FullFold(csum) + fold == M + carry;
    NegatedSum(csum, FullFold(csum), fold, carry);
  }

  lemma NegatedSum(csum: int, full: int, fold: int, carry: int)
    requires full % M == csum % M && full + fold == M + carry && 0 <= carry <= 1
    ensures (fold + csum) % M == carry
  {
    AddMod(csum, full, fold, fold);
  }

  lemma PatchResidue(before: int, after: int, old16: int, new16: int, check: int, fold: int, csum: int, carry: int)
    requires after == before - old16 + new16 - check + fold
    requires (csum + old16) % M == (M - check + new16) % M
    requires (fold + csum) % M == carry && 0 <= carry <= 1
    ensures after % M == (before + carry) % M
  {
    AddMod(csum + old16, M - check + new16, -csum - old16, -csum - old16);
    assert (new16 - check - csum - old16 + M) % M == 0;
    AddMod(new16 - check - csum - old16 + M, 0, before, before);
    AddMod(new16 - check - csum - old16 + M + before, before, fold + csum, carry);
    assert after + M == new16 - check - csum - old16 + M + before + (fold + csum);
  }

  /** The less generic formula in the comment of the program. */
  function AlternativeCheck(check: u16, m0: u16, m1: u16): u16 {
    Not16(Csum16Add(Csum16Add(Not16(check), Not16(m0)), m1))
  }

  /** Without carry the program and the formula in its comment agree modulo 0xFFFF. */
  lemma AlternativeAgrees(check: u16, m0: u16, m1: u16, csum: u32)
    requires (csum + m0) % M == (Not16(check) + m1) % M
    ensures CsumFoldHelper(csum) % M == AlternativeCheck(check, m0, m1) % M <==> NoCarry(csum)
  {
    var fold, alt := CsumFoldHelper(csum), AlternativeCheck(check, m0, m1);
    assert alt == CsumReplace2(check, m0, m1);
    ReplaceCharacterised(check, m0, m1);
    HelperResidue(csum);
    AgreeResidue(check, m0, m1, csum, fold, alt, Carry(csum));
  }

  lemma AgreeResidue(check: int, m0: int, m1: int, csum: int, fold: int, alt: int, carry: int)
    requires (csum + m0) % M == (M - check + m1) % M && (alt + m1) % M == (check + m0) % M
    requires (fold + csum) % M == carry && 0 <= carry <= 1
    ensures fold % M == alt % M <==> carry == 0
  {
    var k := (csum + m0) / M - (M - check + m1) / M;
    var j := (alt + m1) / M - (check + m0) / M;
    var i := (fold + csum) / M;
    assert csum + m0 == M - check + m1 + k * M;
    assert alt + m1 == check + m0 + j * M;
    assert fold + csum == carry + i * M;
    assert fold - alt == carry + (i - 1 - k - j) * M;
    if fold % M == alt % M {
      var l := fold / M - alt / M;
      assert fold - alt == l * M;
      assert carry == (l - (i - 1 - k - j)) * M;
    }
    if carry == 0 {
      AddMod(fold - alt, 0, alt, alt);
    }
  }

  /** The residue that the promise leaves to bpf_csum_diff. */
  function DiffResidue(h: Host, a: seq<byte>, b: seq<byte>, seed: u16): u16 {
    (seed + WordSum(h, b) - WordSum(h, a)) % M
  }

  /** Two helpers that keep the promise: one returns the residue, folded to 16 bits, the other a
      number of the same residue whose halves carry. */
  function FoldedDiff(h: Host): CsumDiff {
    (a, b, seed) => DiffResidue(h, a, b, seed)
  }

  function CarryingDiff(h: Host): CsumDiff {
    (a, b, seed) => Unfolded(DiffResidue(h, a, b, seed))
  }

  function Unfolded(residue: u16): u32 {
    0xFFFF_0000 + if residue == 0 then 0xFFFF else residue
  }

  /** A result that keeps the promise may carry, whatever its residue. */
  lemma CarryPossible(residue: u16)
    requires residue < M
    ensures Unfolded(residue) % M == residue && !NoCarry(Unfolded(residue))
  {
  }

  lemma DiffsKeepPromise(h: Host)
    ensures IsCsumDiff(h, FoldedDiff(h)) && IsCsumDiff(h, CarryingDiff(h))
  {
    forall a: seq<byte>, b: seq<byte>, seed: u16 | |a| == 4 && |b| == 4
      ensures (FoldedDiff(h)(a, b, seed) + WordSum(h, a)) % M == (seed + WordSum(h, b)) % M
      ensures (CarryingDiff(h)(a, b, seed) + WordSum(h, a)) % M == (seed + WordSum(h, b)) % M
    {
      var r := DiffResidue(h, a, b, seed);
      AddMod(r, seed + WordSum(h, b) - WordSum(h, a), WordSum(h, a), WordSum(h, a));
      CarryPossible(r);
      AddMod(Unfolded(r), r, WordSum(h, a), WordSum(h, a));
    }
  }

  /** A result that is already folded to 16 bits never carries. */
  lemma FoldedNeverCarries(csum: u32)
    requires csum <= 0xFFFF
    ensures NoCarry(csum)
  {
  }

  // ----- whole packets

  lemma ExchangeOutside(p: seq<byte>, a: nat, n: nat, lo: nat, hi: nat)
    requires a + 2 * n <= |p| && lo <= hi <= |p| && (hi <= a || a + 2 * n <= lo)
    ensures Exchanged(p, a, a + n, n)[lo..hi] == p[lo..hi]
  {
    var t := Exchanged(p, a, a + n, n);
    forall i | lo <= i < hi ensures t[i] == p[i] {
      ExchangedAt(p, a, a + n, n, i);
    }
  }

  lemma ExchangeWithin(p: seq<byte>, a: nat, n: nat, lo: nat, hi: nat)
    requires lo <= a && a + 2 * n <= hi <= |p|
    ensures Exchanged(p, a, a + n, n)[lo..hi] == Exchanged(p[lo..hi], a - lo, a - lo + n, n)
  {
    var s := p[lo..hi];
    assert p == p[..lo] + s + p[hi..];
    ExchangedInside(p, p[..lo], s, p[hi..], a, a + n, a - lo, a - lo + n, n);
  }

  /** The helper's result for the request whose ICMP header is at icmp. */
  function DiffFor(h: Host, p: seq<byte>, icmp: nat, reply: byte, diff: CsumDiff): u32
    requires icmp + 4 <= |p|
  {
    diff([p[icmp], p[icmp + 1], 0, 0], [reply, p[icmp + 1], 0, 0], Not16(Load16At(h, p, icmp + 2)))
  }

  /** The ICMP message of the answer, for addresses swapped in front of it. */
  lemma PatchedMessage(h: Host, p: seq<byte>, q: seq<byte>, icmp: nat, e: nat, reply: byte, diff: CsumDiff)
    requires icmp + 4 <= e <= |p| == |q| && q[icmp..e] == p[icmp..e]
    ensures var s := p[icmp..e];
            PatchedIcmp(h, q, icmp, reply, diff)[icmp..e] ==
            Store16At(h, Store16At(h, s, 0, Load16(h, reply, s[1])), 2,
                      CsumFoldHelper(DiffFor(h, p, icmp, reply, diff)))
  {
    var s, u := p[icmp..e], q[icmp..e];
    assert u[0] == q[icmp] && u[1] == q[icmp + 1] && u[2] == q[icmp + 2] && u[3] == q[icmp + 3];
    assert s[0] == p[icmp] && s[1] == p[icmp + 1] && s[2] == p[icmp + 2] && s[3] == p[icmp + 3];
    assert FirstByte(h, Load16(h, reply, s[1])) == reply && SecondByte(h, Load16(h, reply, s[1])) == s[1];
  }

  /** Given the helper's promise, its result satisfies the congruence the patch needs. */
  lemma PromiseUsed(h: Host, p: seq<byte>, icmp: nat, reply: byte, diff: CsumDiff)
    requires icmp + 4 <= |p| && IsCsumDiff(h, diff)
    ensures (DiffFor(h, p, icmp, reply, diff) + Load16At(h, p, icmp)) % M
         == (Not16(Load16At(h, p, icmp + 2)) + Load16(h, reply, p[icmp + 1])) % M
  {
    HeaderWords(h, p[icmp], p[icmp + 1]);
    HeaderWords(h, reply, p[icmp + 1]);
  }

  /** What the checksum of a reply is worth, for any request, valid or not: the carry is added to the
      sum, and a valid message becomes a valid one exactly when there is none. */
  predicate AddsCarry(h: Host, request: seq<byte>, reply: seq<byte>, csum: u32) {
    && WordSum(h, reply) % M == (WordSum(h, request) + Carry(csum)) % M
    && (ValidSum(h, request) ==> (ValidSum(h, reply) <==> NoCarry(csum)))
  }

  /** A well-formed ICMP echo request: a header of at least twenty bytes, and a message that ends
      at e, where the total length field says. */
  predicate Request4(h: Host, p: seq<byte>, ip: nat, icmp: nat, e: nat) {
    && FindEcho(h, p) == Echo4(ip, icmp)
    && p[ip] % 16 >= 5
    && e == ip + Be16At(p, ip + 2) && icmp + 4 <= e <= |p|
  }

  /** The answer to a well-formed request: the MAC and the IPv4 addresses change places, the type
      becomes that of a reply, the IPv4 header keeps its checksum field and its sum, everything
      behind the patched header is unchanged, and the carry of the helper's result is
      added to the sum of the message, so that a valid one becomes a valid one exactly when there
      is none. */
  lemma Answer4Exact(h: Host, p: seq<byte>, ip: nat, icmp: nat, e: nat, diff: CsumDiff)
    requires Request4(h, p, ip, icmp, e) && IsCsumDiff(h, diff)
    ensures var q := EchoAnswer(h, p, diff);
            && |q| == |p|
            && q[..6] == p[6..12] && q[6..12] == p[..6]
            && q[ip + 12..ip + 16] == p[ip + 16..ip + 20] && q[ip + 16..ip + 20] == p[ip + 12..ip + 16]
            && q[icmp] == 0 && q[icmp + 1] == p[icmp + 1]
            && WordSum(h, q[ip..icmp]) == WordSum(h, p[ip..icmp])
            && q[12..ip + 12] == p[12..ip + 12] && q[ip + 20..icmp] == p[ip + 20..icmp]
            && q[icmp + 4..] == p[icmp + 4..]
            && AddsCarry(h, p[icmp..e], q[icmp..e], DiffFor(h, p, icmp, ICMP_ECHOREPLY, diff))
  {
    Answer4Header(h, p, ip, icmp, diff);
    Answer4Addresses(h, p, ip, icmp, diff);
    Answer4Message(h, p, ip, icmp, e, diff);
  }

  lemma Answer4Addresses(h: Host, p: seq<byte>, ip: nat, icmp: nat, diff: CsumDiff)
    requires 14 <= ip && ip + 20 <= icmp && icmp + 4 <= |p|
    ensures var q := Answer4(h, p, ip, icmp, diff);
            && |q| == |p| && q[icmp + 1] == p[icmp + 1]
            && q[..6] == p[6..12] && q[6..12] == p[..6]
            && q[ip + 12..ip + 16] == p[ip + 16..ip + 20] && q[ip + 16..ip + 20] == p[ip + 12..ip + 16]
  {
    var q1 := Exchanged(p, ip + 12, ip + 16, 4);
    var q2 := Exchanged(q1, 0, 6, 6);
    AddressesSwapped(p, ip + 12, 4, q1, q2);
    SwappedParts(p, ip + 12, 4, ip, icmp, q1, q2);
    assert q2[icmp + 1] == q2[icmp..][1] && p[icmp + 1] == p[icmp..][1];
    PatchedElsewhere(h, q2, icmp, ICMP_ECHOREPLY, diff, ip);
  }

  /** Both exchanges at work: the MAC addresses and the two fields of n bytes at a. */
  lemma AddressesSwapped(p: seq<byte>, a: nat, n: nat, q1: seq<byte>, q2: seq<byte>)
    requires 14 <= a && a + 2 * n <= |p|
    requires q1 == Exchanged(p, a, a + n, n) && q2 == Exchanged(q1, 0, 6, 6)
    ensures q2[0..6] == p[6..12] && q2[6..12] == p[0..6]
    ensures q2[a..a + n] == p[a + n..a + 2 * n] && q2[a + n..a + 2 * n] == p[a..a + n]
  {
    MacsSwapped(p, a, n, q1);
    NeighboursSwapped(p, a, n);
    ExchangeOutside(q1, 0, 6, a, a + n);
    ExchangeOutside(q1, 0, 6, a + n, a + 2 * n);
  }

  lemma MacsSwapped(p: seq<byte>, a: nat, n: nat, q1: seq<byte>)
    requires 14 <= a && a + 2 * n <= |p| && q1 == Exchanged(p, a, a + n, n)
    ensures Exchanged(q1, 0, 6, 6)[0..6] == p[6..12] && Exchanged(q1, 0, 6, 6)[6..12] == p[0..6]
  {
    NeighboursSwapped(q1, 0, 6);
    ExchangeOutside(p, a, n, 0, 6);
    ExchangeOutside(p, a, n, 6, 12);
  }

  lemma NeighboursSwapped(p: seq<byte>, a: nat, n: nat)
    requires a + 2 * n <= |p|
    ensures Exchanged(p, a, a + n, n)[a..a + n] == p[a + n..a + 2 * n]
    ensures Exchanged(p, a, a + n, n)[a + n..a + 2 * n] == p[a..a + n]
  {
  }

  lemma Answer4Header(h: Host, p: seq<byte>, ip: nat, icmp: nat, diff: CsumDiff)
    requires 14 <= ip && ip + 20 <= icmp && icmp + 4 <= |p|
    ensures var q := Answer4(h, p, ip, icmp, diff);
            && |q| == |p| && q[icmp] == ICMP_ECHOREPLY
            && WordSum(h, q[ip..icmp]) == WordSum(h, p[ip..icmp])
            && q[12..ip + 12] == p[12..ip + 12] && q[ip + 20..icmp] == p[ip + 20..icmp]
            && q[icmp + 4..] == p[icmp + 4..]
  {
    var q1 := Exchanged(p, ip + 12, ip + 16, 4);
    var q2 := Exchanged(q1, 0, 6, 6);
    SwappedParts(p, ip + 12, 4, ip, icmp, q1, q2);
    ExchangeKeepsSum(h, p[ip..icmp], 12, 4);
    ExchangeWithin(p, ip + 12, 4, ip, icmp);
    PatchedElsewhere(h, q2, icmp, ICMP_ECHOREPLY, diff, ip);
    assert q2[icmp + 4..] == q2[icmp..][4..] && p[icmp + 4..] == p[icmp..][4..];
  }

  lemma Answer4Message(h: Host, p: seq<byte>, ip: nat, icmp: nat, e: nat, diff: CsumDiff)
    requires 14 <= ip && ip + 20 <= icmp && icmp + 4 <= e <= |p| && IsCsumDiff(h, diff)
    ensures AddsCarry(h, p[icmp..e], Answer4(h, p, ip, icmp, diff)[icmp..e], DiffFor(h, p, icmp, ICMP_ECHOREPLY, diff))
  {
    var q1 := Exchanged(p, ip + 12, ip + 16, 4);
    var q2 := Exchanged(q1, 0, 6, 6);
    SwappedParts(p, ip + 12, 4, ip, icmp, q1, q2);
    SameTail(p, q2, icmp, e);
    PatchedMessage(h, p, q2, icmp, e, ICMP_ECHOREPLY, diff);
    MessageExact(h, p, icmp, e, ICMP_ECHOREPLY, diff);
  }

  lemma SameTail(p: seq<byte>, q: seq<byte>, o: nat, e: nat)
    requires o <= e <= |p| == |q| && q[o..] == p[o..]
    ensures q[o..e] == p[o..e]
  {
    assert q[o..e] == q[o..][..e - o] && p[o..e] == p[o..][..e - o];
  }

  lemma MessageExact(h: Host, p: seq<byte>, icmp: nat, e: nat, reply: byte, diff: CsumDiff)
    requires icmp + 4 <= e <= |p| && IsCsumDiff(h, diff)
    ensures var s, csum := p[icmp..e], DiffFor(h, p, icmp, reply, diff);
            AddsCarry(h, s, Store16At(h, Store16At(h, s, 0, Load16(h, reply, s[1])), 2, CsumFoldHelper(csum)), csum)
  {
    var s := p[icmp..e];
    PromiseUsed(h, p, icmp, reply, diff);
    assert s[0] == p[icmp] && s[1] == p[icmp + 1] && s[2] == p[icmp + 2] && s[3] == p[icmp + 3];
    PatchExact(h, s, 0, Load16(h, reply, s[1]), DiffFor(h, p, icmp, reply, diff));
  }

  lemma SwappedParts(p: seq<byte>, a: nat, n: nat, ip: nat, icmp: nat, q1: seq<byte>, q2: seq<byte>)
    requires 14 <= ip <= a && a + 2 * n <= icmp <= |p|
    requires q1 == Exchanged(p, a, a + n, n) && q2 == Exchanged(q1, 0, 6, 6)
    ensures q2[ip..icmp] == q1[ip..icmp] && q2[icmp..] == p[icmp..]
    ensures q2[12..a] == p[12..a] && q2[a + 2 * n..icmp] == p[a + 2 * n..icmp]
  {
    ExchangeOutside(q1, 0, 6, ip, icmp);
    ExchangeOutside(q1, 0, 6, icmp, |p|);
    ExchangeOutside(p, a, n, icmp, |p|);
    assert q2[icmp..] == q2[icmp..|p|] && p[icmp..] == p[icmp..|p|];
    ExchangeOutside(q1, 0, 6, 12, a);
    ExchangeOutside(p, a, n, 12, a);
    ExchangeOutside(q1, 0, 6, a + 2 * n, icmp);
    ExchangeOutside(p, a, n, a + 2 * n, icmp);
  }

  lemma PatchedElsewhere(h: Host, q: seq<byte>, icmp: nat, reply: byte, diff: CsumDiff, lo: nat)
    requires lo <= icmp && icmp + 4 <= |q|
    ensures var r := PatchedIcmp(h, q, icmp, reply, diff);
            && |r| == |q| && r[..icmp] == q[..icmp] && r[icmp + 4..] == q[icmp + 4..]
            && r[icmp] == reply && r[icmp + 1] == q[icmp + 1]
            && forall i, j :: 0 <= i <= j <= icmp ==> r[i..j] == q[i..j]
  {
    var r := PatchedIcmp(h, q, icmp, reply, diff);
    assert r[..icmp] == q[..icmp];
    forall i, j | 0 <= i <= j <= icmp ensures r[i..j] == q[i..j] {
      assert r[i..j] == r[..icmp][i..j] && q[i..j] == q[..icmp][i..j];
    }
  }

  /** Where byte i of an IPv4 answer was in the request, the four patched bytes apart. */
  function Source4(ip: nat, i: nat): nat {
    if i < 6 then i + 6
    else if i < 12 then i - 6
    else if ip + 12 <= i < ip + 16 then i + 4
    else if ip + 16 <= i < ip + 20 then i - 4
    else i
  }

  /** The same byte by byte, for every request found, so for a header length of two to four words
      too, where the patched bytes lie among the addresses. */
  lemma Answer4Bytes(h: Host, p: seq<byte>, ip: nat, icmp: nat, diff: CsumDiff, i: nat)
    requires FindEcho(h, p) == Echo4(ip, icmp) && i < |p|
    ensures var q := EchoAnswer(h, p, diff);
            && |q| == |p| && q[icmp] == 0
            && (i < icmp || icmp + 4 <= i ==> q[i] == p[Source4(ip, i)])
  {
    SwappedByte(p, ip, i);
    PatchedByte(h, Exchanged(Exchanged(p, ip + 12, ip + 16, 4), 0, 6, 6), icmp, ICMP_ECHOREPLY, diff, i);
  }

  lemma SwappedByte(p: seq<byte>, ip: nat, i: nat)
    requires 14 <= ip && ip + 20 <= |p| && i < |p|
    ensures Exchanged(Exchanged(p, ip + 12, ip + 16, 4), 0, 6, 6)[i] == p[Source4(ip, i)]
  {
    ExchangedAt(Exchanged(p, ip + 12, ip + 16, 4), 0, 6, 6, i);
    ExchangedAt(p, ip + 12, ip + 16, 4, if i < 6 then i + 6 else if i < 12 then i - 6 else i);
  }

  lemma PatchedByte(h: Host, q: seq<byte>, icmp: nat, reply: byte, diff: CsumDiff, i: nat)
    requires icmp + 4 <= |q| && i < |q|
    ensures var r := PatchedIcmp(h, q, icmp, reply, diff);
            |r| == |q| && r[icmp] == reply && (i < icmp || icmp + 4 <= i ==> r[i] == q[i])
  {
  }

  predicate Request6(h: Host, p: seq<byte>, ip: nat) {
    FindEcho(h, p) == Echo6(ip, ip + 40) && HasMessage6(p, ip)
  }

  /** The same for ICMPv6, whose checksum also covers the swapped addresses. */
  lemma Answer6Exact(h: Host, p: seq<byte>, ip: nat, diff: CsumDiff)
    requires Request6(h, p, ip) && IsCsumDiff(h, diff)
    ensures var q := EchoAnswer(h, p, diff);
            && |q| == |p|
            && q[..6] == p[6..12] && q[6..12] == p[..6]
            && q[ip + 8..ip + 24] == p[ip + 24..ip + 40] && q[ip + 24..ip + 40] == p[ip + 8..ip + 24]
            && q[ip + 40] == 129 && q[ip + 41] == p[ip + 41]
            && q[12..ip + 8] == p[12..ip + 8] && q[ip + 44..] == p[ip + 44..]
            && HasMessage6(q, ip)
            && AddsCarry(h, Covered6(p, ip), Covered6(q, ip), DiffFor(h, p, ip + 40, ICMPV6_ECHO_REPLY, diff))
  {
    Answer6Bytes(h, p, ip, diff);
    Answer6Addresses(h, p, ip, diff);
    Answer6Message(h, p, ip, diff);
  }

  lemma Answer6Addresses(h: Host, p: seq<byte>, ip: nat, diff: CsumDiff)
    requires 14 <= ip && ip + 44 <= |p|
    ensures var q := Answer6(h, p, ip, diff);
            && |q| == |p| && q[ip + 41] == p[ip + 41]
            && q[..6] == p[6..12] && q[6..12] == p[..6]
            && q[ip + 8..ip + 24] == p[ip + 24..ip + 40] && q[ip + 24..ip + 40] == p[ip + 8..ip + 24]
  {
    var q1 := Exchanged(p, ip + 8, ip + 24, 16);
    var q2 := Exchanged(q1, 0, 6, 6);
    AddressesSwapped(p, ip + 8, 16, q1, q2);
    SwappedParts(p, ip + 8, 16, ip, ip + 40, q1, q2);
    assert q2[ip + 41] == q2[ip + 40..][1] && p[ip + 41] == p[ip + 40..][1];
    PatchedElsewhere(h, q2, ip + 40, ICMPV6_ECHO_REPLY, diff, ip);
  }

  lemma Answer6Bytes(h: Host, p: seq<byte>, ip: nat, diff: CsumDiff)
    requires 14 <= ip && ip + 44 <= |p|
    ensures var q := Answer6(h, p, ip, diff);
            && |q| == |p| && q[ip + 40] == ICMPV6_ECHO_REPLY
            && q[12..ip + 8] == p[12..ip + 8] && q[ip + 44..] == p[ip + 44..]
            && q[ip + 8..ip + 40] == Exchanged(p[ip + 8..ip + 40], 0, 16, 16)
            && Be16At(q, ip + 4) == Be16At(p, ip + 4) && q[ip + 4] == p[ip + 4] && q[ip + 5] == p[ip + 5]
  {
    var icmp := ip + 40;
    var q1 := Exchanged(p, ip + 8, ip + 24, 16);
    var q2 := Exchanged(q1, 0, 6, 6);
    var q := Answer6(h, p, ip, diff);
    SwappedParts(p, ip + 8, 16, ip, icmp, q1, q2);
    PatchedElsewhere(h, q2, icmp, ICMPV6_ECHO_REPLY, diff, ip);
    assert q2[icmp + 4..] == q2[icmp..][4..] && p[icmp + 4..] == p[icmp..][4..];
    assert q[12..ip + 8] == q2[12..ip + 8] == p[12..ip + 8];
    assert q[12..ip + 8][ip - 8] == q[ip + 4] && q[12..ip + 8][ip - 7] == q[ip + 5];
    assert p[12..ip + 8][ip - 8] == p[ip + 4] && p[12..ip + 8][ip - 7] == p[ip + 5];
    assert q[ip + 8..icmp] == q2[ip + 8..icmp] == q1[ip + 8..icmp] by {
      assert q2[ip + 8..icmp] == q2[ip..icmp][8..] && q1[ip + 8..icmp] == q1[ip..icmp][8..];
    }
    ExchangeWithin(p, ip + 8, 16, ip + 8, icmp);
  }

  lemma Answer6Message(h: Host, p: seq<byte>, ip: nat, diff: CsumDiff)
    requires 14 <= ip && HasMessage6(p, ip) && IsCsumDiff(h, diff)
    ensures var q := Answer6(h, p, ip, diff);
            && HasMessage6(q, ip)
            && AddsCarry(h, Covered6(p, ip), Covered6(q, ip), DiffFor(h, p, ip + 40, ICMPV6_ECHO_REPLY, diff))
  {
    var e := ip + 40 + Be16At(p, ip + 4);
    Answer6Parts(h, p, ip, e, diff);
    PromiseUsed(h, p, ip + 40, ICMPV6_ECHO_REPLY, diff);
    Answer6Sums(h, p, Answer6(h, p, ip, diff), ip, e, DiffFor(h, p, ip + 40, ICMPV6_ECHO_REPLY, diff));
  }

  /** What the checksum of q covers is what that of p covers, with the addresses exchanged and the
      message patched. */
  predicate PatchedParts(h: Host, p: seq<byte>, q: seq<byte>, ip: nat, e: nat, csum: u32)
    requires HasMessage6(p, ip) && e == ip + 40 + Be16At(p, ip + 4)
  {
    var s := p[ip + 40..e];
    && HasMessage6(q, ip) && |q| == |p|
    && Covered6(q, ip) == Exchanged(p[ip + 8..ip + 40], 0, 16, 16) + PseudoTail(p, ip) + q[ip + 40..e]
    && q[ip + 40..e] ==
       Store16At(h, Store16At(h, s, 0, Load16(h, ICMPV6_ECHO_REPLY, s[1])), 2, CsumFoldHelper(csum))
  }

  lemma Answer6Parts(h: Host, p: seq<byte>, ip: nat, e: nat, diff: CsumDiff)
    requires 14 <= ip && HasMessage6(p, ip) && e == ip + 40 + Be16At(p, ip + 4)
    ensures PatchedParts(h, p, Answer6(h, p, ip, diff), ip, e, DiffFor(h, p, ip + 40, ICMPV6_ECHO_REPLY, diff))
  {
    Answer6Covered(h, p, ip, e, diff);
    Answer6Tail(h, p, ip, e, diff);
  }

  lemma Answer6Sums(h: Host, p: seq<byte>, q: seq<byte>, ip: nat, e: nat, csum: u32)
    requires HasMessage6(p, ip) && e == ip + 40 + Be16At(p, ip + 4) && PatchedParts(h, p, q, ip, e, csum)
    requires (csum + Load16At(h, p, ip + 40)) % M
          == (Not16(Load16At(h, p, ip + 42)) + Load16(h, ICMPV6_ECHO_REPLY, p[ip + 41])) % M
    ensures AddsCarry(h, Covered6(p, ip), Covered6(q, ip), csum)
  {
    var a, l, m := p[ip + 8..ip + 40], PseudoTail(p, ip), p[ip + 40..e];
    assert m[0] == p[ip + 40] && m[1] == p[ip + 41] && m[2] == p[ip + 42] && m[3] == p[ip + 43];
    Covered6Patched(h, a, l, m, q[ip + 40..e], csum, m[1]);
  }

  lemma Answer6Covered(h: Host, p: seq<byte>, ip: nat, e: nat, diff: CsumDiff)
    requires 14 <= ip && HasMessage6(p, ip) && e == ip + 40 + Be16At(p, ip + 4)
    ensures var q := Answer6(h, p, ip, diff);
            && HasMessage6(q, ip) && |q| == |p|
            && Covered6(q, ip) == Exchanged(p[ip + 8..ip + 40], 0, 16, 16) + PseudoTail(p, ip) + q[ip + 40..e]
  {
    Answer6Bytes(h, p, ip, diff);
  }

  lemma Answer6Tail(h: Host, p: seq<byte>, ip: nat, e: nat, diff: CsumDiff)
    requires 14 <= ip && ip + 44 <= e <= |p|
    ensures var s := p[ip + 40..e];
            Answer6(h, p, ip, diff)[ip + 40..e] ==
            Store16At(h, Store16At(h, s, 0, Load16(h, ICMPV6_ECHO_REPLY, s[1])), 2,
                      CsumFoldHelper(DiffFor(h, p, ip + 40, ICMPV6_ECHO_REPLY, diff)))
  {
    var icmp := ip + 40;
    var q1 := Exchanged(p, ip + 8, ip + 24, 16);
    var q2 := Exchanged(q1, 0, 6, 6);
    SwappedParts(p, ip + 8, 16, ip, icmp, q1, q2);
    SameTail(p, q2, icmp, e);
    PatchedMessage(h, p, q2, icmp, e, ICMPV6_ECHO_REPLY, diff);
  }

  lemma Covered6Patched(h: Host, a: seq<byte>, l: seq<byte>, m: seq<byte>, m': seq<byte>, csum: u32, code: byte)
    requires |a| == 32 && |l| == 8 && |m| >= 4 && m[1] == code
    requires m' == Store16At(h, Store16At(h, m, 0, Load16(h, ICMPV6_ECHO_REPLY, code)), 2, CsumFoldHelper(csum))
    requires (csum + Load16At(h, m, 0)) % M == (Not16(Load16At(h, m, 2)) + Load16(h, ICMPV6_ECHO_REPLY, code)) % M
    ensures AddsCarry(h, a + l + m, Exchanged(a, 0, 16, 16) + l + m', csum)
  {
    var s := a + l + m;
    var new16 := Load16(h, ICMPV6_ECHO_REPLY, code);
    ExchangeKeepsSum(h, a, 0, 16);
    WordSumConcat(h, a + l, m);
    WordSumConcat(h, a, l);
    WordSumConcat(h, Exchanged(a, 0, 16, 16) + l, m');
    WordSumConcat(h, Exchanged(a, 0, 16, 16), l);
    WordSumConcat(h, a + l, m');
    assert Load16At(h, s, 40) == Load16At(h, m, 0) && Load16At(h, s, 42) == Load16At(h, m, 2);
    PatchExact(h, s, 40, new16, csum);
    assert Store16At(h, Store16At(h, s, 40, new16), 42, CsumFoldHelper(csum)) == a + l + m';
  }

  /** The promise of bpf_csum_diff does not decide whether the reply is valid: two helpers keep it,
      and for every valid request of well-formed shape one makes a valid reply and the other an
      invalid one. */
  lemma PromiseUndecided4(h: Host, p: seq<byte>, ip: nat, icmp: nat, e: nat)
    requires Request4(h, p, ip, icmp, e) && ValidSum(h, p[icmp..e])
    ensures IsCsumDiff(h, FoldedDiff(h)) && IsCsumDiff(h, CarryingDiff(h))
    ensures |EchoAnswer(h, p, FoldedDiff(h))| == |EchoAnswer(h, p, CarryingDiff(h))| == |p|
    ensures ValidSum(h, EchoAnswer(h, p, FoldedDiff(h))[icmp..e])
    ensures !ValidSum(h, EchoAnswer(h, p, CarryingDiff(h))[icmp..e])
  {
    DiffsKeepPromise(h);
    DiffsCarry(h, p, icmp, ICMP_ECHOREPLY);
    Answer4Exact(h, p, ip, icmp, e, FoldedDiff(h));
    Answer4Exact(h, p, ip, icmp, e, CarryingDiff(h));
  }

  lemma DiffsCarry(h: Host, p: seq<byte>, icmp: nat, reply: byte)
    requires icmp + 4 <= |p|
    ensures NoCarry(DiffFor(h, p, icmp, reply, FoldedDiff(h)))
    ensures !NoCarry(DiffFor(h, p, icmp, reply, CarryingDiff(h)))
  {
    var a, b := [p[icmp], p[icmp + 1], 0, 0], [reply, p[icmp + 1], 0, 0];
    FoldedNeverCarries(DiffFor(h, p, icmp, reply, FoldedDiff(h)));
    CarryPossible(DiffResidue(h, a, b, Not16(Load16At(h, p, icmp + 2))));
  }

  /** The same for ICMPv6. */
  lemma PromiseUndecided6(h: Host, p: seq<byte>, ip: nat)
    requires Request6(h, p, ip) && ValidSum(h, Covered6(p, ip))
    ensures IsCsumDiff(h, FoldedDiff(h)) && IsCsumDiff(h, CarryingDiff(h))
    ensures HasMessage6(EchoAnswer(h, p, FoldedDiff(h)), ip) && HasMessage6(EchoAnswer(h, p, CarryingDiff(h)), ip)
    ensures ValidSum(h, Covered6(EchoAnswer(h, p, FoldedDiff(h)), ip))
    ensures !ValidSum(h, Covered6(EchoAnswer(h, p, CarryingDiff(h)), ip))
  {
    DiffsKeepPromise(h);
    DiffsCarry(h, p, ip + 40, ICMPV6_ECHO_REPLY);
    Answer6Exact(h, p, ip, FoldedDiff(h));
    Answer6Exact(h, p, ip, CarryingDiff(h));
  }

  /** Strings that agree from lo to hi agree on every part and at every byte in between. */
  lemma SameBytes(p: seq<byte>, q: seq<byte>, lo: nat, mid: nat, hi: nat)
    requires lo <= mid <= hi <= |p| == |q| && q[lo..hi] == p[lo..hi]
    ensures q[lo..mid] == p[lo..mid]
    ensures forall i :: lo <= i < hi ==> q[i] == p[i]
  {
    forall i | lo <= i < hi ensures q[i] == p[i] {
      assert q[lo..hi][i - lo] == q[i] && p[lo..hi][i - lo] == p[i];
    }
  }

  lemma SameEthWalk(h: Host, p: seq<byte>, q: seq<byte>, o: nat)
    requires |p| == |q| && 14 <= o <= |p| && q[12..o] == p[12..o]
    requires EthWalk(h, p, 0, 4).Some? && EthWalk(h, p, 0, 4).value.pos == o
    ensures EthWalk(h, q, 0, 4) == EthWalk(h, p, 0, 4)
  {
    var k := WalkFrom(h, p, 0, 0, 4);
    WalkExact(h, p, 0, k, 4);
    SameBytes(p, q, 12, o, o);
    assert forall i :: 0 <= i <= k ==> TypeAt(q, 0, i) == TypeAt(p, 0, i);
    assert TagDepth(q, 0, k, 4);
    WalkExact(h, q, 0, k, 4);
  }

  lemma Answer4Found(h: Host, p: seq<byte>, ip: nat, icmp: nat, diff: CsumDiff)
    requires FindEcho(h, p) == Echo4(ip, icmp)
    ensures FindEcho(h, Answer4(h, p, ip, icmp, diff)) == NoEcho
  {
    var q1 := Exchanged(p, ip + 12, ip + 16, 4);
    var q2 := Exchanged(q1, 0, 6, 6);
    var q := Answer4(h, p, ip, icmp, diff);
    PatchedElsewhere(h, q2, icmp, ICMP_ECHOREPLY, diff, ip);
    ExchangeOutside(q1, 0, 6, 12, ip + 1);
    ExchangeOutside(p, ip + 12, 4, 12, ip + 1);
    assert q[12..ip + 1] == q2[12..ip + 1] == p[12..ip + 1];
    AnswerUnfound(h, p, q, ip, icmp);
  }

  lemma AnswerUnfound(h: Host, p: seq<byte>, q: seq<byte>, ip: nat, icmp: nat)
    requires FindEcho(h, p) == Echo4(ip, icmp)
    requires |q| == |p| && q[12..ip + 1] == p[12..ip + 1] && q[icmp] != ICMP_ECHO
    ensures FindEcho(h, q) == NoEcho
  {
    SameBytes(p, q, 12, ip, ip + 1);
    SameEthWalk(h, p, q, ip);
  }

  lemma Answer6Found(h: Host, p: seq<byte>, q: seq<byte>, ip: nat)
    requires FindEcho(h, p) == Echo6(ip, ip + 40)
    requires |q| == |p| && q[12..ip + 8] == p[12..ip + 8] && q[ip + 40] != ICMPV6_ECHO_REQUEST
    ensures FindEcho(h, q) == NoEcho
  {
    SameBytes(p, q, 12, ip, ip + 8);
    SameEthWalk(h, p, q, ip);
  }

  /** An answer is never answered again, malformed headers included. */
  lemma AnswerNotAnswered(h: Host, p: seq<byte>, diff: CsumDiff)
    ensures FindEcho(h, EchoAnswer(h, p, diff)) == NoEcho
  {
    match FindEcho(h, p)
    case NoEcho =>
    case Echo4(ip, icmp) =>
      Answer4Found(h, p, ip, icmp, diff);
    case Echo6(ip, icmp) =>
      Answer6Bytes(h, p, ip, diff);
      Answer6Found(h, p, Answer6(h, p, ip, diff), ip);
  }

  /** What is found behind k tags, read declaratively: an ICMP echo request behind an IPv4 header of
      at least two words, with four bytes of ICMP header, or the same for ICMPv6. */
  function EchoAt(p: seq<byte>, k: nat): Target
    requires 14 + 4 * k <= |p|
  {
    var ip := 14 + 4 * k;
    if TypeAt(p, 0, k) == 0x0800 && ip + 20 <= |p| then
      var icmp := ip + 4 * (p[ip] % 16);
      if p[ip] % 16 >= 2 && icmp + 4 <= |p| && p[ip + 9] == 1 && p[icmp] == 8 then Echo4(ip, icmp) else NoEcho
    else if TypeAt(p, 0, k) == 0x86DD && ip + 44 <= |p| && p[ip + 6] == 58 && p[ip + 40] == 128 then Echo6(ip, ip + 40)
    else NoEcho
  }

  /** For every byte string: what the parsers find is what lies there. */
  lemma FoundExactly(h: Host, p: seq<byte>, k: nat)
    ensures |p| < 14 ==> FindEcho(h, p) == NoEcho
    ensures TagDepth(p, 0, k, 4) ==> FindEcho(h, p) == EchoAt(p, k)
  {
    if TagDepth(p, 0, k, 4) {
      WalkExact(h, p, 0, k, 4);
      SameType(h, TypeAt(p, 0, k), ETH_P_IP);
      SameType(h, TypeAt(p, 0, k), ETH_P_IPV6);
    }
  }

  lemma SameType(h: Host, x: u16, y: u16)
    ensures Htons(h, x) == Htons(h, y) <==> x == y
  {
    if x != y {
      HtonsInjective(h, x, y);
    }
  }

  /** On a serialised frame the program answers exactly the echo requests of the frame's own IP
      version behind at most four tags, and finds both headers where they were written. */
  lemma RequestFound(h: Host, macs: seq<byte>, tags: seq<Tag>, l3: Layer3, icmp: seq<byte>, payload: seq<byte>)
    requires |macs| == 12 && l3.Valid() && |icmp| == 8
    ensures var o := 14 + 4 * |tags|;
            var n := o + |l3.Serialised()|;
            FindEcho(h, Frame(macs, tags, l3, icmp, payload)) ==
              if |tags| > 4 then NoEcho
              else if l3.V4? then if l3.protocol == 1 && icmp[0] == 8 then Echo4(o, n) else NoEcho
              else if l3.nexthdr == 58 && icmp[0] == 128 then Echo6(o, n) else NoEcho
  {
    if |tags| <= 4 {
      RequestBehindTags(h, macs, tags, l3, icmp, payload);
    } else {
      var t: u16 := if tags[4].dot1ad then 0x88A8 else 0x8100;
      WalkOnFrame(h, macs, tags, l3, icmp, payload, 4);
      HtonsInjective(h, t, ETH_P_IP);
      HtonsInjective(h, t, ETH_P_IPV6);
    }
  }

  lemma RequestBehindTags(h: Host, macs: seq<byte>, tags: seq<Tag>, l3: Layer3, icmp: seq<byte>, payload: seq<byte>)
    requires |macs| == 12 && |tags| <= 4 && l3.Valid() && |icmp| == 8
    ensures var o := 14 + 4 * |tags|;
            var n := o + |l3.Serialised()|;
            FindEcho(h, Frame(macs, tags, l3, icmp, payload)) ==
              if l3.V4? then if l3.protocol == 1 && icmp[0] == 8 then Echo4(o, n) else NoEcho
              else if l3.nexthdr == 58 && icmp[0] == 128 then Echo6(o, n) else NoEcho
  {
    SerialiseThenParse(h, macs, tags, l3, icmp, payload);
    var f := Frame(macs, tags, l3, icmp, payload);
    var n := 14 + 4 * |tags| + |l3.Serialised()|;
    assert f[n] == f[n..n + 8][0] == icmp[0];
    HtonsInjective(h, ETH_P_IP, ETH_P_IPV6);
  }

  lemma HtonsInjective(h: Host, x: u16, y: u16)
    requires x != y
    ensures Htons(h, x) != Htons(h, y)
  {
    HtonsInvolution(h, x);
    HtonsInvolution(h, y);
  }
}
