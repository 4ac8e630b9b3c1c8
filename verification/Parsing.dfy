/** The header parsers of common/parsing_helpers.h and their VLAN-recording variant. Pointers are
    offsets into the packet buffer; dataEnd is data_end. */
module Parsing {
  import opened Bytes
  import opened Xdp

  predicate IsVlanType(t: u16) {
    t == ETH_P_8021Q || t == ETH_P_8021AD
  }

  /** proto_is_vlan, which compares native loads with htons constants. */
  predicate ProtoIsVlan(h: Host, proto: u16) {
    proto == Htons(h, ETH_P_8021Q) || proto == Htons(h, ETH_P_8021AD)
  }

  // ----- what each parser computes, on the bytes b before data_end

  /** A protocol number as loaded, and the cursor behind the header. */
  datatype Walk = Walk(proto: u16, pos: nat)

  function VlanWalk(h: Host, b: seq<byte>, proto: u16, pos: nat, depth: nat): (w: Walk)
    decreases depth
  {
    if depth == 0 || !ProtoIsVlan(h, proto) || pos + 4 > |b| then Walk(proto, pos)
    else VlanWalk(h, b, Load16At(h, b, pos + 2), pos + 4, depth - 1)
  }

  /** The state of the loop behind n tags: what remains to be walked is the walk of the frame. */
  predicate AfterTags(h: Host, b: seq<byte>, start: nat, n: nat, proto: u16, vlh: nat) {
    && n <= 10 && start + 14 <= |b| && vlh == start + 14 + 4 * n && vlh <= |b|
    && VlanWalk(h, b, proto, vlh, 10 - n) == VlanWalk(h, b, Load16At(h, b, start + 12), start + 14, 10)
  }

  lemma NextTag(h: Host, b: seq<byte>, start: nat, n: nat, proto: u16, vlh: nat)
    requires AfterTags(h, b, start, n, proto, vlh) && n < 10 && ProtoIsVlan(h, proto) && vlh + 4 <= |b|
    ensures AfterTags(h, b, start, n + 1, Load16At(h, b, vlh + 2), vlh + 4)
  {
  }

  function EthWalk(h: Host, b: seq<byte>, pos: nat, depth: nat): Option<Walk> {
    if pos + 14 > |b| then None
    else Some(VlanWalk(h, b, Load16At(h, b, pos + 12), pos + 14, depth))
  }

  /** The length check is against sizeof(iph), the size of a pointer. */
  function IpWalk(b: seq<byte>, pos: nat): Option<Walk> {
    if pos + 20 > |b| then None
    else
      var hdrsize := b[pos] % 16 * 4;
      if hdrsize < 8 || pos + hdrsize > |b| then None
      else Some(Walk(b[pos + 9], pos + hdrsize))
  }

  function Ip6Walk(b: seq<byte>, pos: nat): Option<Walk> {
    if pos + 40 > |b| then None else Some(Walk(b[pos + 6], pos + 40))
  }

  /** The ICMP parsers differ only in the size of the structure: 8, 8 and 4 bytes. */
  function IcmpWalk(b: seq<byte>, pos: nat, size: nat): Option<Walk>
    requires size > 0
  {
    if pos + size > |b| then None else Some(Walk(b[pos], pos + size))
  }

  /** What is recorded for tag k: the native load of its first word, masked with 0x0fff. */
  function RecordedTag(h: Host, b: seq<byte>, pos: nat, k: nat): u16 {
    if pos + 18 + 4 * k <= |b| then Load16At(h, b, pos + 14 + 4 * k) % 0x1000 else 0
  }

  /** The array ids after the first n tags were recorded in it. */
  function Recorded(h: Host, b: seq<byte>, pos: nat, n: nat, ids: seq<u16>): (r: seq<u16>)
    ensures |r| == |ids|
  {
    seq(|ids|, k requires 0 <= k < |ids| => if k < n then RecordedTag(h, b, pos, k) else ids[k])
  }

  lemma RecordedNext(h: Host, b: seq<byte>, pos: nat, n: nat, ids: seq<u16>)
    requires n < |ids|
    ensures Recorded(h, b, pos, n + 1, ids) == Recorded(h, b, pos, n, ids)[n := RecordedTag(h, b, pos, n)]
  {
  }

  // ----- the parsers

  /** struct hdr_cursor. Each parser returns the type of the contents, or -1, and the value of
      its out pointer, if it writes one. */
  class HdrCursor {
    var pos: nat

    constructor (pos: nat)
      ensures this.pos == pos
    {
      this.pos := pos;
    }

    /** What a parser that computes walk leaves behind. */
    ghost predicate Parsed(walk: Option<Walk>, start: nat, ty: int, hdr: Option<nat>)
      reads this
    {
      match walk
      case None => ty == -1 && hdr == None && pos == start
      case Some(w) => ty == w.proto && hdr == Some(start) && pos == w.pos
    }

    /** parse_ethhdr with VLAN_MAX_DEPTH == maxDepth. */
    method ParseEthhdr(h: Host, pkt: array<byte>, dataEnd: nat, maxDepth: nat) returns (ty: int, hdr: Option<nat>)
      requires dataEnd <= pkt.Length
      modifies this
      ensures Parsed(EthWalk(h, pkt[..dataEnd], old(pos), maxDepth), old(pos), ty, hdr)
    {
      if pos + 14 > dataEnd {
        return -1, None;
      }
      hdr := Some(pos);
      pos := pos + 14;
      var vlh := pos;
      var proto: u16 := Load16(h, pkt[pos - 2], pkt[pos - 1]);
      var i := 0;
      while i < maxDepth
        invariant 0 <= i <= maxDepth
        invariant pos == old(pos) + 14 && vlh == pos + 4 * i && vlh <= dataEnd
        invariant VlanWalk(h, pkt[..dataEnd], proto, vlh, maxDepth - i)
               == VlanWalk(h, pkt[..dataEnd], Load16At(h, pkt[..dataEnd], old(pos) + 12), old(pos) + 14, maxDepth)
      {
        if !ProtoIsVlan(h, proto) {
          break;
        }
        if vlh + 4 > dataEnd {
          break;
        }
        proto := Load16(h, pkt[vlh + 2], pkt[vlh + 3]);
        vlh := vlh + 4;
        i := i + 1;
      }
      pos := vlh;
      ty := proto;
    }

    /** __parse_ethhdr_vlan, which also records the tag words if it is given an array. */
    method ParseEthhdrVlan(h: Host, pkt: array<byte>, dataEnd: nat, vlans: array?<u16>)
      returns (ty: int, hdr: Option<nat>)
      requires dataEnd <= pkt.Length
      requires vlans != null ==> vlans.Length == 10 && vlans as object != pkt
      modifies this, vlans
      ensures Parsed(EthWalk(h, pkt[..dataEnd], old(pos), 10), old(pos), ty, hdr)
      ensures vlans != null ==>
                vlans[..] == Recorded(h, pkt[..dataEnd], old(pos),
                                      if hdr.Some? then (pos - old(pos) - 14) / 4 else 0, old(vlans[..]))
    {
      if pos + 14 > dataEnd {
        return -1, None;
      }
      hdr := Some(pos);
      var n;
      ty, pos, n := RecordTags(h, pkt, dataEnd, pos, vlans);
    }

    /** The loop of __parse_ethhdr_vlan over the tags of the frame at start. */
    static method RecordTags(h: Host, pkt: array<byte>, dataEnd: nat, start: nat, vlans: array?<u16>)
      returns (proto: u16, vlh: nat, n: nat)
      requires start + 14 <= dataEnd <= pkt.Length
      requires vlans != null ==> vlans.Length == 10 && vlans as object != pkt
      modifies vlans
      ensures EthWalk(h, pkt[..dataEnd], start, 10) == Some(Walk(proto, vlh))
      ensures vlh == start + 14 + 4 * n
      ensures vlans != null ==> vlans[..] == Recorded(h, pkt[..dataEnd], start, n, old(vlans[..]))
    {
      ghost var b, ids := pkt[..dataEnd], Ids(vlans);
      vlh := start + 14;
      proto := Load16(h, pkt[start + 12], pkt[start + 13]);
      n := 0;
      while n < 10
        invariant n <= 10 && pkt[..dataEnd] == b
        invariant AfterTags(h, b, start, n, proto, vlh)
        invariant TagsIn(h, b, start, n, vlans, ids)
      {
        if !ProtoIsVlan(h, proto) {
          break;
        }
        if vlh + 4 > dataEnd {
          break;
        }
        NextTag(h, b, start, n, proto, vlh);
        RecordTag(h, pkt, dataEnd, start, vlans, n, ids);
        proto := Load16(h, pkt[vlh + 2], pkt[vlh + 3]);
        vlh := vlh + 4;
        n := n + 1;
      }
    }

    static ghost function Ids(vlans: array?<u16>): seq<u16>
      reads vlans
    {
      if vlans == null then [] else vlans[..]
    }

    /** The array, if there is one, holds the first n tags, and behind them what ids held. */
    static ghost predicate TagsIn(h: Host, b: seq<byte>, start: nat, n: nat, vlans: array?<u16>, ids: seq<u16>)
      reads vlans
    {
      vlans != null ==> vlans[..] == Recorded(h, b, start, n, ids)
    }

    /** if (vlans) vlans->id[n] = vlh->h_vlan_TCI & VLAN_VID_MASK. */
    static method RecordTag(h: Host, pkt: array<byte>, dataEnd: nat, start: nat, vlans: array?<u16>, n: nat,
                            ghost ids: seq<u16>)
      requires start + 18 + 4 * n <= dataEnd <= pkt.Length
      requires vlans != null ==> n < vlans.Length && vlans as object != pkt
      requires TagsIn(h, pkt[..dataEnd], start, n, vlans, ids)
      modifies vlans
      ensures TagsIn(h, pkt[..dataEnd], start, n + 1, vlans, ids)
    {
      if vlans != null {
        ghost var b := pkt[..dataEnd];
        var vlh := start + 14 + 4 * n;
        RecordedNext(h, b, start, n, ids);
        vlans[n] := Load16(h, pkt[vlh], pkt[vlh + 1]) % 0x1000;
        assert b[vlh] == pkt[vlh] && b[vlh + 1] == pkt[vlh + 1];
      }
    }

    method ParseIp6hdr(pkt: array<byte>, dataEnd: nat) returns (ty: int, hdr: Option<nat>)
      requires dataEnd <= pkt.Length
      modifies this
      ensures Parsed(Ip6Walk(pkt[..dataEnd], old(pos)), old(pos), ty, hdr)
    {
      var ip6h := pos;
      if ip6h + 40 > dataEnd {
        return -1, None;
      }
      pos := ip6h + 40;
      return pkt[ip6h + 6], Some(ip6h);
    }

    method ParseIphdr(pkt: array<byte>, dataEnd: nat) returns (ty: int, hdr: Option<nat>)
      requires dataEnd <= pkt.Length
      modifies this
      ensures Parsed(IpWalk(pkt[..dataEnd], old(pos)), old(pos), ty, hdr)
    {
      var iph := pos;
      if iph + 20 > dataEnd {
        return -1, None;
      }
      var hdrsize := pkt[iph] % 16 * 4;
      if hdrsize < 8 {
        return -1, None;
      }
      if pos + hdrsize > dataEnd {
        return -1, None;
      }
      pos := pos + hdrsize;
      return pkt[iph + 9], Some(iph);
    }

    /** parse_icmphdr and parse_icmp6hdr with size 8, parse_icmphdr_common with size 4. */
    method ParseIcmp(pkt: array<byte>, dataEnd: nat, size: nat) returns (ty: int, hdr: Option<nat>)
      requires dataEnd <= pkt.Length && size > 0
      modifies this
      ensures Parsed(IcmpWalk(pkt[..dataEnd], old(pos), size), old(pos), ty, hdr)
    {
      var icmph := pos;
      if icmph + size > dataEnd {
        return -1, None;
      }
      pos := icmph + size;
      return pkt[icmph], Some(icmph);
    }
  }

  // ----- the tag loop

  /** Tag k of a frame that starts at pos is preceded by this EtherType, in network order. */
  function TypeAt(b: seq<byte>, pos: nat, k: nat): u16
    requires pos + 14 + 4 * k <= |b|
  {
    Be16At(b, pos + 12 + 4 * k)
  }

  /** The first k types are those of tags. */
  ghost predicate AllTags(b: seq<byte>, pos: nat, k: nat)
    requires pos + 14 + 4 * k <= |b|
  {
    forall i :: 0 <= i < k ==> IsVlanType(TypeAt(b, pos, i))
  }

  /** Reading the frame declaratively: exactly k tags precede the payload. */
  ghost predicate TagDepth(b: seq<byte>, pos: nat, k: nat, depth: nat) {
    && pos + 14 + 4 * k <= |b| && k <= depth
    && AllTags(b, pos, k)
    && (k == depth || !IsVlanType(TypeAt(b, pos, k)) || pos + 14 + 4 * (k + 1) > |b|)
  }

  lemma TypeLoaded(h: Host, b: seq<byte>, pos: nat, k: nat)
    requires pos + 14 + 4 * k <= |b|
    ensures Load16At(h, b, pos + 12 + 4 * k) == Htons(h, TypeAt(b, pos, k))
    ensures ProtoIsVlan(h, Load16At(h, b, pos + 12 + 4 * k)) <==> IsVlanType(TypeAt(b, pos, k))
  {
    LoadIsHtons(h, b[pos + 12 + 4 * k], b[pos + 13 + 4 * k]);
  }

  lemma {:induction false} WalkFrom(h: Host, b: seq<byte>, pos: nat, i: nat, depth: nat) returns (k: nat)
    requires pos + 14 + 4 * i <= |b| && i <= depth
    requires AllTags(b, pos, i)
    ensures TagDepth(b, pos, k, depth)
    ensures VlanWalk(h, b, Load16At(h, b, pos + 12 + 4 * i), pos + 14 + 4 * i, depth - i)
         == Walk(Htons(h, TypeAt(b, pos, k)), pos + 14 + 4 * k)
    decreases depth - i
  {
    TypeLoaded(h, b, pos, i);
    if i == depth || !IsVlanType(TypeAt(b, pos, i)) || pos + 14 + 4 * (i + 1) > |b| {
      k := i;
    } else {
      k := WalkFrom(h, b, pos, i + 1, depth);
    }
  }

  /** The loop finds exactly the declarative depth: the cursor stands 14 + 4k bytes further, never
      behind data_end, and the type returned is the k-th one, in network byte order. */
  lemma WalkExact(h: Host, b: seq<byte>, pos: nat, k: nat, depth: nat)
    requires pos + 14 <= |b|
    ensures TagDepth(b, pos, k, depth) <==>
              && pos + 14 + 4 * k <= |b|
              && EthWalk(h, b, pos, depth) == Some(Walk(Htons(h, TypeAt(b, pos, k)), pos + 14 + 4 * k))
  {
    var m := WalkFrom(h, b, pos, 0, depth);
    if TagDepth(b, pos, k, depth) {
      TagDepthUnique(b, pos, k, m, depth);
    }
  }

  lemma TagDepthUnique(b: seq<byte>, pos: nat, k: nat, m: nat, depth: nat)
    requires TagDepth(b, pos, k, depth) && TagDepth(b, pos, m, depth)
    ensures k == m
  {
  }

  /** If the loop of depth d stops on a type that is no tag, every deeper loop gives the same
      type and cursor; in particular the programs with depth 4 and depth 10 agree there. */
  lemma DepthRefines(h: Host, b: seq<byte>, pos: nat, d: nat, deeper: nat)
    requires d <= deeper
    requires EthWalk(h, b, pos, d).Some? && !ProtoIsVlan(h, EthWalk(h, b, pos, d).value.proto)
    ensures EthWalk(h, b, pos, deeper) == EthWalk(h, b, pos, d)
  {
    var k := WalkFrom(h, b, pos, 0, d);
    TypeLoaded(h, b, pos, k);
    assert TagDepth(b, pos, k, deeper);
    WalkExact(h, b, pos, k, deeper);
  }

  /** The IPv4 check accepts a header shorter than the protocol allows exactly when the length
      field is 2, 3 or 4 and twenty bytes are there. */
  lemma ShortIpv4HeaderAccepted(b: seq<byte>, pos: nat)
    ensures IpWalk(b, pos).Some? && IpWalk(b, pos).value.pos < pos + 20
       <==> pos + 20 <= |b| && b[pos] % 16 in {2, 3, 4}
  {
  }

  /** No parser moves the cursor behind data_end, and each moves it forward. */
  lemma WalksInside(h: Host, b: seq<byte>, pos: nat, depth: nat, size: nat)
    requires size > 0
    ensures EthWalk(h, b, pos, depth).Some? ==> pos + 14 <= EthWalk(h, b, pos, depth).value.pos <= |b|
    ensures IpWalk(b, pos).Some? ==> pos + 8 <= IpWalk(b, pos).value.pos <= |b|
    ensures Ip6Walk(b, pos).Some? ==> pos + 40 == Ip6Walk(b, pos).value.pos <= |b|
    ensures IcmpWalk(b, pos, size).Some? ==> pos + size == IcmpWalk(b, pos, size).value.pos <= |b|
  {
    if pos + 14 <= |b| {
      var k := WalkFrom(h, b, pos, 0, depth);
      WalkExact(h, b, pos, k, depth);
    }
  }

  // ----- serialise, then parse

  datatype Tag = Tag(dot1ad: bool, tci: u16)

  function TagBytes(tag: Tag): seq<byte> {
    [if tag.dot1ad then 0x88 else 0x81, if tag.dot1ad then 0xA8 else 0x00, tag.tci / 256, tag.tci % 256]
  }

  function TagsBytes(tags: seq<Tag>): (s: seq<byte>)
    ensures |s| == 4 * |tags|
  {
    if |tags| == 0 then [] else TagBytes(tags[0]) + TagsBytes(tags[1..])
  }

  /** An IPv4 header whose first byte holds its length in words, or a plain IPv6 header. */
  datatype Layer3 =
    | V4(first: byte, middle: seq<byte>, protocol: byte, rest: seq<byte>)
    | V6(head: seq<byte>, nexthdr: byte, addresses: seq<byte>)
  {
    predicate Valid() {
      match this
      case V4(first, middle, _, rest) => first % 16 >= 5 && |middle| == 8 && |rest| == 4 * (first % 16) - 10
      case V6(head, _, addresses) => |head| == 6 && |addresses| == 33
    }

    function EtherType(): u16 {
      if V4? then ETH_P_IP else ETH_P_IPV6
    }

    function Protocol(): byte {
      if V4? then protocol else nexthdr
    }

    function Serialised(): seq<byte> {
      match this
      case V4(first, middle, protocol, rest) => [first] + middle + [protocol] + rest
      case V6(head, nexthdr, addresses) => head + [nexthdr] + addresses
    }
  }

  /** A frame: two MAC addresses, tags, the EtherType, the network header, an ICMP header of
      eight bytes that starts with its type, and a payload. */
  function Frame(macs: seq<byte>, tags: seq<Tag>, l3: Layer3, icmp: seq<byte>, payload: seq<byte>): seq<byte> {
    macs + TagsBytes(tags) + [l3.EtherType() / 256, l3.EtherType() % 256] + l3.Serialised() + icmp + payload
  }

  lemma {:induction false} TagWords(tags: seq<Tag>, i: nat)
    requires i < |tags|
    ensures TagsBytes(tags)[4 * i..4 * i + 4] == TagBytes(tags[i])
  {
    if i > 0 {
      TagWords(tags[1..], i - 1);
      var s, t := TagsBytes(tags), TagsBytes(tags[1..]);
      assert s[4 * i..4 * i + 4] == t[4 * (i - 1)..4 * (i - 1) + 4];
    }
  }

  lemma {:induction false} TagTypes(tags: seq<Tag>, i: nat)
    requires i < |tags|
    ensures IsVlanType(Be16At(TagsBytes(tags), 4 * i))
  {
    if i > 0 {
      TagTypes(tags[1..], i - 1);
      var s, t := TagsBytes(tags), TagsBytes(tags[1..]);
      assert s[4 * i] == t[4 * (i - 1)] && s[4 * i + 1] == t[4 * (i - 1) + 1];
    }
  }

  /** Where the parts of a frame lie. */
  predicate LaidOut(f: seq<byte>, tags: seq<Tag>, l3: Layer3, icmp: seq<byte>, payload: seq<byte>) {
    var o := 14 + 4 * |tags|;
    var n := o + |l3.Serialised()|;
    && |icmp| == 8 && n + 8 <= |f|
    && f[12..o - 2] == TagsBytes(tags) && Be16At(f, o - 2) == l3.EtherType()
    && f[o..n] == l3.Serialised() && f[n..n + 8] == icmp && f[n + 8..] == payload
  }

  lemma FrameLaidOut(macs: seq<byte>, tags: seq<Tag>, l3: Layer3, icmp: seq<byte>, payload: seq<byte>)
    requires |macs| == 12 && |icmp| == 8
    ensures LaidOut(Frame(macs, tags, l3, icmp, payload), tags, l3, icmp, payload)
  {
    var t, ty, s := TagsBytes(tags), l3.EtherType(), l3.Serialised();
    PartsOf(macs, t, [ty / 256, ty % 256], s, icmp, payload, 14 + 4 * |tags|, 14 + 4 * |tags| + |s|);
  }

  lemma PartsOf(a: seq<byte>, t: seq<byte>, e: seq<byte>, s: seq<byte>, i: seq<byte>, p: seq<byte>, o: nat, n: nat)
    requires |e| == 2 && o == |a| + |t| + 2 && n == o + |s|
    ensures var f := a + t + e + s + i + p;
            && f[|a|..o - 2] == t && f[o - 2] == e[0] && f[o - 1] == e[1]
            && f[o..n] == s && f[n..n + |i|] == i && f[n + |i|..] == p
  {
  }

  /** The Ethernet layer comes back: the type as written, the cursor on the network header. */
  lemma DepthIs(h: Host, f: seq<byte>, n: nat, etherType: u16, depth: nat)
    requires n <= depth && 14 + 4 * n <= |f| && TypeAt(f, 0, n) == etherType
    requires n == depth || !IsVlanType(etherType)
    requires AllTags(f, 0, n)
    ensures EthWalk(h, f, 0, depth) == Some(Walk(Htons(h, etherType), 14 + 4 * n))
  {
    assert TagDepth(f, 0, n, depth);
    WalkExact(h, f, 0, n, depth);
  }

  lemma TagTypesInFrame(f: seq<byte>, tags: seq<Tag>)
    requires 14 + 4 * |tags| <= |f| && f[12..12 + 4 * |tags|] == TagsBytes(tags)
    ensures AllTags(f, 0, |tags|)
  {
    forall i | 0 <= i < |tags| ensures IsVlanType(TypeAt(f, 0, i)) {
      TagTypeInFrame(f, tags, i);
    }
  }

  lemma TagTypeInFrame(f: seq<byte>, tags: seq<Tag>, i: nat)
    requires i < |tags| && 14 + 4 * |tags| <= |f| && f[12..12 + 4 * |tags|] == TagsBytes(tags)
    ensures IsVlanType(TypeAt(f, 0, i))
  {
    var t := f[12..12 + 4 * |tags|];
    assert t[4 * i] == f[12 + 4 * i] && t[4 * i + 1] == f[13 + 4 * i];
    assert TypeAt(f, 0, i) == Be16At(t, 4 * i);
    TagTypes(tags, i);
  }

  lemma NetworkBack(f: seq<byte>, l3: Layer3, o: nat, n: nat)
    requires l3.Valid() && n == o + |l3.Serialised()| <= |f| && f[o..n] == l3.Serialised()
    ensures (if l3.V4? then IpWalk(f, o) else Ip6Walk(f, o)) == Some(Walk(l3.Protocol(), n))
  {
    var s := f[o..n];
    assert s[0] == f[o] && s[6] == f[o + 6] && s[9] == f[o + 9];
  }

  /** Any frame with up to four tags, a network header of either version and an ICMP header is
      parsed back layer by layer, and the cursor ends exactly behind the ICMP header. */
  lemma SerialiseThenParse(h: Host, macs: seq<byte>, tags: seq<Tag>, l3: Layer3, icmp: seq<byte>, payload: seq<byte>)
    requires |macs| == 12 && |tags| <= 4 && l3.Valid() && |icmp| == 8
    ensures var f := Frame(macs, tags, l3, icmp, payload);
            var o := 14 + 4 * |tags|;
            var n := o + |l3.Serialised()|;
            && EthWalk(h, f, 0, 4) == Some(Walk(Htons(h, l3.EtherType()), o))
            && (if l3.V4? then IpWalk(f, o) else Ip6Walk(f, o)) == Some(Walk(l3.Protocol(), n))
            && IcmpWalk(f, n, 8) == Some(Walk(icmp[0], n + 8))
            && f[n..n + 8] == icmp && f[n + 8..] == payload
  {
    FrameLaidOut(macs, tags, l3, icmp, payload);
    LayersBack(h, Frame(macs, tags, l3, icmp, payload), tags, l3, icmp, payload);
  }

  lemma LayersBack(h: Host, f: seq<byte>, tags: seq<Tag>, l3: Layer3, icmp: seq<byte>, payload: seq<byte>)
    requires |tags| <= 4 && l3.Valid() && LaidOut(f, tags, l3, icmp, payload)
    ensures var o := 14 + 4 * |tags|;
            var n := o + |l3.Serialised()|;
            && EthWalk(h, f, 0, 4) == Some(Walk(Htons(h, l3.EtherType()), o))
            && (if l3.V4? then IpWalk(f, o) else Ip6Walk(f, o)) == Some(Walk(l3.Protocol(), n))
            && IcmpWalk(f, n, 8) == Some(Walk(icmp[0], n + 8))
            && f[n..n + 8] == icmp && f[n + 8..] == payload
  {
    var o := 14 + 4 * |tags|;
    var n := o + |l3.Serialised()|;
    TagTypesInFrame(f, tags);
    DepthIs(h, f, |tags|, l3.EtherType(), 4);
    NetworkBack(f, l3, o, n);
    assert f[n] == f[n..n + 8][0];
  }

  /** The type and the word of tag i of a frame, where it was written. */
  lemma TagInFrame(f: seq<byte>, tags: seq<Tag>, i: nat)
    requires i < |tags| && 14 + 4 * |tags| <= |f| && f[12..12 + 4 * |tags|] == TagsBytes(tags)
    ensures TypeAt(f, 0, i) == if tags[i].dot1ad then 0x88A8 else 0x8100
    ensures Be16At(f, 14 + 4 * i) == tags[i].tci
  {
    var t, b := f[12..12 + 4 * |tags|], TagBytes(tags[i]);
    TagWords(tags, i);
    assert b[0] == t[4 * i] == f[12 + 4 * i] && b[1] == t[4 * i + 1] == f[13 + 4 * i];
    assert b[2] == t[4 * i + 2] == f[14 + 4 * i] && b[3] == t[4 * i + 3] == f[15 + 4 * i];
  }

  /** A walk of any depth over a frame with any number of tags: it stops behind all tags, or behind
      as many as it may take, and then the type it returns is that of the next one. */
  lemma WalkOnFrame(h: Host, macs: seq<byte>, tags: seq<Tag>, l3: Layer3, icmp: seq<byte>, payload: seq<byte>,
                    depth: nat)
    requires |macs| == 12 && |icmp| == 8
    ensures EthWalk(h, Frame(macs, tags, l3, icmp, payload), 0, depth) ==
              if |tags| <= depth then Some(Walk(Htons(h, if l3.V4? then 0x0800 else 0x86DD), 14 + 4 * |tags|))
              else Some(Walk(Htons(h, if tags[depth].dot1ad then 0x88A8 else 0x8100), 14 + 4 * depth))
  {
    var f := Frame(macs, tags, l3, icmp, payload);
    FrameLaidOut(macs, tags, l3, icmp, payload);
    TagTypesInFrame(f, tags);
    if |tags| <= depth {
      DepthIs(h, f, |tags|, l3.EtherType(), depth);
    } else {
      TagInFrame(f, tags, depth);
      DepthIs(h, f, depth, TypeAt(f, 0, depth), depth);
    }
  }

  /** What is recorded of tag k: its word, swapped on a little-endian host, and then masked. */
  lemma RecordedOnFrame(h: Host, macs: seq<byte>, tags: seq<Tag>, l3: Layer3, icmp: seq<byte>, payload: seq<byte>,
                        k: nat)
    requires |macs| == 12 && |icmp| == 8 && k < |tags|
    ensures RecordedTag(h, Frame(macs, tags, l3, icmp, payload), 0, k) == Htons(h, tags[k].tci) % 0x1000
  {
    var f := Frame(macs, tags, l3, icmp, payload);
    FrameLaidOut(macs, tags, l3, icmp, payload);
    TagInFrame(f, tags, k);
    LoadIsHtons(h, f[14 + 4 * k], f[15 + 4 * k]);
  }
}
