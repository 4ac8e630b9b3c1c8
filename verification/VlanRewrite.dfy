/** VLAN push and pop of common/rewrite_helpers.h and xdp_vlan_swap_func of
    packet-solutions/xdp_prog_kern_02.c, in place in one buffer whose packet head moves. */
module VlanRewrite {
  import opened Bytes
  import opened Xdp
  import opened Parsing

  /** struct xdp_md: the packet is buf[data..dataEnd], what lies before data is headroom. */
  class XdpMd {
    const buf: array<byte>
    var data: nat
    var dataEnd: nat

    ghost predicate Valid()
      reads this
    {
      data <= dataEnd <= buf.Length
    }

    ghost function Packet(): seq<byte>
      requires Valid()
      reads this, buf
    {
      buf[data..dataEnd]
    }

    constructor (buf: array<byte>, data: nat, dataEnd: nat)
      requires data <= dataEnd <= buf.Length
      ensures Valid() && this.buf == buf && this.data == data && this.dataEnd == dataEnd
    {
      this.buf := buf;
      this.data := data;
      this.dataEnd := dataEnd;
    }

    /** bpf_xdp_adjust_head: the kernel may refuse for reasons of its own (granted is false), and
        always refuses to leave the buffer or to leave less than an Ethernet header. A refusal
        changes nothing. */
    method AdjustHead(delta: int, granted: bool) returns (rc: int)
      requires Valid()
      modifies this`data
      ensures Valid()
      ensures rc == 0 <==> granted && 0 <= old(data) + delta && old(data) + delta + 14 <= dataEnd
      ensures data == if rc == 0 then old(data) + delta else old(data)
    {
      if granted && 0 <= data + delta && data + delta + 14 <= dataEnd {
        data := data + delta;
        rc := 0;
      } else {
        rc := -22;
      }
    }

    /** Stores bytes from offset o on. */
    method Write(o: nat, bytes: seq<byte>)
      requires o + |bytes| <= buf.Length
      modifies buf
      ensures buf[..] == Overwritten(old(buf[..]), o, bytes)
    {
      forall i | 0 <= i < |bytes| {
        buf[o + i] := bytes[i];
      }
    }

    /** A 16-bit field is set to htons(x). */
    method WriteWord(h: Host, o: nat, x: u16)
      requires o + 2 <= buf.Length
      modifies buf
      ensures buf[..] == Overwritten(old(buf[..]), o, [x / 256, x % 256])
    {
      var w := Htons(h, x);
      HtonsBytes(h, x);
      Write(o, [FirstByte(h, w), SecondByte(h, w)]);
    }

    /** The checks at the start of a pop, and the tag word they lead to. */
    method OuterTag(h: Host, eth: nat) returns (tci: int)
      requires Valid() && eth == data && data + 14 <= dataEnd
      ensures tci == if CanPop(Packet()) then Be16At(Packet(), 14) else -1
    {
      LoadIsHtons(h, buf[eth + 12], buf[eth + 13]);
      if !ProtoIsVlan(h, Load16(h, buf[eth + 12], buf[eth + 13])) {
        return -1;
      }
      var vlh := eth + 14;
      if vlh + 4 > dataEnd {
        return -1;
      }
      LoadIsHtons(h, buf[vlh], buf[vlh + 1]);
      HtonsInvolution(h, Be16(buf[vlh], buf[vlh + 1]));
      return Htons(h, Load16(h, buf[vlh], buf[vlh + 1]));
    }

    method VlanTagPop(h: Host, eth: nat, granted: bool) returns (vlid: int)
      requires Valid() && eth == data && data + 14 <= dataEnd
      modifies this`data, buf
      ensures Valid() && dataEnd == old(dataEnd)
      ensures var p := old(Packet());
              if granted && CanPop(p) then vlid == Be16At(p, 14) && Packet() == Popped(p) && data == old(data) + 4
              else vlid == -1 && Packet() == p && data == old(data)
    {
      ghost var b := buf[..];
      var tci := OuterTag(h, eth);
      if tci == -1 {
        return -1;
      }
      var vlh := eth + 14;
      var proto := buf[vlh + 2..vlh + 4];
      var ethCpy := buf[eth..eth + 14];
      var rc := AdjustHead(4, granted);
      if rc != 0 {
        return -1;
      }
      assert data + 14 <= dataEnd;  // so the check after the adjustment cannot fail
      Write(data, ethCpy);
      Write(data + 12, proto);
      PopInBuffer(b, eth, dataEnd);
      return tci;
    }

    /** An int argument is cut to 16 bits by htons. */
    method VlanTagPush(h: Host, eth: nat, vlid: int, granted: bool) returns (rc: int)
      requires Valid() && eth == data && data + 14 <= dataEnd
      modifies this`data, buf
      ensures Valid() && dataEnd == old(dataEnd)
      ensures var p := old(Packet());
              if granted && old(data) >= 4
              then rc == 0 && Packet() == Pushed(p, vlid % 0x1_0000) && data == old(data) - 4
              else rc == -1 && Packet() == p && data == old(data)
    {
      ghost var b := buf[..];
      var ethCpy := buf[eth..eth + 14];
      var failed := AdjustHead(-4, granted);
      if failed != 0 {
        return -1;
      }
      assert data + 14 <= dataEnd;  // so the first check after the adjustment cannot fail
      assert data + 14 + 4 <= dataEnd;  // nor can the second
      WriteTagged(h, ethCpy, vlid);
      PushInBuffer(b, eth, dataEnd, vlid % 0x1_0000);
      return 0;
    }

    /** The stores of a push, after the head has moved: the copied header, the tag behind it, and
        the new outer type. */
    method WriteTagged(h: Host, ethCpy: seq<byte>, vlid: int)
      requires Valid() && data + 18 <= dataEnd && ethCpy == buf[data + 4..data + 18]
      modifies buf
      ensures buf[..] == PushWrites(old(buf[..]), data + 4, vlid % 0x1_0000)
    {
      Write(data, ethCpy);
      var vlh := data + 14;
      WriteWord(h, vlh, vlid % 0x1_0000);
      Write(vlh + 2, buf[data + 12..data + 14]);
      WriteWord(h, data + 12, ETH_P_8021Q);
    }

    /** xdp_vlan_swap_func: pop the outermost tag if there is one, else push tag 1. */
    method XdpVlanSwap(h: Host, granted: bool) returns (action: Action)
      requires Valid()
      modifies this`data, buf
      ensures Valid() && dataEnd == old(dataEnd) && action == Pass
      ensures Packet() == Swapped(old(Packet()), old(data), granted)
      ensures data == SwappedHead(old(Packet()), old(data), granted)
    {
      var ty := ParseHead(h);
      if ty < 0 {
        return Pass;
      }
      var tagged := OuterTagged(h);
      assert Packet() == old(Packet());
      if tagged {
        var _ := VlanTagPop(h, data, granted);
      } else {
        var _ := VlanTagPush(h, data, 1, granted);
      }
      return Pass;
    }

    /** parse_ethhdr at the packet head; only its failure matters here. */
    method ParseHead(h: Host) returns (ty: int)
      requires Valid()
      ensures ty < 0 <==> |Packet()| < 14
    {
      var nh := new HdrCursor(data);
      var eth;
      ty, eth := nh.ParseEthhdr(h, buf, dataEnd, 4);
    }

    /** proto_is_vlan(eth->h_proto). */
    method OuterTagged(h: Host) returns (tagged: bool)
      requires Valid() && data + 14 <= dataEnd
      ensures tagged <==> IsVlanType(Be16At(Packet(), 12))
    {
      LoadIsHtons(h, buf[data + 12], buf[data + 13]);
      tagged := ProtoIsVlan(h, Load16(h, buf[data + 12], buf[data + 13]));
    }
  }

  lemma HtonsBytes(h: Host, x: u16)
    ensures FirstByte(h, Htons(h, x)) == x / 256 && SecondByte(h, Htons(h, x)) == x % 256
  {
  }

  function Overwritten(b: seq<byte>, o: nat, bytes: seq<byte>): (r: seq<byte>)
    requires o + |bytes| <= |b|
    ensures |r| == |b|
  {
    b[..o] + bytes + b[o + |bytes|..]
  }

  lemma OverwrittenAt(b: seq<byte>, o: nat, bytes: seq<byte>, i: nat)
    requires o + |bytes| <= |b| && i < |b|
    ensures Overwritten(b, o, bytes)[i] == if o <= i < o + |bytes| then bytes[i - o] else b[i]
  {
  }

  /** The buffer b after the writes of a pop of its packet b[d..e]. */
  function PopWrites(b: seq<byte>, d: nat): seq<byte>
    requires d + 18 <= |b|
  {
    Overwritten(Overwritten(b, d + 4, b[d..d + 14]), d + 16, b[d + 16..d + 18])
  }

  lemma PopInBuffer(b: seq<byte>, d: nat, e: nat)
    requires d + 18 <= e <= |b|
    ensures PopWrites(b, d)[d + 4..e] == Popped(b[d..e])
  {
    var c := PopWrites(b, d);
    var q := Popped(b[d..e]);
    var c1 := Overwritten(b, d + 4, b[d..d + 14]);
    forall i | 0 <= i < |q| ensures c[d + 4..e][i] == q[i] {
      OverwrittenAt(b, d + 4, b[d..d + 14], d + 4 + i);
      OverwrittenAt(c1, d + 16, b[d + 16..d + 18], d + 4 + i);
      assert q[i] == if i < 12 then b[d + i] else b[d + i + 4];
    }
  }

  /** And after the writes of a push. */
  function PushWrites(b: seq<byte>, d: nat, tci: u16): seq<byte>
    requires 4 <= d && d + 14 <= |b|
  {
    var b1 := Overwritten(b, d - 4, b[d..d + 14]);
    var b2 := Overwritten(b1, d + 10, [tci / 256, tci % 256]);
    Overwritten(Overwritten(b2, d + 12, b2[d + 8..d + 10]), d + 8, [0x81, 0x00])
  }

  /** The header over the freed bytes, and the tag word. */
  lemma TagWrittenAt(b: seq<byte>, d: nat, tag: seq<byte>, j: nat)
    requires 4 <= d && d + 14 <= |b| && |tag| == 2 && j < |b|
    ensures Overwritten(Overwritten(b, d - 4, b[d..d + 14]), d + 10, tag)[j] ==
              if d - 4 <= j < d + 10 then b[j + 4] else if d + 10 <= j < d + 12 then tag[j - d - 10] else b[j]
  {
    OverwrittenAt(b, d - 4, b[d..d + 14], j);
    OverwrittenAt(Overwritten(b, d - 4, b[d..d + 14]), d + 10, tag, j);
  }

  /** And then the old type behind it and the new outer type. */
  lemma TypesWrittenAt(b2: seq<byte>, d: nat, tpid: seq<byte>, j: nat)
    requires d + 14 <= |b2| && |tpid| == 2 && j < |b2|
    ensures Overwritten(Overwritten(b2, d + 12, b2[d + 8..d + 10]), d + 8, tpid)[j] ==
              if d + 8 <= j < d + 10 then tpid[j - d - 8] else if d + 12 <= j < d + 14 then b2[j - 4] else b2[j]
  {
    OverwrittenAt(b2, d + 12, b2[d + 8..d + 10], j);
    OverwrittenAt(Overwritten(b2, d + 12, b2[d + 8..d + 10]), d + 8, tpid, j);
  }

  lemma PushWritesAt(b: seq<byte>, d: nat, tci: u16, j: nat)
    requires 4 <= d && d + 14 <= |b| && d - 4 <= j < |b|
    ensures PushWrites(b, d, tci)[j] ==
              if j < d + 8 then b[j + 4] else if j < d + 12 then [0x81, 0x00, tci / 256, tci % 256][j - d - 8] else b[j]
  {
    var tag := [tci / 256, tci % 256];
    TagWrittenAt(b, d, tag, j);
    if d + 12 <= j < d + 14 {
      TagWrittenAt(b, d, tag, j - 4);
    }
    TypesWrittenAt(Overwritten(Overwritten(b, d - 4, b[d..d + 14]), d + 10, tag), d, [0x81, 0x00], j);
  }

  lemma PushInBuffer(b: seq<byte>, d: nat, e: nat, tci: u16)
    requires 4 <= d && d + 14 <= e <= |b|
    ensures PushWrites(b, d, tci)[d - 4..e] == Pushed(b[d..e], tci)
  {
    var c, q := PushWrites(b, d, tci), Pushed(b[d..e], tci);
    forall i | 0 <= i < |q| ensures c[d - 4..e][i] == q[i] {
      PushWritesAt(b, d, tci, d - 4 + i);
      PushedAt(b[d..e], tci, i);
    }
  }

  lemma PushedAt(p: seq<byte>, tci: u16, i: nat)
    requires |p| >= 14 && i < |p| + 4
    ensures Pushed(p, tci)[i] ==
              if i < 12 then p[i] else if i < 16 then [0x81, 0x00, tci / 256, tci % 256][i - 12] else p[i - 4]
  {
  }

  // ----- packets as values

  /** p with the tag (0x8100, tci) inserted behind the MAC addresses. */
  function Pushed(p: seq<byte>, tci: u16): seq<byte>
    requires |p| >= 14
  {
    p[..12] + [0x81, 0x00, tci / 256, tci % 256] + p[12..]
  }

  /** p has an outermost tag that is complete. */
  predicate CanPop(p: seq<byte>) {
    |p| >= 18 && IsVlanType(Be16At(p, 12))
  }

  /** p without the four bytes behind the MAC addresses. */
  function Popped(p: seq<byte>): seq<byte>
    requires |p| >= 18
  {
    p[..12] + p[16..]
  }

  /** The packet and its head after xdp_vlan_swap_func. */
  function Swapped(p: seq<byte>, head: nat, granted: bool): seq<byte> {
    if |p| < 14 || !granted then p
    else if IsVlanType(Be16At(p, 12)) then if CanPop(p) then Popped(p) else p
    else if head >= 4 then Pushed(p, 1) else p
  }

  function SwappedHead(p: seq<byte>, head: nat, granted: bool): nat {
    if |p| < 14 || !granted then head
    else if IsVlanType(Be16At(p, 12)) then if CanPop(p) then head + 4 else head
    else if head >= 4 then head - 4 else head
  }

  // ----- packets given by their parts

  /** Behind the MAC addresses a tag of either type, and behind it at least the inner type: that is
      what can be popped, the word is the tag's and the packet is left without the tag. */
  lemma PopTagged(macs: seq<byte>, tag: Tag, rest: seq<byte>)
    requires |macs| == 12
    ensures var p := macs + TagBytes(tag) + rest;
            && (CanPop(p) <==> |rest| >= 2)
            && Be16At(p, 12) == (if tag.dot1ad then 0x88A8 else 0x8100)
            && Be16At(p, 14) == tag.tci && (|rest| >= 2 ==> Popped(p) == macs + rest)
  {
    var p, b := macs + TagBytes(tag) + rest, TagBytes(tag);
    assert p[12] == b[0] && p[13] == b[1] && p[14] == b[2] && p[15] == b[3];
    assert p[..12] == macs && p[16..] == rest;
  }

  /** And nothing else can be popped. */
  lemma PoppableIsTagged(p: seq<byte>) returns (macs: seq<byte>, tag: Tag, rest: seq<byte>)
    requires CanPop(p)
    ensures |macs| == 12 && |rest| >= 2 && p == macs + TagBytes(tag) + rest
  {
    macs, tag, rest := p[..12], Tag(p[12] == 0x88, Be16At(p, 14)), p[16..];
    assert TagBytes(tag) == p[12..16];
  }

  lemma PushUntagged(macs: seq<byte>, rest: seq<byte>, tci: u16)
    requires |macs| == 12 && |rest| >= 2
    ensures Pushed(macs + rest, tci) == macs + TagBytes(Tag(false, tci)) + rest
  {
    assert (macs + rest)[..12] == macs && (macs + rest)[12..] == rest;
  }

  /** What the swap makes of any packet: a tagged one loses its tag, an untagged one gets tag 1, and
      one that is cut off in front of its inner type stays as it is. */
  lemma SwapTagged(macs: seq<byte>, tag: Tag, rest: seq<byte>, head: nat, granted: bool)
    requires |macs| == 12
    ensures var p := macs + TagBytes(tag) + rest;
            (Swapped(p, head, granted), SwappedHead(p, head, granted)) ==
              if granted && |rest| >= 2 then (macs + rest, head + 4) else (p, head)
  {
    PopTagged(macs, tag, rest);
  }

  lemma SwapUntagged(macs: seq<byte>, rest: seq<byte>, head: nat, granted: bool)
    requires |macs| == 12 && |rest| >= 2
    requires rest[..2] != [0x81, 0x00] && rest[..2] != [0x88, 0xA8]
    ensures (Swapped(macs + rest, head, granted), SwappedHead(macs + rest, head, granted)) ==
              if granted && head >= 4 then (macs + [0x81, 0x00, 0x00, 0x01] + rest, head - 4)
              else (macs + rest, head)
  {
    PushUntagged(macs, rest, 1);
    var p := macs + rest;
    assert p[12] == rest[..2][0] && p[13] == rest[..2][1];
    assert rest[..2] == [p[12], p[13]];
  }

  // ----- round trips

  /** Popping a pushed tag restores the packet and returns the tag word, which for a pushed int is
      its low sixteen bits. */
  lemma PopAfterPush(p: seq<byte>, tci: u16)
    requires |p| >= 14
    ensures CanPop(Pushed(p, tci)) && Be16At(Pushed(p, tci), 14) == tci
    ensures Popped(Pushed(p, tci)) == p
  {
    var q := Pushed(p, tci);
    assert q[12] == 0x81 && q[13] == 0 && q[14] == tci / 256 && q[15] == tci % 256;
    assert q[..12] == p[..12] && q[16..] == p[12..];
  }

  /** Pushing back the popped tag restores the packet exactly when its outer type was 0x8100;
      otherwise the type is the only thing that differs. */
  lemma PushAfterPop(p: seq<byte>)
    requires CanPop(p)
    ensures |Popped(p)| >= 14
    ensures var q := Pushed(Popped(p), Be16At(p, 14));
            && (q == p <==> Be16At(p, 12) == ETH_P_8021Q)
            && q == p[..12] + [0x81, 0x00] + p[14..]
  {
    var t := Be16At(p, 14);
    assert t / 256 == p[14] && t % 256 == p[15];
    var q := Pushed(Popped(p), t);
    assert p[14..] == [p[14], p[15]] + p[16..];
    assert q == p[..12] + [0x81, 0x00] + p[14..];
    assert q[12] == 0x81 && q[13] == 0;
    if Be16At(p, 12) == ETH_P_8021Q {
      assert p[12] == 0x81 && p[13] == 0;
      assert p == p[..12] + [p[12], p[13]] + p[14..];
    }
  }

  /** Two swaps of an untagged packet give back the packet unless exactly one of the two head
      adjustments succeeded; then the packet carries the tag, once. */
  lemma SwapTwice(p: seq<byte>, head: nat, first: bool, second: bool)
    requires |p| >= 14 && !IsVlanType(Be16At(p, 12))
    ensures var pushed := first && head >= 4;
            var q := Swapped(Swapped(p, head, first), SwappedHead(p, head, first), second);
            && (pushed && second ==> q == p)
            && (q == p <==> pushed == (second && head >= 4))
            && (q != p ==> q == Pushed(p, 1))
  {
    PopAfterPush(p, 1);
    assert |Pushed(p, 1)| == |p| + 4;
  }

  /** A pushed tag is the one the parser sees first: the walk over the tagged packet is the walk
      over the original, four bytes further on, with one level of depth used up. */
  lemma ParsePushed(h: Host, p: seq<byte>, tci: u16, depth: nat)
    requires |p| >= 14 && depth > 0
    ensures EthWalk(h, Pushed(p, tci), 0, depth).Some? && EthWalk(h, p, 0, depth - 1).Some?
    ensures var w := EthWalk(h, p, 0, depth - 1).value;
            EthWalk(h, Pushed(p, tci), 0, depth) == Some(Walk(w.proto, w.pos + 4))
  {
    var q := Pushed(p, tci);
    var k := WalkFrom(h, p, 0, 0, depth - 1);
    WalkExact(h, p, 0, k, depth - 1);
    assert TypeAt(q, 0, 0) == ETH_P_8021Q;
    forall i | 1 <= i && 14 + 4 * i <= |q| ensures TypeAt(q, 0, i) == TypeAt(p, 0, i - 1) {
      assert q[12 + 4 * i] == p[8 + 4 * i] && q[13 + 4 * i] == p[9 + 4 * i];
    }
    assert TagDepth(q, 0, k + 1, depth);
    WalkExact(h, q, 0, k + 1, depth);
  }
}
