/** bpf_csum_diff as a 32-bit sum with end-around carry. The echo server of
    packet-solutions/xdp_prog_kern_03.c folds its result once; whether that is enough follows from the
    checksum field of the request alone. */
module EndAroundDiff {
  import opened Bytes
  import opened OnesComplement
  import opened InternetChecksum
  import opened Xdp
  import opened IcmpEcho

  const ALL_ONES: u32 := 0xFFFF_FFFF

  /** Four bytes loaded as a native 32-bit number. */
  function Load32(h: Host, s: seq<byte>): u32
    requires |s| == 4
  {
    if h.Big? then 0x1_0000 * Load16(h, s[0], s[1]) + Load16(h, s[2], s[3])
    else Load16(h, s[0], s[1]) + 0x1_0000 * Load16(h, s[2], s[3])
  }

  /** 32-bit addition with end-around carry. */
  function Csum32Add(x: u32, y: u32): u32 {
    if x + y > ALL_ONES then x + y - ALL_ONES else x + y
  }

  /** The sum of the seed, the complemented old word and the new word. */
  function EndAround(h: Host): CsumDiff {
    (a, b, seed) =>
      if |a| == 4 && |b| == 4 then Csum32Add(Csum32Add(seed, ALL_ONES - Load32(h, a)), Load32(h, b)) else 0
  }

  // ----- the promise

  lemma Load32Residue(h: Host, s: seq<byte>)
    requires |s| == 4
    ensures Load32(h, s) % M == WordSum(h, s) % M
  {
    var a, b := s[..2], s[2..];
    assert s == a + b && a[2..] == [] && b[2..] == [];
    WordSumConcat(h, a, b);
    var x: int, y: int := Load16(h, s[0], s[1]), Load16(h, s[2], s[3]);
    assert WordSum(h, a) == x && WordSum(h, b) == y;
    ModShift(x + y, x);
    ModShift(x + y, y);
  }

  lemma Add32Residue(x: u32, y: u32)
    ensures Csum32Add(x, y) % M == (x + y) % M
  {
    ModShift(x + y, -0x1_0001);
  }

  lemma SumResidue(seed: u16, old32: u32, new32: u32)
    ensures (Csum32Add(Csum32Add(seed, ALL_ONES - old32), new32) + old32) % M == (seed + new32) % M
  {
    var x := Csum32Add(seed, ALL_ONES - old32);
    Add32Residue(seed, ALL_ONES - old32);
    Add32Residue(x, new32);
    AddMod(x, seed + ALL_ONES - old32, new32, new32);
    AddMod(Csum32Add(x, new32), seed + ALL_ONES - old32 + new32, old32, old32);
    ModShift(seed + new32, 0x1_0001);
  }

  lemma PromiseKept(seed: u16, old32: u32, new32: u32, oldSum: int, newSum: int)
    requires old32 % M == oldSum % M && new32 % M == newSum % M
    ensures (Csum32Add(Csum32Add(seed, ALL_ONES - old32), new32) + oldSum) % M == (seed + newSum) % M
  {
    var csum := Csum32Add(Csum32Add(seed, ALL_ONES - old32), new32);
    SumResidue(seed, old32, new32);
    AddMod(csum, csum, oldSum, old32);
    AddMod(seed, seed, newSum, new32);
  }

  /** This helper keeps the documented promise. */
  lemma EndAroundKeepsPromise(h: Host)
    ensures IsCsumDiff(h, EndAround(h))
  {
    forall a: seq<byte>, b: seq<byte>, seed: u16 | |a| == 4 && |b| == 4
      ensures (EndAround(h)(a, b, seed) + WordSum(h, a)) % M == (seed + WordSum(h, b)) % M
    {
      Load32Residue(h, a);
      Load32Residue(h, b);
      PromiseKept(seed, Load32(h, a), Load32(h, b), WordSum(h, a), WordSum(h, b));
    }
  }

  // ----- when the halves carry

  /** The native checksum fields of the ICMP requests whose reply gets a valid checksum. */
  predicate FoldsOnce4(h: Host, check: u16) {
    if h.Big? then 0xF7FF <= check < 0xFFFF else check < 0xFFF7
  }

  /** The same for ICMPv6. */
  predicate FoldsOnce6(h: Host, check: u16) {
    h.Big? ==> check > 0x00FF
  }

  /** The header words without the checksum field. */
  lemma HeaderLoads(h: Host, kind: byte, code: byte)
    ensures Load32(h, [kind, code, 0, 0]) == if h.Big? then 0x100_0000 * kind + 0x1_0000 * code else kind + 256 * code
  {
  }

  /** The sum for a word lowered by d, and for one raised by d. */
  lemma Lowered(seed: u16, old32: u32, d: u32)
    requires d <= old32
    ensures Csum32Add(Csum32Add(seed, ALL_ONES - old32), old32 - d)
         == if seed > d then seed - d else ALL_ONES - d + seed
  {
  }

  lemma Raised(seed: u16, old32: u32, d: u32)
    requires 0 < d && old32 + d <= ALL_ONES && seed + d <= ALL_ONES
    ensures Csum32Add(Csum32Add(seed, ALL_ONES - old32), old32 + d) == seed + d
  {
  }

  lemma Halves(csum: u32, hi: u16, lo: u16)
    requires csum == 0x1_0000 * hi + lo
    ensures NoCarry(csum) <==> hi + lo < 0x1_0000
  {
  }

  lemma LoweredLow(seed: u32)
    requires seed < 0x1_0000
    ensures NoCarry(if seed > 8 then seed - 8 else ALL_ONES - 8 + seed) <==> seed > 8
  {
    if seed > 8 {
      Halves(seed - 8, 0, seed - 8);
    } else {
      Halves(ALL_ONES - 8 + seed, 0xFFFF, 0xFFF7 + seed);
    }
  }

  lemma LoweredHigh(seed: u32)
    requires seed < 0x1_0000
    ensures NoCarry(ALL_ONES - 0x800_0000 + seed) <==> 0 < seed <= 0x800
  {
    if seed == 0 {
      Halves(ALL_ONES - 0x800_0000, 0xF7FF, 0xFFFF);
    } else {
      Halves(ALL_ONES - 0x800_0000 + seed, 0xF800, seed - 1);
    }
  }

  lemma RaisedLow(seed: u32)
    requires seed < 0x1_0000
    ensures NoCarry(seed + 1)
  {
    if seed == 0xFFFF {
      Halves(seed + 1, 1, 0);
    } else {
      Halves(seed + 1, 0, seed + 1);
    }
  }

  lemma RaisedHigh(seed: u32)
    requires seed < 0x1_0000
    ensures NoCarry(seed + 0x100_0000) <==> seed < 0xFF00
  {
    Halves(seed + 0x100_0000, 0x100, seed);
  }

  /** The type word of an ICMP request is lowered by 8 in the first byte. */
  lemma EndAroundCarries4(h: Host, check: u16, code: byte)
    ensures NoCarry(EndAround(h)([ICMP_ECHO, code, 0, 0], [ICMP_ECHOREPLY, code, 0, 0], Not16(check)))
       <==> FoldsOnce4(h, check)
  {
    var seed := Not16(check);
    HeaderLoads(h, ICMP_ECHO, code);
    HeaderLoads(h, ICMP_ECHOREPLY, code);
    if h.Big? {
      Lowered(seed, 0x800_0000 + 0x1_0000 * code, 0x800_0000);
      LoweredHigh(seed);
    } else {
      Lowered(seed, 8 + 256 * code, 8);
      LoweredLow(seed);
    }
  }

  /** That of an ICMPv6 request is raised by 1. */
  lemma EndAroundCarries6(h: Host, check: u16, code: byte)
    ensures NoCarry(EndAround(h)([ICMPV6_ECHO_REQUEST, code, 0, 0], [ICMPV6_ECHO_REPLY, code, 0, 0], Not16(check)))
       <==> FoldsOnce6(h, check)
  {
    var seed := Not16(check);
    HeaderLoads(h, ICMPV6_ECHO_REQUEST, code);
    HeaderLoads(h, ICMPV6_ECHO_REPLY, code);
    if h.Big? {
      Raised(seed, 0x8000_0000 + 0x1_0000 * code, 0x100_0000);
      RaisedHigh(seed);
    } else {
      Raised(seed, 128 + 256 * code, 1);
      RaisedLow(seed);
    }
  }

  /** The reply to a valid ICMP request is valid if and only if the checksum field of the request,
      read natively, is in this range. */
  lemma ReplyValid4(h: Host, p: seq<byte>, ip: nat, icmp: nat, e: nat)
    requires Request4(h, p, ip, icmp, e) && ValidSum(h, p[icmp..e])
    ensures var q := EchoAnswer(h, p, EndAround(h));
            |q| == |p| && (ValidSum(h, q[icmp..e]) <==> FoldsOnce4(h, Load16At(h, p, icmp + 2)))
  {
    EndAroundKeepsPromise(h);
    Answer4Exact(h, p, ip, icmp, e, EndAround(h));
    EndAroundCarries4(h, Load16At(h, p, icmp + 2), p[icmp + 1]);
    FoundType(h, p);
  }

  /** On a little-endian host every valid ICMPv6 request gets a valid reply; on a big-endian one
      exactly those with a checksum field above 0x00FF. */
  lemma ReplyValid6(h: Host, p: seq<byte>, ip: nat)
    requires Request6(h, p, ip) && ValidSum(h, Covered6(p, ip))
    ensures var q := EchoAnswer(h, p, EndAround(h));
            HasMessage6(q, ip) && (ValidSum(h, Covered6(q, ip)) <==> FoldsOnce6(h, Load16At(h, p, ip + 42)))
  {
    EndAroundKeepsPromise(h);
    Answer6Exact(h, p, ip, EndAround(h));
    EndAroundCarries6(h, Load16At(h, p, ip + 42), p[ip + 41]);
    FoundType(h, p);
  }

  lemma FoundType(h: Host, p: seq<byte>)
    ensures FindEcho(h, p).Echo4? ==> p[FindEcho(h, p).icmp] == ICMP_ECHO
    ensures FindEcho(h, p).Echo6? ==> p[FindEcho(h, p).icmp] == ICMPV6_ECHO_REQUEST
  {
  }
}
