/** The 16-bit one's complement arithmetic of advanced03-AF_XDP/af_xdp_user.c and of
    packet-solutions/xdp_prog_kern_03.c, with the C integer widths written out. */
module OnesComplement {
  import opened Bytes

  /** The modulus of one's complement arithmetic on 16 bits. */
  const M: int := 0xFFFF

  /** The C expression ~x truncated to 16 bits. */
  function Not16(x: u16): u16 {
    0xFFFF - x
  }

  function Csum16Add(csum: u16, addend: u16): (r: u16)
    ensures r == if csum + addend > M then csum + addend - M else csum + addend
  {
    var res := (csum + addend) % 0x1_0000;
    (res + if res < addend then 1 else 0) % 0x1_0000
  }

  function Csum16Sub(csum: u16, addend: u16): u16 {
    Csum16Add(csum, Not16(addend))
  }

  /** The value csum_replace2 stores through its pointer. */
  function CsumReplace2(sum: u16, old16: u16, new16: u16): u16 {
    Not16(Csum16Add(Csum16Sub(Not16(sum), old16), new16))
  }

  /** The checksum ip_decrease_ttl stores. */
  function TtlDecrementCheck(h: Host, check: u16): u16 {
    var c := check + Htons(h, 0x0100);
    (c + if c >= 0xFFFF then 1 else 0) % 0x1_0000
  }

  /** csum_fold_helper: one folding step only, complemented and truncated. */
  function CsumFoldHelper(csum: u32): u16 {
    (0xFFFF_FFFF - (csum % 0x1_0000 + csum / 0x1_0000)) % 0x1_0000
  }

  /** The end-around-carry fold of a 32-bit sum, carried to the end. */
  function FullFold(csum: u32): u16 {
    Csum16Add(csum % 0x1_0000, csum / 0x1_0000)
  }

  /** Zero has two representations modulo 0xFFFF; end-around carry yields 0x0000 only from
      two zeros. Together with the residue this determines the sum. */
  lemma AddCharacterised(a: u16, b: u16, r: u16)
    ensures r == Csum16Add(a, b) <==>
            r % M == (a + b) % M && (r == 0 <==> a == 0 && b == 0)
  {
  }

  lemma AddCommutes(a: u16, b: u16)
    ensures Csum16Add(a, b) == Csum16Add(b, a)
  {
  }

  lemma AddAssociates(a: u16, b: u16, c: u16)
    ensures Csum16Add(Csum16Add(a, b), c) == Csum16Add(a, Csum16Add(b, c))
  {
    var l, r := Csum16Add(Csum16Add(a, b), c), Csum16Add(a, Csum16Add(b, c));
    assert l == a + b + c || l == a + b + c - M || l == a + b + c - 2 * M;
    assert r == a + b + c || r == a + b + c - M || r == a + b + c - 2 * M;
    SameSum(l, r);
  }

  /** A residue modulo 0xFFFF and being zero or not determine a 16-bit number. */
  lemma SameSum(x: u16, y: u16)
    requires x % M == y % M
    requires x == 0 <==> y == 0
    ensures x == y
  {
  }

  /** Swapping bytes is multiplication by 256 modulo 0xFFFF. */
  lemma SwapIsTimes256(x: u16)
    ensures Swap16(x) % M == 256 * x % M
    ensures Swap16(x) == 0 <==> x == 0
    ensures Swap16(Swap16(x)) == x
  {
    var hi, lo := x / 256, x % 256;
    assert 256 * x == Swap16(x) + hi * M;
    ModShift(Swap16(x), hi);
  }

  lemma ModShift(a: int, k: int)
    ensures (a + k * M) % M == a % M
  {
    QuotientAndRest(a + k * M, a / M + k, a % M);
  }

  lemma QuotientAndRest(x: int, q: int, r: int)
    requires x == q * M + r && 0 <= r < M
    ensures x % M == r
  {
  }

  /** Section 2(B) of RFC 1071 for one addition. */
  lemma AddCommutesWithSwap(a: u16, b: u16)
    ensures Csum16Add(Swap16(a), Swap16(b)) == Swap16(Csum16Add(a, b))
  {
    SwapIsTimes256(a);
    SwapIsTimes256(b);
    SwapIsTimes256(Csum16Add(a, b));
    var q, r := Csum16Add(Swap16(a), Swap16(b)), Csum16Add(a, b);
    AddCharacterised(a, b, r);
    AddCharacterised(Swap16(a), Swap16(b), q);
    SameResidue(a, b, Swap16(a), Swap16(b), q, r, Swap16(r));
  }

  lemma NotCommutesWithSwap(x: u16)
    ensures Not16(Swap16(x)) == Swap16(Not16(x))
  {
    var hi, lo := x / 256, x % 256;
    assert Not16(x) == 256 * (255 - hi) + (255 - lo);
  }

  /** So the incremental update of equation 3 of RFC 1624 does not depend on the byte order either. */
  lemma ReplaceCommutesWithSwap(sum: u16, old16: u16, new16: u16)
    ensures CsumReplace2(Swap16(sum), Swap16(old16), Swap16(new16)) == Swap16(CsumReplace2(sum, old16, new16))
  {
    var c := Csum16Sub(Not16(sum), old16);
    NotCommutesWithSwap(sum);
    NotCommutesWithSwap(old16);
    AddCommutesWithSwap(Not16(sum), Not16(old16));
    AddCommutesWithSwap(c, new16);
    NotCommutesWithSwap(Csum16Add(c, new16));
  }

  lemma SameResidue(a: u16, b: u16, x: u16, y: u16, q: u16, r: u16, z: u16)
    requires x % M == 256 * a % M && y % M == 256 * b % M && z % M == 256 * r % M
    requires q % M == (x + y) % M && r % M == (a + b) % M
    requires q == 0 <==> z == 0
    ensures q == z
  {
    AddMod(x as int, 256 * (a as int), y as int, 256 * (b as int));
    Times256(a + b, r);
    SameSum(q, z);
  }

  lemma AddMod(a: int, a': int, b: int, b': int)
    requires a % M == a' % M && b % M == b' % M
    ensures (a + b) % M == (a' + b') % M
  {
    var k, j := a / M - a' / M, b / M - b' / M;
    assert a == a' + k * M && b == b' + j * M;
    ModShift(a' + b', k + j);
  }

  lemma Times256(x: int, y: int)
    requires x % M == y % M
    ensures 256 * x % M == 256 * y % M
  {
    var k := x / M - y / M;
    assert x == y + k * M;
    ModShift(256 * y, 256 * k);
  }

  /** Equation 3 of RFC 1624, with the representation of zero pinned down. */
  lemma ReplaceCharacterised(sum: u16, old16: u16, new16: u16)
    ensures var r := CsumReplace2(sum, old16, new16);
            && (r + new16) % M == (sum + old16) % M
            && (r == 0xFFFF <==> sum == 0xFFFF && old16 == 0xFFFF && new16 == 0)
  {
    var r := CsumReplace2(sum, old16, new16);
    var d := r + new16 - sum - old16;
    assert d == 0 || d == -M || d == M;
  }

  /** Replacing a word and putting it back restores the checksum, except that the
      checksum 0xFFFF comes back as 0x0000. */
  lemma ReplaceRoundTrip(sum: u16, old16: u16, new16: u16)
    ensures CsumReplace2(CsumReplace2(sum, old16, new16), new16, old16) == sum <==> sum != 0xFFFF
  {
    var r := CsumReplace2(sum, old16, new16);
    ReplaceCharacterised(sum, old16, new16);
    ReplaceCharacterised(r, new16, old16);
    var q := CsumReplace2(r, new16, old16);
    assert q % M == sum % M by { AddMod(q + old16, r + new16, -(old16 as int), -(old16 as int)); }
  }

  /** The two incremental updates agree bit for bit on the word made of TTL and protocol. */
  lemma DecrementIsReplace(h: Host, ttl: byte, protocol: byte, check: u16)
    requires ttl >= 1
    ensures TtlDecrementCheck(h, check)
         == CsumReplace2(check, Load16(h, ttl, protocol), Load16(h, ttl - 1, protocol))
  {
  }

  /** What ip_decrease_ttl stores is never the second zero, 0xFFFF. */
  lemma DecrementCharacterised(h: Host, check: u16)
    ensures TtlDecrementCheck(h, check) % M == (check + if h.Big? then 256 else 1) % M
    ensures TtlDecrementCheck(h, check) != 0xFFFF
  {
    assert Htons(Little, 0x0100) == 1;
  }

  lemma SwapNotAllOnes(x: u16)
    requires x != 0xFFFF
    ensures Swap16(x) != 0xFFFF
  {
  }

  lemma SameRemainder(x: u16, y: u16)
    requires x % M == y % M && x != 0xFFFF && y != 0xFFFF
    ensures x == y
  {
  }

  /** One folding step is the full fold exactly when the two halves add without carry. */
  lemma FoldHelperExact(csum: u32)
    ensures CsumFoldHelper(csum) == Not16(FullFold(csum))
       <==> csum % 0x1_0000 + csum / 0x1_0000 < 0x1_0000
    ensures FullFold(csum) % M == csum % M
  {
  }

  /** When the halves do carry, the step is off by exactly one. */
  lemma FoldHelperOffByOne(csum: u32)
    requires csum % 0x1_0000 + csum / 0x1_0000 >= 0x1_0000
    ensures CsumFoldHelper(csum) == Not16(FullFold(csum)) + 1
  {
  }
}
