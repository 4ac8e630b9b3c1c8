/** The exclusive or of Word32 is that of the machine: Dafny's own ^ on the bytes. */
module NativeXor {
  import opened Bytes
  import opened Word32

  /** One more bit. */
  lemma XorNext(x: nat, y: nat, n: nat, a: nat, b: nat)
    requires a < 2 && b < 2
    ensures Xor(2 * x + a, 2 * y + b, n + 1) == 2 * Xor(x, y, n) + Xor1(a, b)
  {
    XorStep(2 * x + a, 2 * y + b, n + 1);
    Halves(x, a, y, b);
  }

  lemma Halves(x: nat, a: nat, y: nat, b: nat)
    requires a < 2 && b < 2
    ensures (2 * x + a) / 2 == x && (2 * y + b) / 2 == y && (2 * x + a + (2 * y + b)) % 2 == (a + b) % 2
  {
  }

  function Xor1(c: nat, d: nat): nat {
    if c == d then 0 else 1
  }

  lemma XorNext4(x: nat, y: nat, n: nat, a3: nat, a2: nat, a1: nat, a0: nat, b3: nat, b2: nat, b1: nat, b0: nat,
                 a: nat, b: nat, r: nat)
    requires a3 < 2 && a2 < 2 && a1 < 2 && a0 < 2 && b3 < 2 && b2 < 2 && b1 < 2 && b0 < 2
    requires a == 8 * a3 + 4 * a2 + 2 * a1 + a0 && b == 8 * b3 + 4 * b2 + 2 * b1 + b0
    requires r == 8 * Xor1(a3, b3) + 4 * Xor1(a2, b2) + 2 * Xor1(a1, b1) + Xor1(a0, b0)
    ensures Xor(16 * x + a, 16 * y + b, n + 4) == 16 * Xor(x, y, n) + r
  {
    XorNext(x, y, n, a3, b3);
    XorNext(2 * x + a3, 2 * y + b3, n + 1, a2, b2);
    XorNext(4 * x + 2 * a3 + a2, 4 * y + 2 * b3 + b2, n + 2, a1, b1);
    XorNext(8 * x + 4 * a3 + 2 * a2 + a1, 8 * y + 4 * b3 + 2 * b2 + b1, n + 3, a0, b0);
  }

  /** The bit of c that the mask selects. */
  function Masked(c: bv8, mask: bv8): nat {
    if c & mask == 0 then 0 else 1
  }

  function High4(c: bv8): nat {
    8 * Masked(c, 128) + 4 * Masked(c, 64) + 2 * Masked(c, 32) + Masked(c, 16)
  }

  function Low4(c: bv8): nat {
    8 * Masked(c, 8) + 4 * Masked(c, 4) + 2 * Masked(c, 2) + Masked(c, 1)
  }

  lemma ByteBits(c: bv8)
    ensures c as nat == 16 * High4(c) + Low4(c)
  {
  }

  lemma MaskedXor(c: bv8, d: bv8, mask: bv8)
    requires mask in {1, 2, 4, 8, 16, 32, 64, 128}
    ensures Masked(c ^ d, mask) == Xor1(Masked(c, mask), Masked(d, mask))
  {
  }

  lemma XorHigh(x: nat, y: nat, n: nat, c: bv8, d: bv8)
    ensures Xor(16 * x + High4(c), 16 * y + High4(d), n + 4) == 16 * Xor(x, y, n) + High4(c ^ d)
  {
    MaskedXor(c, d, 128);
    MaskedXor(c, d, 64);
    MaskedXor(c, d, 32);
    MaskedXor(c, d, 16);
    XorNext4(x, y, n, Masked(c, 128), Masked(c, 64), Masked(c, 32), Masked(c, 16),
             Masked(d, 128), Masked(d, 64), Masked(d, 32), Masked(d, 16), High4(c), High4(d), High4(c ^ d));
  }

  lemma XorLow(x: nat, y: nat, n: nat, c: bv8, d: bv8)
    ensures Xor(16 * x + Low4(c), 16 * y + Low4(d), n + 4) == 16 * Xor(x, y, n) + Low4(c ^ d)
  {
    MaskedXor(c, d, 8);
    MaskedXor(c, d, 4);
    MaskedXor(c, d, 2);
    MaskedXor(c, d, 1);
    XorNext4(x, y, n, Masked(c, 8), Masked(c, 4), Masked(c, 2), Masked(c, 1),
             Masked(d, 8), Masked(d, 4), Masked(d, 2), Masked(d, 1), Low4(c), Low4(d), Low4(c ^ d));
  }

  predicate Append(x: nat, y: nat, n: nat, c: nat, d: nat, r: nat) {
    Xor(256 * x + c, 256 * y + d, n + 8) == 256 * Xor(x, y, n) + r
  }

  /** Behind any other bits, the exclusive or of the bytes c and d is r. */
  ghost predicate ByteXor(c: nat, d: nat, r: nat) {
    forall x: nat, y: nat, n: nat :: Append(x, y, n, c, d, r)
  }

  lemma NativeByteXor(c: bv8, d: bv8)
    ensures ByteXor(c as nat, d as nat, (c ^ d) as nat)
  {
    var u, v, r := c as nat, d as nat, (c ^ d) as nat;
    ByteBits(c);
    ByteBits(d);
    ByteBits(c ^ d);
    forall x: nat, y: nat, n: nat ensures Append(x, y, n, u, v, r) {
      XorHigh(x, y, n, c, d);
      XorLow(16 * x + High4(c), 16 * y + High4(d), n + 4, c, d);
      TwoNibbles(x, y, n, High4(c), Low4(c), High4(d), Low4(d), High4(c ^ d), Low4(c ^ d), u, v, r);
    }
  }

  lemma TwoNibbles(x: nat, y: nat, n: nat, c1: nat, c0: nat, d1: nat, d0: nat, r1: nat, r0: nat,
                   c: nat, d: nat, r: nat)
    requires c == 16 * c1 + c0 && d == 16 * d1 + d0 && r == 16 * r1 + r0
    requires Xor(16 * x + c1, 16 * y + d1, n + 4) == 16 * Xor(x, y, n) + r1
    requires Xor(16 * (16 * x + c1) + c0, 16 * (16 * y + d1) + d0, n + 4 + 4)
          == 16 * Xor(16 * x + c1, 16 * y + d1, n + 4) + r0
    ensures Append(x, y, n, c, d, r)
  {
  }

  predicate AppendTwo(x: nat, y: nat, n: nat, c: nat, d: nat, r: nat) {
    Xor(0x1_0000 * x + c, 0x1_0000 * y + d, n + 16) == 0x1_0000 * Xor(x, y, n) + r
  }

  ghost predicate HalfXor(c: nat, d: nat, r: nat) {
    forall x: nat, y: nat, n: nat :: AppendTwo(x, y, n, c, d, r)
  }

  lemma TwoBytes(c1: nat, d1: nat, r1: nat, c0: nat, d0: nat, r0: nat)
    requires ByteXor(c1, d1, r1) && ByteXor(c0, d0, r0)
    ensures HalfXor(256 * c1 + c0, 256 * d1 + d0, 256 * r1 + r0)
  {
    var c, d, r := 256 * c1 + c0, 256 * d1 + d0, 256 * r1 + r0;
    forall x: nat, y: nat, n: nat ensures AppendTwo(x, y, n, c, d, r) {
      assert Append(x, y, n, c1, d1, r1);
      assert Append(256 * x + c1, 256 * y + d1, n + 8, c0, d0, r0);
    }
  }

  lemma TwoHalves(c1: nat, d1: nat, r1: nat, c0: nat, d0: nat, r0: nat, c: u32, d: u32, r: u32)
    requires HalfXor(c1, d1, r1) && HalfXor(c0, d0, r0)
    requires c == 0x1_0000 * c1 + c0 && d == 0x1_0000 * d1 + d0 && r == 0x1_0000 * r1 + r0
    ensures Xor32(c, d) == r
  {
    HighHalf(c1, d1, r1);
    assert AppendTwo(c1, d1, 16, c0, d0, r0);
    LowHalf(c1, d1, r1, c0, d0, r0, c, d, r);
  }

  lemma LowHalf(c1: nat, d1: nat, r1: nat, c0: nat, d0: nat, r0: nat, c: nat, d: nat, r: nat)
    requires AppendTwo(c1, d1, 16, c0, d0, r0) && Xor(c1, d1, 16) == r1
    requires c == 0x1_0000 * c1 + c0 && d == 0x1_0000 * d1 + d0 && r == 0x1_0000 * r1 + r0
    ensures Xor(c, d, 32) == r
  {
  }

  lemma HighHalf(c1: nat, d1: nat, r1: nat)
    requires HalfXor(c1, d1, r1)
    ensures Xor(c1, d1, 16) == r1
  {
    assert AppendTwo(0, 0, 0, c1, d1, r1);
  }

  function Half(c1: bv8, c0: bv8): nat {
    256 * (c1 as nat) + c0 as nat
  }

  function Word(c3: bv8, c2: bv8, c1: bv8, c0: bv8): u32 {
    0x1_0000 * Half(c3, c2) + Half(c1, c0)
  }

  lemma NativeHalfXor(c1: bv8, c0: bv8, d1: bv8, d0: bv8)
    ensures HalfXor(Half(c1, c0), Half(d1, d0), Half(c1 ^ d1, c0 ^ d0))
  {
    NativeByteXor(c1, d1);
    NativeByteXor(c0, d0);
    TwoBytes(c1 as nat, d1 as nat, (c1 ^ d1) as nat, c0 as nat, d0 as nat, (c0 ^ d0) as nat);
  }

  /** The exclusive or of two words is the machine's, byte by byte. */
  lemma Xor32Bytes(c3: bv8, c2: bv8, c1: bv8, c0: bv8, d3: bv8, d2: bv8, d1: bv8, d0: bv8)
    ensures Xor32(Word(c3, c2, c1, c0), Word(d3, d2, d1, d0)) == Word(c3 ^ d3, c2 ^ d2, c1 ^ d1, c0 ^ d0)
  {
    NativeHalfXor(c3, c2, d3, d2);
    NativeHalfXor(c1, c0, d1, d0);
    TwoHalves(Half(c3, c2), Half(d3, d2), Half(c3 ^ d3, c2 ^ d2), Half(c1, c0), Half(d1, d0), Half(c1 ^ d1, c0 ^ d0),
              Word(c3, c2, c1, c0), Word(d3, d2, d1, d0), Word(c3 ^ d3, c2 ^ d2, c1 ^ d1, c0 ^ d0));
  }
}
