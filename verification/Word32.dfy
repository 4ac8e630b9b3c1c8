/** 32-bit unsigned arithmetic: a __u32 is a number below 2^32. */
module Word32 {
  import opened Bytes
  import opened Division

  const TWO32: int := 0x1_0000_0000

  function Plus(x: u32, y: u32): (r: u32)
    ensures r == if x + y < TWO32 then x + y else x + y - TWO32
  {
    (x + y) % TWO32
  }

  function Minus(x: u32, y: u32): (r: u32)
    ensures r == if x >= y then x - y else x - y + TWO32
  {
    (x - y) % TWO32
  }

  lemma PlusMinus(x: u32, y: u32)
    ensures Minus(Plus(x, y), y) == x
    ensures Plus(Minus(x, y), y) == x
  {
  }

  lemma PlusAssociates(x: u32, y: u32, z: u32)
    ensures Plus(Plus(x, y), z) == Plus(x, Plus(y, z))
  {
    var l, r := Plus(Plus(x, y), z), Plus(x, Plus(y, z));
    assert l == x + y + z || l == x + y + z - TWO32 || l == x + y + z - 2 * TWO32;
    assert r == x + y + z || r == x + y + z - TWO32 || r == x + y + z - 2 * TWO32;
  }

  /** The word whose bytes are given, lowest first. */
  function FromBytes(b0: byte, b1: byte, b2: byte, b3: byte): u32 {
    (b0 as int) + 0x100 * (b1 as int) + 0x1_0000 * (b2 as int) + 0x100_0000 * (b3 as int)
  }

  lemma FromBytesInjective(b0: byte, b1: byte, b2: byte, b3: byte, c0: byte, c1: byte, c2: byte, c3: byte)
    requires FromBytes(b0, b1, b2, b3) == FromBytes(c0, c1, c2, c3)
    ensures b0 == c0 && b1 == c1 && b2 == c2 && b3 == c3
  {
    LowByte(b0, (b1 as int) + 0x100 * (b2 as int) + 0x1_0000 * (b3 as int),
            c0, (c1 as int) + 0x100 * (c2 as int) + 0x1_0000 * (c3 as int));
    LowByte(b1, (b2 as int) + 0x100 * (b3 as int), c1, (c2 as int) + 0x100 * (c3 as int));
    LowByte(b2, b3 as int, c2, c3 as int);
  }

  lemma LowByte(b: byte, x: int, c: byte, y: int)
    requires b + 0x100 * x == c + 0x100 * y
    ensures b == c && x == y
  {
  }

  function Pow2(n: nat): (p: nat)
    ensures p >= 1
  {
    if n == 0 then 1 else 2 * Pow2(n - 1)
  }

  /** Bit i of x. */
  function Bit(x: nat, i: nat): nat {
    x / Pow2(i) % 2
  }

  /** The number with these bits, lowest first. */
  function Value(bits: seq<bool>): nat {
    if bits == [] then 0 else (if bits[0] then 1 else 0) + 2 * Value(bits[1..])
  }

  /** Where x and y differ in their lowest n bits. */
  function Differing(x: nat, y: nat, n: nat): seq<bool> {
    seq(n, i requires 0 <= i < n => Bit(x, i) != Bit(y, i))
  }

  /** x ^ y on n bits: a bit is set where the two differ. */
  function Xor(x: nat, y: nat, n: nat): nat {
    Value(Differing(x, y, n))
  }

  lemma {:induction false} XorFits(x: nat, y: nat, n: nat)
    ensures Xor(x, y, n) < Pow2(n)
  {
    if n > 0 {
      XorStep(x, y, n);
      XorFits(x / 2, y / 2, n - 1);
    }
  }

  lemma {:induction false} XorCancels(x: nat, y: nat, n: nat)
    requires x < Pow2(n)
    ensures Xor(Xor(x, y, n), y, n) == x
  {
    if n > 0 {
      var r := Xor(x, y, n);
      XorStep(x, y, n);
      XorCancels(x / 2, y / 2, n - 1);
      LowBit(r, Xor(x / 2, y / 2, n - 1), x, y);
      XorStep(r, y, n);
    }
  }

  /** The lowest bit, and the rest. */
  lemma XorStep(x: nat, y: nat, n: nat)
    requires n > 0
    ensures Xor(x, y, n) == 2 * Xor(x / 2, y / 2, n - 1) + (x + y) % 2
  {
    DifferingRest(x, y, n);
    Parity(x, y);
  }

  lemma DifferingRest(x: nat, y: nat, n: nat)
    requires n > 0
    ensures Differing(x, y, n)[0] == (x % 2 != y % 2)
    ensures Differing(x, y, n)[1..] == Differing(x / 2, y / 2, n - 1)
  {
    BitNext(x, 0);
    BitNext(y, 0);
    var b, c := Differing(x, y, n), Differing(x / 2, y / 2, n - 1);
    forall i | 0 <= i < n - 1 ensures b[1..][i] == c[i] {
      BitNext(x, i);
      BitNext(y, i);
    }
  }

  lemma Parity(x: nat, y: nat)
    ensures (x + y) % 2 == if x % 2 != y % 2 then 1 else 0
  {
  }

  lemma LowBit(r: nat, q: nat, x: nat, y: nat)
    requires r == 2 * q + (x + y) % 2
    ensures r / 2 == q && (r + y) % 2 == x % 2
  {
  }

  lemma Pow2Of32()
    ensures Pow2(32) == TWO32
  {
    assert Pow2(8) == 256;
    assert Pow2(16) == 65536;
    assert Pow2(24) == 0x100_0000;
  }

  function Xor32(x: u32, y: u32): u32 {
    Pow2Of32();
    XorFits(x, y, 32);
    Xor(x, y, 32)
  }

  lemma Xor32Cancels(x: u32, y: u32)
    ensures Xor32(Xor32(x, y), y) == x
  {
    Pow2Of32();
    XorCancels(x, y, 32);
  }

  lemma {:induction false} Pow2Split(m: nat, n: nat)
    ensures Pow2(m + n) == Pow2(m) * Pow2(n)
  {
    if m > 0 {
      Pow2Split(m - 1, n);
    }
  }

  /** Dividing by twice p is halving and dividing by p. */
  lemma HalfFirst(x: nat, p: nat)
    requires p > 0
    ensures x / (2 * p) == x / 2 / p
    ensures x % (2 * p) == 2 * (x / 2 % p) + x % 2
  {
    var h, b := x / 2, x % 2;
    var q, r := h / p, h % p;
    assert h == q * p + r;
    assert 2 * r + b < 2 * p;
    TwiceProduct(q, p);
    QuotientUnique(x, q, 2 * r + b, 2 * p);
  }

  lemma TwiceProduct(q: nat, p: nat)
    ensures q * (2 * p) == 2 * (q * p)
  {
  }

  lemma BitNext(x: nat, i: nat)
    ensures Bit(x, 0) == x % 2
    ensures Bit(x, i + 1) == Bit(x / 2, i)
  {
    HalfFirst(x, Pow2(i));
  }

  lemma {:induction false} XorBit(x: nat, y: nat, n: nat, i: nat)
    requires i < n
    ensures Bit(Xor(x, y, n), i) == (Bit(x, i) + Bit(y, i)) % 2
    decreases n
  {
    XorStep(x, y, n);
    BitOfSum(Xor(x, y, n), Xor(x / 2, y / 2, n - 1), x, y, i);
    if i > 0 {
      XorBit(x / 2, y / 2, n - 1, i - 1);
    }
  }

  lemma BitOfSum(r: nat, q: nat, x: nat, y: nat, i: nat)
    requires r == 2 * q + (x + y) % 2
    ensures if i == 0 then Bit(r, i) == (Bit(x, i) + Bit(y, i)) % 2
            else Bit(r, i) == Bit(q, i - 1) && Bit(x, i) == Bit(x / 2, i - 1) && Bit(y, i) == Bit(y / 2, i - 1)
  {
    LowBit(r, q, x, y);
    if i > 0 {
      BitNext(r, i - 1);
      BitNext(x, i - 1);
      BitNext(y, i - 1);
    }
  }

  /** Bit i of the exclusive or is the sum of the bits i modulo 2. */
  lemma Xor32Bit(x: u32, y: u32, i: nat)
    requires i < 32
    ensures Xor32(x, y) / Pow2(i) % 2 == (x / Pow2(i) % 2 + y / Pow2(i) % 2) % 2
  {
    XorBit(x, y, 32, i);
  }

  /** (word << shift) | (word >> ((-shift) & 31)): the two parts share no bit. */
  function Rol32(word: u32, shift: nat): (r: u32)
    requires shift < 32
  {
    Pow2Split(shift, 32 - shift);
    Pow2Of32();
    RolFits(word, Pow2(shift), Pow2(32 - shift));
    if shift == 0 then word else RolParts(word, Pow2(shift), Pow2(32 - shift))
  }

  function RolParts(word: u32, p: nat, q: nat): int
    requires q > 0
  {
    word * p % TWO32 + word / q
  }

  /** The high part moves to the bottom, the low part to the top. */
  lemma RolFits(word: u32, p: nat, q: nat)
    requires p >= 1 && q >= 1 && p * q == TWO32
    ensures 0 <= RolParts(word, p, q) < TWO32
    ensures RolParts(word, p, q) == word % q * p + word / q && word / q < p
  {
    var hi, lo := word / q, word % q;
    assert word == hi * q + lo;
    SplitProduct(word, hi, lo, p, q);
    BoundHigh(hi, p, q);
    BoundLow(lo, p, q);
    ModUnique(word * p, hi, lo * p);
  }

  /** Rotating the other way, by 32 - shift, gives the word back. */
  lemma RolBack(word: u32, shift: nat)
    requires 0 < shift < 32
    ensures Rol32(Rol32(word, shift), 32 - shift) == word
  {
    Pow2Split(shift, 32 - shift);
    Pow2Of32();
    PartsBack(word, Pow2(shift), Pow2(32 - shift));
  }

  lemma PartsBack(word: u32, p: nat, q: nat)
    requires p >= 1 && q >= 1 && p * q == TWO32
    ensures 0 <= RolParts(word, p, q) < TWO32
    ensures RolParts(RolParts(word, p, q), q, p) == word
  {
    var hi, lo := word / q, word % q;
    assert word == hi * q + lo;
    RolFits(word, p, q);
    RolFits(lo * p + hi, q, p);
    QuotientUnique(lo * p + hi, lo, hi, p);
  }

  /** Rotation is multiplication by a power of two modulo 2^32 - 1, the two representations of
      zero kept apart, which determines it. */
  lemma RolIsTimes(word: u32, shift: nat)
    requires shift < 32
    ensures Rol32(word, shift) % (TWO32 - 1) == word * Pow2(shift) % (TWO32 - 1)
    ensures Rol32(word, shift) == 0 <==> word == 0
  {
    if shift > 0 {
      Pow2Split(shift, 32 - shift);
      Pow2Of32();
      PartsTimes(word, Pow2(shift), Pow2(32 - shift));
      AddMultiples(Rol32(word, shift), word / Pow2(32 - shift));
    }
  }

  lemma PartsTimes(word: u32, p: nat, q: nat)
    requires p >= 1 && q >= 1 && p * q == TWO32
    ensures word * p == RolParts(word, p, q) + word / q * (TWO32 - 1)
    ensures RolParts(word, p, q) == 0 <==> word == 0
  {
    var hi, lo := word / q, word % q;
    assert word == hi * q + lo;
    RolFits(word, p, q);
    SplitProduct(word, hi, lo, p, q);
    if lo > 0 {
      MulMonotonic(1, lo, p);
    }
    if hi > 0 {
      MulMonotonic(1, hi, q);
    }
  }

  lemma AddMultiples(x: int, k: int)
    ensures (x + k * (TWO32 - 1)) % (TWO32 - 1) == x % (TWO32 - 1)
  {
  }

  lemma SplitProduct(word: nat, hi: nat, lo: nat, p: nat, q: nat)
    requires word == hi * q + lo && p * q == TWO32
    ensures word * p == hi * TWO32 + lo * p
  {
    calc {
      word * p;
      (hi * q + lo) * p;
      hi * q * p + lo * p;
      hi * (q * p) + lo * p;
    }
  }

  lemma BoundHigh(hi: nat, p: nat, q: nat)
    requires p * q == TWO32 && q >= 1 && hi * q < TWO32
    ensures hi < p
  {
    if hi >= p {
      MulMonotonic(p, hi, q);
      assert false;
    }
  }

  lemma BoundLow(lo: nat, p: nat, q: nat)
    requires p * q == TWO32 && lo < q
    ensures lo * p <= TWO32 - p
  {
    assert q * p == lo * p + (q - lo) * p;
    assert (q - lo) * p == p + (q - lo - 1) * p;
  }

  lemma ModUnique(x: int, k: int, r: int)
    requires x == k * TWO32 + r && 0 <= r < TWO32
    ensures x % TWO32 == r
  {
  }
}
