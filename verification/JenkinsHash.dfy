/** The Jenkins hash of headers/jhash.h on a little-endian host. */
module JenkinsHash {
  import opened Bytes
  import opened Division
  import opened Word32

  /** The internal variables (a, b, c). */
  datatype State = State(a: u32, b: u32, c: u32)

  const JHASH_INITVAL: u32 := 0xdeadbeef

  /** One line of __jhash_mix: x -= z; x ^= rol32(z, shift); z += y. The results are x and z. */
  function MixLine(x: u32, y: u32, z: u32, shift: nat): (u32, u32)
    requires shift < 32
  {
    (Xor32(Minus(x, z), Rol32(z, shift)), Plus(z, y))
  }

  function Mix(s: State): State {
    var (a1, c1) := MixLine(s.a, s.b, s.c, 4);
    var (b1, a2) := MixLine(s.b, c1, a1, 6);
    var (c2, b2) := MixLine(c1, a2, b1, 8);
    var (a3, c3) := MixLine(a2, b2, c2, 16);
    var (b3, a4) := MixLine(b2, c3, a3, 19);
    var (c4, b4) := MixLine(c3, a4, b3, 4);
    State(a4, b4, c4)
  }

  /** One line of __jhash_final: x ^= y; x -= rol32(y, shift). */
  function FinalLine(x: u32, y: u32, shift: nat): u32
    requires shift < 32
  {
    Minus(Xor32(x, y), Rol32(y, shift))
  }

  function Final(s: State): State {
    var c1 := FinalLine(s.c, s.b, 14);
    var a1 := FinalLine(s.a, c1, 11);
    var b1 := FinalLine(s.b, a1, 25);
    var c2 := FinalLine(c1, b1, 16);
    var a2 := FinalLine(a1, c2, 4);
    var b2 := FinalLine(b1, a2, 14);
    var c3 := FinalLine(c2, b2, 24);
    State(a2, b2, c3)
  }

  /** The initial state for a key whose length in bytes is length modulo 2^32. */
  function Start(length: u32, initval: u32): State {
    var v := Plus(Plus(JHASH_INITVAL, length), initval);
    State(v, v, v)
  }

  function Add(s: State, t: State): State {
    State(Plus(s.a, t.a), Plus(s.b, t.b), Plus(s.c, t.c))
  }

  /** A 32-bit load of the four bytes at o. */
  function Load32(k: seq<byte>, o: nat): u32
    requires o + 4 <= |k|
  {
    FromBytes(k[o], k[o + 1], k[o + 2], k[o + 3])
  }

  function LoadBlock(k: seq<byte>): State
    requires |k| >= 12
  {
    State(Load32(k, 0), Load32(k, 4), Load32(k, 8))
  }

  /** A last block, filled up with zeros. */
  function Padded(k: seq<byte>): (r: seq<byte>)
    requires |k| <= 12
    ensures |r| == 12
  {
    k + seq(12 - |k|, _ => 0)
  }

  /** The internal state when a byte-wise hash of k from state s ends, for any two mixing steps. */
  function HashWith(mix: State -> State, final: State -> State, s: State, k: seq<byte>): State
    decreases |k|
  {
    if |k| == 0 then s
    else if |k| <= 12 then final(Add(s, LoadBlock(Padded(k))))
    else HashWith(mix, final, mix(Add(s, LoadBlock(k[..12]))), k[12..])
  }

  /** The state that jhash ends in. */
  function HashBytes(s: State, k: seq<byte>): State {
    HashWith(Mix, Final, s, k)
  }

  function WordBlock(w: seq<u32>): State
    requires |w| <= 3
  {
    State(if |w| > 0 then w[0] else 0, if |w| > 1 then w[1] else 0, if |w| > 2 then w[2] else 0)
  }

  /** The same for a word-wise hash. */
  function HashWords(s: State, w: seq<u32>): State
    decreases |w|
  {
    if |w| == 0 then s
    else if |w| <= 3 then Final(Add(s, WordBlock(w)))
    else HashWords(Mix(Add(s, WordBlock(w[..3]))), w[3..])
  }

  lemma LoadSame(k: seq<byte>, o: nat, k': seq<byte>, o': nat)
    requires o + 4 <= |k| && o' + 4 <= |k'| && k[o..o + 4] == k'[o'..o' + 4]
    ensures Load32(k, o) == Load32(k', o')
  {
    var u, v := k[o..o + 4], k'[o'..o' + 4];
    assert u[0] == v[0] && u[1] == v[1] && u[2] == v[2] && u[3] == v[3];
    assert u[0] == k[o] && u[1] == k[o + 1] && u[2] == k[o + 2] && u[3] == k[o + 3];
    assert v[0] == k'[o'] && v[1] == k'[o' + 1] && v[2] == k'[o' + 2] && v[3] == k'[o' + 3];
  }

  /** The digits of a loaded word in base 256, lowest first, are the bytes in memory order. */
  lemma LoadIsLittleEndian(k: seq<byte>, o: nat)
    requires o + 4 <= |k|
    ensures Load32(k, o) % 0x100 == k[o] && Load32(k, o) / 0x100 % 0x100 == k[o + 1]
    ensures Load32(k, o) / 0x1_0000 % 0x100 == k[o + 2] && Load32(k, o) / 0x100_0000 == k[o + 3]
  {
    var b0: int, b1: int, b2: int, b3: int := k[o], k[o + 1], k[o + 2], k[o + 3];
    var x := FromBytes(b0, b1, b2, b3);
    QuotientUnique(x, b1 + 0x100 * b2 + 0x1_0000 * b3, b0, 0x100);
    QuotientUnique(x, b2 + 0x100 * b3, b0 + 0x100 * b1, 0x1_0000);
    QuotientUnique(x, b3, b0 + 0x100 * b1 + 0x1_0000 * b2, 0x100_0000);
  }

  /** The three words begin as 0xdeadbeef plus length plus initval. */
  lemma StartIsSum(length: u32, initval: u32)
    ensures var v := (0xdeadbeef + length + initval) % 0x1_0000_0000; Start(length, initval) == State(v, v, v)
  {
    PlusAssociates(JHASH_INITVAL, length, initval);
  }

  /** The block that starts at o. */
  function BlockAt(k: seq<byte>, o: nat): State
    requires o + 12 <= |k|
  {
    State(Load32(k, o), Load32(k, o + 4), Load32(k, o + 8))
  }

  lemma BlockAtIs(k: seq<byte>, o: nat)
    requires o + 12 <= |k|
    ensures LoadBlock(k[o..][..12]) == BlockAt(k, o)
  {
    var u := k[o..][..12];
    assert u[0..4] == k[o..o + 4] && u[4..8] == k[o + 4..o + 8] && u[8..12] == k[o + 8..o + 12];
    LoadSame(u, 0, k, o);
    LoadSame(u, 4, k, o + 4);
    LoadSame(u, 8, k, o + 8);
  }

  lemma OneRound(s: State, k: seq<byte>, o: nat)
    requires o + 12 < |k|
    ensures HashBytes(s, k[o..]) == HashBytes(Mix(Add(s, BlockAt(k, o))), k[o + 12..])
  {
    BlockAtIs(k, o);
    assert k[o..][12..] == k[o + 12..];
  }

  lemma OneWordRound(s: State, k: seq<u32>, i: nat)
    requires i + 3 < |k|
    ensures HashWords(s, k[i..]) == HashWords(Mix(Add(s, State(k[i], k[i + 1], k[i + 2]))), k[i + 3..])
  {
    assert k[i..][3..] == k[i + 3..];
    assert WordBlock(k[i..][..3]) == State(k[i], k[i + 1], k[i + 2]);
  }

  // ----- the programs

  /** The eighteen assignments of __jhash_mix. */
  method JhashMix(a0: u32, b0: u32, c0: u32) returns (a: u32, b: u32, c: u32)
    ensures State(a, b, c) == Mix(State(a0, b0, c0))
  {
    a, b, c := a0, b0, c0;
    a := Minus(a, c); a := Xor32(a, Rol32(c, 4)); c := Plus(c, b);
    b := Minus(b, a); b := Xor32(b, Rol32(a, 6)); a := Plus(a, c);
    c := Minus(c, b); c := Xor32(c, Rol32(b, 8)); b := Plus(b, a);
    a := Minus(a, c); a := Xor32(a, Rol32(c, 16)); c := Plus(c, b);
    b := Minus(b, a); b := Xor32(b, Rol32(a, 19)); a := Plus(a, c);
    c := Minus(c, b); c := Xor32(c, Rol32(b, 4)); b := Plus(b, a);
  }

  /** The fourteen assignments of __jhash_final. */
  method JhashFinal(a0: u32, b0: u32, c0: u32) returns (a: u32, b: u32, c: u32)
    ensures State(a, b, c) == Final(State(a0, b0, c0))
  {
    a, b, c := a0, b0, c0;
    c := Xor32(c, b); c := Minus(c, Rol32(b, 14));
    a := Xor32(a, c); a := Minus(a, Rol32(c, 11));
    b := Xor32(b, a); b := Minus(b, Rol32(a, 25));
    c := Xor32(c, b); c := Minus(c, Rol32(b, 16));
    a := Xor32(a, c); a := Minus(a, Rol32(c, 4));
    b := Xor32(b, a); b := Minus(b, Rol32(a, 14));
    c := Xor32(c, b); c := Minus(c, Rol32(b, 24));
  }

  method Jhash(key: seq<byte>, initval: u32) returns (hash: u32)
    requires |key| < TWO32
    ensures hash == HashBytes(Start(|key|, initval), key).c
  {
    var v := Plus(Plus(JHASH_INITVAL, |key|), initval);
    var a, b, c := v, v, v;
    var length, k := |key|, 0;
    while length > 12
      invariant 0 <= length && k + length == |key|
      invariant HashBytes(State(a, b, c), key[k..]) == HashBytes(Start(|key|, initval), key)
    {
      OneRound(State(a, b, c), key, k);
      a := Plus(a, Load32(key, k));
      b := Plus(b, Load32(key, k + 4));
      c := Plus(c, Load32(key, k + 8));
      a, b, c := JhashMix(a, b, c);
      length := length - 12;
      k := k + 12;
    }
    hash := JhashLast(a, b, c, key[k..]);
  }

  /** The switch over the remaining length, whose cases fall through. */
  method JhashLast(a0: u32, b0: u32, c0: u32, k: seq<byte>) returns (hash: u32)
    requires |k| <= 12
    ensures hash == HashBytes(State(a0, b0, c0), k).c
  {
    var length := |k|;
    var c := AddTail(c0, k, 8);
    var b := AddTail(b0, k, 4);
    var a := AddTail(a0, k, 0);
    if length >= 1 {
      a, b, c := JhashFinal(a, b, c);
    }
    hash := c;
  }

  /** The four cases that add the bytes at o to o + 3 to one variable, highest first. */
  method AddTail(x0: u32, k: seq<byte>, o: nat) returns (x: u32)
    requires |k| <= 12 && o + 4 <= 12
    ensures x == Plus(x0, Load32(Padded(k), o))
  {
    ghost var p := Padded(k);
    x := x0;
    if |k| >= o + 4 { x := Plus(x, 0x100_0000 * (k[o + 3] as int)); }
    ghost var x3 := x;
    assert x3 == Plus(x0, 0x100_0000 * (p[o + 3] as int));
    if |k| >= o + 3 { x := Plus(x, 0x1_0000 * (k[o + 2] as int)); }
    ghost var x2 := x;
    assert x2 == Plus(x3, 0x1_0000 * (p[o + 2] as int));
    if |k| >= o + 2 { x := Plus(x, 0x100 * (k[o + 1] as int)); }
    ghost var x1 := x;
    assert x1 == Plus(x2, 0x100 * (p[o + 1] as int));
    if |k| >= o + 1 { x := Plus(x, k[o]); }
    PlusBytes(x0, p[o], p[o + 1], p[o + 2], p[o + 3]);
  }

  lemma PlusBytes(x: u32, b0: byte, b1: byte, b2: byte, b3: byte)
    ensures Plus(Plus(Plus(Plus(x, 0x100_0000 * (b3 as int)), 0x1_0000 * (b2 as int)), 0x100 * (b1 as int)), b0)
         == Plus(x, FromBytes(b0, b1, b2, b3))
  {
    var y3, y2, y1 := 0x100_0000 * (b3 as int), 0x1_0000 * (b2 as int), 0x100 * (b1 as int);
    PlusAssociates(x, y3, y2);
    PlusAssociates(x, y3 + y2, y1);
    PlusAssociates(x, y3 + y2 + y1, b0);
  }

  method Jhash2(k: seq<u32>, initval: u32) returns (hash: u32)
    requires |k| < TWO32
    ensures hash == HashWords(Start(4 * |k| % TWO32, initval), k).c
  {
    var v := Plus(Plus(JHASH_INITVAL, 4 * |k| % TWO32), initval);
    var a, b, c := v, v, v;
    var length, i := |k|, 0;
    while length > 3
      invariant 0 <= length && i + length == |k|
      invariant HashWords(State(a, b, c), k[i..]) == HashWords(Start(4 * |k| % TWO32, initval), k)
    {
      OneWordRound(State(a, b, c), k, i);
      a := Plus(a, k[i]);
      b := Plus(b, k[i + 1]);
      c := Plus(c, k[i + 2]);
      a, b, c := JhashMix(a, b, c);
      length := length - 3;
      i := i + 3;
    }
    hash := Jhash2Last(a, b, c, k[i..]);
  }

  method Jhash2Last(a0: u32, b0: u32, c0: u32, k: seq<u32>) returns (hash: u32)
    requires |k| <= 3
    ensures hash == HashWords(State(a0, b0, c0), k).c
  {
    var a, b, c, length := a0, b0, c0, |k|;
    if length >= 3 { c := Plus(c, k[2]); }
    if length >= 2 { b := Plus(b, k[1]); }
    if length >= 1 { a := Plus(a, k[0]); }
    assert State(a, b, c) == Add(State(a0, b0, c0), WordBlock(k));
    if length >= 1 {
      a, b, c := JhashFinal(a, b, c);
    }
    hash := c;
  }

  method JhashNwords(a0: u32, b0: u32, c0: u32, initval: u32) returns (hash: u32)
    ensures hash == Final(Add(State(a0, b0, c0), State(initval, initval, initval))).c
  {
    var a, b, c := a0, b0, c0;
    a := Plus(a, initval);
    b := Plus(b, initval);
    c := Plus(c, initval);
    a, b, c := JhashFinal(a, b, c);
    hash := c;
  }

  method Jhash3Words(a: u32, b: u32, c: u32, initval: u32) returns (hash: u32)
    ensures hash == HashWords(Start(12, initval), [a, b, c]).c
  {
    SmallKey([a, b, c], initval);
    hash := JhashNwords(a, b, c, Plus(Plus(initval, JHASH_INITVAL), 12));
  }

  method Jhash2Words(a: u32, b: u32, initval: u32) returns (hash: u32)
    ensures hash == HashWords(Start(8, initval), [a, b]).c
  {
    SmallKey([a, b], initval);
    hash := JhashNwords(a, b, 0, Plus(Plus(initval, JHASH_INITVAL), 8));
  }

  method Jhash1Word(a: u32, initval: u32) returns (hash: u32)
    ensures hash == HashWords(Start(4, initval), [a]).c
  {
    SmallKey([a], initval);
    hash := JhashNwords(a, 0, 0, Plus(Plus(initval, JHASH_INITVAL), 4));
  }

  /** For one to three words the sums are the same, only their order differs. */
  lemma SmallKey(w: seq<u32>, initval: u32)
    requires 1 <= |w| <= 3
    ensures var v := Plus(Plus(initval, JHASH_INITVAL), 4 * |w|);
            Add(Start(4 * |w|, initval), WordBlock(w)) == Add(WordBlock(w), State(v, v, v))
  {
    assert Plus(Plus(initval, JHASH_INITVAL), 4 * |w|) == Plus(Plus(JHASH_INITVAL, 4 * |w|), initval) by {
      PlusAssociates(initval, JHASH_INITVAL, 4 * |w|);
      PlusAssociates(JHASH_INITVAL, 4 * |w|, initval);
    }
  }

  // ----- the byte-wise and the word-wise form agree

  /** k is the word array w as it lies in memory. */
  predicate InMemory(k: seq<byte>, w: seq<u32>) {
    |k| == 4 * |w| && forall i {:trigger w[i]} :: 0 <= i < |w| ==> Load32(k, 4 * i) == w[i]
  }

  lemma InMemoryDrop(k: seq<byte>, w: seq<u32>, n: nat)
    requires InMemory(k, w) && n <= |w|
    ensures InMemory(k[4 * n..], w[n..])
  {
    var k', w' := k[4 * n..], w[n..];
    forall i | 0 <= i < |w'| ensures Load32(k', 4 * i) == w'[i] {
      assert w'[i] == w[n + i];
      assert k'[4 * i..4 * i + 4] == k[4 * (n + i)..4 * (n + i) + 4];
      LoadSame(k', 4 * i, k, 4 * (n + i));
    }
  }

  lemma PaddedLoad(k: seq<byte>, o: nat)
    requires |k| <= 12 && |k| % 4 == 0 && o in {0, 4, 8}
    ensures Load32(Padded(k), o) == if o < |k| then Load32(k, o) else 0
  {
  }

  lemma PaddedBlock(k: seq<byte>, w: seq<u32>)
    requires InMemory(k, w) && |w| <= 3
    ensures LoadBlock(Padded(k)) == WordBlock(w)
  {
    forall i | 0 <= i < 3
      ensures Load32(Padded(k), 4 * i) == if i < |w| then w[i] else 0
    {
      PaddedLoad(k, 4 * i);
    }
    assert Load32(Padded(k), 4 * 0) == WordBlock(w).a;
    assert Load32(Padded(k), 4 * 1) == WordBlock(w).b;
    assert Load32(Padded(k), 4 * 2) == WordBlock(w).c;
  }

  lemma FullBlock(k: seq<byte>, w: seq<u32>)
    requires InMemory(k, w) && |w| > 3
    ensures LoadBlock(k[..12]) == WordBlock(w[..3])
  {
    BlockAtIs(k, 0);
    assert k[0..] == k;
    assert Load32(k, 4 * 0) == w[0] && Load32(k, 4 * 1) == w[1] && Load32(k, 4 * 2) == w[2];
  }

  lemma {:induction false} BytesAgreeWithWords(s: State, k: seq<byte>, w: seq<u32>)
    requires InMemory(k, w)
    ensures HashBytes(s, k) == HashWords(s, w)
    decreases |w|
  {
    if |w| > 3 {
      FullBlock(k, w);
      InMemoryDrop(k, w, 3);
      BytesAgreeWithWords(Mix(Add(s, WordBlock(w[..3]))), k[12..], w[3..]);
    } else if |w| > 0 {
      PaddedBlock(k, w);
    }
  }

  /** jhash over the bytes of a word array is jhash2 over its words, for every length the 32-bit
      byte count can hold. */
  lemma JhashIsJhash2(k: seq<byte>, w: seq<u32>, initval: u32)
    requires InMemory(k, w) && |k| < TWO32
    ensures HashBytes(Start(|k|, initval), k) == HashWords(Start(4 * |w| % TWO32, initval), w)
  {
    var n := 4 * |w|;
    assert n % TWO32 == n;
    BytesAgreeWithWords(Start(n, initval), k, w);
  }

  // ----- the mixing steps are reversible

  /** The line read backwards: z -= y; x ^= rol32(z, shift); x += z. */
  function UnmixLine(x: u32, y: u32, z: u32, shift: nat): (u32, u32)
    requires shift < 32
  {
    (Plus(Xor32(x, Rol32(Minus(z, y), shift)), Minus(z, y)), Minus(z, y))
  }

  lemma UnmixLineInverts(x: u32, y: u32, z: u32, shift: nat)
    requires shift < 32
    ensures var (x', z') := MixLine(x, y, z, shift); UnmixLine(x', y, z', shift) == (x, z)
    ensures var (x', z') := UnmixLine(x, y, z, shift); MixLine(x', y, z', shift) == (x, z)
  {
    PlusMinus(z, y);
    Xor32Cancels(Minus(x, z), Rol32(z, shift));
    PlusMinus(x, z);
    var w := Minus(z, y);
    Xor32Cancels(x, Rol32(w, shift));
    PlusMinus(Xor32(x, Rol32(w, shift)), w);
  }

  function Unmix(s: State): State {
    var (c3, b3) := UnmixLine(s.c, s.a, s.b, 4);
    var (b2, a3) := UnmixLine(b3, c3, s.a, 19);
    var (a2, c2) := UnmixLine(a3, b2, c3, 16);
    var (c1, b1) := UnmixLine(c2, a2, b2, 8);
    var (b0, a1) := UnmixLine(b1, c1, a2, 6);
    var (a0, c0) := UnmixLine(a1, b0, c1, 4);
    State(a0, b0, c0)
  }

  lemma UnmixMix(s: State)
    ensures Unmix(Mix(s)) == s
  {
    var (a1, c1) := MixLine(s.a, s.b, s.c, 4);
    var (b1, a2) := MixLine(s.b, c1, a1, 6);
    var (c2, b2) := MixLine(c1, a2, b1, 8);
    var (a3, c3) := MixLine(a2, b2, c2, 16);
    var (b3, a4) := MixLine(b2, c3, a3, 19);
    UnmixLineInverts(s.a, s.b, s.c, 4);
    UnmixLineInverts(s.b, c1, a1, 6);
    UnmixLineInverts(c1, a2, b1, 8);
    UnmixLineInverts(a2, b2, c2, 16);
    UnmixLineInverts(b2, c3, a3, 19);
    UnmixLineInverts(c3, a4, b3, 4);
  }

  lemma MixUnmix(s: State)
    ensures Mix(Unmix(s)) == s
  {
    var (c3, b3) := UnmixLine(s.c, s.a, s.b, 4);
    var (b2, a3) := UnmixLine(b3, c3, s.a, 19);
    var (a2, c2) := UnmixLine(a3, b2, c3, 16);
    var (c1, b1) := UnmixLine(c2, a2, b2, 8);
    var (b0, a1) := UnmixLine(b1, c1, a2, 6);
    UnmixLineInverts(s.c, s.a, s.b, 4);
    UnmixLineInverts(b3, c3, s.a, 19);
    UnmixLineInverts(a3, b2, c3, 16);
    UnmixLineInverts(c2, a2, b2, 8);
    UnmixLineInverts(b1, c1, a2, 6);
    UnmixLineInverts(a1, b0, c1, 4);
  }

  /** The line read backwards: x += rol32(y, shift); x ^= y. */
  function UnfinalLine(x: u32, y: u32, shift: nat): u32
    requires shift < 32
  {
    Xor32(Plus(x, Rol32(y, shift)), y)
  }

  lemma UnfinalLineInverts(x: u32, y: u32, shift: nat)
    requires shift < 32
    ensures UnfinalLine(FinalLine(x, y, shift), y, shift) == x
    ensures FinalLine(UnfinalLine(x, y, shift), y, shift) == x
  {
    PlusMinus(Xor32(x, y), Rol32(y, shift));
    Xor32Cancels(x, y);
    PlusMinus(x, Rol32(y, shift));
    Xor32Cancels(Plus(x, Rol32(y, shift)), y);
  }

  function Unfinal(s: State): State {
    var c2 := UnfinalLine(s.c, s.b, 24);
    var b1 := UnfinalLine(s.b, s.a, 14);
    var a1 := UnfinalLine(s.a, c2, 4);
    var c1 := UnfinalLine(c2, b1, 16);
    var b0 := UnfinalLine(b1, a1, 25);
    var a0 := UnfinalLine(a1, c1, 11);
    var c0 := UnfinalLine(c1, b0, 14);
    State(a0, b0, c0)
  }

  lemma UnfinalFinal(s: State)
    ensures Unfinal(Final(s)) == s
  {
    var c1 := FinalLine(s.c, s.b, 14);
    var a1 := FinalLine(s.a, c1, 11);
    var b1 := FinalLine(s.b, a1, 25);
    var c2 := FinalLine(c1, b1, 16);
    var a2 := FinalLine(a1, c2, 4);
    var b2 := FinalLine(b1, a2, 14);
    UnfinalLineInverts(s.c, s.b, 14);
    UnfinalLineInverts(s.a, c1, 11);
    UnfinalLineInverts(s.b, a1, 25);
    UnfinalLineInverts(c1, b1, 16);
    UnfinalLineInverts(a1, c2, 4);
    UnfinalLineInverts(b1, a2, 14);
    UnfinalLineInverts(c2, b2, 24);
  }

  lemma FinalUnfinal(s: State)
    ensures Final(Unfinal(s)) == s
  {
    var c2 := UnfinalLine(s.c, s.b, 24);
    var b1 := UnfinalLine(s.b, s.a, 14);
    var a1 := UnfinalLine(s.a, c2, 4);
    var c1 := UnfinalLine(c2, b1, 16);
    var b0 := UnfinalLine(b1, a1, 25);
    var a0 := UnfinalLine(a1, c1, 11);
    UnfinalLineInverts(s.c, s.b, 24);
    UnfinalLineInverts(s.b, s.a, 14);
    UnfinalLineInverts(s.a, c2, 4);
    UnfinalLineInverts(c2, b1, 16);
    UnfinalLineInverts(b1, a1, 25);
    UnfinalLineInverts(a1, c1, 11);
    UnfinalLineInverts(c1, b0, 14);
  }

  // ----- keys that differ in one block

  lemma LoadInjective(k: seq<byte>, k': seq<byte>, o: nat)
    requires o + 4 <= |k| && o + 4 <= |k'| && Load32(k, o) == Load32(k', o)
    ensures k[o..o + 4] == k'[o..o + 4]
  {
    FromBytesInjective(k[o], k[o + 1], k[o + 2], k[o + 3], k'[o], k'[o + 1], k'[o + 2], k'[o + 3]);
  }

  lemma DistinctBlocks(k: seq<byte>, k': seq<byte>)
    requires |k| == |k'| == 12 && k != k'
    ensures LoadBlock(k) != LoadBlock(k')
  {
    assert k == k[0..4] + k[4..8] + k[8..12] && k' == k'[0..4] + k'[4..8] + k'[8..12];
    if k[0..4] != k'[0..4] {
      if Load32(k, 0) == Load32(k', 0) { LoadInjective(k, k', 0); }
    } else if k[4..8] != k'[4..8] {
      if Load32(k, 4) == Load32(k', 4) { LoadInjective(k, k', 4); }
    } else {
      if Load32(k, 8) == Load32(k', 8) { LoadInjective(k, k', 8); }
    }
  }

  lemma SameSummand(x: u32, x': u32, y: u32, y': u32)
    requires Plus(x, y) == Plus(x', y')
    ensures x == x' <==> y == y'
  {
    PlusMinus(x, y);
    PlusMinus(x', y');
    PlusMinus(y, x);
    PlusMinus(y', x');
  }

  lemma DistinctSums(s: State, s': State, t: State, t': State)
    requires (s == s') != (t == t')
    ensures Add(s, t) != Add(s', t')
  {
    if Add(s, t) == Add(s', t') {
      SameSummand(s.a, s'.a, t.a, t'.a);
      SameSummand(s.b, s'.b, t.b, t'.b);
      SameSummand(s.c, s'.c, t.c, t'.c);
      assert false;
    }
  }

  ghost predicate Injective(f: State -> State) {
    forall s, t :: f(s) == f(t) ==> s == t
  }

  lemma MixInjective()
    ensures Injective(Mix)
  {
    forall s, t | Mix(s) == Mix(t) ensures s == t {
      UnmixMix(s);
      UnmixMix(t);
    }
  }

  lemma FinalInjective()
    ensures Injective(Final)
  {
    forall s, t | Final(s) == Final(t) ensures s == t {
      UnfinalFinal(s);
      UnfinalFinal(t);
    }
  }

  /** The state after n rounds of the main loop, for any mixing step. */
  function RoundsWith(mix: State -> State, s: State, k: seq<byte>, n: nat): State
    requires 12 * n <= |k|
    decreases n
  {
    if n == 0 then s else RoundsWith(mix, mix(Add(s, LoadBlock(k[..12]))), k[12..], n - 1)
  }

  /** The state of jhash after n rounds of its loop. */
  function Rounds(s: State, k: seq<byte>, n: nat): State
    requires 12 * n <= |k|
  {
    RoundsWith(Mix, s, k, n)
  }

  lemma {:induction false} DistinctRounds(mix: State -> State, s: State, s': State, k: seq<byte>, n: nat)
    requires Injective(mix) && s != s' && 12 * n <= |k|
    ensures RoundsWith(mix, s, k, n) != RoundsWith(mix, s', k, n)
    decreases n
  {
    if n > 0 {
      var t := LoadBlock(k[..12]);
      DistinctSums(s, s', t, t);
      DistinctRounds(mix, mix(Add(s, t)), mix(Add(s', t)), k[12..], n - 1);
    }
  }

  lemma {:induction false} DistinctHashes(mix: State -> State, final: State -> State, s: State, s': State, k: seq<byte>)
    requires Injective(mix) && Injective(final) && s != s'
    ensures HashWith(mix, final, s, k) != HashWith(mix, final, s', k)
    decreases |k|
  {
    if |k| > 12 {
      var t := LoadBlock(k[..12]);
      DistinctSums(s, s', t, t);
      DistinctHashes(mix, final, mix(Add(s, t)), mix(Add(s', t)), k[12..]);
    } else if |k| > 0 {
      var t := LoadBlock(Padded(k));
      DistinctSums(s, s', t, t);
    }
  }

  /** k and k' differ, and only inside the 12-byte block i. */
  predicate DifferInBlock(k: seq<byte>, k': seq<byte>, i: nat) {
    && |k| == |k'| && k != k'
    && forall j :: 0 <= j < |k| && !(12 * i <= j < 12 * i + 12) ==> k[j] == k'[j]
  }

  lemma DifferFirst(k: seq<byte>, k': seq<byte>)
    requires DifferInBlock(k, k', 0)
    ensures |k| >= 12 ==> LoadBlock(k[..12]) != LoadBlock(k'[..12]) && k[12..] == k'[12..]
    ensures |k| <= 12 ==> LoadBlock(Padded(k)) != LoadBlock(Padded(k'))
  {
    var j :| 0 <= j < |k| && k[j] != k'[j];
    if |k| >= 12 {
      assert k[..12][j] != k'[..12][j];
      DistinctBlocks(k[..12], k'[..12]);
    }
    if |k| <= 12 {
      assert Padded(k)[j] != Padded(k')[j];
      DistinctBlocks(Padded(k), Padded(k'));
    }
  }

  lemma DifferLater(k: seq<byte>, k': seq<byte>, i: nat)
    requires DifferInBlock(k, k', i) && i > 0
    ensures |k| > 12 && k[..12] == k'[..12] && DifferInBlock(k[12..], k'[12..], i - 1)
  {
    var j :| 0 <= j < |k| && k[j] != k'[j];
    assert k[12..][j - 12] != k'[12..][j - 12];
  }

  lemma {:induction false} SeparatedHashes(mix: State -> State, final: State -> State,
                                           s: State, k: seq<byte>, k': seq<byte>, i: nat)
    requires Injective(mix) && Injective(final) && DifferInBlock(k, k', i)
    ensures HashWith(mix, final, s, k) != HashWith(mix, final, s, k')
    decreases i
  {
    if i > 0 {
      DifferLater(k, k', i);
      SeparatedHashes(mix, final, mix(Add(s, LoadBlock(k[..12]))), k[12..], k'[12..], i - 1);
    } else {
      DifferFirst(k, k');
      if |k| > 12 {
        var t, t' := LoadBlock(k[..12]), LoadBlock(k'[..12]);
        DistinctSums(s, s, t, t');
        DistinctHashes(mix, final, mix(Add(s, t)), mix(Add(s, t')), k[12..]);
      } else {
        DistinctSums(s, s, LoadBlock(Padded(k)), LoadBlock(Padded(k')));
      }
    }
  }

  lemma {:induction false} SeparatedRounds(mix: State -> State, s: State, k: seq<byte>, k': seq<byte>, i: nat, n: nat)
    requires Injective(mix) && DifferInBlock(k, k', i) && 12 * n <= |k|
    ensures RoundsWith(mix, s, k, n) == RoundsWith(mix, s, k', n) <==> n <= i
    decreases n
  {
    if n > 0 {
      var t, t' := LoadBlock(k[..12]), LoadBlock(k'[..12]);
      if i > 0 {
        DifferLater(k, k', i);
        SeparatedRounds(mix, mix(Add(s, t)), k[12..], k'[12..], i - 1, n - 1);
      } else {
        DifferFirst(k, k');
        DistinctSums(s, s, t, t');
        DistinctRounds(mix, mix(Add(s, t)), mix(Add(s, t')), k[12..], n - 1);
      }
    }
  }

  /** Two keys of the same length that differ in exactly one block, the last partial block
      included, never end in the same (a, b, c). */
  lemma OneBlockSeparates(s: State, k: seq<byte>, k': seq<byte>, i: nat)
    requires DifferInBlock(k, k', i)
    ensures HashBytes(s, k) != HashBytes(s, k')
  {
    MixInjective();
    FinalInjective();
    SeparatedHashes(Mix, Final, s, k, k', i);
  }

  /** Their states agree up to that block and differ after every later round. */
  lemma OneBlockSeparatesRounds(s: State, k: seq<byte>, k': seq<byte>, i: nat, n: nat)
    requires DifferInBlock(k, k', i) && 12 * n <= |k|
    ensures Rounds(s, k, n) == Rounds(s, k', n) <==> n <= i
  {
    MixInjective();
    SeparatedRounds(Mix, s, k, k', i, n);
  }
}
