/** The hash of a known key: the value that Bob Jenkins publishes with lookup3.c, the origin of
    headers/jhash.h. It depends on every rotation, on the order of the steps and on that of the bytes. */
module JenkinsVectors {
  import opened Bytes
  import opened Division
  import opened Word32
  import opened JenkinsHash
  import opened NativeXor

  /** A rotation moves the high bits to the bottom. */
  lemma RolOf(word: u32, shift: nat, hi: nat, lo: nat)
    requires 0 < shift < 32 && word == hi * Pow2(32 - shift) + lo && lo < Pow2(32 - shift)
    ensures Rol32(word, shift) == lo * Pow2(shift) + hi
  {
    var p, q := Pow2(shift), Pow2(32 - shift);
    Pow2Split(shift, 32 - shift);
    Pow2Of32();
    RolFits(word, p, q);
    QuotientUnique(word, hi, lo, q);
  }

  lemma Powers()
    ensures Pow2(4) == 0x10
    ensures Pow2(6) == 0x40
    ensures Pow2(7) == 0x80
    ensures Pow2(8) == 0x100
    ensures Pow2(11) == 0x800
    ensures Pow2(13) == 0x2000
    ensures Pow2(14) == 0x4000
    ensures Pow2(16) == 0x10000
    ensures Pow2(18) == 0x40000
    ensures Pow2(19) == 0x80000
    ensures Pow2(21) == 0x200000
    ensures Pow2(24) == 0x1000000
    ensures Pow2(25) == 0x2000000
    ensures Pow2(26) == 0x4000000
    ensures Pow2(28) == 0x10000000
  {
    assert Pow2(8) == 0x100;
    assert Pow2(16) == 0x10000;
  }

  lemma Line1()
    ensures MixLine(0x51232e53, 0x4e11322d, 0x3fce247f, 4) == (0xedb74e27, 0x8ddf56ac)
  {
    Powers();
    RolOf(0x3fce247f, 4, 0x3, 0xfce247f);
    Xor32Bytes(0x11, 0x55, 0x09, 0xd4, 0xfc, 0xe2, 0x47, 0xf3);
  }

  lemma Line2()
    ensures MixLine(0x4e11322d, 0x8ddf56ac, 0xedb74e27, 6) == (0x0d8a6dfd, 0x7b96a4d3)
  {
    Powers();
    RolOf(0xedb74e27, 6, 0x3b, 0x1b74e27);
    Xor32Bytes(0x60, 0x59, 0xe4, 0x06, 0x6d, 0xd3, 0x89, 0xfb);
  }

  lemma Line3()
    ensures MixLine(0x8ddf56ac, 0x7b96a4d3, 0x0d8a6dfd, 8) == (0x0a3915a2, 0x892112d0)
  {
    Powers();
    RolOf(0x0d8a6dfd, 8, 0xd, 0x8a6dfd);
    Xor32Bytes(0x80, 0x54, 0xe8, 0xaf, 0x8a, 0x6d, 0xfd, 0x0d);
  }

  lemma Line4()
    ensures MixLine(0x7b96a4d3, 0x892112d0, 0x0a3915a2, 16) == (0x64ff8508, 0x935a2872)
  {
    Powers();
    RolOf(0x0a3915a2, 16, 0xa39, 0x15a2);
    Xor32Bytes(0x71, 0x5d, 0x8f, 0x31, 0x15, 0xa2, 0x0a, 0x39);
  }

  lemma Line5()
    ensures MixLine(0x892112d0, 0x935a2872, 0x64ff8508, 19) == (0x0c62aa34, 0xf859ad7a)
  {
    Powers();
    RolOf(0x64ff8508, 19, 0x327fc, 0x508);
    Xor32Bytes(0x24, 0x21, 0x8d, 0xc8, 0x28, 0x43, 0x27, 0xfc);
  }

  lemma Line6()
    ensures MixLine(0x935a2872, 0xf859ad7a, 0x0c62aa34, 4) == (0x40dddd7e, 0x04bc57ae)
  {
    Powers();
    RolOf(0x0c62aa34, 4, 0x0, 0xc62aa34);
    Xor32Bytes(0x86, 0xf7, 0x7e, 0x3e, 0xc6, 0x2a, 0xa3, 0x40);
  }

  lemma FirstMix()
    ensures Mix(State(0x51232e53, 0x4e11322d, 0x3fce247f)) == State(0xf859ad7a, 0x04bc57ae, 0x40dddd7e)
  {
    Line1();
    Line2();
    Line3();
    Line4();
    Line5();
    Line6();
  }

  lemma Line7()
    ensures MixLine(0x6b7a11e8, 0x7321ce13, 0xa243569e, 4) == (0xed03d2a0, 0x156524b1)
  {
    Powers();
    RolOf(0xa243569e, 4, 0xa, 0x243569e);
    Xor32Bytes(0xc9, 0x36, 0xbb, 0x4a, 0x24, 0x35, 0x69, 0xea);
  }

  lemma Line8()
    ensures MixLine(0x7321ce13, 0x156524b1, 0xed03d2a0, 6) == (0xc6e95348, 0x0268f751)
  {
    Powers();
    RolOf(0xed03d2a0, 6, 0x3b, 0x103d2a0);
    Xor32Bytes(0x86, 0x1d, 0xfb, 0x73, 0x40, 0xf4, 0xa8, 0x3b);
  }

  lemma Line9()
    ensures MixLine(0x156524b1, 0x0268f751, 0xc6e95348, 8) == (0xa72899af, 0xc9524a99)
  {
    Powers();
    RolOf(0xc6e95348, 8, 0xc6, 0xe95348);
    Xor32Bytes(0x4e, 0x7b, 0xd1, 0x69, 0xe9, 0x53, 0x48, 0xc6);
  }

  lemma Line10()
    ensures MixLine(0x0268f751, 0xc9524a99, 0xa72899af, 16) == (0xc2effa8a, 0x707ae448)
  {
    Powers();
    RolOf(0xa72899af, 16, 0xa728, 0x99af);
    Xor32Bytes(0x5b, 0x40, 0x5d, 0xa2, 0x99, 0xaf, 0xa7, 0x28);
  }

  lemma Line11()
    ensures MixLine(0xc9524a99, 0x707ae448, 0xc2effa8a, 19) == (0xd2344770, 0x336aded2)
  {
    Powers();
    RolOf(0xc2effa8a, 19, 0x6177f, 0x1a8a);
    Xor32Bytes(0x06, 0x62, 0x50, 0x0f, 0xd4, 0x56, 0x17, 0x7f);
  }

  lemma Line12()
    ensures MixLine(0x707ae448, 0x336aded2, 0xd2344770, 4) == (0xbd02ebd5, 0x059f2642)
  {
    Powers();
    RolOf(0xd2344770, 4, 0xd, 0x2344770);
    Xor32Bytes(0x9e, 0x46, 0x9c, 0xd8, 0x23, 0x44, 0x77, 0x0d);
  }

  lemma SecondMix()
    ensures Mix(State(0x6b7a11e8, 0x7321ce13, 0xa243569e)) == State(0x336aded2, 0x059f2642, 0xbd02ebd5)
  {
    Line7();
    Line8();
    Line9();
    Line10();
    Line11();
    Line12();
  }

  lemma Line13()
    ensures FinalLine(0xbd02ebd5, 0x059f95a9, 14) == 0xd3333d15
  {
    Powers();
    RolOf(0x059f95a9, 14, 0x167, 0x395a9);
    Xor32Bytes(0xbd, 0x02, 0xeb, 0xd5, 0x05, 0x9f, 0x95, 0xa9);
  }

  lemma Line14()
    ensures FinalLine(0x948b5244, 0xd3333d15, 11) == 0xadcfc0b8
  {
    Powers();
    RolOf(0xd3333d15, 11, 0x699, 0x133d15);
    Xor32Bytes(0x94, 0x8b, 0x52, 0x44, 0xd3, 0x33, 0x3d, 0x15);
  }

  lemma Line15()
    ensures FinalLine(0x059f95a9, 0xadcfc0b8, 25) == 0x36f4b590
  {
    Powers();
    RolOf(0xadcfc0b8, 25, 0x15b9f81, 0x38);
    Xor32Bytes(0x05, 0x9f, 0x95, 0xa9, 0xad, 0xcf, 0xc0, 0xb8);
  }

  lemma Line16()
    ensures FinalLine(0xd3333d15, 0x36f4b590, 16) == 0x30375191
  {
    Powers();
    RolOf(0x36f4b590, 16, 0x36f4, 0xb590);
    Xor32Bytes(0xd3, 0x33, 0x3d, 0x15, 0x36, 0xf4, 0xb5, 0x90);
  }

  lemma Line17()
    ensures FinalLine(0xadcfc0b8, 0x30375191, 4) == 0x9a837816
  {
    Powers();
    RolOf(0x30375191, 4, 0x3, 0x375191);
    Xor32Bytes(0xad, 0xcf, 0xc0, 0xb8, 0x30, 0x37, 0x51, 0x91);
  }

  lemma Line18()
    ensures FinalLine(0x36f4b590, 0x9a837816, 14) == 0xce7226e6
  {
    Powers();
    RolOf(0x9a837816, 14, 0x26a0, 0x37816);
    Xor32Bytes(0x36, 0xf4, 0xb5, 0x90, 0x9a, 0x83, 0x78, 0x16);
  }

  lemma Line19()
    ensures FinalLine(0x30375191, 0xce7226e6, 24) == 0x17770551
  {
    Powers();
    RolOf(0xce7226e6, 24, 0xce7226, 0xe6);
    Xor32Bytes(0x30, 0x37, 0x51, 0x91, 0xce, 0x72, 0x26, 0xe6);
  }

  lemma LastRound()
    ensures Final(State(0x948b5244, 0x059f95a9, 0xbd02ebd5)) == State(0x9a837816, 0xce7226e6, 0x17770551)
  {
    Line13();
    Line14();
    Line15();
    Line16();
    Line17();
    Line18();
    Line19();
  }

  /** Three blocks, the last one short. */
  lemma ThreeBlocks(s: State, k: seq<byte>, s1: State, s2: State, s3: State)
    requires 24 < |k| <= 36
    requires Mix(Add(s, BlockAt(k, 0))) == s1 && Mix(Add(s1, BlockAt(k, 12))) == s2
    requires Final(Add(s2, LoadBlock(Padded(k[24..])))) == s3
    ensures HashBytes(s, k) == s3
  {
    assert k[0..] == k;
    OneRound(s, k, 0);
    OneRound(s1, k, 12);
  }

  /** Four score and seven years ago, in ASCII. */
  predicate FourScore(key: seq<byte>) {
    && |key| == 30
    && key[..12] == [0x46, 0x6f, 0x75, 0x72, 0x20, 0x73, 0x63, 0x6f, 0x72, 0x65, 0x20, 0x61]
    && key[12..24] == [0x6e, 0x64, 0x20, 0x73, 0x65, 0x76, 0x65, 0x6e, 0x20, 0x79, 0x65, 0x61]
    && key[24..] == [0x72, 0x73, 0x20, 0x61, 0x67, 0x6f]
  }

  lemma KeyBlocks(key: seq<byte>)
    requires FourScore(key)
    ensures BlockAt(key, 0) == State(0x72756f46, 0x6f637320, 0x61206572)
    ensures BlockAt(key, 12) == State(0x7320646e, 0x6e657665, 0x61657920)
    ensures LoadBlock(Padded(key[24..])) == State(0x61207372, 0x00006f67, 0x00000000)
  {
    BlockAtIs(key, 0);
    BlockAtIs(key, 12);
    assert key[0..][..12] == key[..12] && key[12..][..12] == key[12..24];
  }

  lemma KeySums()
    ensures Add(Start(30, 0), State(0x72756f46, 0x6f637320, 0x61206572)) == State(0x51232e53, 0x4e11322d, 0x3fce247f)
    ensures Add(State(0xf859ad7a, 0x04bc57ae, 0x40dddd7e), State(0x7320646e, 0x6e657665, 0x61657920))
         == State(0x6b7a11e8, 0x7321ce13, 0xa243569e)
    ensures Add(State(0x336aded2, 0x059f2642, 0xbd02ebd5), State(0x61207372, 0x00006f67, 0x00000000))
         == State(0x948b5244, 0x059f95a9, 0xbd02ebd5)
  {
  }

  lemma KnownHash(key: seq<byte>)
    requires FourScore(key)
    ensures HashBytes(Start(|key|, 0), key).c == 0x17770551 && HashBytes(Start(|key|, 0), key).b == 0xce7226e6
  {
    KeyBlocks(key);
    KeySums();
    FirstMix();
    SecondMix();
    LastRound();
    ThreeBlocks(Start(30, 0), key, State(0xf859ad7a, 0x04bc57ae, 0x40dddd7e), State(0x336aded2, 0x059f2642, 0xbd02ebd5),
                State(0x9a837816, 0xce7226e6, 0x17770551));
  }
}
