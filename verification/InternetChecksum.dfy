/** Checksums of byte strings of any length, as section 2 of RFC 1071 defines them: the bytes
    are paired into 16-bit words, an odd last byte is padded with zero, and the words are
    summed modulo 0xFFFF. */
module InternetChecksum {
  import opened Bytes
  import opened OnesComplement
  import opened Xdp

  /** The words a host loads from s. */
  function Words(h: Host, s: seq<byte>): seq<u16> {
    if |s| == 0 then []
    else if |s| == 1 then [Load16(h, s[0], 0)]
    else [Load16(h, s[0], s[1])] + Words(h, s[2..])
  }

  /** There is a word for every two bytes, and an odd last byte counts as if a zero followed. */
  lemma {:induction false} WordAt(h: Host, s: seq<byte>, i: nat)
    requires 2 * i < |s|
    ensures |Words(h, s)| == (|s| + 1) / 2
    ensures Words(h, s)[i] == Load16(h, s[2 * i], if 2 * i + 1 < |s| then s[2 * i + 1] else 0)
  {
    if |s| > 2 {
      WordAt(h, s[2..], if i > 0 then i - 1 else 0);
    }
  }

  function Sum(ws: seq<u16>): nat {
    if |ws| == 0 then 0 else ws[0] + Sum(ws[1..])
  }

  function WordSum(h: Host, s: seq<byte>): nat {
    Sum(Words(h, s))
  }

  /** Adding up words with csum16_add. */
  function Fold(ws: seq<u16>): u16 {
    if |ws| == 0 then 0 else Csum16Add(Fold(ws[..|ws| - 1]), ws[|ws| - 1])
  }

  /** The checksum computed from scratch; s has zeros in its checksum field. */
  function Checksum(h: Host, s: seq<byte>): u16 {
    Not16(Fold(Words(h, s)))
  }

  /** s carries a valid checksum: its words sum to zero modulo 0xFFFF. */
  predicate ValidSum(h: Host, s: seq<byte>) {
    WordSum(h, s) % M == 0
  }

  predicate AllZero(s: seq<byte>) {
    forall i :: 0 <= i < |s| ==> s[i] == 0
  }

  // ----- folding

  lemma {:induction false} SumConcat(a: seq<u16>, b: seq<u16>)
    ensures Sum(a + b) == Sum(a) + Sum(b)
  {
    if |a| == 0 {
      assert a + b == b;
    } else {
      assert (a + b)[1..] == a[1..] + b;
      SumConcat(a[1..], b);
    }
  }

  /** The csum16_add fold is the sum modulo 0xFFFF, and is 0x0000 only for zero words. */
  lemma {:induction false} FoldIsSum(ws: seq<u16>)
    ensures Fold(ws) % M == Sum(ws) % M
    ensures Fold(ws) == 0 <==> Sum(ws) == 0
  {
    if |ws| != 0 {
      var front, last := ws[..|ws| - 1], ws[|ws| - 1];
      FoldIsSum(front);
      SumConcat(front, [last]);
      assert front + [last] == ws;
      assert Sum([last]) == last;
      FoldStep(Fold(front), last, Sum(front));
    }
  }

  lemma FoldStep(fold: u16, last: u16, sum: nat)
    requires fold % M == sum % M && (fold == 0 <==> sum == 0)
    ensures Csum16Add(fold, last) % M == (sum + last) % M
    ensures Csum16Add(fold, last) == 0 <==> sum + last == 0
  {
    AddCharacterised(fold, last, Csum16Add(fold, last));
    AddMod(fold as int, sum, last as int, last as int);
  }

  lemma {:induction false} SumExtract(ws: seq<u16>, k: nat)
    requires k < |ws|
    ensures Sum(ws) == ws[k] + Sum(ws[..k] + ws[k + 1..])
  {
    SumConcat(ws[..k], ws[k..]);
    assert ws[..k] + ws[k..] == ws;
    assert ws[k..][1..] == ws[k + 1..];
    SumConcat(ws[..k], ws[k + 1..]);
  }

  lemma MultisetWithout(vs: seq<u16>, k: nat)
    requires k < |vs|
    ensures multiset(vs[..k] + vs[k + 1..]) == multiset(vs) - multiset{vs[k]}
  {
    assert vs == vs[..k] + ([vs[k]] + vs[k + 1..]);
  }

  lemma {:induction false} SumPermuted(ws: seq<u16>, vs: seq<u16>)
    requires multiset(ws) == multiset(vs)
    ensures Sum(ws) == Sum(vs)
  {
    if |ws| == 0 {
      assert |multiset(vs)| == 0;
    } else {
      assert ws[0] in multiset(vs);
      var k :| 0 <= k < |vs| && vs[k] == ws[0];
      assert ws[..0] + ws[1..] == ws[1..];
      MultisetWithout(ws, 0);
      MultisetWithout(vs, k);
      SumPermuted(ws[1..], vs[..k] + vs[k + 1..]);
      SumExtract(vs, k);
    }
  }

  /** Words may be folded in any order. */
  lemma FoldPermuted(ws: seq<u16>, vs: seq<u16>)
    requires multiset(ws) == multiset(vs)
    ensures Fold(ws) == Fold(vs)
  {
    SumPermuted(ws, vs);
    FoldIsSum(ws);
    FoldIsSum(vs);
    SameSum(Fold(ws), Fold(vs));
  }

  // ----- byte order

  lemma {:induction false} WordsSwap(s: seq<byte>)
    ensures |Words(Little, s)| == |Words(Big, s)|
    ensures forall i :: 0 <= i < |Words(Big, s)| ==> Words(Little, s)[i] == Swap16(Words(Big, s)[i])
  {
    if |s| > 1 {
      WordsSwap(s[2..]);
    }
  }

  lemma {:induction false} FoldSwap(ws: seq<u16>, vs: seq<u16>)
    requires |ws| == |vs| && forall i :: 0 <= i < |ws| ==> vs[i] == Swap16(ws[i])
    ensures Fold(vs) == Swap16(Fold(ws))
  {
    if |ws| != 0 {
      FoldSwap(ws[..|ws| - 1], vs[..|vs| - 1]);
      AddCommutesWithSwap(Fold(ws[..|ws| - 1]), ws[|ws| - 1]);
    }
  }

  /** Section 2(B) of RFC 1071: a little-endian host computes the same two checksum bytes,
      in the same places, as a big-endian one. */
  lemma ChecksumByteOrder(s: seq<byte>)
    ensures FirstByte(Little, Checksum(Little, s)) == FirstByte(Big, Checksum(Big, s))
    ensures SecondByte(Little, Checksum(Little, s)) == SecondByte(Big, Checksum(Big, s))
  {
    WordsSwap(s);
    FoldSwap(Words(Big, s), Words(Little, s));
    SwapNot(Fold(Words(Big, s)));
  }

  lemma SwapNot(x: u16)
    ensures var y := Not16(Swap16(x));
            FirstByte(Little, y) == FirstByte(Big, Not16(x)) && SecondByte(Little, y) == SecondByte(Big, Not16(x))
  {
    var hi, lo := x / 256, x % 256;
    assert x == 256 * hi + lo && Swap16(x) == 256 * lo + hi;
    TwoDigits(Not16(x), 255 - hi, 255 - lo);
    TwoDigits(Not16(Swap16(x)), 255 - lo, 255 - hi);
  }

  lemma TwoDigits(x: u16, hi: int, lo: int)
    requires x == 256 * hi + lo && 0 <= lo < 256
    ensures x / 256 == hi && x % 256 == lo
  {
  }

  /** The two representations of zero. */
  lemma ZeroResidue(x: u16)
    ensures x % M == 0 <==> x == 0 || x == 0xFFFF
  {
  }

  lemma SwapZero(x: u16)
    ensures Swap16(x) % M == 0 <==> x % M == 0
  {
    ZeroResidue(x);
    ZeroResidue(Swap16(x));
    var hi, lo := x / 256, x % 256;
    assert x == 256 * hi + lo && Swap16(x) == 256 * lo + hi;
  }

  lemma ValidByteOrder(s: seq<byte>)
    ensures ValidSum(Little, s) == ValidSum(Big, s)
  {
    WordsSwap(s);
    FoldSwap(Words(Big, s), Words(Little, s));
    FoldIsSum(Words(Big, s));
    FoldIsSum(Words(Little, s));
    SwapZero(Fold(Words(Big, s)));
  }

  // ----- the receiver

  lemma {:induction false} WordSumZero(h: Host, s: seq<byte>)
    ensures WordSum(h, s) == 0 <==> AllZero(s)
  {
    if |s| > 1 {
      WordSumZero(h, s[2..]);
      assert WordSum(h, s) == Load16(h, s[0], s[1]) + WordSum(h, s[2..]);
      if AllZero(s[2..]) && s[0] == 0 && s[1] == 0 {
        forall i | 0 <= i < |s| ensures s[i] == 0 {
          if i >= 2 { assert s[i] == s[2..][i - 2]; }
        }
      }
    } else if |s| == 1 {
      var ws := Words(h, s);
      assert ws == [Load16(h, s[0], 0)];
      assert Sum(ws) == ws[0] + Sum(ws[1..]) && Sum(ws[1..]) == 0;
      assert AllZero(s) <==> s[0] == 0;
    }
  }

  /** A receiver that folds all words and compares with 0xFFFF accepts exactly the strings
      whose sum is zero modulo 0xFFFF, the all-zero string excepted. */
  lemma ReceiverAccepts(h: Host, s: seq<byte>)
    ensures Fold(Words(h, s)) == 0xFFFF <==> ValidSum(h, s) && !AllZero(s)
  {
    FoldIsSum(Words(h, s));
    WordSumZero(h, s);
    ZeroResidue(Fold(Words(h, s)));
  }

  // ----- the part of a packet that an ICMPv6 checksum covers

  /** An IPv6 header at ip, followed by at least the first four bytes of an ICMPv6 message that is
      as long as the payload length field says. */
  predicate HasMessage6(p: seq<byte>, ip: nat) {
    |p| >= ip + 40 && Be16At(p, ip + 4) >= 4 && ip + 40 + Be16At(p, ip + 4) <= |p|
  }

  /** The addresses and the rest of the pseudo-header of section 8.1 of RFC 8200, and the message. */
  function Covered6(p: seq<byte>, ip: nat): seq<byte>
    requires HasMessage6(p, ip)
  {
    p[ip + 8..ip + 40] + PseudoTail(p, ip) + p[ip + 40..ip + 40 + Be16At(p, ip + 4)]
  }

  function PseudoTail(p: seq<byte>, ip: nat): seq<byte>
    requires HasMessage6(p, ip)
  {
    [0, 0, p[ip + 4], p[ip + 5], 0, 0, 0, IPPROTO_ICMPV6]
  }

  // ----- parts of a string

  lemma {:induction false} WordSumConcat(h: Host, a: seq<byte>, b: seq<byte>)
    requires |a| % 2 == 0
    ensures WordSum(h, a + b) == WordSum(h, a) + WordSum(h, b)
  {
    if |a| == 0 {
      assert a + b == b;
    } else {
      assert (a + b)[2..] == a[2..] + b;
      WordSumConcat(h, a[2..], b);
    }
  }

  /** Storing a word at an even offset changes the sum by the difference of the words. */
  lemma WordSumStore(h: Host, s: seq<byte>, o: nat, x: u16)
    requires o % 2 == 0 && o + 2 <= |s|
    ensures WordSum(h, Store16At(h, s, o, x)) == WordSum(h, s) - Load16At(h, s, o) + x
  {
    var t := Store16At(h, s, o, x);
    var a, w, v, b := s[..o], s[o..o + 2], t[o..o + 2], s[o + 2..];
    assert s == a + (w + b) && t == a + (v + b);
    WordSumConcat(h, a, w + b);
    WordSumConcat(h, a, v + b);
    WordSumConcat(h, w, b);
    WordSumConcat(h, v, b);
    assert w[2..] == [] && v[2..] == [];
    assert WordSum(h, w) == Load16At(h, s, o);
    assert WordSum(h, v) == x;
  }

  /** Exchanging two neighbouring blocks of the same even length leaves the sum alone. */
  lemma WordSumExchange(h: Host, a: seq<byte>, x: seq<byte>, y: seq<byte>, b: seq<byte>)
    requires |a| % 2 == 0 && |x| % 2 == 0 && |y| % 2 == 0
    ensures WordSum(h, a + x + y + b) == WordSum(h, a + y + x + b)
  {
    WordSumConcat(h, a + x + y, b);
    WordSumConcat(h, a + x, y);
    WordSumConcat(h, a, x);
    WordSumConcat(h, a + y + x, b);
    WordSumConcat(h, a + y, x);
    WordSumConcat(h, a, y);
  }

  // ----- incremental update against recomputation

  /** The checksum field at o holds the value computed from scratch over the rest exactly when
      the whole sums to zero and the field is not the second zero, 0xFFFF. */
  lemma FreshIffValid(h: Host, s: seq<byte>, o: nat)
    requires o % 2 == 0 && o + 2 <= |s|
    requires !AllZero(Store16At(h, s, o, 0))
    ensures Load16At(h, s, o) == Checksum(h, Store16At(h, s, o, 0))
       <==> ValidSum(h, s) && Load16At(h, s, o) != 0xFFFF
  {
    var z := Store16At(h, s, o, 0);
    WordSumStore(h, s, o, 0);
    FoldIsSum(Words(h, z));
    WordSumZero(h, z);
    FreshArithmetic(WordSum(h, z), WordSum(h, s), Fold(Words(h, z)), Load16At(h, s, o));
  }

  lemma FreshArithmetic(rest: nat, whole: nat, fold: u16, check: u16)
    requires fold % M == rest % M && fold != 0 && whole == rest + check
    ensures check == Not16(fold) <==> whole % M == 0 && check != 0xFFFF
  {
    AddMod(rest, fold as int, check as int, check as int);
    assert (fold + check) % M == 0 <==> fold + check == M || fold + check == 2 * M;
  }

  /** Replacing one word at an even offset and patching the checksum field with csum_replace2
      keeps the sum modulo 0xFFFF, and with it the validity of the string, whatever its length;
      it never turns an invalid one valid. */
  lemma PatchKeepsValidity(h: Host, s: seq<byte>, o: nat, c: nat, new16: u16)
    requires o % 2 == 0 && o + 2 <= |s|
    requires c % 2 == 0 && c + 2 <= |s| && c != o
    ensures var patch := CsumReplace2(Load16At(h, s, c), Load16At(h, s, o), new16);
            var t := Store16At(h, Store16At(h, s, o, new16), c, patch);
            WordSum(h, t) % M == WordSum(h, s) % M && (ValidSum(h, t) <==> ValidSum(h, s))
  {
    var sum, old16 := Load16At(h, s, c), Load16At(h, s, o);
    var patch := CsumReplace2(sum, old16, new16);
    ReplaceCharacterised(sum, old16, new16);
    WordSumPatch(h, s, o, c, new16, patch);
    var before, after := WordSum(h, s), WordSum(h, Store16At(h, Store16At(h, s, o, new16), c, patch));
    PatchArithmetic(before, after, old16, new16, sum, patch);
  }

  /** Storing two words changes the sum by both differences. */
  lemma WordSumPatch(h: Host, s: seq<byte>, o: nat, c: nat, x: u16, y: u16)
    requires o % 2 == 0 && o + 2 <= |s|
    requires c % 2 == 0 && c + 2 <= |s| && c != o
    ensures WordSum(h, Store16At(h, Store16At(h, s, o, x), c, y))
         == WordSum(h, s) - Load16At(h, s, o) + x - Load16At(h, s, c) + y
  {
    var t := Store16At(h, s, o, x);
    WordSumStore(h, s, o, x);
    WordSumStore(h, t, c, y);
    assert t[c] == s[c] && t[c + 1] == s[c + 1];
  }

  lemma PatchArithmetic(before: int, after: int, old16: int, new16: int, sum: int, patch: int)
    requires after == before - old16 + new16 - sum + patch
    requires (patch + new16) % M == (sum + old16) % M
    ensures after % M == before % M
  {
    AddMod(patch + new16, sum + old16, before - old16 - sum, before - old16 - sum);
  }
}
