/** Bytes, 16-bit words and host byte order. */
module Bytes {

  type byte = x: int | 0 <= x < 0x100
  type u16 = x: int | 0 <= x < 0x1_0000
  type u32 = x: int | 0 <= x < 0x1_0000_0000
  type u64 = x: int | 0 <= x < 0x1_0000_0000_0000_0000

  datatype Option<+T> = None | Some(value: T)

  /** The byte order of the machine that runs the code. */
  datatype Host = Little | Big

  function Swap16(x: u16): u16 {
    (x % 256) * 256 + x / 256
  }

  /** htons and ntohs: both are this function. */
  function Htons(h: Host, x: u16): u16 {
    if h.Big? then x else Swap16(x)
  }

  /** Two bytes read as a number in network order. */
  function Be16(first: byte, second: byte): u16 {
    256 * first + second
  }

  /** Two bytes in memory read as a native 16-bit number. */
  function Load16(h: Host, first: byte, second: byte): u16 {
    if h.Big? then 256 * first + second else first + 256 * second
  }

  /** The byte that comes first in memory when x is stored natively. */
  function FirstByte(h: Host, x: u16): byte {
    if h.Big? then x / 256 else x % 256
  }

  function SecondByte(h: Host, x: u16): byte {
    if h.Big? then x % 256 else x / 256
  }

  /** The 16-bit field of b at offset o, in network order. */
  function Be16At(b: seq<byte>, o: nat): u16
    requires o + 2 <= |b|
  {
    Be16(b[o], b[o + 1])
  }

  /** The 16-bit field of b at offset o, as the host loads it. */
  function Load16At(h: Host, b: seq<byte>, o: nat): u16
    requires o + 2 <= |b|
  {
    Load16(h, b[o], b[o + 1])
  }

  /** b with the native number x stored at offset o. */
  function Store16At(h: Host, b: seq<byte>, o: nat, x: u16): seq<byte>
    requires o + 2 <= |b|
  {
    b[o := FirstByte(h, x)][o + 1 := SecondByte(h, x)]
  }

  /** A native load sees htons of the network-order value, whichever the host is. */
  lemma LoadIsHtons(h: Host, first: byte, second: byte)
    ensures Load16(h, first, second) == Htons(h, Be16(first, second))
    ensures forall x: u16 {:trigger Htons(h, x)} ::
              Load16(h, first, second) == Htons(h, x) <==> Be16(first, second) == x
  {
    var be := Be16(first, second);
    assert Load16(h, first, second) == Htons(h, be);
    forall x: u16 {:trigger Htons(h, x)} ensures Load16(h, first, second) == Htons(h, x) <==> be == x {
      HtonsInvolution(h, x);
      HtonsInvolution(h, be);
    }
  }

  lemma LoadSwap(first: byte, second: byte)
    ensures Load16(Little, first, second) == Swap16(Load16(Big, first, second))
  {
  }

  lemma HtonsInvolution(h: Host, x: u16)
    ensures Htons(h, Htons(h, x)) == x
  {
    var hi, lo := x / 256, x % 256;
    assert Swap16(x) == lo * 256 + hi;
    assert Swap16(x) / 256 == lo && Swap16(x) % 256 == hi;
  }

  lemma StoreLoaded(h: Host, first: byte, second: byte)
    ensures FirstByte(h, Load16(h, first, second)) == first
    ensures SecondByte(h, Load16(h, first, second)) == second
  {
  }

  lemma StoreSwapped(b: seq<byte>, o: nat, x: u16)
    requires o + 2 <= |b|
    ensures Store16At(Little, b, o, Swap16(x)) == Store16At(Big, b, o, x)
  {
    var hi, lo := x / 256, x % 256;
    assert Swap16(x) == lo * 256 + hi;
  }

  lemma StoreThenLoad(h: Host, x: u16)
    ensures Load16(h, FirstByte(h, x), SecondByte(h, x)) == x
  {
  }
}
