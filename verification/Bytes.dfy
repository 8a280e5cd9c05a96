/** Machine integers and the byte images a little-endian host gives them. */
module Bytes {

  type byte = x: int | 0 <= x < 0x100
  type u16 = x: int | 0 <= x < 0x1_0000
  type u32 = x: int | 0 <= x < 0x1_0000_0000

  /** The conversion C applies when a wider integer is stored in a `uint16_t`. */
  function ToU16(x: int): u16 {
    x % 0x1_0000
  }

  /** A 16-bit value as a little-endian host stores it. */
  function Le16(x: u16): (b: seq<byte>)
    ensures |b| == 2
  {
    [x % 0x100, x / 0x100]
  }

  /** A 16-bit value after `htons`: most significant byte first. */
  function Be16(x: u16): (b: seq<byte>)
    ensures |b| == 2
  {
    [x / 0x100, x % 0x100]
  }

  /** A 32-bit value as a little-endian host stores it. */
  function Le32(x: u32): (b: seq<byte>)
    ensures |b| == 4
  {
    [x % 0x100, x / 0x100 % 0x100, x / 0x100 / 0x100 % 0x100, x / 0x100 / 0x100 / 0x100]
  }

  /** The 16-bit value a little-endian host reads from two bytes. */
  function Word(lo: byte, hi: byte): u16 {
    lo + 0x100 * (hi as int)
  }

  function GetLe16(b: seq<byte>): u16
    requires |b| == 2
  {
    Word(b[0], b[1])
  }

  function GetBe16(b: seq<byte>): u16
    requires |b| == 2
  {
    Word(b[1], b[0])
  }

  function GetLe32(b: seq<byte>): u32
    requires |b| == 4
  {
    b[0] + 0x100 * (b[1] as int) + 0x1_0000 * (b[2] as int) + 0x100_0000 * (b[3] as int)
  }

  /** Which byte weighs what: least significant first on the host, most significant first after `htons`. */
  lemma Weights(x: u16, y: u32)
    ensures var b := Le16(x); x == b[0] + 0x100 * (b[1] as int)
    ensures var b := Be16(x); x == 0x100 * (b[0] as int) + b[1]
    ensures var b := Le32(y); y == b[0] + 0x100 * (b[1] as int) + 0x1_0000 * (b[2] as int) + 0x100_0000 * (b[3] as int)
  {
    LoadStore(x, y);
  }

  lemma LoadStore(x: u16, y: u32)
    ensures GetLe16(Le16(x)) == x
    ensures GetBe16(Be16(x)) == x
    ensures GetLe32(Le32(y)) == y
  {
    var y1 := y / 0x100;
    var y2 := y1 / 0x100;
    assert y == 0x100 * y1 + y % 0x100;
    assert y1 == 0x100 * y2 + y1 % 0x100;
    assert y2 == 0x100 * (y2 / 0x100) + y2 % 0x100;
  }

  /** `memcpy` of n bytes between two buffers. */
  method MemCopy(dst: array<byte>, to: nat, src: array<byte>, from: nat, n: nat)
    requires to + n <= dst.Length && from + n <= src.Length
    requires dst != src
    modifies dst
    ensures forall i | 0 <= i < dst.Length ::
              dst[i] == if to <= i < to + n then src[from + i - to] else old(dst[i])
  {
    forall i | 0 <= i < n {
      dst[to + i] := src[from + i];
    }
  }

  /** Writes the image of one header field at offset `to`. */
  method Store(dst: array<byte>, to: nat, bytes: seq<byte>)
    requires to + |bytes| <= dst.Length
    modifies dst
    ensures forall i | 0 <= i < dst.Length ::
              dst[i] == if to <= i < to + |bytes| then bytes[i - to] else old(dst[i])
  {
    forall i | 0 <= i < |bytes| {
      dst[to + i] := bytes[i];
    }
  }
}
