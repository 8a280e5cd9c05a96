/** The Internet checksum of `src/icmp.c`: the wide-accumulator loop with deferred
    folding, and the word-by-word one's-complement sum of RFC 1071 it must agree with. */
module Checksum {
  import opened Bytes

  // ----- The reference: sections 2 and 4.1 of RFC 1071 -----

  /** The 16-bit words a little-endian host reads from `data`. An odd last byte is
      a word of its own, its missing high byte being zero. */
  function Words(data: seq<byte>): (ws: seq<u16>)
    ensures |ws| == (|data| + 1) / 2
  {
    if |data| == 0 then []
    else if |data| == 1 then [data[0]]
    else [Word(data[0], data[1])] + Words(data[2..])
  }

  /** One's-complement addition: a carry out of bit 15 comes back in at bit 0. */
  function AddEndAround(a: u16, b: u16): u16 {
    if a + b < 0x1_0000 then a + b else a + b - 0x1_0000 + 1
  }

  function SumEndAround(acc: u16, ws: seq<u16>): u16
    decreases |ws|
  {
    if ws == [] then acc else SumEndAround(AddEndAround(acc, ws[0]), ws[1..])
  }

  /** The checksum of RFC 1071: complement of the one's-complement sum of all words. */
  function InternetChecksum(data: seq<byte>): u16 {
    0xffff - SumEndAround(0, Words(data))
  }

  // ----- The wide sum and its canonical residue -----

  function WideSum(ws: seq<u16>): nat {
    if ws == [] then 0 else ws[0] + WideSum(ws[1..])
  }

  /** The representative of n modulo 0xffff in 1..0xffff, with zero only for zero. */
  function Residue(n: nat): u16 {
    if n < 0x1_0000 then n else Residue(n - 0xffff)
  }

  /** One round of the folding loop. */
  function FoldOnce(n: nat): nat {
    n % 0x1_0000 + n / 0x1_0000
  }

  /** How many rounds the folding loop takes. */
  function FoldRounds(n: nat): nat {
    if n < 0x1_0000 then 0 else 1 + FoldRounds(FoldOnce(n))
  }

  lemma {:induction false} ResidueShift(n: nat, q: nat)
    requires n > 0
    ensures Residue(n + 0xffff * q) == Residue(n)
    decreases q
  {
    if q > 0 {
      ResidueShift(n, q - 1);
    }
  }

  lemma {:induction false} ResidueDecomposes(n: nat) returns (q: nat)
    ensures n == Residue(n) + 0xffff * q
    ensures n > 0 ==> Residue(n) > 0
  {
    q := 0;
    if n >= 0x1_0000 {
      q := ResidueDecomposes(n - 0xffff);
      q := q + 1;
    }
  }

  lemma FoldOnceKeepsResidue(n: nat)
    ensures Residue(FoldOnce(n)) == Residue(n)
  {
    if n > 0 {
      ResidueShift(FoldOnce(n), n / 0x1_0000);
    }
  }

  lemma {:induction false} WideSumIsEndAroundSum(n: nat, ws: seq<u16>)
    ensures SumEndAround(Residue(n), ws) == Residue(n + WideSum(ws))
    decreases |ws|
  {
    if ws != [] {
      var q := ResidueDecomposes(n);
      if n + ws[0] > 0 {
        ResidueShift(Residue(n) + ws[0], q);
      }
      assert AddEndAround(Residue(n), ws[0]) == Residue(n + ws[0]);
      WideSumIsEndAroundSum(n + ws[0], ws[1..]);
    }
  }

  lemma ChecksumIsResidue(data: seq<byte>)
    ensures InternetChecksum(data) == 0xffff - Residue(WideSum(Words(data)))
  {
    WideSumIsEndAroundSum(0, Words(data));
  }

  lemma {:induction false} WideSumBound(ws: seq<u16>)
    ensures WideSum(ws) <= 0xffff * |ws|
  {
    if ws != [] {
      WideSumBound(ws[1..]);
    }
  }

  /** For every `int` count the accumulator stays below 2^46, far inside a 64-bit `long`. */
  lemma AccumulatorFits(data: seq<byte>)
    requires |data| < 0x8000_0000
    ensures WideSum(Words(data)) < 0x4000_0000_0000
  {
    WideSumBound(Words(data));
  }

  /** A sum that fits 46 bits is folded into 16 bits in at most three rounds. */
  lemma FoldsAtMostThrice(n: nat)
    requires n < 0x4000_0000_0000
    ensures FoldRounds(n) <= 3
  {
    var a := FoldOnce(n);
    assert a < 0x4001_0000;
    var b := FoldOnce(a);
    assert b < 0x1_4002;
    var c := FoldOnce(b);
    assert c < 0x1_0000;
    assert FoldRounds(c) == 0;
    assert FoldRounds(b) <= 1;
    assert FoldRounds(a) <= 2;
  }

  lemma PeelWord(data: seq<byte>, i: nat)
    requires i + 1 < |data|
    ensures WideSum(Words(data[i..])) == Word(data[i], data[i + 1]) + WideSum(Words(data[i + 2..]))
  {
    assert data[i..][2..] == data[i + 2..];
  }

  // ----- The code -----

  /** `hz_checksum`: `count` bytes starting at offset `at` of `buf`; an `int` count may be
      zero or negative, and then nothing is read. The accumulator is a 64-bit `long`. */
  method HzChecksum(buf: array<byte>, at: nat, count: int) returns (r: u16, ghost rounds: nat)
    requires count < 0x8000_0000
    requires at + count <= buf.Length
    ensures r == InternetChecksum(if count <= 0 then [] else buf[at..at + count])
    ensures rounds <= 3
  {
    ghost var data := if count <= 0 then [] else buf[at..at + count];
    ghost var total := WideSum(Words(data));
    var sum, p, left := 0, at, count;
    AccumulatorFits(data);
    while left > 1
      invariant p + left == at + count
      invariant if count <= 0 then left == count else left == |data| - (p - at) && 0 <= p - at <= |data|
      invariant 0 <= sum <= total && sum + WideSum(Words(data[p - at..])) == total
    {
      PeelWord(data, p - at);
      sum := sum + Word(buf[p], buf[p + 1]);
      p := p + 2;
      left := left - 2;
    }
    if left > 0 {
      sum := sum + buf[p];
    }
    assert sum == total;
    rounds := 0;
    FoldsAtMostThrice(total);
    while sum / 0x1_0000 != 0
      invariant 0 <= sum < 0x4000_0000_0000
      invariant Residue(sum) == Residue(total)
      invariant rounds + FoldRounds(sum) == FoldRounds(total)
      decreases sum
    {
      FoldOnceKeepsResidue(sum);
      sum := sum % 0x1_0000 + sum / 0x1_0000;
      rounds := rounds + 1;
    }
    ChecksumIsResidue(data);
    r := 0xffff - sum;
  }
}
