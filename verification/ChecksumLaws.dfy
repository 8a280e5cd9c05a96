/** What the checksum is for: a packet that carries its own checksum verifies, damage to
    one word is seen, and the value does not depend on byte order or word order. */
module ChecksumLaws {
  import opened Bytes
  import opened Checksum

  /** `data` with the aligned word at offset k replaced by w. */
  function PutWord(data: seq<byte>, k: nat, w: u16): (r: seq<byte>)
    requires k + 1 < |data|
    ensures |r| == |data|
  {
    data[..k] + Le16(w) + data[k + 2..]
  }

  function WordAt(data: seq<byte>, k: nat): u16
    requires k + 1 < |data|
  {
    Word(data[k], data[k + 1])
  }

  predicate AllZero(data: seq<byte>) {
    forall i | 0 <= i < |data| :: data[i] == 0
  }

  lemma {:induction false} WideSumOfPut(data: seq<byte>, k: nat, w: u16)
    requires k % 2 == 0 && k + 1 < |data|
    ensures WideSum(Words(PutWord(data, k, w))) == WideSum(Words(data)) - WordAt(data, k) + w
    ensures WideSum(Words(data)) >= WordAt(data, k)
  {
    var put := PutWord(data, k, w);
    if k == 0 {
      assert put[2..] == data[2..];
    } else {
      assert put[2..] == PutWord(data[2..], k - 2, w);
      WideSumOfPut(data[2..], k - 2, w);
    }
  }

  lemma {:induction false} ZeroSumMeansAllZero(data: seq<byte>)
    ensures WideSum(Words(data)) == 0 <==> AllZero(data)
    decreases |data|
  {
    if |data| >= 2 {
      ZeroSumMeansAllZero(data[2..]);
      assert AllZero(data) <==> data[0] == 0 && data[1] == 0 && AllZero(data[2..]) by {
        assert data == data[..2] + data[2..];
        assert forall i | 2 <= i < |data| :: data[i] == data[2..][i - 2];
      }
    }
  }

  lemma ModShift(d: int, q: int)
    ensures (0xffff * q + d) % 0xffff == d % 0xffff
  {
  }

  /** A buffer verifies exactly when its words add up to a non-zero multiple of 0xffff. */
  lemma VerifiesExactlyWhen(data: seq<byte>)
    ensures InternetChecksum(data) == 0 <==>
              WideSum(Words(data)) % 0xffff == 0 && !AllZero(data)
  {
    ChecksumIsResidue(data);
    ZeroSumMeansAllZero(data);
    var q := ResidueDecomposes(WideSum(Words(data)));
    ModShift(Residue(WideSum(Words(data))), q);
  }

  /** Zeroing a 16-bit field, storing the checksum in it and checking again yields zero. */
  lemma StoredChecksumVerifies(data: seq<byte>, k: nat)
    requires k % 2 == 0 && k + 1 < |data|
    ensures var zeroed := PutWord(data, k, 0);
            InternetChecksum(PutWord(zeroed, k, InternetChecksum(zeroed))) == 0
  {
    var c := InternetChecksum(PutWord(data, k, 0));
    var s := ChecksumsAroundField(data, k, c);
    ResidueCompletes(s, c);
  }

  /** Only one field value makes a buffer verify, up to the two zeros of one's complement:
      c verifies iff it is the computed checksum, or the two are 0x0000 and 0xffff
      and the buffer is not zero throughout. */
  lemma VerifyingFieldIsTheChecksum(data: seq<byte>, k: nat, c: u16)
    requires k % 2 == 0 && k + 1 < |data|
    ensures var zeroed := PutWord(data, k, 0);
            InternetChecksum(PutWord(zeroed, k, c)) == 0 <==>
              || c == InternetChecksum(zeroed)
              || (c == 0xffff && InternetChecksum(zeroed) == 0)
  {
    var s := ChecksumsAroundField(data, k, c);
    ResidueCompletes(s, c);
  }

  /** The two checksums in terms of the sum s of all the other words. */
  lemma ChecksumsAroundField(data: seq<byte>, k: nat, c: u16) returns (s: nat)
    requires k % 2 == 0 && k + 1 < |data|
    ensures InternetChecksum(PutWord(data, k, 0)) == 0xffff - Residue(s)
    ensures InternetChecksum(PutWord(PutWord(data, k, 0), k, c)) == 0xffff - Residue(s + c)
  {
    var zeroed := PutWord(data, k, 0);
    s := WideSum(Words(zeroed));
    ChecksumIsResidue(zeroed);
    assert WideSum(Words(PutWord(zeroed, k, c))) == s + c by {
      WideSumOfPut(zeroed, k, c);
      assert WordAt(zeroed, k) == 0;
    }
    ChecksumIsResidue(PutWord(zeroed, k, c));
  }

  lemma ResidueCompletes(s: nat, c: u16)
    ensures Residue(s + c) == 0xffff <==>
              c == 0xffff - Residue(s) || (c == 0xffff && Residue(s) == 0xffff)
  {
    var q := ResidueDecomposes(s);
    if s + c > 0 {
      ResidueShift(Residue(s) + c, q);
    }
  }

  lemma CongruentWords(a: u16, b: u16)
    requires a != b
    ensures (a - b) % 0xffff == 0 <==> {a, b} == {0, 0xffff}
  {
    assert (a - b) % 0xffff == 0 <==> a - b == 0xffff || a - b == -0xffff;
    assert {a, b} == {0, 0xffff} <==> (a == 0 && b == 0xffff) || (a == 0xffff && b == 0) by {
      assert a in {a, b} && b in {a, b} && 0 in {0, 0xffff} && 0xffff in {0, 0xffff};
    }
  }

  /** In a buffer that verifies, replacing one aligned word by a different value makes the
      checksum non-zero, except exactly for exchanging 0x0000 and 0xffff in a
      buffer that does not become zero throughout. */
  lemma OneWordDamageIsSeen(data: seq<byte>, k: nat, w: u16)
    requires k % 2 == 0 && k + 1 < |data|
    requires InternetChecksum(data) == 0
    requires w != WordAt(data, k)
    ensures InternetChecksum(PutWord(data, k, w)) == 0 <==>
              {w, WordAt(data, k)} == {0, 0xffff} && !AllZero(PutWord(data, k, w))
  {
    VerifiesExactlyWhen(data);
    VerifiesExactlyWhen(PutWord(data, k, w));
    WideSumOfPut(data, k, w);
    ModShift(w - WordAt(data, k), WideSum(Words(data)) / 0xffff);
    CongruentWords(w, WordAt(data, k));
  }

  // ----- Byte order: section 2 (B) of RFC 1071 -----

  function SwapWord(w: u16): u16 {
    Word(w / 0x100, w % 0x100)
  }

  /** The two bytes of every word exchanged. */
  function SwapBytes(data: seq<byte>): (r: seq<byte>)
    requires |data| % 2 == 0
    ensures |r| == |data|
  {
    if data == [] then [] else [data[1], data[0]] + SwapBytes(data[2..])
  }

  lemma {:induction false} SwappedWideSum(data: seq<byte>) returns (p: int)
    requires |data| % 2 == 0
    ensures WideSum(Words(SwapBytes(data))) == 0x100 * WideSum(Words(data)) + 0xffff * p
    ensures WideSum(Words(SwapBytes(data))) == 0 <==> WideSum(Words(data)) == 0
    decreases |data|
  {
    p := 0;
    if data != [] {
      var q := SwappedWideSum(data[2..]);
      assert SwapBytes(data)[2..] == SwapBytes(data[2..]);
      p := q - data[1];
    }
  }

  lemma ResidueUnique(m: nat, s: u16, q: int)
    requires m > 0 && s > 0
    requires m - s == 0xffff * q
    ensures Residue(m) == s
  {
    ResidueShift(s, q);
  }

  lemma SwapIsScaling(w: u16)
    ensures SwapWord(w) == 0x100 * (w as int) - 0xffff * (w / 0x100 as int)
    ensures SwapWord(w) == 0 <==> w == 0
  {
  }

  lemma ResidueOfSwap(n: nat, m: nat, p: int)
    requires m == 0x100 * n + 0xffff * p
    requires m == 0 <==> n == 0
    ensures Residue(m) == SwapWord(Residue(n))
  {
    if n > 0 {
      var q := ResidueDecomposes(n);
      SwapIsScaling(Residue(n));
      ResidueUnique(m, SwapWord(Residue(n)), 0x100 * q + p + Residue(n) / 0x100);
    }
  }

  lemma SplitUnique(w: u16, hi: byte, lo: byte)
    requires w == Word(lo, hi)
    ensures w / 0x100 == hi && w % 0x100 == lo
  {
  }

  lemma SwapOfComplement(w: u16, c: u16)
    requires c == 0xffff - w
    ensures SwapWord(c) == 0xffff - SwapWord(w)
  {
    var hi, lo := w / 0x100, w % 0x100;
    SplitUnique(c, 0xff - hi, 0xff - lo);
  }

  /** Computing the checksum on a host of the other byte order swaps the bytes of the
      result, so the bytes stored in the packet are the same on both. */
  lemma ByteOrderIndependence(data: seq<byte>)
    requires |data| % 2 == 0
    ensures InternetChecksum(SwapBytes(data)) == SwapWord(InternetChecksum(data))
  {
    var n, m := WideSum(Words(data)), WideSum(Words(SwapBytes(data)));
    var p := SwappedWideSum(data);
    ResidueOfSwap(n, m, p);
    ChecksumIsResidue(data);
    ChecksumIsResidue(SwapBytes(data));
    SwapOfComplement(Residue(n), InternetChecksum(data));
  }

  // ----- Word order: section 2 (A) of RFC 1071 -----

  lemma {:induction false} WideSumWithout(ws: seq<u16>, i: nat)
    requires i < |ws|
    ensures WideSum(ws) == ws[i] + WideSum(ws[..i] + ws[i + 1..])
  {
    if i == 0 {
      assert ws[..0] + ws[1..] == ws[1..];
    } else {
      WideSumWithout(ws[1..], i - 1);
      assert (ws[..i] + ws[i + 1..])[1..] == ws[1..][..i - 1] + ws[1..][i..];
    }
  }

  /** The first element of a taken out of both. */
  lemma TakeFromBoth(a: seq<u16>, b: seq<u16>) returns (i: nat)
    requires a != [] && multiset(a) == multiset(b)
    ensures i < |b| && b[i] == a[0]
    ensures multiset(a[1..]) == multiset(b[..i] + b[i + 1..])
  {
    assert a[0] in multiset(b);
    i :| i < |b| && b[i] == a[0];
    assert a == [a[0]] + a[1..];
    assert b == b[..i] + [a[0]] + b[i + 1..];
    assert multiset(a[1..]) == multiset(a) - multiset{a[0]};
    assert multiset(b[..i] + b[i + 1..]) == multiset(b) - multiset{a[0]};
  }

  lemma {:induction false} WideSumPermuted(a: seq<u16>, b: seq<u16>)
    requires multiset(a) == multiset(b)
    ensures WideSum(a) == WideSum(b)
    decreases |a|
  {
    if a == [] {
      assert |multiset(b)| == 0;
    } else {
      var i := TakeFromBoth(a, b);
      WideSumWithout(b, i);
      WideSumPermuted(a[1..], b[..i] + b[i + 1..]);
    }
  }

  /** The order of the words does not matter. */
  lemma WordOrderIndependence(a: seq<byte>, b: seq<byte>)
    requires multiset(Words(a)) == multiset(Words(b))
    ensures InternetChecksum(a) == InternetChecksum(b)
  {
    WideSumPermuted(Words(a), Words(b));
    ChecksumIsResidue(a);
    ChecksumIsResidue(b);
  }

  // ----- The odd byte, and a known value -----

  /** An odd last byte counts as if a zero byte followed it. */
  lemma {:induction false} OddByteIsPadded(data: seq<byte>)
    requires |data| % 2 == 1
    ensures Words(data) == Words(data + [0])
    ensures InternetChecksum(data) == InternetChecksum(data + [0])
    decreases |data|
  {
    var padded := data + [0];
    if |data| > 1 {
      OddByteIsPadded(data[2..]);
      assert padded[2..] == data[2..] + [0];
    } else {
      assert padded[2..] == [];
    }
  }

  /** The example of section 3 of RFC 1071: the stored checksum of these eight bytes is 0x22, 0x0d. */
  lemma KnownValue()
    ensures Le16(InternetChecksum([0x00, 0x01, 0xf2, 0x03, 0xf4, 0xf5, 0xf6, 0xf7])) == [0x22, 0x0d]
  {
    var a: seq<byte> := [0x00, 0x01, 0xf2, 0x03, 0xf4, 0xf5, 0xf6, 0xf7];
    var b, c, d := a[2..], a[2..][2..], a[2..][2..][2..];
    assert Words(d) == [0xf7f6] + Words(d[2..]) == [0xf7f6];
    assert Words(c) == [0xf5f4] + Words(d);
    assert Words(b) == [0x03f2] + Words(c);
    assert Words(a) == [0x0100] + Words(b);
    assert WideSum(Words(d)) == 0xf7f6;
    assert WideSum(Words(c)) == 0x1_edea;
    assert WideSum(Words(b)) == 0x1_f1dc;
    assert WideSum(Words(a)) == 0x1_f2dc;
    assert Residue(0x1_f2dc) == 0xf2dd;
    ChecksumIsResidue(a);
  }
}
