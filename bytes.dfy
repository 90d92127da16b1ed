/** Big-endian conversion between byte strings and integers, as the file
    framing does it with `mpz_import` and `mpz_export` (word size 1, most
    significant word first). */
module Bytes {
  import opened Arith

  /** An octet of a file or of the block buffer. */
  type Byte = b: int | 0 <= b < 256

  /** The integer a byte string denotes, most significant byte first. */
  function FromBytes(bs: seq<Byte>): (x: nat)
    ensures x < Pow(256, |bs|)
    decreases |bs|
  {
    if |bs| == 0 then 0
    else
      var init := bs[..|bs| - 1];
      var y := FromBytes(init);
      assert (y + 1) * 256 <= Pow(256, |init|) * 256;
      y * 256 + bs[|bs| - 1]
  }

  /** The shortest big-endian byte string of x; zero exports to no bytes at all. */
  function ToBytes(x: nat): (bs: seq<Byte>)
    ensures |bs| == 0 <==> x == 0
    ensures |bs| > 0 ==> bs[0] != 0
    decreases x
  {
    if x == 0 then [] else ToBytes(x / 256) + [x % 256]
  }

  /** Prepending a byte b adds b * 256^|bs|. */
  lemma {:induction false} FromBytesPrepend(b: Byte, bs: seq<Byte>)
    ensures FromBytes([b] + bs) == b * Pow(256, |bs|) + FromBytes(bs)
    decreases |bs|
  {
    if |bs| > 0 {
      var init := bs[..|bs| - 1];
      assert ([b] + bs)[..|bs|] == [b] + init;
      FromBytesPrepend(b, init);
      var w := Pow(256, |init|);
      assert FromBytes([b] + bs) == (b * w + FromBytes(init)) * 256 + bs[|bs| - 1];
      assert Pow(256, |bs|) == 256 * w;
      MulAssoc(b, w, 256);
      MulComm(w, 256);
    }
  }

  /** A string with a non-zero first byte denotes at least 256^(j-1). */
  lemma FromBytesLeading(bs: seq<Byte>)
    requires |bs| > 0 && bs[0] != 0
    ensures FromBytes(bs) >= Pow(256, |bs| - 1)
  {
    assert bs == [bs[0]] + bs[1..];
    FromBytesPrepend(bs[0], bs[1..]);
    PowPositive(256, |bs| - 1);
    MulAtLeast(Pow(256, |bs| - 1), bs[0]);
    MulComm(Pow(256, |bs| - 1), bs[0]);
  }

  /** Exporting then importing gives the number back. */
  lemma {:induction false} FromToBytes(x: nat)
    ensures FromBytes(ToBytes(x)) == x
    decreases x
  {
    if x > 0 {
      FromToBytes(x / 256);
      var bs := ToBytes(x);
      assert bs[..|bs| - 1] == ToBytes(x / 256);
    }
  }

  /** Importing then exporting gives the bytes back, unless they carry a leading zero. */
  lemma {:induction false} ToFromBytes(bs: seq<Byte>)
    requires |bs| == 0 || bs[0] != 0
    ensures ToBytes(FromBytes(bs)) == bs
    decreases |bs|
  {
    if |bs| > 0 {
      var init := bs[..|bs| - 1];
      var x := FromBytes(bs);
      FromBytesLeading(bs);
      PowPositive(256, |bs| - 1);
      assert x > 0;
      DivModUnique(x, 256, FromBytes(init), bs[|bs| - 1]);
      ToFromBytes(init);
      assert ToBytes(x) == ToBytes(FromBytes(init)) + [bs[|bs| - 1]];
    }
  }

  /** The length of an export is fixed by the size of the number. */
  lemma ToBytesLength(x: nat, j: nat)
    requires Pow(256, j) <= x < Pow(256, j + 1)
    ensures |ToBytes(x)| == j + 1
  {
    var bs := ToBytes(x);
    FromToBytes(x);
    PowPositive(256, j);
    if |bs| <= j {
      PowMonotone(256, |bs|, j);
      assert false;
    }
    FromBytesLeading(bs);
    if |bs| > j + 1 {
      PowMonotone(256, j + 1, |bs| - 1);
      assert false;
    }
  }
}
