/** The block framing of rsa.c: `rsa_encrypt_file` cuts the input into chunks
    of k - 1 bytes, puts 0xFF in front of each, reads the block as a
    big-endian integer and prints its encryption in hexadecimal, one per line;
    `rsa_decrypt_file` scans the lines back, decrypts, exports the integer to
    bytes and writes all but the first byte (the 0xFF for blocks written by
    the encrypt loop; the byte is not checked). Files are byte sequences and
    texts. End-of-file while encrypting is a read that returns fewer than
    k - 1 bytes; while decrypting it is the scan having consumed the rest of
    the text. */
module RsaFile {
  import opened Arith
  import opened NumTheory
  import opened Bytes
  import opened Hex
  import opened Rsa

  /** `mpz_sizeinbase(n, 2)`: the number of binary digits of n, 1 for zero. */
  function SizeInBase2(n: nat): (b: nat)
    ensures b >= 1
    ensures n > 0 ==> Pow(2, b - 1) <= n < Pow(2, b)
    decreases n
  {
    if n < 2 then 1
    else
      var b := SizeInBase2(n / 2);
      assert Pow(2, b) == 2 * Pow(2, b - 1);
      b + 1
  }

  /** The block size k: the number of whole bytes below the top bit of n, so
      that 2^(8k) never exceeds a positive n. */
  function BlockSize(n: nat): (k: nat)
    ensures n > 0 ==> Pow(2, 8 * k) <= n
  {
    var b := SizeInBase2(n);
    var k := (b - 1) / 8;
    PowMonotone(2, 8 * k, b - 1);
    k
  }

  /** The integer of one block: 0xFF followed by the chunk, big-endian. */
  function BlockValue(chunk: seq<Byte>): nat
  {
    FromBytes([0xFF] + chunk)
  }

  /** A block holding at most k - 1 payload bytes lies strictly between 0 and n. */
  lemma BlockBelowModulus(n: nat, chunk: seq<Byte>)
    requires BlockSize(n) >= 1 && |chunk| <= BlockSize(n) - 1
    ensures 0 < BlockValue(chunk) < n
  {
    var k := BlockSize(n);
    var b := SizeInBase2(n);
    FromBytesLeading([0xFF] + chunk);
    PowPositive(256, |chunk|);
    PowMonotone(256, |chunk| + 1, k);
    PowMul(2, 8, k);
    assert Pow(2, 8) == 256;
    assert 8 * k <= b - 1;
    PowMonotone(2, 8 * k, b - 1);
    assert n > 0;
  }

  /** Exporting a block gives back 0xFF and the chunk. */
  lemma BlockExport(chunk: seq<Byte>)
    ensures ToBytes(BlockValue(chunk)) == [0xFF] + chunk
  {
    ToFromBytes([0xFF] + chunk);
  }

  // ---------------------------------------------------------------------
  // Chunking of the input stream

  /** The successive `fread` results of k - 1 = w bytes until end-of-file: the
      stream is cut into full chunks, and the read that comes up short ends
      the loop, so an exact multiple of w still yields a final empty chunk. */
  function Chunks(x: seq<Byte>, w: nat): (chs: seq<seq<Byte>>)
    requires w > 0
    ensures |chs| > 0 && |chs[|chs| - 1]| < w
    decreases |x|
  {
    if |x| < w then [x] else [x[..w]] + Chunks(x[w..], w)
  }

  function Flatten(chs: seq<seq<Byte>>): seq<Byte>
  {
    if |chs| == 0 then [] else chs[0] + Flatten(chs[1..])
  }

  /** L bytes give L / w + 1 chunks: all full but the last, which holds
      L mod w bytes; together they are the input. */
  lemma {:induction false} ChunksShape(x: seq<Byte>, w: nat)
    requires w > 0
    ensures |Chunks(x, w)| == |x| / w + 1
    ensures forall i :: 0 <= i < |Chunks(x, w)| - 1 ==> |Chunks(x, w)[i]| == w
    ensures |Chunks(x, w)[|Chunks(x, w)| - 1]| == |x| % w
    ensures Flatten(Chunks(x, w)) == x
    decreases |x|
  {
    if |x| < w {
      DivModUnique(|x|, w, 0, |x|);
      assert Flatten([x]) == x + Flatten([]);
    } else {
      ChunksShape(x[w..], w);
      DivModUnique(|x|, w, |x[w..]| / w + 1, |x[w..]| % w);
      var chs := Chunks(x, w);
      assert chs[1..] == Chunks(x[w..], w);
      assert x[..w] + x[w..] == x;
    }
  }

  // ---------------------------------------------------------------------
  // rsa_encrypt_file (rsa.c:94-119)

  /** The ciphertext integers of a sequence of chunks. */
  function EncryptBlocks(chs: seq<seq<Byte>>, e: nat, n: nat): seq<nat>
    requires n > 0
  {
    if |chs| == 0 then [] else [ModPow(BlockValue(chs[0]), e, n)] + EncryptBlocks(chs[1..], e, n)
  }

  /** The text rsa_encrypt_file writes for the input x. */
  function EncryptText(x: seq<Byte>, n: nat, e: nat): string
    requires BlockSize(n) >= 2
  {
    HexLines(EncryptBlocks(Chunks(x, BlockSize(n) - 1), e, n))
  }

  /** `fread` of a chunk into the block buffer behind its first byte. */
  method ReadInto(block: array<Byte>, chunk: seq<Byte>)
    requires |chunk| < block.Length
    modifies block
    ensures block[0] == old(block[0])
    ensures block[..|chunk| + 1] == [old(block[0])] + chunk
    ensures block[|chunk| + 1..] == old(block[|chunk| + 1..])
  {
    forall t | 0 <= t < |chunk| {
      block[1 + t] := chunk[t];
    }
    assert forall t :: 1 <= t < |chunk| + 1 ==> block[t] == chunk[t - 1];
  }

  /** One read of j bytes from the unread stream: the next chunk, and the
      last one exactly when the read comes up short. */
  lemma EncryptStep(rest: seq<Byte>, w: nat, j: nat, e: nat, n: nat)
    requires w > 0 && n > 0
    requires j == if |rest| < w then |rest| else w
    ensures var c := ModPow(BlockValue(rest[..j]), e, n);
      if j < w then EncryptBlocks(Chunks(rest, w), e, n) == [c]
      else EncryptBlocks(Chunks(rest, w), e, n) == [c] + EncryptBlocks(Chunks(rest[j..], w), e, n)
  {
    if j == w {
      var chs := Chunks(rest, w);
      assert chs == [rest[..w]] + Chunks(rest[w..], w);
      assert chs[1..] == Chunks(rest[w..], w);
    } else {
      assert rest[..j] == rest;
    }
  }

  /** One more block keeps the loop's account: the ciphertexts so far followed
      by those of the unread stream are those of the whole input. */
  lemma EncryptProgress(rest: seq<Byte>, w: nat, e: nat, n: nat, cs: seq<nat>, all: seq<nat>, j: nat, c: nat)
    requires w > 0 && n > 0
    requires cs + EncryptBlocks(Chunks(rest, w), e, n) == all
    requires j == if |rest| < w then |rest| else w
    requires c == ModPow(BlockValue(rest[..j]), e, n)
    ensures j < w ==> cs + [c] == all
    ensures j == w ==> (cs + [c]) + EncryptBlocks(Chunks(rest[j..], w), e, n) == all
  {
    EncryptStep(rest, w, j, e, n);
    var tail := EncryptBlocks(Chunks(rest[j..], w), e, n);
    assert (cs + [c]) + tail == cs + ([c] + tail);
  }

  /** One pass of the loop: read the chunk behind the kept 0xFF, import the
      block as an integer and encrypt it. */
  method EncryptChunk(block: array<Byte>, chunk: seq<Byte>, e: nat, n: nat) returns (c: nat)
    requires n > 0 && |chunk| < block.Length && block[0] == 0xFF
    modifies block
    ensures block[0] == 0xFF
    ensures block[..|chunk| + 1] == [0xFF] + chunk
    ensures block[|chunk| + 1..] == old(block[|chunk| + 1..])
    ensures c == ModPow(BlockValue(chunk), e, n)
  {
    ReadInto(block, chunk);
    var m := FromBytes(block[..|chunk| + 1]);
    c := Encrypt(m, e, n);
  }

  /** Reads k - 1 bytes at a time behind the fixed 0xFF in a k-byte buffer,
      encrypts the block and prints it, until a read comes up short. */
  method EncryptFile(input: seq<Byte>, n: nat, e: nat) returns (out: string)
    requires BlockSize(n) >= 2
    ensures out == EncryptText(input, n, e)
  {
    var k := BlockSize(n);
    var w := k - 1;
    var block := new Byte[k];
    block[0] := 0xFF;
    var rest := input;
    var eof := false;
    out := "";
    ghost var all := EncryptBlocks(Chunks(input, w), e, n);
    ghost var cs: seq<nat> := [];
    while !eof
      invariant block.Length == k && block[0] == 0xFF
      invariant out == HexLines(cs)
      invariant !eof ==> cs + EncryptBlocks(Chunks(rest, w), e, n) == all
      invariant eof ==> cs == all
      decreases |rest| + (if eof then 0 else 1)
    {
      var j := if |rest| < w then |rest| else w;
      var c := EncryptChunk(block, rest[..j], e, n);
      EncryptProgress(rest, w, e, n, cs, all, j, c);
      HexLinesAppend(cs, c);
      cs := cs + [c];
      out := out + HexLine(c);
      eof := j < w;
      rest := rest[j..];
    }
  }

  // ---------------------------------------------------------------------
  // rsa_decrypt_file (rsa.c:129-145)

  /** Every scanned ciphertext decrypts to a non-zero integer of at most k
      bytes: otherwise the export overflows the buffer, or the byte count
      j - 1 wraps around. */
  predicate Decodable(cs: seq<nat>, d: nat, n: nat)
    requires n > 0
  {
    forall i :: 0 <= i < |cs| ==>
      ModPow(cs[i], d, n) > 0 && |ToBytes(ModPow(cs[i], d, n))| <= BlockSize(n)
  }

  /** The bytes rsa_decrypt_file writes: each decryption exported, minus its first byte. */
  function DecryptBlocks(cs: seq<nat>, d: nat, n: nat): seq<Byte>
    requires n > 0 && Decodable(cs, d, n)
  {
    if |cs| == 0 then [] else ToBytes(ModPow(cs[0], d, n))[1..] + DecryptBlocks(cs[1..], d, n)
  }

  /** A successful scan of the next line yields the next number. */
  lemma ScanStep(rest: string, remaining: seq<nat>)
    requires |rest| > 0 && ScanAll(rest) == Some(remaining)
    ensures ScanHex(rest).0.Some? && |remaining| > 0
    ensures remaining[0] == ScanHex(rest).0.value
    ensures ScanAll(ScanHex(rest).1) == Some(remaining[1..])
  {
  }

  /** Writing the next decrypted block keeps the loop's account. */
  lemma DecryptProgress(remaining: seq<nat>, d: nat, n: nat, out: seq<Byte>, all: seq<Byte>)
    requires n > 0 && |remaining| > 0 && Decodable(remaining, d, n)
    requires out + DecryptBlocks(remaining, d, n) == all
    ensures ModPow(remaining[0], d, n) > 0 && |ToBytes(ModPow(remaining[0], d, n))| <= BlockSize(n)
    ensures Decodable(remaining[1..], d, n)
    ensures (out + ToBytes(ModPow(remaining[0], d, n))[1..]) + DecryptBlocks(remaining[1..], d, n) == all
  {
    var rest := remaining[1..];
    assert Decodable(rest, d, n) by {
      forall i | 0 <= i < |rest|
        ensures ModPow(rest[i], d, n) > 0 && |ToBytes(ModPow(rest[i], d, n))| <= BlockSize(n)
      {
        assert rest[i] == remaining[i + 1];
      }
    }
    var piece := ToBytes(ModPow(remaining[0], d, n))[1..];
    var tail := DecryptBlocks(rest, d, n);
    assert DecryptBlocks(remaining, d, n) == piece + tail;
    assert (out + piece) + tail == out + (piece + tail);
  }

  /** `mpz_export` of the decrypted integer into the start of the buffer. */
  method ExportInto(block: array<Byte>, bytes: seq<Byte>)
    requires |bytes| <= block.Length
    modifies block
    ensures block[..|bytes|] == bytes
    ensures block[|bytes|..] == old(block[|bytes|..])
  {
    forall t | 0 <= t < |bytes| {
      block[t] := bytes[t];
    }
  }

  /** Scans one hex line at a time until the text is used up, decrypts it,
      exports it into the k-byte buffer and writes the bytes after the first. */
  method DecryptFile(text: string, n: nat, d: nat) returns (out: seq<Byte>)
    requires n > 0 && |text| > 0
    requires ScanAll(text).Some? && Decodable(ScanAll(text).value, d, n)
    ensures out == DecryptBlocks(ScanAll(text).value, d, n)
  {
    var k := BlockSize(n);
    var block := new Byte[k];
    var rest := text;
    out := [];
    ghost var all := DecryptBlocks(ScanAll(text).value, d, n);
    ghost var remaining := ScanAll(text).value;
    while rest != []
      invariant block.Length == k
      invariant ScanAll(rest) == Some(remaining) && Decodable(remaining, d, n)
      invariant out + DecryptBlocks(remaining, d, n) == all
      decreases |rest|
    {
      ScanStep(rest, remaining);
      DecryptProgress(remaining, d, n, out, all);
      var (cv, r2) := ScanHex(rest);
      var c := cv.value;
      var m := Decrypt(c, d, n);
      var bytes := ToBytes(m);
      var j := |bytes|;
      ExportInto(block, bytes);
      assert block[1..j] == bytes[1..];
      out := out + block[1..j];
      rest := r2;
      remaining := remaining[1..];
    }
  }

  // ---------------------------------------------------------------------
  // The round trip

  /** Decrypting the encryption of well-sized chunks gives back their bytes. */
  lemma {:induction false} BlocksRoundTrip(chs: seq<seq<Byte>>, p: nat, q: nat, e: nat, d: nat)
    requires Prime(p) && Prime(q) && p != q && (e * d) % Lambda(p, q) == 1
    requires BlockSize(p * q) >= 2
    requires forall i :: 0 <= i < |chs| ==> |chs[i]| <= BlockSize(p * q) - 1
    ensures Decodable(EncryptBlocks(chs, e, p * q), d, p * q)
    ensures DecryptBlocks(EncryptBlocks(chs, e, p * q), d, p * q) == Flatten(chs)
    decreases |chs|
  {
    var n := p * q;
    if |chs| > 0 {
      var ch := chs[0];
      BlocksRoundTrip(chs[1..], p, q, e, d);
      BlockBelowModulus(n, ch);
      RsaCorrect(p, q, e, d, BlockValue(ch));
      BlockExport(ch);
      var cs := EncryptBlocks(chs, e, n);
      assert cs[1..] == EncryptBlocks(chs[1..], e, n);
      assert ([0xFF] + ch)[1..] == ch;
    }
  }

  /** When the ciphertexts of the chunks decrypt back to x, so does the text
      rsa_encrypt_file writes, once scanned. */
  lemma TextRoundTrip(x: seq<Byte>, n: nat, e: nat, d: nat)
    requires BlockSize(n) >= 2
    requires var cs := EncryptBlocks(Chunks(x, BlockSize(n) - 1), e, n);
      Decodable(cs, d, n) && DecryptBlocks(cs, d, n) == x
    ensures var text := EncryptText(x, n, e);
      |text| > 0 && ScanAll(text).Some? && Decodable(ScanAll(text).value, d, n) &&
      DecryptBlocks(ScanAll(text).value, d, n) == x
  {
    var cs := EncryptBlocks(Chunks(x, BlockSize(n) - 1), e, n);
    assert |cs| > 0;
    ScanAllHexLines(cs);
  }

  /** decrypt_file(encrypt_file(x)) == x for a key built from distinct primes
      with e * d == 1 modulo lambda(n), whenever n has room for a 2-byte block. */
  lemma FileRoundTrip(x: seq<Byte>, p: nat, q: nat, e: nat, d: nat)
    requires Prime(p) && Prime(q) && p != q && (e * d) % Lambda(p, q) == 1
    requires BlockSize(p * q) >= 2
    ensures var text := EncryptText(x, p * q, e);
      |text| > 0 && ScanAll(text).Some? && Decodable(ScanAll(text).value, d, p * q) &&
      DecryptBlocks(ScanAll(text).value, d, p * q) == x
  {
    var n := p * q;
    var w := BlockSize(n) - 1;
    var chs := Chunks(x, w);
    ChunksShape(x, w);
    BlocksRoundTrip(chs, p, q, e, d);
    TextRoundTrip(x, n, e, d);
  }
}
