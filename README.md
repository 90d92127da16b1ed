# RSA key generation, encryption and signing — a Dafny model

This project models the core of a small RSA tool written in C on top of GMP.

- The number-theory library `numtheory.c` provides:
  - Euclid's gcd and the lcm;
  - the extended-Euclid modular inverse;
  - square-and-multiply modular exponentiation;
  - the Miller-Rabin primality test;
  - a random prime search.
- The RSA engine `rsa.c` provides:
  - key derivation (the public exponent e, and d = e^-1 mod lcm(p-1, q-1));
  - the raw encrypt, decrypt, sign and verify primitives;
  - the block framing that turns a byte file into a text of hexadecimal ciphertexts, and back;
  - the text records of the public and private key files.

Big integers are mathematical integers (`nat`). Each C routine that works by a loop over local variables is a Dafny method. Every such method is proved against a specification function:
- `ModPow` for the exponentiation;
- `Gcd` and `Lcm` for Euclid;
- `Accepts` for the test;
- `FoundPrime` for the search;
- `EncryptText` and `DecryptBlocks` for the file loops.

The randomness the C code draws is an explicit input:
- the generator behind `mpz_urandomm` and `mpz_urandomb`;
- the C library's `random()`.

The proofs do not assume RSA correctness. It is proved from Fermat's little theorem, which is itself proved through the binomial theorem, together with the fact that two distinct primes dividing x means their product divides x. On top of that:
- a signature made with d passes verification with e;
- decrypting an encrypted file gives the file back.

Modules, one per file:
- `Arith` (arith.dfy): powers, remainders, divisibility, gcd, Bezout, primes.
- `Fermat` (fermat.dfy): the binomial theorem, Fermat's little theorem, square roots of 1 modulo a prime.
- `NumTheory` (numtheory.dfy): the routines of numtheory.c.
- `Bytes` (bytes.dfy): big-endian import and export (`mpz_import`, `mpz_export`).
- `Hex` (hex.dfy): `%Zx` printing, and `%Zx` / `%s` scanning with the semantics of `scanf`.
- `Rsa` (rsa.dfy): key derivation, the primitives, RSA correctness.
- `RsaFile` (rsa_file.dfy): `rsa_encrypt_file` and `rsa_decrypt_file`.
- `RsaRecords` (rsa_records.dfy): the key-file records.

How the streams are modelled:
- An input file is a byte sequence and an output file is its final contents.
- In `rsa_encrypt_file` the end-of-file flag becomes "the last read returned fewer than k - 1 bytes", which is when `feof` is set after `fread`. The loop therefore always emits one more block than there are full chunks. When the input length is a multiple of k - 1, the last block is empty (0xFF alone).
- In `rsa_decrypt_file` the end-of-file flag becomes "the scan, through its `\n` directive, consumed the rest of the text".
- A `scanf` conversion that fails stores nothing, so a reader keeps the values it held before the call. The readers take those prior values as an input.

## Model

| member | source | states |
|---|---|---|
| NumTheory.ComputeGcd | numtheory.c:12-26 | the result is gcd(a, b): a common divisor of a and b that every common divisor divides, and gcd(a, 0) = a |
| NumTheory.LcmProperties | numtheory.c:28-38 | lcm(a, b) · gcd(a, b) = a · b when a and b are not both zero; a and b divide it; it is positive when both are |
| NumTheory.CeilDivExact | numtheory.c:35 | the ceiling division of a multiple of g by g is exact |
| NumTheory.CeilDiv | numtheory.c:35 | `mpz_cdiv_q` rounds up: q·y ≥ x > (q − 1)·y |
| NumTheory.ComputeLcm | numtheory.c:28-38 | the result times gcd(a, b) is a · b, and it is a common multiple of a and b |
| NumTheory.GcdStep | numtheory.c:50-55 | one step r' := r − ⌊r/r'⌋·r' computes r mod r' and keeps gcd(r, r') |
| NumTheory.EuclidStep | numtheory.c:49-62 | one loop step keeps r = t·a + s·n and r' = t'·a + s'·n, with t and t' of opposite signs and \|t\| ≤ n |
| NumTheory.EuclidPass | numtheory.c:50-61 | one pass of the loop sets (r, r') to (r', r mod r') and t to t', and keeps the gcd and the Bezout relations |
| NumTheory.EuclidOutcome | numtheory.c:63-71 | when the loop stops, r = gcd(a, n); if it is 1 and n > 1, t moved into [0, n) is a non-zero inverse of a modulo n |
| NumTheory.InverseRange | numtheory.c:68-71 | a Bezout coefficient of size at most n, shifted by n when negative, is an inverse of a in (0, n) |
| NumTheory.ModInverse | numtheory.c:40-74 | returns 0 when gcd(a, n) > 1; otherwise, for n > 1, returns o with 0 < o < n and a·o mod n = 1, also when a > n; for n > 1, o is non-zero exactly when a is invertible |
| NumTheory.SquareMultiplyStep | numtheory.c:108-116 | one step of the loop keeps v · p^dd ≡ a^d (mod n) |
| NumTheory.PowMod | numtheory.c:101-118 | the result is a^d mod n for d > 0, and exactly 1, unreduced, for d = 0 |
| NumTheory.PowModExample | numtheory.c:101-118 | pow_mod(4, 13, 497) = 445, and pow_mod(7, 0, 1) = 1 |
| NumTheory.TwoAdic | numtheory.c:124-130 | n − 1 = 2^s · r with r odd |
| NumTheory.TrailPow | numtheory.c:140-147 | the j-th value of y in a round is a^(2^j · r) mod n |
| NumTheory.OneBeforeMinusOne | numtheory.c:145-152 | when a squaring gives 1 before n − 1 has been seen, the witness exposes n |
| NumTheory.PrimePassesRound | numtheory.c:140-159 | a prime passes every round, whatever witness 0 < a < n is drawn |
| NumTheory.PrimeAccepted | numtheory.c:132-164 | a prime passes the whole test for every choice of in-range witnesses |
| NumTheory.IsPrime | numtheory.c:120-165 | the result is true exactly when every round passes; a prime is never rejected |
| NumTheory.FirstAccepted | numtheory.c:173-179 | the first candidate that passes the test; none before it passes |
| NumTheory.TryCandidate | numtheory.c:174-176 | one pass of the search: candidate i plus 2^bits, which stays below 2^(bits+1), and whether the test accepts it |
| NumTheory.MakePrime | numtheory.c:168-183 | the result is the first accepted candidate plus 2^bits, the number `FoundPrime` names |
| NumTheory.FoundPrimeRange | numtheory.c:172-175 | the number found lies in [2^bits, 2^(bits+1)), so it has bits + 1 bits |
| NumTheory.FoundPrimeAccepted | numtheory.c:176-180 | the number found passed the test with its own witness draws |
| NumTheory.RejectedNotPrime | numtheory.c:173-179 | a candidate the search rejected is composite |
| Rsa.SplitBits | rsa.c:14-17 | nbits/4 ≤ p_bits ≤ 3·nbits/4, and p_bits + q_bits = nbits |
| Rsa.Lambda | rsa.c:22-29 | lcm(p − 1, q − 1) is positive and a multiple of both p − 1 and q − 1 |
| Rsa.FirstCoprime | rsa.c:31-34 | the first candidate for e that is coprime to lambda; none before it is |
| Rsa.ProductBits | rsa.c:18-20 | a product of numbers of at least 2^a and 2^b is at least 2^(a+b) |
| Rsa.ChooseExponent | rsa.c:31-34 | the loop returns the first draw coprime to lambda; the gcd starts at 0, so at least one draw is made |
| Rsa.MakePub | rsa.c:12-39 | p and q are the primes the searches find; n = p·q ≥ 2^nbits; e < 2^nbits; gcd(e, lambda) = 1, and e is the first coprime draw |
| Rsa.MakePriv | rsa.c:58-74 | d = 0 when gcd(e, lambda) > 1; otherwise 0 < d < lambda and e·d ≡ 1 (mod lambda), for lambda > 1 |
| Rsa.LambdaAboveOne | rsa.c:58-74 | for distinct primes lambda > 1, so the inverse clause of MakePriv applies |
| Rsa.Encrypt | rsa.c:88-92 | c = m^e mod n |
| Rsa.Decrypt | rsa.c:122-126 | m = c^d mod n |
| Rsa.Sign | rsa.c:148-152 | s = m^d mod n |
| Rsa.Verify | rsa.c:154-165 | true exactly when s^e mod n = m; always false when m ≥ n and e > 0 |
| Rsa.PowCongruentPrime | rsa.c:88-92 | m^(lambda·k + 1) ≡ m modulo each prime factor p, where p − 1 divides lambda |
| Rsa.RsaCorrect | rsa.c:122-126 | for distinct primes with e·d ≡ 1 (mod lambda), decrypting the encryption of any m < n gives m back |
| Rsa.SignVerifies | rsa.c:148-165 | under the same key condition, a signature of any m < n passes verification |
| RsaFile.SizeInBase2 | rsa.c:100 | `mpz_sizeinbase(n, 2)` is the number b of binary digits: 2^(b−1) ≤ n < 2^b |
| RsaFile.BlockSize | rsa.c:100 | the block size k = (bits of n − 1) / 8 satisfies 2^(8k) ≤ n for n > 0 |
| RsaFile.Chunks | rsa.c:107-110 | the successive reads of k − 1 bytes: at least one chunk, and the last one is short, which is what ends the loop |
| RsaFile.BlockBelowModulus | rsa.c:100-111 | a block 0xFF followed by at most k − 1 bytes denotes an integer m with 0 < m < n |
| RsaFile.BlockExport | rsa.c:139-140 | exporting a block's integer gives 0xFF followed by exactly the payload |
| RsaFile.ChunksShape | rsa.c:107-114 | an input of L bytes gives L/(k−1) + 1 chunks; all but the last are full; the last has L mod (k−1) bytes, possibly none; together they are the input |
| RsaFile.ReadInto | rsa.c:110 | `fread` into block + 1 places the chunk after the kept 0xFF and leaves the rest of the buffer alone |
| RsaFile.EncryptChunk | rsa.c:110-112 | one pass leaves the buffer holding 0xFF followed by the chunk, with the bytes after them unchanged, and returns the encryption of that block's integer |
| RsaFile.EncryptProgress | rsa.c:107-114 | one pass of the loop moves one chunk from the unread input to the output, or ends the loop on a short read |
| RsaFile.EncryptFile | rsa.c:94-119 | the output text is the lines of the encrypted 0xFF-prefixed chunks, one per line |
| RsaFile.ScanStep | rsa.c:137 | one `%Zx\n` scan of a well-formed text reads its first number and leaves the rest |
| RsaFile.DecryptProgress | rsa.c:136-141 | one pass of the loop writes one decrypted payload, which fits the block |
| RsaFile.ExportInto | rsa.c:139 | `mpz_export` into the block writes the exported bytes at its start and leaves the rest of the buffer unchanged |
| RsaFile.DecryptFile | rsa.c:129-145 | the output is the exported decryptions of the scanned numbers, each without its first byte (the 0xFF for blocks written by the encrypt loop; the byte is not checked) |
| RsaFile.BlocksRoundTrip | rsa.c:110-111 | decrypting the encryption of a sequence of framed chunks gives their concatenation |
| RsaFile.TextRoundTrip | rsa.c:113-137 | when the ciphertexts of the chunks decrypt back to x, the text the encrypt loop prints is non-empty, scans back to those ciphertexts and decrypts to x |
| RsaFile.FileRoundTrip | rsa.c:94-145 | for a key from distinct primes with e·d ≡ 1 (mod lambda) and room for 2-byte blocks, decrypt_file(encrypt_file(x)) = x for every byte string x |
| Hex.ToHex | rsa.c:44 | `%Zx` printing gives a non-empty digit string that starts with 0 exactly when the number is 0 |
| Hex.HexLine | rsa.c:113 | a `%Zx\n` line starts with a hex digit and ends with its newline |
| Hex.ScanHex | rsa.c:52 | a `%Zx\n` conversion consumes a prefix of the text and leaves it at a non-space character or at its end; it fails exactly when no hex digit follows the leading white space, and then stores nothing and stops after that white space; a successful one consumes at least one character |
| Hex.ScanWord | rsa.c:54 | a `%s\n` conversion never grows the unread text and leaves it at a non-space character or at its end; it fails exactly when only white space is left; a word it reads is non-empty and free of white space |
| Hex.ScanAll | rsa.c:136-137 | the repeated scans of the end-of-file loop read at most one number per character of text |
| Hex.FromToHex | rsa.c:44 | a number printed with `%Zx` reads back as the same number |
| Hex.ScanHexPrinted | rsa.c:52 | a `%Zx\n` conversion of a printed number followed by a newline returns that number and stops at the next field |
| Hex.ScanWordPrinted | rsa.c:54 | a `%s\n` conversion of a printed word followed by a newline returns that word |
| Hex.ScanAllPrinted | rsa.c:136-137 | a printed line in front of a text that scans to vs makes the text scan to [x] + vs |
| Hex.ScanAllHexLines | rsa.c:136-137 | repeated `%Zx\n` scans of printed lines give every number back, in order |
| Hex.HexLinesAppend | rsa.c:113 | printing one more ciphertext line appends that line to the text |
| Bytes.FromBytes | rsa.c:111 | `mpz_import` of j big-endian bytes gives an integer below 256^j |
| Bytes.ToBytes | rsa.c:139 | `mpz_export` gives no bytes exactly for zero, and otherwise a first byte that is not zero |
| Bytes.FromToBytes | rsa.c:139 | exporting and then importing a number gives it back |
| Bytes.ToFromBytes | rsa.c:111 | importing and then exporting a byte string with a non-zero first byte gives it back |
| Bytes.ToBytesLength | rsa.c:139 | a number in [256^j, 256^(j+1)) exports to j + 1 bytes |
| RsaRecords.WritePub | rsa.c:42-48 | the public record starts with a hex digit and ends with a newline |
| RsaRecords.ReadPub | rsa.c:50-56 | when the first number does not scan, n, e and s keep their prior values |
| RsaRecords.ReadWritePub | rsa.c:42-56 | reading a written public record returns the same n, e, s and user name, for a non-empty user name without white space, whatever the reader held before |
| RsaRecords.ReadPubNoNumber | rsa.c:50-56 | a file without a leading number keeps n, e and s; the user name is then read from the start of the file |
| RsaRecords.WritePriv | rsa.c:76-80 | the private record starts with a hex digit and ends with a newline |
| RsaRecords.ReadPriv | rsa.c:82-86 | when the first number does not scan, the reader's n and d are kept |
| RsaRecords.ReadWritePriv | rsa.c:76-86 | reading a written private record returns the same n and d |
| Fermat.FermatLittle | numtheory.c:140-159 | a^(p−1) ≡ 1 (mod p) for a prime p not dividing a, on which the test's soundness for primes rests |
| Fermat.SquareRootOfOne | numtheory.c:145-152 | modulo a prime, only 1 and p − 1 square to 1 |

## Left out

- Negative arguments. Every caller passes non-negative integers, so the model uses `nat` throughout. The sign handling of `mpz_mod`, `mpz_fdiv_q`, `mpz_abs` and `mpz_cdiv_q` for negative operands is not modelled.
- Randomness and probability. The draws of `mpz_urandomm`, `mpz_urandomb` and `random()` are inputs:
  - `PrimeDraws` holds the candidates and the witness draws of each test;
  - `KeyDraws` holds the split draw, the two prime searches and the e candidates.
- The 4^−iters error bound of the test is not stated.
- The resampling loops of `make_prime` and of the e search in `rsa_make_pub` run forever unless some draw succeeds. The model requires that one does (`SearchSucceeds`, `KeyGenSucceeds`).
- Rsa.MakePub: does not ensure p ≠ q, because the C code does not check it. RSA correctness (Rsa.RsaCorrect, RsaFile.FileRoundTrip) is stated for distinct primes.
- NumTheory.IsPrime: requires n ≥ 2, because for n = 1 the halving loop never ends. It requires the witness draws to lie in [0, n − 4), which is what `mpz_urandomm` with bound n − 4 produces; with at least one round this needs n ≥ 5. With zero rounds every n ≥ 2 is accepted, as in the C code.
- `uint64_t` arithmetic. The computation of `nbits * 3` in `rsa_make_pub` could wrap around for enormous nbits; the model uses unbounded integers.
- The username buffer. `%s` into a fixed buffer could overflow; the model reads a string of any length.
- GMP memory management. Initialising and clearing variables, the temporaries that leak on some return paths, and `pow_mod` never clearing its temporaries are not modelled.
- The commented-out first version of `pow_mod` (numtheory.c:75-99) is not modelled.
- Text forms that `%Zx` accepts beyond a plain digit run are not modelled: a sign, and a `0x` prefix.
- RsaFile.DecryptFile: requires a non-empty text in which every scan succeeds and every decrypted block fits the buffer and is non-zero. Other inputs are not modelled. On some of them the C loop never reaches end of file, exports past the buffer, or computes j − 1 for j = 0. Others are well-defined: for an empty text the scan fails, c keeps its initial 0, and with d = 0 (the sentinel of `rsa_make_priv`) m = 1 exports to one byte and nothing is written.
- RsaFile.EncryptFile: requires a modulus of at least 17 bits (block size at least 2). For smaller moduli the C code reads zero bytes per pass and never terminates, or allocates a zero-size block.
- Rsa.Encrypt, Rsa.Decrypt, Rsa.Sign, Rsa.Verify, Rsa.MakePriv: these are methods rather than functions, because they call the pow_mod, lcm and mod_inverse loops, which are methods. Their contracts tie them to `ModPow` and `Lambda`.
- The command-line programs (keygen.c, encrypt.c, decrypt.c) are not part of this model. They only wire these routines together and handle options, files, permissions and printing.
