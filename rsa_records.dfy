/** The key files of rsa.c: the public record (n, e, the signature s and the
    user name) and the private record (n, d), written with `%Zx\n` and `%s\n`
    and read back with the same formats. A conversion that fails stores
    nothing, so the variable keeps the value it held before the read; the
    reader's earlier values are therefore an input here. */
module RsaRecords {
  import opened Hex

  /** The contents of a public key file. */
  datatype PubKey = PubKey(n: nat, e: nat, s: nat, username: string)

  /** The contents of a private key file. */
  datatype PrivKey = PrivKey(n: nat, d: nat)

  // ---------------------------------------------------------------------
  // rsa_write_pub / rsa_read_pub (rsa.c:42-56)

  /** n, e and s in hexadecimal, then the user name, one per line. */
  function WritePub(k: PubKey): (text: string)
    ensures |text| > 0 && text[|text| - 1] == '\n'
    ensures IsHexDigit(text[0])
  {
    HexLine(k.n) + HexLine(k.e) + HexLine(k.s) + k.username + "\n"
  }

  /** `%Zx\n%Zx\n%Zx\n` and then `%s\n`. The three numbers come from one call,
      which stops at the first conversion that fails; the user name comes from
      a second call, which starts wherever the first one stopped. Returns the
      key and the unread text. */
  function ReadPub(text: string, prior: PubKey): (r: (PubKey, string))
    ensures |r.1| <= |text|
    ensures ScanHex(text).0.None? ==>
      r.0.n == prior.n && r.0.e == prior.e && r.0.s == prior.s
  {
    var (n, t1) := ScanHex(text);
    var (e, t2) := if n.Some? then ScanHex(t1) else (None, t1);
    var (s, t3) := if e.Some? then ScanHex(t2) else (None, t2);
    var (u, t4) := ScanWord(t3);
    (PubKey(n.GetOr(prior.n), e.GetOr(prior.e), s.GetOr(prior.s), u.GetOr(prior.username)), t4)
  }

  /** Reading a written public record gives back every field, whatever the
      reader held before, and stops at the start of the following text. */
  lemma ReadWritePub(k: PubKey, rest: string, prior: PubKey)
    requires IsWord(k.username)
    requires |rest| == 0 || !IsSpace(rest[0])
    ensures ReadPub(WritePub(k) + rest, prior) == (k, rest)
  {
    var u := k.username + "\n" + rest;
    var t3 := HexLine(k.s) + u;
    var t2 := HexLine(k.e) + t3;
    var t1 := HexLine(k.n) + t2;
    assert WritePub(k) + rest == t1;
    ScanWordPrinted(k.username, rest);
    ScanHexPrinted(k.s, u);
    ScanHexPrinted(k.e, t3);
    ScanHexPrinted(k.n, t2);
    ReadPubAllFields(t1, prior, k, t2, t3, u, rest);
  }

  /** When every conversion succeeds, each field holds what it scanned. */
  lemma ReadPubAllFields(text: string, prior: PubKey, k: PubKey, t1: string, t2: string, t3: string, t4: string)
    requires ScanHex(text) == (Some(k.n), t1)
    requires ScanHex(t1) == (Some(k.e), t2)
    requires ScanHex(t2) == (Some(k.s), t3)
    requires ScanWord(t3) == (Some(k.username), t4)
    ensures ReadPub(text, prior) == (k, t4)
  {
  }

  /** A file with no number in front keeps n, e and s, and the user name is
      read from the same place. */
  lemma ReadPubNoNumber(text: string, prior: PubKey)
    requires |text| > 0 && !IsSpace(text[0]) && !IsHexDigit(text[0])
    ensures ReadPub(text, prior).0 == PubKey(prior.n, prior.e, prior.s, ScanWord(text).0.GetOr(prior.username))
  {
    assert SkipSpace(text) == text;
  }

  // ---------------------------------------------------------------------
  // rsa_write_priv / rsa_read_priv (rsa.c:76-86)

  /** n and d in hexadecimal, one per line. */
  function WritePriv(k: PrivKey): (text: string)
    ensures |text| > 0 && text[|text| - 1] == '\n'
    ensures IsHexDigit(text[0])
  {
    HexLine(k.n) + HexLine(k.d)
  }

  /** `%Zx\n%Zx\n`, stopping at the first conversion that fails. */
  function ReadPriv(text: string, prior: PrivKey): (r: (PrivKey, string))
    ensures |r.1| <= |text|
    ensures ScanHex(text).0.None? ==> r.0 == prior
  {
    var (n, t1) := ScanHex(text);
    var (d, t2) := if n.Some? then ScanHex(t1) else (None, t1);
    (PrivKey(n.GetOr(prior.n), d.GetOr(prior.d)), t2)
  }

  /** Reading a written private record gives back n and d. */
  lemma ReadWritePriv(k: PrivKey, rest: string, prior: PrivKey)
    requires |rest| == 0 || !IsSpace(rest[0])
    ensures ReadPriv(WritePriv(k) + rest, prior) == (k, rest)
  {
    var t2 := HexLine(k.d) + rest;
    var t1 := HexLine(k.n) + t2;
    assert WritePriv(k) + rest == t1;
    ScanHexPrinted(k.d, rest);
    ScanHexPrinted(k.n, t2);
  }
}
