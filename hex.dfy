/** The text side of the program: integers printed with GMP's `%Zx`
    (lower-case hexadecimal, no prefix, no leading zeros) and read back with
    `%Zx`, `%s` and whitespace directives of `scanf`-style formats. */
module Hex {

  datatype Option<T> = None | Some(value: T)
  {
    /** The stored value, or `prior` when the conversion stored nothing. */
    function GetOr(prior: T): T
    {
      if Some? then value else prior
    }
  }

  /** The characters C's `isspace` accepts. */
  predicate IsSpace(c: char)
  {
    c == ' ' || c == '\t' || c == '\n' || c == '\r' || c == '\U{B}' || c == '\U{C}'
  }

  /** Hexadecimal digits, in either case, as `%Zx` accepts them. */
  predicate IsHexDigit(c: char)
  {
    ('0' <= c <= '9') || ('a' <= c <= 'f') || ('A' <= c <= 'F')
  }

  predicate NoSpace(w: string)
  {
    forall i :: 0 <= i < |w| ==> !IsSpace(w[i])
  }

  /** What one `%s` conversion reads: non-empty and free of white space. */
  predicate IsWord(w: string)
  {
    |w| > 0 && NoSpace(w)
  }

  predicate AllHexDigits(s: string)
  {
    forall i :: 0 <= i < |s| ==> IsHexDigit(s[i])
  }

  /** The lower-case digit printed for v. */
  function DigitChar(v: nat): (c: char)
    requires v < 16
    ensures IsHexDigit(c) && !IsSpace(c)
    ensures c == '0' <==> v == 0
  {
    "0123456789abcdef"[v]
  }

  /** The value of a digit character. */
  function DigitValue(c: char): (v: nat)
    requires IsHexDigit(c)
    ensures v < 16
  {
    if '0' <= c <= '9' then (c - '0') as nat
    else if 'a' <= c <= 'f' then (c - 'a') as nat + 10
    else (c - 'A') as nat + 10
  }

  lemma DigitRoundTrip(v: nat)
    requires v < 16
    ensures DigitValue(DigitChar(v)) == v
  {
  }

  /** `%Zx` output: at least one digit, and a leading '0' only for zero itself. */
  function ToHex(x: nat): (s: string)
    ensures |s| > 0 && IsHexDigit(s[0])
    ensures s[0] == '0' <==> x == 0
    decreases x
  {
    if x < 16 then [DigitChar(x)] else ToHex(x / 16) + [DigitChar(x % 16)]
  }

  /** Only hex digits are printed. */
  lemma {:induction false} ToHexDigits(x: nat)
    ensures AllHexDigits(ToHex(x))
    decreases x
  {
    if x >= 16 {
      ToHexDigits(x / 16);
    }
  }

  /** The value of a string of hex digits, most significant first. */
  function FromHex(s: string): nat
    requires AllHexDigits(s)
    decreases |s|
  {
    if |s| == 0 then 0 else FromHex(s[..|s| - 1]) * 16 + DigitValue(s[|s| - 1])
  }

  /** Reading the printed digits gives the number back. */
  lemma {:induction false} FromToHex(x: nat)
    ensures AllHexDigits(ToHex(x)) && FromHex(ToHex(x)) == x
    decreases x
  {
    ToHexDigits(x);
    var s := ToHex(x);
    if x < 16 {
      DigitRoundTrip(x);
      assert s[..0] == [];
    } else {
      FromToHex(x / 16);
      assert s[..|s| - 1] == ToHex(x / 16);
      DigitRoundTrip(x % 16);
    }
  }

  /** What a whitespace directive leaves: the text from the first non-space character. */
  function SkipSpace(s: string): (r: string)
    ensures |r| <= |s| && r == s[|s| - |r|..]
    ensures |r| > 0 ==> !IsSpace(r[0])
    decreases |s|
  {
    if |s| > 0 && IsSpace(s[0]) then SkipSpace(s[1..]) else s
  }

  /** Length of the longest prefix of hex digits. */
  function DigitRun(s: string): (k: nat)
    ensures k <= |s| && AllHexDigits(s[..k])
    ensures k < |s| ==> !IsHexDigit(s[k])
    decreases |s|
  {
    if |s| > 0 && IsHexDigit(s[0]) then
      assert s[..DigitRun(s[1..]) + 1] == [s[0]] + s[1..][..DigitRun(s[1..])];
      DigitRun(s[1..]) + 1
    else 0
  }

  /** Length of the longest prefix of non-space characters. */
  function WordRun(s: string): (k: nat)
    ensures k <= |s| && NoSpace(s[..k])
    ensures k < |s| ==> IsSpace(s[k])
    decreases |s|
  {
    if |s| > 0 && !IsSpace(s[0]) then
      assert s[..WordRun(s[1..]) + 1] == [s[0]] + s[1..][..WordRun(s[1..])];
      WordRun(s[1..]) + 1
    else 0
  }

  /** One `%Zx` conversion followed by a whitespace directive: leading space
      skipped, a run of digits read, trailing space skipped. On failure no
      value is stored and the text stands after the skipped space. */
  function ScanHex(s: string): (r: (Option<nat>, string))
    ensures |r.1| <= |s| && r.1 == s[|s| - |r.1|..]
    ensures r.0.Some? ==> |r.1| < |s|
    ensures r.0.None? <==> (|SkipSpace(s)| == 0 || !IsHexDigit(SkipSpace(s)[0]))
    ensures r.0.None? ==> r.1 == SkipSpace(s)
    ensures |r.1| > 0 ==> !IsSpace(r.1[0])
  {
    var t := SkipSpace(s);
    var k := DigitRun(t);
    if k == 0 then (None, t)
    else
      var rest := SkipSpace(t[k..]);
      assert rest == s[|s| - |rest|..];
      (Some(FromHex(t[..k])), rest)
  }

  /** One `%s` conversion followed by a whitespace directive. */
  function ScanWord(s: string): (r: (Option<string>, string))
    ensures |r.1| <= |s|
    ensures r.0.None? <==> |SkipSpace(s)| == 0
    ensures r.0.Some? ==> IsWord(r.0.value)
    ensures |r.1| > 0 ==> !IsSpace(r.1[0])
  {
    var t := SkipSpace(s);
    var k := WordRun(t);
    if k == 0 then (None, t) else (Some(t[..k]), SkipSpace(t[k..]))
  }

  /** A printed number followed by a newline is scanned back exactly, and the
      scan stops before any text that does not start with a space. */
  lemma ScanHexPrinted(x: nat, rest: string)
    requires |rest| == 0 || !IsSpace(rest[0])
    ensures ScanHex(HexLine(x) + rest) == (Some(x), rest)
    ensures !IsSpace((HexLine(x) + rest)[0])
  {
    var h := ToHex(x);
    ToHexDigits(x);
    var u := "\n" + rest;
    var s := h + u;
    assert s == HexLine(x) + rest;
    assert s[0] == h[0] && !IsSpace(s[0]);
    assert SkipSpace(s) == s;
    DigitRunPrefix(h, u);
    assert s[..|h|] == h && s[|h|..] == u;
    NewlineSkipped(rest);
    FromToHex(x);
  }

  /** A word followed by a newline is scanned back exactly. */
  lemma ScanWordPrinted(w: string, rest: string)
    requires |w| > 0 && forall i :: 0 <= i < |w| ==> !IsSpace(w[i])
    requires |rest| == 0 || !IsSpace(rest[0])
    ensures ScanWord(w + "\n" + rest) == (Some(w), rest)
    ensures !IsSpace((w + "\n" + rest)[0])
  {
    var u := "\n" + rest;
    var s := w + u;
    assert s == w + "\n" + rest;
    assert s[0] == w[0] && !IsSpace(s[0]);
    assert SkipSpace(s) == s;
    WordRunPrefix(w, u);
    assert s[..|w|] == w && s[|w|..] == u;
    NewlineSkipped(rest);
  }

  /** The whitespace directive after a printed newline stops at the next field. */
  lemma NewlineSkipped(rest: string)
    requires |rest| == 0 || !IsSpace(rest[0])
    ensures SkipSpace("\n" + rest) == rest
  {
    var u := "\n" + rest;
    assert u[1..] == rest;
    assert SkipSpace(u) == SkipSpace(rest);
  }

  lemma {:induction false} DigitRunPrefix(h: string, rest: string)
    requires AllHexDigits(h)
    requires |rest| > 0 && !IsHexDigit(rest[0])
    ensures DigitRun(h + rest) == |h|
    decreases |h|
  {
    if |h| > 0 {
      assert (h + rest)[1..] == h[1..] + rest;
      DigitRunPrefix(h[1..], rest);
    } else {
      assert h + rest == rest;
    }
  }

  lemma {:induction false} WordRunPrefix(w: string, rest: string)
    requires forall i :: 0 <= i < |w| ==> !IsSpace(w[i])
    requires |rest| > 0 && IsSpace(rest[0])
    ensures WordRun(w + rest) == |w|
    decreases |w|
  {
    if |w| > 0 {
      assert (w + rest)[1..] == w[1..] + rest;
      WordRunPrefix(w[1..], rest);
    } else {
      assert w + rest == rest;
    }
  }

  /** One number printed with `%Zx\n`. */
  function HexLine(x: nat): (s: string)
    ensures |s| >= 2 && IsHexDigit(s[0]) && s[|s| - 1] == '\n'
  {
    ToHex(x) + "\n"
  }

  /** The ciphertext file: each number printed with `%Zx\n`, one per line. */
  function HexLines(cs: seq<nat>): (s: string)
    ensures |s| == 0 <==> |cs| == 0
    ensures |s| > 0 ==> !IsSpace(s[0])
  {
    if |cs| == 0 then "" else HexLine(cs[0]) + HexLines(cs[1..])
  }

  lemma {:induction false} HexLinesAppend(cs: seq<nat>, c: nat)
    ensures HexLines(cs + [c]) == HexLines(cs) + HexLine(c)
    decreases |cs|
  {
    var ds := cs + [c];
    if |cs| > 0 {
      assert ds[0] == cs[0] && ds[1..] == cs[1..] + [c];
      HexLinesAppend(cs[1..], c);
      var head, mid := HexLine(cs[0]), HexLines(cs[1..]);
      assert HexLines(ds) == head + (mid + HexLine(c));
      assert head + (mid + HexLine(c)) == (head + mid) + HexLine(c);
    } else {
      assert ds == [c];
      assert HexLines(ds) == HexLine(c) + "";
    }
  }

  /** Repeated `%Zx\n` scans until the text is used up, as a loop guarded by
      end-of-file does them; None when some scan would not advance. */
  function ScanAll(s: string): (r: Option<seq<nat>>)
    ensures r.Some? ==> |r.value| <= |s|
    decreases |s|
  {
    if |s| == 0 then Some([])
    else
      var (v, rest) := ScanHex(s);
      if v.None? then None
      else
        match ScanAll(rest)
        case None => None
        case Some(vs) => Some([v.value] + vs)
  }

  /** Scanning the printed lines gives back every number, in order. */
  lemma {:induction false} ScanAllHexLines(cs: seq<nat>)
    ensures ScanAll(HexLines(cs)) == Some(cs)
    decreases |cs|
  {
    if |cs| > 0 {
      var x, tail := cs[0], cs[1..];
      assert cs == [x] + tail;
      var rest := HexLines(tail);
      ScanAllHexLines(tail);
      ScanAllPrinted(x, rest, tail);
      assert HexLines(cs) == HexLine(x) + rest;
    }
  }

  /** A printed line in front of a text that scans to vs makes it scan to [x] + vs. */
  lemma ScanAllPrinted(x: nat, rest: string, vs: seq<nat>)
    requires |rest| == 0 || !IsSpace(rest[0])
    requires ScanAll(rest) == Some(vs)
    ensures ScanAll(HexLine(x) + rest) == Some([x] + vs)
  {
    var s := HexLine(x) + rest;
    ScanHexPrinted(x, rest);
    assert |s| > 0 && ScanHex(s) == (Some(x), rest);
  }
}
