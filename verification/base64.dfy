/**
 * Base64 as the vault uses it for its salt: the encoder of RFC 4648
 * (the standard alphabet of RFC 4648 section 4 or the URL- and
 * filename-safe alphabet of RFC 4648 section 5, with '=' padding), and the standard-alphabet decoder of
 * Python's `base64.b64decode` with its default `validate=False`, which
 * runs CPython's `binascii.a2b_base64` in non-strict mode: characters
 * outside the standard alphabet are skipped, and '=' ends the input only
 * once it completes a quantum.
 */
module Base64 {
  import opened Wrappers

  type byte = x: int | 0 <= x < 256
  type sextet = x: int | 0 <= x < 64

  /** The alphabets of sections 4 and 5 of RFC 4648. */
  datatype Alphabet = Standard | UrlSafe

  /** The character for the 6-bit value `v`; the alphabets differ only at 62 and 63. */
  function Symbol(a: Alphabet, v: sextet): (c: char)
    ensures c != '=' && (c as int) < 128
    ensures (c == '-' || c == '_') <==> (a == UrlSafe && v >= 62)
    ensures StandardValue(c) == if a == Standard || v < 62 then Some(v) else None
  {
    if v < 26 then ('A' as int + v) as char
    else if v < 52 then ('a' as int + (v - 26)) as char
    else if v < 62 then ('0' as int + (v - 52)) as char
    else match a
      case Standard => if v == 62 then '+' else '/'
      case UrlSafe => if v == 62 then '-' else '_'
  }

  /** The standard decoding table: the value of `c`, or None for a character outside the alphabet. */
  function StandardValue(c: char): Option<sextet>
  {
    if 'A' <= c <= 'Z' then Some(c as int - 'A' as int)
    else if 'a' <= c <= 'z' then Some(c as int - 'a' as int + 26)
    else if '0' <= c <= '9' then Some(c as int - '0' as int + 52)
    else if c == '+' then Some(62)
    else if c == '/' then Some(63)
    else None
  }

  /** The number of data characters for `n` bytes: four per full group, two or three for a partial one. */
  function SextetCount(n: nat): nat
  {
    4 * (n / 3) + (if n % 3 == 0 then 0 else n % 3 + 1)
  }

  /** Splits bytes into 6-bit values, most significant bits first; a partial last group is filled with zero bits. */
  function Sextets(b: seq<byte>): (s: seq<sextet>)
    ensures |s| == SextetCount(|b|)
    decreases |b|
  {
    if |b| == 0 then []
    else if |b| == 1 then [b[0] / 4, (b[0] % 4) * 16]
    else if |b| == 2 then [b[0] / 4, (b[0] % 4) * 16 + b[1] / 16, (b[1] % 16) * 4]
    else [b[0] / 4, (b[0] % 4) * 16 + b[1] / 16, (b[1] % 16) * 4 + b[2] / 64, b[2] % 64] + Sextets(b[3..])
  }

  /** The characters of `s` in alphabet `a`. */
  function Render(a: Alphabet, s: seq<sextet>): (r: string)
    ensures |r| == |s|
    ensures forall i :: 0 <= i < |s| ==> r[i] == Symbol(a, s[i])
  {
    if s == [] then [] else [Symbol(a, s[0])] + Render(a, s[1..])
  }

  /** The '=' characters that complete the last quantum of `n` bytes. */
  function Padding(n: nat): string
  {
    if n % 3 == 1 then "==" else if n % 3 == 2 then "=" else ""
  }

  /** `base64.b64encode` (Standard) or `base64.urlsafe_b64encode` (UrlSafe). */
  function Encode(a: Alphabet, b: seq<byte>): (r: string)
    ensures |r| == 4 * ((|b| + 2) / 3)
    ensures IsAscii(r)
  {
    Render(a, Sextets(b)) + Padding(|b|)
  }

  predicate IsAscii(s: string)
  {
    forall i :: 0 <= i < |s| ==> (s[i] as int) < 128
  }

  /** Why `binascii.a2b_base64` rejects its input. */
  datatype DecodeError =
    | NonAscii          // a str argument with a non-ASCII character (raised before decoding)
    | ExcessDataChar    // one data character more than a multiple of four
    | IncorrectPadding  // two or three data characters in the last quantum and no closing '='

  /** The bits of the pending partial byte are below this bound at each position of the quantum. */
  function LeftBound(quad: nat): nat
  {
    if quad == 1 then 64 else if quad == 2 then 16 else if quad == 3 then 4 else 1
  }

  /**
   * The decoding scan: `quad` is the position in the current quantum of four
   * data characters, `left` the bits not yet emitted, `pads` the '=' seen
   * since the last data character, `out` the bytes emitted so far.
   */
  function Scan(s: string, quad: nat, left: nat, pads: nat, out: seq<byte>): (r: Result<seq<byte>, DecodeError>)
    requires quad < 4 && left < LeftBound(quad)
    ensures r.Ok? ==> |out| <= |r.value| && r.value[..|out|] == out
    ensures s == [] ==> (r.Ok? <==> quad == 0)
    ensures r.Ok? && StandardCount(s) == 0 ==> r.value == out
    decreases |s|
  {
    if s == [] then
      if quad == 0 then Ok(out) else if quad == 1 then Err(ExcessDataChar) else Err(IncorrectPadding)
    else if s[0] == '=' then
      if quad >= 2 && quad + pads + 1 >= 4 then Ok(out)
      else Scan(s[1..], quad, left, if quad >= 2 then pads + 1 else pads, out)
    else match StandardValue(s[0])
      case None => Scan(s[1..], quad, left, pads, out)
      case Some(v) =>
        if quad == 0 then Scan(s[1..], 1, v, 0, out)
        else if quad == 1 then Scan(s[1..], 2, v % 16, 0, out + [left * 4 + v / 16])
        else if quad == 2 then Scan(s[1..], 3, v % 4, 0, out + [left * 16 + v / 4])
        else Scan(s[1..], 0, 0, 0, out + [left * 64 + v])
  }

  /**
   * `base64.b64decode(s)` for a str argument: non-ASCII text is refused, and
   * a successful decode yields at most three bytes per four characters of
   * the standard alphabet, whatever else the text holds.
   */
  function StandardDecode(s: string): (r: Result<seq<byte>, DecodeError>)
    ensures !IsAscii(s) ==> r == Err(NonAscii)
    ensures r.Ok? ==> 4 * |r.value| <= 3 * StandardCount(s)
  {
    if !IsAscii(s) then Err(NonAscii) else ScanLength(s, 0, 0, 0, [], 0); Scan(s, 0, 0, 0, [])
  }

  /** The translation `urlsafe_b64decode` applies before decoding: '-' becomes '+' and '_' becomes '/'. */
  function UrlSafeToStandard(s: string): (r: string)
    ensures |r| == |s|
    ensures forall i :: 0 <= i < |s| ==> r[i] == (if s[i] == '-' then '+' else if s[i] == '_' then '/' else s[i])
    ensures IsAscii(r) <==> IsAscii(s)
    ensures !HasUrlOnlyChar(r)
    ensures !HasUrlOnlyChar(s) ==> r == s
  {
    if s == [] then []
    else [if s[0] == '-' then '+' else if s[0] == '_' then '/' else s[0]] + UrlSafeToStandard(s[1..])
  }

  /**
   * `base64.urlsafe_b64decode(s)` for a str argument: the standard decoder
   * on the translated text. Non-ASCII text is still refused, and text with
   * neither '-' nor '_' decodes as the standard decoder decodes it.
   */
  function UrlSafeDecode(s: string): (r: Result<seq<byte>, DecodeError>)
    ensures !IsAscii(s) ==> r == Err(NonAscii)
    ensures !HasUrlOnlyChar(s) ==> r == StandardDecode(s)
  {
    StandardDecode(UrlSafeToStandard(s))
  }

  /** A character that the URL-safe alphabet has and the standard one has not. */
  predicate HasUrlOnlyChar(s: string)
  {
    '-' in s || '_' in s
  }

  // ---------------------------------------------------------------------
  // Round trip with the standard alphabet
  // ---------------------------------------------------------------------

  lemma {:induction false} RenderAppend(a: Alphabet, s: seq<sextet>, t: seq<sextet>)
    ensures Render(a, s + t) == Render(a, s) + Render(a, t)
  {
    if s != [] {
      assert (s + t)[1..] == s[1..] + t;
      RenderAppend(a, s[1..], t);
    }
  }

  /** The decoder's bit arithmetic undoes the encoder's on a full group. */
  lemma GroupBits(b0: byte, b1: byte, b2: byte)
    ensures var v0, v1, v2, v3 := b0 / 4, (b0 % 4) * 16 + b1 / 16, (b1 % 16) * 4 + b2 / 64, b2 % 64;
      v0 * 4 + v1 / 16 == b0 && v1 % 16 * 16 + v2 / 4 == b1 && v2 % 4 * 64 + v3 == b2
  {
  }

  /** One standard-alphabet character advances the scan by one position in the quantum. */
  lemma ScanSymbol(v: sextet, rest: string, quad: nat, left: nat, pads: nat, out: seq<byte>)
    requires quad < 4 && left < LeftBound(quad)
    ensures Scan([Symbol(Standard, v)] + rest, quad, left, pads, out) ==
      if quad == 0 then Scan(rest, 1, v, 0, out)
      else if quad == 1 then Scan(rest, 2, v % 16, 0, out + [left * 4 + v / 16])
      else if quad == 2 then Scan(rest, 3, v % 4, 0, out + [left * 16 + v / 4])
      else Scan(rest, 0, 0, 0, out + [left * 64 + v])
  {
    assert ([Symbol(Standard, v)] + rest)[1..] == rest;
  }

  lemma RenderFour(v0: sextet, v1: sextet, v2: sextet, v3: sextet, rest: string)
    ensures Render(Standard, [v0, v1, v2, v3]) + rest == [Symbol(Standard, v0)] + ([Symbol(Standard, v1)] + ([Symbol(Standard, v2)] + ([Symbol(Standard, v3)] + rest)))
  {
  }

  /** Scanning four standard-alphabet characters emits the three bytes their 24 bits hold. */
  lemma ScanQuad(v0: sextet, v1: sextet, v2: sextet, v3: sextet, rest: string, pads: nat, out: seq<byte>)
    ensures Scan(Render(Standard, [v0, v1, v2, v3]) + rest, 0, 0, pads, out)
         == Scan(rest, 0, 0, 0, out + [v0 * 4 + v1 / 16, v1 % 16 * 16 + v2 / 4, v2 % 4 * 64 + v3])
  {
    var s3 := [Symbol(Standard, v3)] + rest;
    var s2 := [Symbol(Standard, v2)] + s3;
    var s1 := [Symbol(Standard, v1)] + s2;
    RenderFour(v0, v1, v2, v3, rest);
    var x0: byte, x1: byte, x2: byte := v0 * 4 + v1 / 16, v1 % 16 * 16 + v2 / 4, v2 % 4 * 64 + v3;
    calc {
      Scan([Symbol(Standard, v0)] + s1, 0, 0, pads, out);
      { ScanSymbol(v0, s1, 0, 0, pads, out); }
      Scan(s1, 1, v0, 0, out);
      { ScanSymbol(v1, s2, 1, v0, 0, out); }
      Scan(s2, 2, v1 % 16, 0, out + [x0]);
      { ScanSymbol(v2, s3, 2, v1 % 16, 0, out + [x0]);
        assert out + [x0] + [x1] == out + [x0, x1]; }
      Scan(s3, 3, v2 % 4, 0, out + [x0, x1]);
      { ScanSymbol(v3, rest, 3, v2 % 4, 0, out + [x0, x1]);
        assert out + [x0, x1] + [x2] == out + [x0, x1, x2]; }
      Scan(rest, 0, 0, 0, out + [x0, x1, x2]);
    }
  }

  /** Scanning the four characters of one full group emits its three bytes and ends at a quantum boundary. */
  lemma ScanGroup(b0: byte, b1: byte, b2: byte, rest: string, pads: nat, out: seq<byte>)
    ensures Scan(Render(Standard, [b0 / 4, (b0 % 4) * 16 + b1 / 16, (b1 % 16) * 4 + b2 / 64, b2 % 64]) + rest, 0, 0, pads, out)
         == Scan(rest, 0, 0, 0, out + [b0, b1, b2])
  {
    GroupBits(b0, b1, b2);
    ScanQuad(b0 / 4, (b0 % 4) * 16 + b1 / 16, (b1 % 16) * 4 + b2 / 64, b2 % 64, rest, pads, out);
  }

  /** A last group of one byte: two data characters, then "==" ends the scan. */
  lemma ScanTailOne(b: seq<byte>, out: seq<byte>)
    requires |b| == 1
    ensures Scan(Encode(Standard, b), 0, 0, 0, out) == Ok(out + b)
  {
    var v0, v1 := b[0] / 4, (b[0] % 4) * 16;
    var s1 := [Symbol(Standard, v1)] + "==";
    assert Encode(Standard, b) == [Symbol(Standard, v0)] + s1;
    assert v0 * 4 + v1 / 16 == b[0];
    assert Scan(s1, 1, v0, 0, out) == Scan("==", 2, v1 % 16, 0, out + [b[0]]);
    assert Scan("==", 2, v1 % 16, 0, out + [b[0]]) == Scan("=", 2, v1 % 16, 1, out + [b[0]]);
    assert out + [b[0]] == out + b;
  }

  /** A last group of two bytes: three data characters, then "=" ends the scan. */
  lemma ScanTailTwo(b: seq<byte>, out: seq<byte>)
    requires |b| == 2
    ensures Scan(Encode(Standard, b), 0, 0, 0, out) == Ok(out + b)
  {
    var v0, v1, v2 := b[0] / 4, (b[0] % 4) * 16 + b[1] / 16, (b[1] % 16) * 4;
    var s2 := [Symbol(Standard, v2)] + "=";
    var s1 := [Symbol(Standard, v1)] + s2;
    assert Encode(Standard, b) == [Symbol(Standard, v0)] + s1;
    assert v0 * 4 + v1 / 16 == b[0];
    assert v1 % 16 * 16 + v2 / 4 == b[1];
    assert Scan(s1, 1, v0, 0, out) == Scan(s2, 2, v1 % 16, 0, out + [b[0]]);
    assert Scan(s2, 2, v1 % 16, 0, out + [b[0]]) == Scan("=", 3, v2 % 4, 0, out + [b[0]] + [b[1]]);
    assert out + [b[0]] + [b[1]] == out + b;
  }

  /** The standard text of three or more bytes is that of the first group followed by that of the rest. */
  lemma EncodeSplit(b: seq<byte>)
    requires |b| >= 3
    ensures Encode(Standard, b)
         == Render(Standard, [b[0] / 4, (b[0] % 4) * 16 + b[1] / 16, (b[1] % 16) * 4 + b[2] / 64, b[2] % 64])
          + Encode(Standard, b[3..])
  {
    var g := [b[0] / 4, (b[0] % 4) * 16 + b[1] / 16, (b[1] % 16) * 4 + b[2] / 64, b[2] % 64];
    RenderAppend(Standard, g, Sextets(b[3..]));
  }

  /** Scanning the standard text of three or more bytes first emits the first three. */
  lemma ScanFirstGroup(b: seq<byte>, out: seq<byte>)
    requires |b| >= 3
    ensures Scan(Encode(Standard, b), 0, 0, 0, out) == Scan(Encode(Standard, b[3..]), 0, 0, 0, out + b[..3])
  {
    EncodeSplit(b);
    ScanGroup(b[0], b[1], b[2], Encode(Standard, b[3..]), 0, out);
    assert [b[0], b[1], b[2]] == b[..3];
  }

  /** Decoding what the standard encoder produced appends exactly the encoded bytes. */
  lemma {:induction false} ScanEncoded(b: seq<byte>, out: seq<byte>)
    ensures Scan(Encode(Standard, b), 0, 0, 0, out) == Ok(out + b)
    decreases |b|
  {
    if |b| == 0 {
      assert Encode(Standard, b) == [];
      assert out + b == out;
    } else if |b| == 1 {
      ScanTailOne(b, out);
    } else if |b| == 2 {
      ScanTailTwo(b, out);
    } else {
      ScanFirstGroup(b, out);
      ScanEncoded(b[3..], out + b[..3]);
      assert out + b[..3] + b[3..] == out + b;
    }
  }

  /** The RFC 4648 section 4 encoder and the standard decoder are inverse. */
  lemma StandardRoundTrip(b: seq<byte>)
    ensures StandardDecode(Encode(Standard, b)) == Ok(b)
  {
    ScanEncoded(b, []);
    assert [] + b == b;
  }

  // ---------------------------------------------------------------------
  // URL-safe text read by the standard decoder
  // ---------------------------------------------------------------------

  /** The number of characters of `s` that belong to the standard alphabet. */
  function StandardCount(s: string): (n: nat)
    ensures n <= |s|
  {
    if s == [] then 0 else (if StandardValue(s[0]).Some? then 1 else 0) + StandardCount(s[1..])
  }

  /** The number of values that the two alphabets render differently. */
  function HighCount(s: seq<sextet>): nat
  {
    if s == [] then 0 else (if s[0] >= 62 then 1 else 0) + HighCount(s[1..])
  }

  lemma {:induction false} StandardCountAppend(s: string, t: string)
    ensures StandardCount(s + t) == StandardCount(s) + StandardCount(t)
  {
    if s != [] {
      assert (s + t)[0] == s[0] && (s + t)[1..] == s[1..] + t;
      StandardCountAppend(s[1..], t);
    } else {
      assert s + t == t;
    }
  }

  /** Every URL-safe character outside the standard alphabet comes from a value 62 or 63. */
  lemma {:induction false} StandardCountRender(s: seq<sextet>)
    ensures StandardCount(Render(UrlSafe, s)) + HighCount(s) == |s|
  {
    if s != [] {
      assert Render(UrlSafe, s)[1..] == Render(UrlSafe, s[1..]);
      StandardCountRender(s[1..]);
    }
  }

  lemma {:induction false} HighCountPositive(s: seq<sextet>)
    ensures HighCount(s) > 0 <==> exists i :: 0 <= i < |s| && s[i] >= 62
  {
    if s != [] {
      HighCountPositive(s[1..]);
      if s[0] < 62 {
        assert forall i :: 1 <= i < |s| ==> s[i] == s[1..][i - 1];
      }
    }
  }

  /** With no value 62 or 63 the two alphabets agree. */
  lemma {:induction false} RenderAgrees(s: seq<sextet>)
    requires forall i :: 0 <= i < |s| ==> s[i] < 62
    ensures Render(UrlSafe, s) == Render(Standard, s)
  {
    if s != [] {
      RenderAgrees(s[1..]);
    }
  }

  /** The URL-safe text has '-' or '_' exactly when some value is 62 or 63. */
  lemma UrlOnlyCharIffHigh(b: seq<byte>)
    ensures HasUrlOnlyChar(Encode(UrlSafe, b)) <==> HighCount(Sextets(b)) > 0
  {
    var s := Sextets(b);
    var e := Encode(UrlSafe, b);
    HighCountPositive(s);
    if HighCount(s) > 0 {
      var i :| 0 <= i < |s| && s[i] >= 62;
      assert e[i] == Symbol(UrlSafe, s[i]);
    } else {
      forall j | 0 <= j < |e| ensures e[j] != '-' && e[j] != '_' {
        if j < |s| { assert e[j] == Symbol(UrlSafe, s[j]); }
        else { assert e[j] == Padding(|b|)[j - |s|]; }
      }
    }
  }

  /** One more data character: the quantum position advances, and a byte is emitted unless it starts a quantum. */
  lemma EmittedStep(n: nat)
    ensures (n + 1) % 4 == if n % 4 == 3 then 0 else n % 4 + 1
    ensures (3 * (n + 1)) / 4 == (3 * n) / 4 + (if n % 4 == 0 then 0 else 1)
  {
    var q, m := n / 4, n % 4;
    DivFour(n, q, m);
    DivFour(n + 1, if m == 3 then q + 1 else q, if m == 3 then 0 else m + 1);
    DivFour(3 * n, 3 * q + (3 * m) / 4, (3 * m) % 4);
    DivFour(3 * (n + 1), 3 * q + (3 * m + 3) / 4, (3 * m + 3) % 4);
  }

  /** Quotient and remainder by four are determined by any decomposition with a remainder below four. */
  lemma DivFour(x: int, k: int, m: int)
    requires x == 4 * k + m && 0 <= m < 4
    ensures x / 4 == k && x % 4 == m
  {
  }

  /**
   * With `quad == n % 4` and the bytes of `n` data characters emitted, a
   * successful scan emits at most three bytes for every four data characters
   * consumed in all.
   */
  lemma {:induction false} ScanLength(s: string, quad: nat, left: nat, pads: nat, out: seq<byte>, n: nat)
    requires quad < 4 && left < LeftBound(quad)
    requires quad == n % 4 && |out| == (3 * n) / 4
    ensures Scan(s, quad, left, pads, out).Ok? ==> 4 * |Scan(s, quad, left, pads, out).value| <= 3 * (n + StandardCount(s))
    decreases |s|
  {
    if s != [] {
      if s[0] == '=' {
        ScanLength(s[1..], quad, left, if quad >= 2 then pads + 1 else pads, out, n);
      } else {
        match StandardValue(s[0])
        case None => ScanLength(s[1..], quad, left, pads, out, n);
        case Some(v) =>
          EmittedStep(n);
          if quad == 0 {
            ScanLength(s[1..], 1, v, 0, out, n + 1);
          } else if quad == 1 {
            ScanLength(s[1..], 2, v % 16, 0, out + [left * 4 + v / 16], n + 1);
          } else if quad == 2 {
            ScanLength(s[1..], 3, v % 4, 0, out + [left * 16 + v / 4], n + 1);
          } else {
            ScanLength(s[1..], 0, 0, 0, out + [left * 64 + v], n + 1);
          }
      }
    }
  }

  /**
   * The salt round trip of the vault: bytes written with the RFC 4648
   * section 5 alphabet and read back with the standard decoder come back unchanged
   * exactly when the written text holds neither '-' nor '_'. Otherwise
   * those characters are skipped and the decoder either fails or returns
   * fewer bytes.
   */
  lemma UrlSafeReadAsStandard(b: seq<byte>)
    ensures StandardDecode(Encode(UrlSafe, b)) == Ok(b) <==> !HasUrlOnlyChar(Encode(UrlSafe, b))
    ensures HasUrlOnlyChar(Encode(UrlSafe, b)) ==>
      StandardDecode(Encode(UrlSafe, b)).Err? || |StandardDecode(Encode(UrlSafe, b)).value| < |b|
  {
    UrlOnlyCharIffHigh(b);
    if HighCount(Sextets(b)) == 0 {
      HighCountPositive(Sextets(b));
      RenderAgrees(Sextets(b));
      StandardRoundTrip(b);
    } else {
      UrlSafeShortened(b);
    }
  }

  /** A value 62 or 63 is written as a character the standard decoder skips, so fewer bytes come back. */
  lemma UrlSafeShortened(b: seq<byte>)
    requires HighCount(Sextets(b)) > 0
    ensures StandardDecode(Encode(UrlSafe, b)).Err? || |StandardDecode(Encode(UrlSafe, b)).value| < |b|
  {
    var s := Sextets(b);
    StandardCountAppend(Render(UrlSafe, s), Padding(|b|));
    StandardCountRender(s);
    assert StandardCount(Padding(|b|)) == 0;
    ScanLength(Encode(UrlSafe, b), 0, 0, 0, [], 0);
    assert 3 * (SextetCount(|b|) - 1) < 4 * |b|;
  }

  /** A salt for which the vault's round trip breaks: sixteen 0xFF bytes start with the value 63, written '_'. */
  lemma UrlSaltExample()
    ensures var salt: seq<byte> := seq(16, _ => 255);
      HasUrlOnlyChar(Encode(UrlSafe, salt)) && StandardDecode(Encode(UrlSafe, salt)) != Ok(salt)
  {
    var salt: seq<byte> := seq(16, _ => 255);
    assert Sextets(salt)[0] == 63;
    assert Encode(UrlSafe, salt)[0] == '_';
    UrlSafeReadAsStandard(salt);
  }

  // ---------------------------------------------------------------------
  // Round trip with the URL-safe alphabet
  // ---------------------------------------------------------------------

  lemma {:induction false} TranslateAppend(s: string, t: string)
    ensures UrlSafeToStandard(s + t) == UrlSafeToStandard(s) + UrlSafeToStandard(t)
  {
    if s != [] {
      assert (s + t)[1..] == s[1..] + t;
      TranslateAppend(s[1..], t);
    }
  }

  /** Translating URL-safe symbols gives the standard symbols for the same values. */
  lemma {:induction false} TranslateRender(s: seq<sextet>)
    ensures UrlSafeToStandard(Render(UrlSafe, s)) == Render(Standard, s)
  {
    if s != [] {
      TranslateRender(s[1..]);
    }
  }

  /** Translating URL-safe base64 text gives the standard text of the same bytes. */
  lemma UrlSafeTextToStandard(b: seq<byte>)
    ensures UrlSafeToStandard(Encode(UrlSafe, b)) == Encode(Standard, b)
  {
    TranslateAppend(Render(UrlSafe, Sextets(b)), Padding(|b|));
    TranslateRender(Sextets(b));
    assert !HasUrlOnlyChar(Padding(|b|));
  }

  /** `urlsafe_b64decode` inverts `urlsafe_b64encode` on every byte sequence. */
  lemma UrlSafeRoundTrip(b: seq<byte>)
    ensures UrlSafeDecode(Encode(UrlSafe, b)) == Ok(b)
  {
    UrlSafeTextToStandard(b);
    StandardRoundTrip(b);
  }
}
