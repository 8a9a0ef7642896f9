/** The byte layer under `Buffer.from(str)`, `buf.toString('base64')`,
    `Buffer.from(str, 'base64')` and `buf.toString('ascii')`: UTF-8 encoding
    of a string, the base64 encoding of section 4 of RFC 4648 (with `=`
    padding), Node's base64 decoder, and Node's ASCII decoding of bytes. */
module Base64 {
  import opened Wrappers
  import opened Text

  type byte = x: int | 0 <= x < 256
  type sextet = x: int | 0 <= x < 64

  // ---------------------------------------------------------------------
  // Strings to bytes and back
  // ---------------------------------------------------------------------

  predicate IsAscii(s: string) {
    forall i :: 0 <= i < |s| ==> s[i] as int < 128
  }

  /** The UTF-8 encoding of one Unicode scalar value. */
  function Utf8Char(c: char): (b: seq<byte>)
    ensures 1 <= |b| <= 4
    ensures |b| == 1 <==> c as int < 0x80
    ensures c as int < 0x80 ==> b == [c as int]
    ensures |b| > 1 ==> b[0] >= 0xC0 && forall i :: 1 <= i < |b| ==> 0x80 <= b[i] < 0xC0
  {
    var cp := c as int;
    if cp < 0x80 then [cp]
    else if cp < 0x800 then [0xC0 + cp / 64, 0x80 + cp % 64]
    else if cp < 0x10000 then [0xE0 + cp / 4096, 0x80 + (cp / 64) % 64, 0x80 + cp % 64]
    else [0xF0 + cp / 262144, 0x80 + (cp / 4096) % 64, 0x80 + (cp / 64) % 64, 0x80 + cp % 64]
  }

  /** `Buffer.from(str)`: the UTF-8 bytes of `str`. */
  function Utf8(s: string): (b: seq<byte>)
    ensures |s| <= |b| <= 4 * |s|
    ensures IsAscii(s) ==> |b| == |s| && forall i :: 0 <= i < |s| ==> b[i] == s[i] as int
  {
    if |s| == 0 then [] else Utf8Char(s[0]) + Utf8(s[1..])
  }

  /** `buf.toString('ascii')`: each byte with its high bit cleared. */
  function AsciiDecode(b: seq<byte>): (s: string)
    ensures |s| == |b|
    ensures IsAscii(s)
    ensures forall i :: 0 <= i < |b| && b[i] < 128 ==> s[i] as int == b[i]
  {
    seq(|b|, i requires 0 <= i < |b| => (b[i] % 128) as char)
  }

  lemma AsciiRoundTrip(s: string)
    requires IsAscii(s)
    ensures AsciiDecode(Utf8(s)) == s
  {
  }

  // ---------------------------------------------------------------------
  // Alphabets
  // ---------------------------------------------------------------------

  /** The base64 alphabet of section 4 of RFC 4648. */
  function StdChar(x: sextet): (c: char)
    ensures c != '=' && c != '-' && c != '_'
  {
    if x < 26 then ('A' as int + x) as char
    else if x < 52 then ('a' as int + x - 26) as char
    else if x < 62 then ('0' as int + x - 52) as char
    else if x == 62 then '+'
    else '/'
  }

  /** The value Node's decoder gives a character: it accepts the alphabets
      of both section 4 and section 5 of RFC 4648. */
  function SextetOf(c: char): (r: Option<sextet>)
    ensures c == '=' ==> r.None?
  {
    if 'A' <= c <= 'Z' then Some(c as int - 'A' as int)
    else if 'a' <= c <= 'z' then Some(c as int - 'a' as int + 26)
    else if '0' <= c <= '9' then Some(c as int - '0' as int + 52)
    else if c == '+' || c == '-' then Some(62)
    else if c == '/' || c == '_' then Some(63)
    else None
  }

  lemma SextetOfStdChar(x: sextet)
    ensures SextetOf(StdChar(x)) == Some(x)
  {
  }

  // ---------------------------------------------------------------------
  // Bytes to sextets and back
  // ---------------------------------------------------------------------

  /** The number of characters the last, partial group of `n % 3` bytes
      encodes to, before padding. */
  function TailLength(rem: nat): nat
    requires rem < 3
  {
    if rem == 0 then 0 else rem + 1
  }

  /** Each group of three bytes becomes four sextets; a final group of one or
      two bytes becomes two or three sextets, its missing low bits zero. */
  function ToSextets(b: seq<byte>): (r: seq<sextet>)
    ensures |r| == 4 * (|b| / 3) + TailLength(|b| % 3)
  {
    if |b| == 0 then []
    else if |b| == 1 then [b[0] / 4, (b[0] % 4) * 16]
    else if |b| == 2 then [b[0] / 4, (b[0] % 4) * 16 + b[1] / 16, (b[1] % 16) * 4]
    else [b[0] / 4, (b[0] % 4) * 16 + b[1] / 16, (b[1] % 16) * 4 + b[2] / 64, b[2] % 64] + ToSextets(b[3..])
  }

  /** Node's decoder on the sextets it has read: every four give three
      bytes, a final three give two, a final two give one, and a final single
      sextet gives nothing. */
  function FromSextets(x: seq<sextet>): (b: seq<byte>)
  {
    if |x| < 2 then []
    else
      var x0, x1 := x[0] as int, x[1] as int;
      if |x| == 2 then [x0 * 4 + x1 / 16]
      else
        var x2 := x[2] as int;
        if |x| == 3 then [x0 * 4 + x1 / 16, (x1 % 16) * 16 + x2 / 4]
        else [x0 * 4 + x1 / 16, (x1 % 16) * 16 + x2 / 4, (x2 % 4) * 64 + x[3] as int] + FromSextets(x[4..])
  }

  lemma {:induction false} SextetsRoundTrip(b: seq<byte>)
    ensures FromSextets(ToSextets(b)) == b
  {
    if |b| >= 3 {
      var g := [b[0] / 4, (b[0] % 4) * 16 + b[1] / 16, (b[1] % 16) * 4 + b[2] / 64, b[2] % 64];
      var x := g + ToSextets(b[3..]);
      assert x[..4] == g && x[4..] == ToSextets(b[3..]);
      SextetsRoundTrip(b[3..]);
      assert b == [b[0], b[1], b[2]] + b[3..];
    }
  }

  // ---------------------------------------------------------------------
  // Encoding and decoding text
  // ---------------------------------------------------------------------

  function StdChars(x: seq<sextet>): (s: string)
    ensures |s| == |x|
    ensures forall i :: 0 <= i < |x| ==> s[i] == StdChar(x[i])
  {
    seq(|x|, i requires 0 <= i < |x| => StdChar(x[i]))
  }

  /** The number of `=` that complete the last group of a base64 text. */
  function PadLength(n: nat): nat {
    if n % 3 == 0 then 0 else 3 - n % 3
  }

  /** `buf.toString('base64')`: the sextets in the alphabet of section 4 of
      RFC 4648, the final group padded with `=` to four characters. */
  function Encode(b: seq<byte>): (s: string)
    ensures |s| % 4 == 0
    ensures |s| == 4 * ((|b| + 2) / 3)
  {
    EncodedLength(|b|);
    StdChars(ToSextets(b)) + Repeat('=', PadLength(|b|))
  }

  /** Sextets and padding together fill whole groups of four. */
  lemma EncodedLength(n: nat)
    ensures 4 * (n / 3) + TailLength(n % 3) + PadLength(n) == 4 * ((n + 2) / 3)
  {
    var q, m := n / 3, n % 3;
    assert n == 3 * q + m;
    assert (n + 2) / 3 == if m == 0 then q else q + 1;
  }

  /** The sextets Node's decoder reads from a text: it stops at the first
      `=` and skips characters outside both alphabets. */
  function ReadSextets(s: string): seq<sextet> {
    if |s| == 0 || s[0] == '=' then []
    else
      match SextetOf(s[0])
      case Some(x) => [x] + ReadSextets(s[1..])
      case None => ReadSextets(s[1..])
  }

  lemma {:induction false} ReadStdChars(x: seq<sextet>, pad: string)
    requires |pad| == 0 || pad[0] == '='
    ensures ReadSextets(StdChars(x) + pad) == x
  {
    if |x| == 0 {
      assert StdChars(x) + pad == pad;
    } else {
      var s := StdChars(x) + pad;
      assert s[0] == StdChar(x[0]);
      SextetOfStdChar(x[0]);
      assert s[1..] == StdChars(x[1..]) + pad;
      ReadStdChars(x[1..], pad);
      assert x == [x[0]] + x[1..];
    }
  }

  /** `Buffer.from(s, 'base64')`. */
  function Decode(s: string): seq<byte> {
    FromSextets(ReadSextets(s))
  }

  /** Decoding what was encoded, with any number of `=` after the
      characters that carry data, gives back the bytes. */
  lemma EncodeThenDecode(b: seq<byte>, pad: nat)
    ensures Decode(StdChars(ToSextets(b)) + Repeat('=', pad)) == b
    ensures Decode(Encode(b)) == b
  {
    ReadStdChars(ToSextets(b), Repeat('=', pad));
    ReadStdChars(ToSextets(b), Repeat('=', PadLength(|b|)));
    SextetsRoundTrip(b);
  }
}
