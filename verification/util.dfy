/** The helpers of src/util.js: the video-extension test, the info-hash
    extraction from a magnet link, and the URL-safe, unpadded base64 codec
    the add-on uses to put a magnet link into a playback URL. */
module Util {
  import opened Wrappers
  import opened Text
  import opened Patterns
  import opened Base64
  import Const

  // ---------------------------------------------------------------------
  // isVideo
  // ---------------------------------------------------------------------

  /** `exts.some(ext => s.endsWith(ext))`, scanning left to right. */
  function EndsWithAny(s: string, exts: seq<string>): (r: bool)
    ensures r <==> exists k :: 0 <= k < |exts| && EndsWith(s, exts[k])
  {
    if |exts| == 0 then false
    else if EndsWith(s, exts[0]) then true
    else
      assert forall k :: 1 <= k < |exts| ==> exts[k] == exts[1..][k - 1];
      EndsWithAny(s, exts[1..])
  }

  /** `isVideo(filename)`: `toLowerCase` then a suffix test against ASCII
      extensions, for which the fold is exact. */
  function IsVideo(filename: string): (r: bool)
    ensures r <==> exists k :: 0 <= k < |Const.VIDEO_EXTENSIONS| && EndsWith(FoldLower(filename), Const.VIDEO_EXTENSIONS[k])
  {
    EndsWithAny(FoldLower(filename), Const.VIDEO_EXTENSIONS)
  }

  /** The test does not depend on the case of the file name. */
  lemma IsVideoIgnoresCase(filename: string)
    ensures IsVideo(Lower(filename)) == IsVideo(filename)
  {
    FoldLowerOfLower(filename);
  }

  /** `toLowerCase` turns the Kelvin sign into `k`, so a name ending in
      `.m` + Kelvin sign + `v` is a video. */
  lemma IsVideoFoldsKelvin()
    ensures IsVideo("a.m" + [KELVIN_SIGN] + "v")
  {
    var s := "a.m" + [KELVIN_SIGN] + "v";
    assert FoldLower(s)[1..] == Const.VIDEO_EXTENSIONS[1];
  }

  // ---------------------------------------------------------------------
  // extractInfoHash
  // ---------------------------------------------------------------------

  const INFO_HASH_KEY: string := "xt=urn:btih:"

  /** `extractInfoHash(magnetLink)`: the lower-cased text after the leftmost
      `xt=urn:btih:` (any case) that is followed by at least one character
      other than `&`, up to the next `&` or the end; `None` for `null`. */
  function ExtractInfoHash(magnetLink: string): (r: Option<string>)
    ensures r.Some? ==> |r.value| > 0 && '&' !in r.value && IsLowerCase(r.value)
    ensures r.Some? <==> exists p :: 0 <= p <= |magnetLink| && CaptureAt(magnetLink, INFO_HASH_KEY, p).Some?
    ensures r.Some? ==> exists p :: 0 <= p <= |magnetLink| && CaptureAt(magnetLink, INFO_HASH_KEY, p) == r && IsFirstCapture(magnetLink, INFO_HASH_KEY, p)
  {
    CaptureAfter(magnetLink, INFO_HASH_KEY)
  }

  /** The extraction inverts the way magnet links are built: for a hash `h`
      that is non-empty and has no `&`, the link `magnet:?xt=urn:btih:` + `h`
      yields `h` lower-cased. */
  lemma ExtractInfoHashOfMagnet(h: string)
    requires |h| > 0 && '&' !in h
    ensures ExtractInfoHash(Const.MAGNET_PREFIX + h) == Some(Lower(h))
  {
    var prefix := Const.MAGNET_PREFIX;
    assert Lower(prefix[8..]) == INFO_HASH_KEY;
    assert forall q :: 0 <= q < 8 ==> LowerChar(prefix[q]) != 'x';
    CaptureAfterPrefix(prefix, h, INFO_HASH_KEY, 8);
  }

  /** A link with further parameters after the hash yields the hash alone,
      lower-cased; a second `xt=urn:btih:` among those parameters is
      ignored, as the leftmost match wins. */
  lemma ExtractInfoHashOfMagnetParams(h: string, rest: string)
    requires |h| > 0 && '&' !in h
    ensures ExtractInfoHash(Const.MAGNET_PREFIX + h + "&" + rest) == Some(Lower(h))
  {
    var prefix := Const.MAGNET_PREFIX;
    assert Lower(prefix[8..]) == INFO_HASH_KEY;
    assert forall q :: 0 <= q < 8 ==> LowerChar(prefix[q]) != 'x';
    CaptureAfterPrefixParams(prefix, h, rest, INFO_HASH_KEY, 8);
  }

  lemma ExtractInfoHashIgnoresCase(magnetLink: string)
    ensures ExtractInfoHash(Lower(magnetLink)) == ExtractInfoHash(magnetLink)
  {
    CaptureIgnoresCase(magnetLink, INFO_HASH_KEY);
  }

  // ---------------------------------------------------------------------
  // base64Encode / base64Decode
  // ---------------------------------------------------------------------

  /** The alphabet of section 5 of RFC 4648 ("URL and filename safe"). */
  predicate IsUrlSafe(c: char) {
    ('A' <= c <= 'Z') || ('a' <= c <= 'z') || ('0' <= c <= '9') || c == '-' || c == '_'
  }

  function UrlChar(x: sextet): (c: char)
    ensures IsUrlSafe(c)
  {
    if x == 62 then '-' else if x == 63 then '_' else StdChar(x)
  }

  function UrlChars(x: seq<sextet>): (s: string)
    ensures |s| == |x|
    ensures forall i :: 0 <= i < |x| ==> s[i] == UrlChar(x[i])
  {
    seq(|x|, i requires 0 <= i < |x| => UrlChar(x[i]))
  }

  /** `base64Encode(str)`: UTF-8 bytes, standard base64, then every `+`
      becomes `-`, every `/` becomes `_`, and every `=` is dropped. */
  function Base64Encode(str: string): (r: string)
    ensures forall i :: 0 <= i < |r| ==> IsUrlSafe(r[i])
    ensures |r| == 4 * (|Utf8(str)| / 3) + TailLength(|Utf8(str)| % 3)
  {
    EncodeIsUrlAlphabet(Utf8(str));
    RemoveChar(ReplaceChar(ReplaceChar(Encode(Utf8(str)), '+', '-'), '/', '_'), '=')
  }

  /** The encoding is the unpadded base64 of section 5 of RFC 4648. */
  lemma EncodeIsUrlAlphabet(b: seq<byte>)
    ensures RemoveChar(ReplaceChar(ReplaceChar(Encode(b), '+', '-'), '/', '_'), '=') == UrlChars(ToSextets(b))
  {
    var x := ToSextets(b);
    var pad := Repeat('=', PadLength(|b|));
    assert Encode(b) == StdChars(x) + pad;
    StdToUrl(x, PadLength(|b|));
    RemoveCharAppend(UrlChars(x), pad, '=');
    RemoveCharOfRepeat('=', PadLength(|b|));
  }

  /** Mapping `+` to `-` and `/` to `_` turns the standard alphabet into
      the URL alphabet and leaves the padding alone. */
  lemma StdToUrl(x: seq<sextet>, n: nat)
    ensures ReplaceChar(ReplaceChar(StdChars(x) + Repeat('=', n), '+', '-'), '/', '_') == UrlChars(x) + Repeat('=', n)
  {
  }

  /** `while (str.length % 4) str += '='`: the loop adds one `=` per turn
      until the length is a multiple of four. */
  function PadTo4(s: string): (r: string)
    ensures |r| % 4 == 0
    ensures |s| <= |r| < |s| + 4
    ensures r == s + Repeat('=', |r| - |s|)
  {
    var n := (4 - |s| % 4) % 4;
    assert (|s| + n) % 4 == 0;
    s + Repeat('=', n)
  }

  /** `base64Decode(str)`: `-` becomes `+`, `_` becomes `/`, `=` pads to a
      multiple of four, then base64 bytes are read back as ASCII. */
  function Base64Decode(str: string): (r: string)
    ensures IsAscii(r)
  {
    AsciiDecode(Decode(PadTo4(ReplaceChar(ReplaceChar(str, '-', '+'), '_', '/'))))
  }

  /** Decoding the encoding of an ASCII string gives the string back. */
  lemma Base64RoundTrip(s: string)
    requires IsAscii(s)
    ensures Base64Decode(Base64Encode(s)) == s
  {
    var x := ToSextets(Utf8(s));
    EncodeIsUrlAlphabet(Utf8(s));
    assert Base64Encode(s) == UrlChars(x);
    UrlToStd(x);
    var std := StdChars(x);
    var padded := PadTo4(std);
    assert padded == std + Repeat('=', |padded| - |std|);
    EncodeThenDecode(Utf8(s), |padded| - |std|);
    AsciiRoundTrip(s);
  }

  /** Mapping `-` back to `+` and `_` back to `/` turns the URL alphabet
      into the standard one. */
  lemma UrlToStd(x: seq<sextet>)
    ensures ReplaceChar(ReplaceChar(UrlChars(x), '-', '+'), '_', '/') == StdChars(x)
  {
  }
}
