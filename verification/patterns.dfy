/** The handful of regular expressions the add-on uses, written out as string
    functions. A JavaScript `match` without the `g` flag reports the match
    that starts leftmost; at one start position the alternatives and the
    greedy quantifiers are tried in the order the engine tries them. Every
    pattern here carries the `i` flag and consists of ASCII literals, so
    case-insensitive comparison is exactly ASCII lower-casing. */
module Patterns {
  import opened Wrappers
  import opened Text

  datatype Match = Match(pos: nat, text: string)

  /** A matcher reports the text matched when the match starts exactly at the
      given position. */
  type Matcher = (string, nat) -> Option<string>

  /** The leftmost start position at or after `from` where `at` matches. */
  function Leftmost(s: string, at: Matcher, from: nat): (r: Option<Match>)
    ensures r.Some? ==> from <= r.value.pos <= |s| && at(s, r.value.pos) == Some(r.value.text)
    ensures r.Some? ==> forall q :: from <= q < r.value.pos ==> at(s, q).None?
    ensures r.None? ==> forall q :: from <= q <= |s| ==> at(s, q).None?
    decreases |s| + 1 - from
  {
    if from > |s| then None
    else
      match at(s, from)
      case Some(t) => Some(Match(from, t))
      case None => Leftmost(s, at, from + 1)
  }

  /** `s.match(re)?.[…]` reads the same leftmost match from two inputs on
      which the matcher agrees position by position. */
  lemma {:induction false} LeftmostCongruent(s: string, s': string, at: Matcher, at': Matcher, from: nat)
    requires |s| == |s'|
    requires forall q :: from <= q <= |s| ==> at(s, q) == at'(s', q)
    ensures Leftmost(s, at, from) == Leftmost(s', at', from)
    decreases |s| + 1 - from
  {
    if from <= |s| && at(s, from).None? {
      LeftmostCongruent(s, s', at, at', from + 1);
    }
  }

  /** A matcher that matches at `p` and nowhere between `from` and `p`
      reports its match at `p`. */
  lemma {:induction false} LeftmostAt(s: string, at: Matcher, from: nat, p: nat)
    requires from <= p <= |s| && at(s, p).Some?
    requires forall q :: from <= q < p ==> at(s, q).None?
    ensures Leftmost(s, at, from) == Some(Match(p, at(s, p).value))
    decreases p - from
  {
    if from < p {
      LeftmostAt(s, at, from + 1, p);
    }
  }

  /** The text of the leftmost match, as `s.match(re)?.[0]` (or `?.[1]` for
      the capture matchers below). */
  function FirstMatch(s: string, at: Matcher): (r: Option<string>)
    ensures r.Some? <==> exists q :: 0 <= q <= |s| && at(s, q).Some?
    ensures r.Some? ==> exists q :: 0 <= q <= |s| && at(s, q) == r && forall j :: 0 <= j < q ==> at(s, j).None?
  {
    var m := Leftmost(s, at, 0);
    if m.Some? then Some(m.value.text) else None
  }

  // ---------------------------------------------------------------------
  // Building blocks
  // ---------------------------------------------------------------------

  /** `n` decimal digits (`\d` is `[0-9]`) start at `p`. */
  predicate DigitsAt(s: string, p: nat, n: nat) {
    p + n <= |s| && forall i :: p <= i < p + n ==> IsDigit(s[i])
  }

  /** The lower-case literal `w` occurs at `p`, compared case-insensitively. */
  predicate WordAt(s: string, p: nat, w: string) {
    p + |w| <= |s| && Lower(s[p..p + |w|]) == w
  }

  predicate IsDigitOrDot(c: char) {
    IsDigit(c) || c == '.'
  }

  /** `(GB|MB)` with the `i` flag at `p`. */
  predicate UnitAt(s: string, p: nat) {
    WordAt(s, p, "gb") || WordAt(s, p, "mb")
  }

  /** The longest prefix of `s` without `c` (a greedy `[^c]+` run). */
  function RunUntil(s: string, c: char): (r: string)
    ensures c !in r
    ensures |r| <= |s| && r == s[..|r|]
    ensures |r| < |s| ==> s[|r|] == c
  {
    if |s| == 0 || s[0] == c then []
    else [s[0]] + RunUntil(s[1..], c)
  }

  lemma {:induction false} RunUntilLower(s: string, c: char)
    requires !IsUpperAscii(c) && !IsLowerAscii(c)
    ensures RunUntil(Lower(s), c) == Lower(RunUntil(s, c))
  {
    if |s| > 0 && s[0] != c {
      assert Lower(s)[0] == LowerChar(s[0]);
      assert Lower(s)[1..] == Lower(s[1..]);
      RunUntilLower(s[1..], c);
      assert Lower([s[0]] + RunUntil(s[1..], c)) == [LowerChar(s[0])] + Lower(RunUntil(s[1..], c));
    }
  }

  lemma RunUntilAbsent(s: string, c: char)
    requires c !in s
    ensures RunUntil(s, c) == s
  {
  }

  // ---------------------------------------------------------------------
  // `key([^&]+)` with the `i` flag, capture lower-cased
  // ---------------------------------------------------------------------

  /** The capture group of `key([^&]+)` when the match starts at `p`: the key
      (case-insensitively), then at least one character other than `&`, then
      every following non-`&` character; the capture is lower-cased, as both
      callers lower-case it. */
  function CaptureAt(s: string, key: string, p: nat): (r: Option<string>)
    ensures r.Some? ==> |r.value| > 0 && '&' !in r.value && IsLowerCase(r.value)
    ensures r.Some? <==> p + |key| < |s| && Lower(s[p..p + |key|]) == key && s[p + |key|] != '&'
    ensures r.Some? ==> r.value == Lower(RunUntil(s[p + |key|..], '&'))
  {
    if p + |key| < |s| && Lower(s[p..p + |key|]) == key && s[p + |key|] != '&' then
      var run := RunUntil(s[p + |key|..], '&');
      assert run[0] == s[p + |key|];
      LowerIsLowerCase(run);
      Some(Lower(run))
    else None
  }

  /** `s.match(/key([^&]+)/i)?.[1]?.toLowerCase()`. */
  function CaptureAfter(s: string, key: string): (r: Option<string>)
    ensures r.Some? ==> |r.value| > 0 && '&' !in r.value && IsLowerCase(r.value)
    ensures r.Some? <==> exists q :: 0 <= q <= |s| && CaptureAt(s, key, q).Some?
    ensures r.Some? ==> exists q :: 0 <= q <= |s| && CaptureAt(s, key, q) == r && IsFirstCapture(s, key, q)
  {
    CaptureAfterIsLeftmost(s, key);
    var m := Leftmost(s, KeyMatcher(key), 0);
    if m.Some? then Some(m.value.text) else None
  }

  /** No position before `q` starts a capture. */
  predicate IsFirstCapture(s: string, key: string, q: nat) {
    forall j :: 0 <= j < q ==> CaptureAt(s, key, j).None?
  }

  lemma CaptureAfterIsLeftmost(s: string, key: string)
    ensures var m := Leftmost(s, KeyMatcher(key), 0);
            && (m.Some? ==> m.value.pos <= |s| && CaptureAt(s, key, m.value.pos) == Some(m.value.text) && IsFirstCapture(s, key, m.value.pos))
            && (m.None? ==> forall q :: 0 <= q <= |s| ==> CaptureAt(s, key, q).None?)
  {
    var at := KeyMatcher(key);
    assert forall q :: at(s, q) == CaptureAt(s, key, q);
  }

  function KeyMatcher(key: string): (at: Matcher)
  {
    (t: string, q: nat) => CaptureAt(t, key, q)
  }

  /** The captured hash does not depend on the case of the input: hashes
      differing only in case are the same hash. */
  lemma CaptureIgnoresCase(s: string, key: string)
    ensures CaptureAfter(Lower(s), key) == CaptureAfter(s, key)
  {
    forall q | 0 <= q <= |s|
      ensures CaptureAt(Lower(s), key, q) == CaptureAt(s, key, q)
    {
      if q + |key| < |s| {
        LowerSlice(s, q, q + |key|);
        LowerIsLowerCase(s[q..q + |key|]);
        assert Lower(s)[q + |key|] == LowerChar(s[q + |key|]);
        assert Lower(s)[q + |key|..] == Lower(s[q + |key|..]);
        RunUntilLower(s[q + |key|..], '&');
        LowerIsLowerCase(RunUntil(s[q + |key|..], '&'));
      }
    }
    LeftmostCongruent(Lower(s), s, KeyMatcher(key), KeyMatcher(key), 0);
  }

  /** When `key` occurs at `p` followed by a non-empty `&`-free tail that
      runs to the end, and no earlier position matches, the capture is that
      tail, lower-cased. */
  lemma CaptureOfTail(s: string, key: string, p: nat)
    requires p + |key| < |s| && Lower(s[p..p + |key|]) == key
    requires '&' !in s[p + |key|..]
    requires forall q :: 0 <= q < p ==> CaptureAt(s, key, q).None?
    ensures CaptureAfter(s, key) == Some(Lower(s[p + |key|..]))
  {
    var tail := s[p + |key|..];
    assert s[p + |key|] == tail[0];
    RunUntilAbsent(tail, '&');
    assert CaptureAt(s, key, p) == Some(Lower(tail));
    LeftmostAt(s, KeyMatcher(key), 0, p);
  }

  /** A text that ends in `key` followed by a hash captures the hash,
      lower-cased, when no earlier character can start the key. */
  lemma CaptureAfterPrefix(prefix: string, h: string, key: string, p: nat)
    requires |key| > 0 && p + |key| == |prefix| && Lower(prefix[p..]) == key
    requires forall q :: 0 <= q < p ==> LowerChar(prefix[q]) != key[0]
    requires |h| > 0 && '&' !in h
    ensures CaptureAfter(prefix + h, key) == Some(Lower(h))
  {
    var s := prefix + h;
    assert s[p..p + |key|] == prefix[p..];
    assert s[p + |key|..] == h;
    forall q | 0 <= q < p
      ensures CaptureAt(s, key, q).None?
    {
      NoCaptureAt(s, key, q);
    }
    CaptureOfTail(s, key, p);
  }

  /** The same when the hash is followed by `&` and further parameters:
      the capture stops at the first `&`, whatever follows it. */
  lemma CaptureAfterPrefixParams(prefix: string, h: string, rest: string, key: string, p: nat)
    requires |key| > 0 && p + |key| == |prefix| && Lower(prefix[p..]) == key
    requires forall q :: 0 <= q < p ==> LowerChar(prefix[q]) != key[0]
    requires |h| > 0 && '&' !in h
    ensures CaptureAfter(prefix + h + "&" + rest, key) == Some(Lower(h))
  {
    var s := prefix + h + "&" + rest;
    assert s[p..p + |key|] == prefix[p..];
    assert s[p + |key|..] == h + "&" + rest;
    RunUntilOf(h, rest, '&');
    assert CaptureAt(s, key, p) == Some(Lower(h));
    forall q | 0 <= q < p
      ensures CaptureAt(s, key, q).None?
    {
      NoCaptureAt(s, key, q);
    }
    LeftmostAt(s, KeyMatcher(key), 0, p);
  }

  /** A greedy `[^c]+` run stops at the first `c`. */
  lemma {:induction false} RunUntilOf(h: string, rest: string, c: char)
    requires c !in h
    ensures RunUntil(h + [c] + rest, c) == h
  {
    if |h| > 0 {
      assert (h + [c] + rest)[1..] == h[1..] + [c] + rest;
      RunUntilOf(h[1..], rest, c);
    }
  }

  lemma NoCaptureAt(s: string, key: string, q: nat)
    requires 0 < |key| && q < |s| && LowerChar(s[q]) != key[0]
    ensures CaptureAt(s, key, q).None?
  {
    if q + |key| < |s| {
      assert Lower(s[q..q + |key|])[0] == LowerChar(s[q]);
    }
  }

  // ---------------------------------------------------------------------
  // `\d{3,4}p|4k|HDTS|CAM` with the `i` flag
  // ---------------------------------------------------------------------

  /** A text the quality pattern can match: three or four digits and a `p`,
      or one of `4k`, `hdts`, `cam`, in any case. */
  predicate IsQualityToken(t: string) {
    || ((|t| == 4 || |t| == 5) && DigitsAt(t, 0, |t| - 1) && LowerChar(t[|t| - 1]) == 'p')
    || Lower(t) == "4k" || Lower(t) == "hdts" || Lower(t) == "cam"
  }

  /** The quality pattern at `p`; `\d{3,4}` is greedy, so four digits are
      tried before three. */
  function QualityAt(s: string, p: nat): (r: Option<string>)
    ensures r.Some? ==> p + |r.value| <= |s| && r.value == s[p..p + |r.value|] && IsQualityToken(r.value)
    ensures DigitsAt(s, p, 4) && p + 4 < |s| && LowerChar(s[p + 4]) == 'p' ==> r == Some(s[p..p + 5])
    ensures DigitsAt(s, p, 3) && p + 3 < |s| && LowerChar(s[p + 3]) == 'p' ==> r == Some(s[p..p + 4])
    ensures WordAt(s, p, "4k") ==> r == Some(s[p..p + 2])
    ensures WordAt(s, p, "hdts") ==> r == Some(s[p..p + 4])
    ensures WordAt(s, p, "cam") ==> r == Some(s[p..p + 3])
  {
    DigitsAreNoWord(s, p);
    if DigitsAt(s, p, 4) && p + 4 < |s| && LowerChar(s[p + 4]) == 'p' then
      assert DigitsAt(s[p..p + 5], 0, 4);
      Some(s[p..p + 5])
    else if DigitsAt(s, p, 3) && p + 3 < |s| && LowerChar(s[p + 3]) == 'p' then
      assert DigitsAt(s[p..p + 4], 0, 3);
      Some(s[p..p + 4])
    else if WordAt(s, p, "4k") then Some(s[p..p + 2])
    else if WordAt(s, p, "hdts") then Some(s[p..p + 4])
    else if WordAt(s, p, "cam") then Some(s[p..p + 3])
    else None
  }

  /** A letter of a word compared case-insensitively. */
  lemma WordAtChar(s: string, p: nat, w: string, i: nat)
    requires WordAt(s, p, w) && i < |w|
    ensures LowerChar(s[p + i]) == w[i]
  {
    assert Lower(s[p..p + |w|])[i] == LowerChar(s[p + i]);
  }

  /** Digits cannot start the words `hdts` and `cam`, and two digits cannot
      spell `4k`: the alternatives of the pattern do not overlap. */
  lemma DigitsAreNoWord(s: string, p: nat)
    ensures DigitsAt(s, p, 2) ==> !WordAt(s, p, "4k")
    ensures DigitsAt(s, p, 1) ==> !WordAt(s, p, "hdts") && !WordAt(s, p, "cam")
  {
    if DigitsAt(s, p, 2) && WordAt(s, p, "4k") {
      WordAtChar(s, p, "4k", 1);
    }
    if DigitsAt(s, p, 1) && WordAt(s, p, "hdts") {
      WordAtChar(s, p, "hdts", 0);
    }
    if DigitsAt(s, p, 1) && WordAt(s, p, "cam") {
      WordAtChar(s, p, "cam", 0);
    }
  }

  // ---------------------------------------------------------------------
  // `💾\s*([\d.]+)\s*(GB|MB)` with the `i` flag (whole match)
  // ---------------------------------------------------------------------

  /** The unit's first letter is neither whitespace nor a digit or dot, so
      no run before it can swallow it. */
  lemma UnitEndsRuns(s: string, c: nat)
    requires UnitAt(s, c)
    ensures c + 2 <= |s| && !IsJsSpace(s[c]) && !IsDigitOrDot(s[c])
  {
    if WordAt(s, c, "gb") {
      WordAtChar(s, c, "gb", 0);
    } else {
      WordAtChar(s, c, "mb", 0);
    }
  }

  /** The text from `p` to `c + 2` reads as `💾`, whitespace up to `a`, a
      non-empty digit-or-dot run up to `b`, whitespace up to `c`, and a
      unit. */
  predicate DiskSizeShape(s: string, p: nat, a: nat, b: nat, c: nat) {
    && p < a < b <= c && c + 2 <= |s|
    && s[p] == '\U{1F4BE}'
    && (forall i :: p < i < a ==> IsJsSpace(s[i]))
    && (forall i :: a <= i < b ==> IsDigitOrDot(s[i]))
    && (forall i :: b <= i < c ==> IsJsSpace(s[i]))
    && UnitAt(s, c)
  }

  /** The ends of the greedy runs `\s*`, `[\d.]+` and `\s*` after `p`. */
  function DiskSizeRuns(s: string, p: nat): (e: (nat, nat, nat))
    requires p < |s|
    ensures p < e.0 <= e.1 <= e.2 <= |s|
  {
    var a := RunEnd(s, p + 1, IsJsSpace);
    var b := RunEnd(s, a, IsDigitOrDot);
    (a, b, RunEnd(s, b, IsJsSpace))
  }

  lemma DiskSizeShapeIsRuns(s: string, p: nat, a: nat, b: nat, c: nat)
    requires DiskSizeShape(s, p, a, b, c)
    ensures DiskSizeRuns(s, p) == (a, b, c)
  {
    UnitEndsRuns(s, c);
    DigitOrDotIsNoSpace(s[a]);
    RunEndOf(s, p + 1, a, IsJsSpace);
    if b < c {
      DigitOrDotIsNoSpace(s[b]);
    }
    RunEndOf(s, a, b, IsDigitOrDot);
    RunEndOf(s, b, c, IsJsSpace);
    assert DiskSizeRuns(s, p).0 == a;
    assert DiskSizeRuns(s, p).1 == b;
    assert DiskSizeRuns(s, p).2 == c;
  }

  lemma DigitOrDotIsNoSpace(c: char)
    ensures IsDigitOrDot(c) ==> !IsJsSpace(c)
  {
  }

  /** `💾\s*([\d.]+)\s*(GB|MB)` with the `i` flag, whole match, at `p`. */
  function DiskSizeAt(s: string, p: nat): (r: Option<string>)
    ensures r.Some? ==> p < |s| && s[p] == '\U{1F4BE}' && p + |r.value| <= |s| && r.value == s[p..p + |r.value|]
    ensures r.Some? ==> |r.value| >= 2 && UnitAt(s, p + |r.value| - 2)
  {
    if p < |s| && s[p] == '\U{1F4BE}' then
      var e := DiskSizeRuns(s, p);
      if e.0 < e.1 && UnitAt(s, e.2) then
        var m := s[p..e.2 + 2];
        assert |m| == e.2 + 2 - p;
        Some(m)
      else None
    else None
  }

  /** Wherever the text reads as the pattern, the pattern matches, up to the
      end of the unit: the character classes next to each other are
      disjoint, so the greedy runs never need to give characters back. */
  lemma DiskSizeAtOfShape(s: string, p: nat, a: nat, b: nat, c: nat)
    requires DiskSizeShape(s, p, a, b, c)
    ensures DiskSizeAt(s, p) == Some(s[p..c + 2])
  {
    DiskSizeShapeIsRuns(s, p, a, b, c);
  }

  /** And the pattern matches only where the text reads as it. */
  lemma DiskSizeAtHasShape(s: string, p: nat)
    requires DiskSizeAt(s, p).Some?
    ensures exists a: nat, b: nat, c: nat :: DiskSizeShape(s, p, a, b, c) && DiskSizeAt(s, p).value == s[p..c + 2]
  {
    var e := DiskSizeRuns(s, p);
    assert DiskSizeShape(s, p, e.0, e.1, e.2);
  }

  // ---------------------------------------------------------------------
  // `\d+(\.\d+)?\s*(GB|MB)` with the `i` flag
  // ---------------------------------------------------------------------

  /** The end of the optional `(\.\d+)?` group starting at `a`. */
  function FractionEnd(s: string, a: nat): (b: nat)
    requires a <= |s|
    ensures a <= b <= |s|
    ensures b == a <==> !(a + 1 < |s| && s[a] == '.' && IsDigit(s[a + 1]))
    ensures b > a ==> s[a] == '.' && (forall i :: a < i < b ==> IsDigit(s[i])) && (b < |s| ==> !IsDigit(s[b]))
  {
    if a + 1 < |s| && s[a] == '.' && IsDigit(s[a + 1]) then RunEnd(s, a + 1, IsDigit) else a
  }

  /** The text from `p` to `c + 2` reads as digits up to `a`, optionally a
      dot and more digits up to `b`, whitespace up to `c`, and a unit. */
  predicate SizeShape(s: string, p: nat, a: nat, b: nat, c: nat) {
    && p < a <= b <= c && c + 2 <= |s|
    && (forall i :: p <= i < a ==> IsDigit(s[i]))
    && (b == a || (a + 1 < b && s[a] == '.' && forall i :: a < i < b ==> IsDigit(s[i])))
    && (forall i :: b <= i < c ==> IsJsSpace(s[i]))
    && UnitAt(s, c)
  }

  /** The ends of the greedy `\d+`, the optional fraction and `\s*`. */
  function SizeRuns(s: string, p: nat): (e: (nat, nat, nat))
    requires p < |s|
    ensures p <= e.0 <= e.1 <= e.2 <= |s|
  {
    var a := RunEnd(s, p, IsDigit);
    var b := FractionEnd(s, a);
    (a, b, RunEnd(s, b, IsJsSpace))
  }

  lemma SizeShapeIsRuns(s: string, p: nat, a: nat, b: nat, c: nat)
    requires SizeShape(s, p, a, b, c)
    ensures SizeRuns(s, p) == (a, b, c)
  {
    UnitEndsRuns(s, c);
    assert a < |s| ==> !IsDigit(s[a]);
    RunEndOf(s, p, a, IsDigit);
    FractionEndOf(s, a, b);
    RunEndOf(s, b, c, IsJsSpace);
  }

  /** The optional fraction ends at `b` when `a` to `b` is empty and holds
      no dot-and-digit, or is a dot and a maximal digit run. */
  lemma FractionEndOf(s: string, a: nat, b: nat)
    requires a <= b < |s| && !IsDigit(s[b]) && s[b] != '.'
    requires b == a || (a + 1 < b && s[a] == '.' && forall i :: a < i < b ==> IsDigit(s[i]))
    ensures FractionEnd(s, a) == b
  {
    if b > a {
      RunEndOf(s, a + 1, b, IsDigit);
    }
  }

  /** `\d+(\.\d+)?\s*(GB|MB)` with the `i` flag at `p`. */
  function SizeAt(s: string, p: nat): (r: Option<string>)
    ensures r.Some? ==> p < |s| && IsDigit(s[p]) && p + |r.value| <= |s| && r.value == s[p..p + |r.value|]
    ensures r.Some? ==> |r.value| >= 2 && UnitAt(s, p + |r.value| - 2)
  {
    if p < |s| && IsDigit(s[p]) then
      var e := SizeRuns(s, p);
      if UnitAt(s, e.2) then
        var m := s[p..e.2 + 2];
        assert |m| == e.2 + 2 - p;
        Some(m)
      else None
    else None
  }

  /** Wherever the text reads as the pattern, the pattern matches, up to the
      end of the unit: a dot, whitespace and a unit letter are not digits,
      and a unit letter is not whitespace, so no backtracking can change the
      match. */
  lemma SizeAtOfShape(s: string, p: nat, a: nat, b: nat, c: nat)
    requires SizeShape(s, p, a, b, c)
    ensures SizeAt(s, p) == Some(s[p..c + 2])
  {
    SizeShapeIsRuns(s, p, a, b, c);
  }

  /** And the pattern matches only where the text reads as it. */
  lemma SizeAtHasShape(s: string, p: nat)
    requires SizeAt(s, p).Some?
    ensures exists a: nat, b: nat, c: nat :: SizeShape(s, p, a, b, c) && SizeAt(s, p).value == s[p..c + 2]
  {
    var e := SizeRuns(s, p);
    assert SizeShape(s, p, e.0, e.1, e.2);
  }

  // ---------------------------------------------------------------------
  // `4k|\d{3,4}` with the `i` flag
  // ---------------------------------------------------------------------

  /** The ranking token at `p`: `4k` is the first alternative; `\d{3,4}` is
      greedy. */
  function ResolutionAt(s: string, p: nat): (r: Option<string>)
    ensures r.Some? ==> p + |r.value| <= |s| && r.value == s[p..p + |r.value|]
    ensures r.Some? ==> Lower(r.value) == "4k" || ((|r.value| == 3 || |r.value| == 4) && DigitsAt(r.value, 0, |r.value|))
    ensures r.None? <==> !WordAt(s, p, "4k") && !DigitsAt(s, p, 3)
    ensures WordAt(s, p, "4k") ==> r == Some(s[p..p + 2])
    ensures !WordAt(s, p, "4k") && DigitsAt(s, p, 4) ==> r == Some(s[p..p + 4])
    ensures !WordAt(s, p, "4k") && DigitsAt(s, p, 3) && !DigitsAt(s, p, 4) ==> r == Some(s[p..p + 3])
  {
    if WordAt(s, p, "4k") then Some(s[p..p + 2])
    else if DigitsAt(s, p, 4) then
      assert DigitsAt(s[p..p + 4], 0, 4);
      Some(s[p..p + 4])
    else if DigitsAt(s, p, 3) then
      assert DigitsAt(s[p..p + 3], 0, 3);
      Some(s[p..p + 3])
    else None
  }
}
