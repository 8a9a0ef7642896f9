/** String helpers with JavaScript's meaning: `toLowerCase` restricted to
    ASCII, the whitespace set of `String.prototype.trim` and of the regular
    expression class `\s`, `split` on one character, `join`, `startsWith`,
    `endsWith`, and `replace` with a string pattern (first occurrence only). */
module Text {
  import opened Wrappers
  import Seqs

  // ---------------------------------------------------------------------
  // Characters
  // ---------------------------------------------------------------------

  predicate IsUpperAscii(c: char) {
    'A' <= c <= 'Z'
  }

  predicate IsLowerAscii(c: char) {
    'a' <= c <= 'z'
  }

  predicate IsDigit(c: char) {
    '0' <= c <= '9'
  }

  /** The ASCII part of `toLowerCase`: `A`-`Z` become `a`-`z`, every other
      character is left alone. */
  function LowerChar(c: char): (d: char)
    ensures !IsUpperAscii(d)
    ensures IsUpperAscii(c) ==> IsLowerAscii(d)
    ensures !IsUpperAscii(c) ==> d == c
  {
    if IsUpperAscii(c) then (c as int + 32) as char else c
  }

  /** The characters removed by `trim()` and matched by `\s`: the ECMAScript
      WhiteSpace and LineTerminator productions. */
  predicate IsJsSpace(c: char) {
    || c == '\t' || c == '\n' || c == '\U{000B}' || c == '\U{000C}' || c == '\r'
    || c == ' ' || c == '\U{00A0}' || c == '\U{1680}'
    || ('\U{2000}' <= c <= '\U{200A}')
    || c == '\U{2028}' || c == '\U{2029}' || c == '\U{202F}' || c == '\U{205F}'
    || c == '\U{3000}' || c == '\U{FEFF}'
  }

  // ---------------------------------------------------------------------
  // Lower-casing
  // ---------------------------------------------------------------------

  /** `toLowerCase` on ASCII: the result has no capital letter `A`-`Z`,
      and a character changes exactly when it is one. */
  function Lower(s: string): (r: string)
    ensures |r| == |s| && IsLowerCase(r)
    ensures forall i :: 0 <= i < |s| ==> (r[i] == s[i] <==> !IsUpperAscii(s[i]))
    ensures forall i :: 0 <= i < |s| ==> r[i] == LowerChar(s[i])
  {
    seq(|s|, i requires 0 <= i < |s| => LowerChar(s[i]))
  }

  predicate IsLowerCase(s: string) {
    forall i :: 0 <= i < |s| ==> !IsUpperAscii(s[i])
  }

  lemma LowerIsLowerCase(s: string)
    ensures IsLowerCase(Lower(s))
    ensures Lower(Lower(s)) == Lower(s)
  {
  }

  lemma LowerOfLowerCase(s: string)
    requires IsLowerCase(s)
    ensures Lower(s) == s
  {
  }

  lemma LowerAppend(a: string, b: string)
    ensures Lower(a + b) == Lower(a) + Lower(b)
  {
  }

  lemma LowerSlice(s: string, i: nat, j: nat)
    requires i <= j <= |s|
    ensures Lower(s)[i..j] == Lower(s[i..j])
  {
  }

  /** The Kelvin sign, U+212A: `toLowerCase` turns it into the ASCII `k`. */
  const KELVIN_SIGN: char := '\U{212A}'

  /** `toLowerCase` as far as a comparison with ASCII text can tell. Besides
      `A`-`Z`, only two characters lower-case to something holding an ASCII
      letter: the Kelvin sign, to `k`, and U+0130, to `i` followed by a
      combining dot that no ASCII text can end with. Every other character
      lower-cases to non-ASCII characters, which no ASCII text contains,
      so keeping those characters as they are changes no such comparison. */
  function FoldLower(s: string): (r: string)
    ensures |r| == |s| && IsLowerCase(r)
    ensures forall i :: 0 <= i < |s| && s[i] != KELVIN_SIGN ==> r[i] == Lower(s)[i]
    ensures forall i :: 0 <= i < |s| && s[i] == KELVIN_SIGN ==> r[i] == 'k'
  {
    seq(|s|, i requires 0 <= i < |s| => if s[i] == KELVIN_SIGN then 'k' else LowerChar(s[i]))
  }

  /** Lower-casing first changes nothing the fold does. */
  lemma FoldLowerOfLower(s: string)
    ensures FoldLower(Lower(s)) == FoldLower(s)
  {
  }

  /** A suffix without the Kelvin sign that ends the ASCII lower-casing also
      ends the fold. */
  lemma EndsWithFold(s: string, suffix: string)
    requires KELVIN_SIGN !in suffix && EndsWith(Lower(s), suffix)
    ensures EndsWith(FoldLower(s), suffix)
  {
    var d := |s| - |suffix|;
    forall i | 0 <= i < |suffix|
      ensures FoldLower(s)[d + i] == suffix[i]
    {
      assert Lower(s)[d + i] == suffix[i];
    }
  }

  // ---------------------------------------------------------------------
  // Prefixes, suffixes, search
  // ---------------------------------------------------------------------

  predicate StartsWith(s: string, prefix: string) {
    |prefix| <= |s| && s[..|prefix|] == prefix
  }

  predicate EndsWith(s: string, suffix: string) {
    |suffix| <= |s| && s[|s| - |suffix|..] == suffix
  }

  predicate OccursAt(s: string, pat: string, i: nat) {
    i + |pat| <= |s| && s[i..i + |pat|] == pat
  }

  /** The position of the leftmost occurrence of `pat` at or after `from`,
      as `indexOf` finds it. */
  function Find(s: string, pat: string, from: nat): (r: Option<nat>)
    ensures r.Some? ==> from <= r.value && OccursAt(s, pat, r.value)
    ensures r.Some? ==> forall j :: from <= j < r.value ==> !OccursAt(s, pat, j)
    ensures r.None? ==> forall j :: from <= j ==> !OccursAt(s, pat, j)
    decreases |s| + 1 - from
  {
    if from + |pat| > |s| then None
    else if s[from..from + |pat|] == pat then Some(from)
    else Find(s, pat, from + 1)
  }

  /** `pat` occurs at `i` and nowhere before. */
  predicate IsFirstOccurrence(s: string, pat: string, i: nat) {
    OccursAt(s, pat, i) && forall j :: 0 <= j < i ==> !OccursAt(s, pat, j)
  }

  /** `s.replace(pat, '')` with a string pattern: only the first occurrence
      is removed; without one the string is returned as it is. */
  function RemoveFirst(s: string, pat: string): (r: string)
    ensures Find(s, pat, 0).None? ==> r == s
    ensures Find(s, pat, 0).Some? ==> |r| == |s| - |pat|
    ensures forall i: nat :: IsFirstOccurrence(s, pat, i) ==> r == s[..i] + s[i + |pat|..]
  {
    match Find(s, pat, 0)
    case None => s
    case Some(i) => s[..i] + s[i + |pat|..]
  }

  lemma RemoveFirstOfPrefix(s: string, pat: string)
    requires StartsWith(s, pat)
    ensures RemoveFirst(s, pat) == s[|pat|..]
  {
    assert OccursAt(s, pat, 0);
  }

  // ---------------------------------------------------------------------
  // Whitespace trimming
  // ---------------------------------------------------------------------

  predicate AllSpace(s: string) {
    forall i :: 0 <= i < |s| ==> IsJsSpace(s[i])
  }

  /** The length of the longest prefix of `s` whose characters all satisfy
      `ok` (a greedy `[…]*` run). */
  function Span(s: string, ok: char -> bool): (n: nat)
    ensures n <= |s|
    ensures forall i :: 0 <= i < n ==> ok(s[i])
    ensures n < |s| ==> !ok(s[n])
  {
    if |s| == 0 || !ok(s[0]) then 0
    else 1 + Span(s[1..], ok)
  }

  /** The end of the greedy run of `ok` characters that starts at `from`. */
  function RunEnd(s: string, from: nat, ok: char -> bool): (e: nat)
    requires from <= |s|
    ensures from <= e <= |s|
    ensures forall i :: from <= i < e ==> ok(s[i])
    ensures e < |s| ==> !ok(s[e])
  {
    var t := s[from..];
    assert forall i :: from <= i < |s| ==> s[i] == t[i - from];
    from + Span(t, ok)
  }

  /** A run of `ok` characters from `from` to `to`, not followed by one
      more, is exactly the greedy run at `from`. */
  lemma RunEndOf(s: string, from: nat, to: nat, ok: char -> bool)
    requires from <= to <= |s|
    requires forall i :: from <= i < to ==> ok(s[i])
    requires to < |s| ==> !ok(s[to])
    ensures RunEnd(s, from, ok) == to
  {
  }

  /** The number of leading whitespace characters of `s`. */
  function LeadingSpace(s: string): (n: nat)
    ensures n <= |s|
    ensures AllSpace(s[..n])
    ensures n < |s| ==> !IsJsSpace(s[n])
  {
    Span(s, IsJsSpace)
  }

  /** The number of trailing whitespace characters of `s`. */
  function TrailingSpace(s: string): (n: nat)
    ensures n <= |s|
    ensures forall k :: |s| - n <= k < |s| ==> IsJsSpace(s[k])
    ensures n < |s| ==> !IsJsSpace(s[|s| - n - 1])
  {
    if |s| == 0 || !IsJsSpace(s[|s| - 1]) then 0
    else
      var prefix := s[..|s| - 1];
      assert forall k :: 0 <= k < |prefix| ==> prefix[k] == s[k];
      1 + TrailingSpace(prefix)
  }

  /** `String.prototype.trim`. */
  function Trim(s: string): (r: string)
    ensures exists i, j :: 0 <= i <= j <= |s| && r == s[i..j] && AllSpace(s[..i]) && AllSpace(s[j..])
    ensures |r| > 0 ==> !IsJsSpace(r[0]) && !IsJsSpace(r[|r| - 1])
    ensures r == [] <==> AllSpace(s)
    ensures forall k :: 0 <= k < |r| ==> r[k] in s
  {
    var i := LeadingSpace(s);
    var j := TrailingSpace(s[i..]);
    TrimSlice(s, i, j);
    s[i..|s| - j]
  }

  lemma TrimSlice(s: string, i: nat, j: nat)
    requires i == LeadingSpace(s) && j == TrailingSpace(s[i..])
    ensures var r := s[i..|s| - j];
            && i <= |s| - j
            && AllSpace(s[..i]) && AllSpace(s[|s| - j..])
            && (|r| > 0 ==> !IsJsSpace(r[0]) && !IsJsSpace(r[|r| - 1]))
            && (r == [] <==> AllSpace(s))
            && (forall k :: 0 <= k < |r| ==> r[k] in s)
  {
    TrimTail(s, i, j);
    TrimEmpty(s, i, j);
    var r := s[i..|s| - j];
    if |r| > 0 {
      assert r[0] == s[i];
      assert r[|r| - 1] == s[i..][|s| - i - j - 1];
    }
    assert forall k :: 0 <= k < |r| ==> r[k] == s[i + k];
  }

  /** The characters dropped at the end are whitespace. */
  lemma TrimTail(s: string, i: nat, j: nat)
    requires i <= |s| && j == TrailingSpace(s[i..])
    ensures AllSpace(s[|s| - j..])
  {
    var t, u := s[i..], s[|s| - j..];
    forall k | 0 <= k < |u| ensures IsJsSpace(u[k]) {
      assert u[k] == t[|t| - j + k];
    }
  }

  lemma TrimEmpty(s: string, i: nat, j: nat)
    requires i == LeadingSpace(s) && j == TrailingSpace(s[i..])
    ensures i == |s| - j <==> AllSpace(s)
  {
    if i < |s| {
      assert !IsJsSpace(s[i..][0]);
    } else {
      assert s[..i] == s;
    }
  }

  // ---------------------------------------------------------------------
  // Split and join on one character
  // ---------------------------------------------------------------------

  function Join(parts: seq<string>, sep: char): string {
    if |parts| == 0 then []
    else if |parts| == 1 then parts[0]
    else parts[0] + [sep] + Join(parts[1..], sep)
  }

  /** `s.split(sep)` for a one-character separator: the pieces between
      separators, empty ones included; `""` splits into `[""]`. */
  function Split(s: string, sep: char): (parts: seq<string>)
    ensures |parts| >= 1
    ensures forall k :: 0 <= k < |parts| ==> sep !in parts[k]
    ensures Join(parts, sep) == s
    ensures sep !in s ==> parts == [s]
    decreases |s|
  {
    if sep !in s then [s]
    else
      var i := IndexOf(s, sep);
      assert sep !in s[..i];
      var rest := Split(s[i + 1..], sep);
      assert s == s[..i] + [sep] + s[i + 1..];
      [s[..i]] + rest
  }

  /** Splitting at the first separator. */
  lemma SplitAtFirst(s: string, sep: char, k: nat)
    requires k < |s| && s[k] == sep
    requires forall j :: 0 <= j < k ==> s[j] != sep
    ensures Split(s, sep) == [s[..k]] + Split(s[k + 1..], sep)
  {
    assert IndexOf(s, sep) == k;
  }

  /** The pieces of `a`, a separator, then `b` are the pieces of `a`
      followed by the pieces of `b`. */
  lemma {:induction false} SplitAppend(a: string, b: string, sep: char)
    ensures Split(a + [sep] + b, sep) == Split(a, sep) + Split(b, sep)
    decreases |a|
  {
    if sep !in a {
      SplitAtFirst(a + [sep] + b, sep, |a|);
      assert (a + [sep] + b)[..|a|] == a && (a + [sep] + b)[|a| + 1..] == b;
    } else {
      var k := IndexOf(a, sep);
      SplitAppend(a[k + 1..], b, sep);
      SplitOfConcat(a, [sep] + b, sep, k);
      Seqs.AppendAssoc(a, [sep], b);
      Seqs.AppendAssoc(a[k + 1..], [sep], b);
      SplitAtFirst(a, sep, k);
      ConsAssoc(a[..k], Split(a[k + 1..], sep), Split(b, sep));
    }
  }

  /** When `a` holds a separator, the first piece of `a + rest` is the first
      piece of `a`. */
  lemma SplitOfConcat(a: string, rest: string, sep: char, k: nat)
    requires k < |a| && a[k] == sep
    requires forall j :: 0 <= j < k ==> a[j] != sep
    ensures Split(a + rest, sep) == [a[..k]] + Split(a[k + 1..] + rest, sep)
  {
    ConcatSlices(a, rest, k);
    SplitAtFirst(a + rest, sep, k);
  }

  lemma ConsAssoc<T>(x: T, p: seq<T>, q: seq<T>)
    ensures [x] + (p + q) == ([x] + p) + q
  {
  }

  lemma ConcatSlices(a: string, b: string, k: nat)
    requires k < |a|
    ensures forall j :: 0 <= j <= k ==> (a + b)[j] == a[j]
    ensures (a + b)[..k] == a[..k]
    ensures (a + b)[k + 1..] == a[k + 1..] + b
  {
  }

  /** The position of the first `c` in `s`. */
  function IndexOf(s: string, c: char): (k: nat)
    requires c in s
    ensures k < |s| && s[k] == c
    ensures forall j :: 0 <= j < k ==> s[j] != c
  {
    if s[0] == c then 0 else 1 + IndexOf(s[1..], c)
  }

  /** `parts.join(sep)` for a string separator. */
  function JoinWith(parts: seq<string>, sep: string): string {
    if |parts| == 0 then []
    else if |parts| == 1 then parts[0]
    else parts[0] + sep + JoinWith(parts[1..], sep)
  }

  // ---------------------------------------------------------------------
  // Global single-character replacement (`replace(/x/g, …)`)
  // ---------------------------------------------------------------------

  /** Every `from` becomes `to`; every other character is kept. */
  function ReplaceChar(s: string, from: char, to: char): (r: string)
    ensures |r| == |s|
    ensures forall i :: 0 <= i < |s| ==> r[i] == (if s[i] == from then to else s[i])
  {
    seq(|s|, i requires 0 <= i < |s| => if s[i] == from then to else s[i])
  }

  /** Every `c` is dropped; the other characters keep their order. */
  function RemoveChar(s: string, c: char): (r: string)
    ensures c !in r
    ensures |r| <= |s|
    ensures c !in s ==> r == s
  {
    if |s| == 0 then []
    else (if s[0] == c then [] else [s[0]]) + RemoveChar(s[1..], c)
  }

  lemma {:induction false} RemoveCharAppend(a: string, b: string, c: char)
    ensures RemoveChar(a + b, c) == RemoveChar(a, c) + RemoveChar(b, c)
  {
    if |a| > 0 {
      var head := if a[0] == c then [] else [a[0]];
      assert (a + b)[0] == a[0] && (a + b)[1..] == a[1..] + b;
      RemoveCharAppend(a[1..], b, c);
      Seqs.AppendAssoc(head, RemoveChar(a[1..], c), RemoveChar(b, c));
    } else {
      assert a + b == b;
    }
  }

  function Repeat(c: char, n: nat): (r: string)
    ensures |r| == n
    ensures forall i :: 0 <= i < n ==> r[i] == c
  {
    seq(n, i => c)
  }

  lemma RemoveCharOfRepeat(c: char, n: nat)
    ensures RemoveChar(Repeat(c, n), c) == []
  {
    if n > 0 {
      assert Repeat(c, n)[1..] == Repeat(c, n - 1);
      RemoveCharOfRepeat(c, n - 1);
    }
  }
}
