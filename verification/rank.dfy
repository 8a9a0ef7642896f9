/** The quality score the request handler sorts its streams by (index.js,
    the comparator of `processedStreams.sort`): the leftmost `4k|\d{3,4}`
    (any case) in a stream's display name, read as 2160 for `4k` and as a
    decimal number otherwise; 0 without a match. */
module Rank {
  import opened Wrappers
  import opened Text
  import opened Seqs
  import opened Patterns
  import opened Sorting

  predicate AllDigits(s: string) {
    forall i :: 0 <= i < |s| ==> IsDigit(s[i])
  }

  function Pow10(n: nat): nat {
    if n == 0 then 1 else 10 * Pow10(n - 1)
  }

  /** `parseInt(s)` on a string of decimal digits. */
  function DigitsValue(s: string): (v: nat)
    requires AllDigits(s)
    ensures v < Pow10(|s|)
  {
    if |s| == 0 then 0
    else
      var prefix := s[..|s| - 1];
      assert AllDigits(prefix) by {
        assert forall i :: 0 <= i < |prefix| ==> prefix[i] == s[i];
      }
      10 * DigitsValue(prefix) + (s[|s| - 1] as int - '0' as int)
  }

  const UHD_SCORE: nat := 2160

  /** `getQuality(name)`. The matched text of `\d{3,4}` is all digits, so
      `parseInt` reads all of it. */
  function Score(name: string): (r: nat)
    ensures FirstMatch(name, ResolutionAt).None? ==> r == 0
    ensures FirstMatch(name, ResolutionAt).Some? && Lower(FirstMatch(name, ResolutionAt).value) == "4k" ==> r == UHD_SCORE
    ensures FirstMatch(name, ResolutionAt).Some? && Lower(FirstMatch(name, ResolutionAt).value) != "4k" ==>
              && (|FirstMatch(name, ResolutionAt).value| == 3 || |FirstMatch(name, ResolutionAt).value| == 4)
              && AllDigits(FirstMatch(name, ResolutionAt).value)
              && r == DigitsValue(FirstMatch(name, ResolutionAt).value)
    ensures r == UHD_SCORE || r < 10000
  {
    match FirstMatch(name, ResolutionAt)
    case None => 0
    case Some(m) =>
      if Lower(m) == "4k" then UHD_SCORE
      else
        ResolutionIsDigits(name);
        assert Pow10(|m|) <= 10000 by {
          assert Pow10(3) == 1000;
        }
        DigitsValue(m)
  }

  lemma ResolutionIsDigits(name: string)
    requires FirstMatch(name, ResolutionAt).Some?
    ensures var m := FirstMatch(name, ResolutionAt).value;
            Lower(m) == "4k" || ((|m| == 3 || |m| == 4) && AllDigits(m))
  {
    var lm := Leftmost(name, ResolutionAt, 0).value;
    assert ResolutionAt(name, lm.pos) == Some(lm.text);
  }

  /** The badge every display name starts with, and the separator after it. */
  const BADGE: string := "\U{1F9F2} | "

  lemma BadgeHasNoToken(s: string, q: nat)
    requires StartsWith(s, BADGE) && q < |BADGE|
    ensures ResolutionAt(s, q).None?
  {
    assert s[q] == BADGE[q];
    if q + 2 <= |s| {
      assert Lower(s[q..q + 2])[0] == LowerChar(s[q]);
    }
  }

  /** `\d{3,4}` at `p` reads a run of three digits not followed by a fourth,
      or a run of four digits. */
  lemma ResolutionOfRun(s: string, p: nat, d: string)
    requires (|d| == 3 || |d| == 4) && AllDigits(d)
    requires p + |d| <= |s| && s[p..p + |d|] == d
    requires |d| == 3 && p + 3 < |s| ==> !IsDigit(s[p + 3])
    ensures ResolutionAt(s, p) == Some(d)
  {
    assert forall i :: p <= i < p + |d| ==> s[i] == d[i - p];
    assert !WordAt(s, p, "4k") by {
      assert Lower(s[p..p + 2])[1] == LowerChar(s[p + 1]);
    }
    assert DigitsAt(s, p, 3);
  }

  /** The score of a name whose leftmost token is a run of digits. */
  lemma ScoreOfRun(name: string, d: string)
    requires (|d| == 3 || |d| == 4) && AllDigits(d)
    requires FirstMatch(name, ResolutionAt) == Some(d)
    ensures Score(name) == DigitsValue(d)
  {
    assert Lower(d)[1] == LowerChar(d[1]);
  }

  /** A name that, after the badge, starts with a run of three or four
      digits scores the value of that run: a `1080p` quality scores 1080, and
      so does a size of `1080 MB` when there is no quality. */
  lemma ScoreOfLeadingRun(d: string, rest: string)
    requires (|d| == 3 || |d| == 4) && AllDigits(d)
    requires |d| == 3 && |rest| > 0 ==> !IsDigit(rest[0])
    ensures Score(BADGE + d + rest) == DigitsValue(d)
  {
    var s := BADGE + d + rest;
    var p := |BADGE|;
    assert s[p..p + |d|] == d;
    if |d| == 3 && p + 3 < |s| {
      assert s[p + 3] == rest[0];
    }
    ResolutionOfRun(s, p, d);
    forall q | 0 <= q < p ensures ResolutionAt(s, q).None? {
      BadgeHasNoToken(s, q);
    }
    LeftmostAt(s, ResolutionAt, 0, p);
    ScoreOfRun(s, d);
  }

  /** A name whose first item after the badge is `4k` (any case) scores
      2160. */
  lemma ScoreOfUhd(q: string, rest: string)
    requires Lower(q) == "4k"
    ensures Score(BADGE + q + rest) == UHD_SCORE
  {
    var s := BADGE + q + rest;
    var p := |BADGE|;
    assert s[p..p + 2] == q;
    assert ResolutionAt(s, p) == Some(q);
    forall i | 0 <= i < p ensures ResolutionAt(s, i).None? {
      BadgeHasNoToken(s, i);
    }
    LeftmostAt(s, ResolutionAt, 0, p);
  }

  /** The sort key of a stream with display name `name(x)`. */
  function QualityKey<T(!new)>(name: T -> string): (key: T -> int)
  {
    x => Score(name(x))
  }

  /** `processedStreams.sort(...)`: by non-increasing score, stable. */
  function ByQuality<T(!new)>(items: seq<T>, name: T -> string): (r: seq<T>)
    ensures SortedDesc(r, QualityKey(name))
    ensures multiset(r) == multiset(items)
    ensures forall v :: Filter(r, KeyIs(QualityKey(name), v)) == Filter(items, KeyIs(QualityKey(name), v))
  {
    var r := SortDesc(items, QualityKey(name));
    forall v ensures Filter(r, KeyIs(QualityKey(name), v)) == Filter(items, KeyIs(QualityKey(name), v)) {
      SortDescIsStable(items, QualityKey(name), v);
    }
    r
  }

  /** No other order meets the contract: any sequence ordered by score that
      keeps the input order within each score is the sorted result. */
  lemma ByQualityUnique<T(!new)>(items: seq<T>, t: seq<T>, name: T -> string)
    requires SortedDesc(t, QualityKey(name))
    requires forall v :: Filter(t, KeyIs(QualityKey(name), v)) == Filter(items, KeyIs(QualityKey(name), v))
    ensures t == ByQuality(items, name)
  {
    SortDescUnique(items, t, QualityKey(name));
  }
}
