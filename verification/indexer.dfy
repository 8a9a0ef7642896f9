/** The Torrentio mapping of index.js (`getTorrentioStreams`): each stream
    entry of the indexer's reply becomes a stored candidate, or is dropped
    when it has no info hash. Fetching the reply is not modelled; the
    function takes the reply's `streams` (or `None` when the fetch failed or
    the reply had none). */
module Indexer {
  import opened Wrappers
  import opened Text
  import opened Seqs
  import opened Patterns
  import Const
  import opened Store

  /** A stream entry of the indexer's reply; absent fields are `None`. */
  datatype RawStream = RawStream(infoHash: Option<string>, name: Option<string>, title: Option<string>)

  /** `s?.match(re)?.[0]` on an optional string. */
  function MatchIn(s: Option<string>, at: Matcher): Option<string> {
    match s
    case None => None
    case Some(text) => FirstMatch(text, at)
  }

  /** `stream.name?.match(Q)?.[0] || stream.title?.match(Q)?.[0] || ''`. */
  function QualityOf(e: RawStream): (q: string)
    ensures MatchIn(e.name, QualityAt).Some? ==> q == MatchIn(e.name, QualityAt).value
    ensures MatchIn(e.name, QualityAt).None? && MatchIn(e.title, QualityAt).Some? ==> q == MatchIn(e.title, QualityAt).value
    ensures q != "" ==> IsQualityToken(q)
    ensures MatchIn(e.name, QualityAt).None? && MatchIn(e.title, QualityAt).None? ==> q == ""
  {
    match MatchIn(e.name, QualityAt)
    case Some(q) => LeftmostIsQuality(e.name.value); q
    case None =>
      match MatchIn(e.title, QualityAt)
      case Some(q) => LeftmostIsQuality(e.title.value); q
      case None => ""
  }

  lemma LeftmostIsQuality(s: string)
    requires FirstMatch(s, QualityAt).Some?
    ensures IsQualityToken(FirstMatch(s, QualityAt).value)
  {
    var m := Leftmost(s, QualityAt, 0).value;
    assert QualityAt(s, m.pos) == Some(m.text);
  }

  /** `stream.title?.match(/💾\s*([\d.]+)\s*(GB|MB)/i)?.[0] || ''`. */
  function SizeOf(e: RawStream): (z: string)
    ensures e.title.None? ==> z == ""
    ensures e.title.Some? ==> (z == "" <==> forall p :: 0 <= p <= |e.title.value| ==> DiskSizeAt(e.title.value, p).None?)
    ensures z != "" ==> exists p :: 0 <= p <= |e.title.value| && DiskSizeAt(e.title.value, p) == Some(z)
                                    && forall q :: 0 <= q < p ==> DiskSizeAt(e.title.value, q).None?
  {
    MatchIn(e.title, DiskSizeAt).GetOr("")
  }

  const UNKNOWN: string := "Unknown"

  /** `stream.title?.split('\n')[0].trim() || 'Unknown'`. */
  function FilenameOf(e: RawStream): (f: string)
    ensures f != ""
    ensures e.title.Some? && Trim(Split(e.title.value, '\n')[0]) != "" ==> f == Trim(Split(e.title.value, '\n')[0])
    ensures e.title.None? || Trim(Split(e.title.value, '\n')[0]) == "" ==> f == UNKNOWN
  {
    match e.title
    case None => UNKNOWN
    case Some(title) =>
      var line := Trim(Split(title, '\n')[0]);
      if line == "" then UNKNOWN else line
  }

  /** The first line of a title, trimmed, has no line break and no
      surrounding whitespace; it is the whole title trimmed when the title is
      one line. */
  lemma FilenameIsFirstLine(e: RawStream)
    requires e.title.Some?
    ensures '\n' !in FilenameOf(e)
    ensures |FilenameOf(e)| > 0 && FilenameOf(e) != UNKNOWN ==>
              !IsJsSpace(FilenameOf(e)[0]) && !IsJsSpace(FilenameOf(e)[|FilenameOf(e)| - 1])
    ensures '\n' !in e.title.value && !AllSpace(e.title.value) ==> FilenameOf(e) == Trim(e.title.value)
  {
    var title := e.title.value;
    var line := Trim(Split(title, '\n')[0]);
    assert FilenameOf(e) == if line == "" then UNKNOWN else line;
    NoBreakInTrim(Split(title, '\n')[0]);
    assert '\n' !in UNKNOWN;
  }

  lemma NoBreakInTrim(s: string)
    requires '\n' !in s
    ensures '\n' !in Trim(s)
  {
    var t := Trim(s);
    forall k | 0 <= k < |t| ensures t[k] != '\n' {
      assert t[k] in s;
    }
  }

  /** `stream.title || filename`: an empty title counts as absent. */
  function WebsiteTitleOf(e: RawStream): (w: string)
    ensures e.title.Some? && e.title.value != "" ==> w == e.title.value
    ensures e.title.None? || e.title.value == "" ==> w == FilenameOf(e)
  {
    match e.title
    case Some(title) => if title != "" then title else FilenameOf(e)
    case None => FilenameOf(e)
  }

  /** The mapping of one entry: `None` (later filtered out) unless it has a
      non-empty `infoHash`. */
  function ToCandidate(e: RawStream): (r: Option<Stream>)
    ensures r.Some? <==> e.infoHash.Some? && e.infoHash.value != ""
    ensures r.Some? ==>
              && r.value.magnetLink == Const.MAGNET_PREFIX + e.infoHash.value
              && r.value.filename == FilenameOf(e)
              && r.value.websiteTitle == WebsiteTitleOf(e)
              && r.value.quality == QualityOf(e)
              && r.value.size == SizeOf(e)
  {
    match e.infoHash
    case None => None
    case Some(hash) =>
      if hash == "" then None
      else Some(Stream(Const.MAGNET_PREFIX + hash, FilenameOf(e), WebsiteTitleOf(e), QualityOf(e), SizeOf(e)))
  }

  predicate HasInfoHash(e: RawStream) {
    e.infoHash.Some? && e.infoHash.value != ""
  }

  /** `getTorrentioStreams(imdbId)` on the fetched `streams` array: the
      entries with an info hash, mapped, in reply order; nothing when the
      fetch failed. */
  function TorrentioStreams(reply: Option<seq<RawStream>>): (r: seq<Stream>)
    ensures reply.None? ==> r == []
    ensures reply.Some? ==>
              && |r| == |Filter(reply.value, HasInfoHash)|
              && forall i :: 0 <= i < |r| ==> ToCandidate(Filter(reply.value, HasInfoHash)[i]) == Some(r[i])
  {
    match reply
    case None => []
    case Some(entries) =>
      FilterCongruent(entries, HasInfoHash, Defined(ToCandidate));
      FilterMap(entries, ToCandidate)
  }

  /** The hash the store reads back from a candidate is its info hash,
      lower-cased, for any hash without `&`: the mapping and the store agree
      on identity. */
  lemma CandidateHash(e: RawStream)
    requires HasInfoHash(e) && '&' !in e.infoHash.value
    ensures StreamHash(ToCandidate(e).value) == Some(Lower(e.infoHash.value))
  {
    LinkHashOfMagnet(e.infoHash.value);
  }

  /** Entries are mapped one by one: the candidates of two batches are the
      candidates of each, in order. */
  lemma TorrentioStreamsAppend(a: seq<RawStream>, b: seq<RawStream>)
    ensures TorrentioStreams(Some(a + b)) == TorrentioStreams(Some(a)) + TorrentioStreams(Some(b))
  {
    FilterMapAppend(a, b, ToCandidate);
  }
}
