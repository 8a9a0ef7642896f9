/** The per-year candidate store of index.js: the stream and movie records
    kept in `movies/<year>.json`, the lookup `readMovieData`, and the
    deduplicating merge `mergeAndSaveStreams`. The file system is a value
    here: the content of one year's file before the operation, and the
    content after it. */
module Store {
  import opened Wrappers
  import opened Text
  import opened Seqs
  import opened Patterns
  import Const

  /** A torrent candidate as stored and as produced by the Torrentio
      mapping. */
  datatype Stream = Stream(
    magnetLink: string,
    filename: string,
    websiteTitle: string,
    quality: string,
    size: string)

  /** An ISO date string; clocks are not modelled, so timestamps are taken
      as they come. */
  type Timestamp = string

  datatype MovieRecord = MovieRecord(
    imdbId: string,
    streams: seq<Stream>,
    originalTitle: string,
    addedAt: Timestamp,
    lastUpdated: Timestamp)

  /** One year's file: `None` when it is missing or does not parse. */
  type YearFile = Option<seq<MovieRecord>>

  /** Whether the per-year lock was acquired or its acquisition failed
      (timeout, too many pending tasks). */
  datatype LockOutcome = Acquired | LockFailed

  /** The two `new Date()` readings a merge may take, in order. */
  datatype Clock = Clock(first: Timestamp, second: Timestamp)

  // ---------------------------------------------------------------------
  // Hash identity
  // ---------------------------------------------------------------------

  const BTIH_KEY: string := "btih:"

  /** `magnetLink.match(/btih:([^&]+)/i)?.[1]?.toLowerCase()`. */
  function LinkHash(magnetLink: string): (r: Option<string>)
    ensures r.Some? ==> |r.value| > 0 && '&' !in r.value && IsLowerCase(r.value)
    ensures r.Some? <==> exists p :: 0 <= p <= |magnetLink| && CaptureAt(magnetLink, BTIH_KEY, p).Some?
    ensures r.Some? ==> exists p :: 0 <= p <= |magnetLink| && CaptureAt(magnetLink, BTIH_KEY, p) == r && IsFirstCapture(magnetLink, BTIH_KEY, p)
  {
    CaptureAfter(magnetLink, BTIH_KEY)
  }

  function StreamHash(s: Stream): Option<string> {
    LinkHash(s.magnetLink)
  }

  /** Two links that differ only in the case of their letters have the
      same hash. */
  lemma LinkHashIgnoresCase(a: string, b: string)
    requires Lower(a) == Lower(b)
    ensures LinkHash(a) == LinkHash(b)
  {
    CaptureIgnoresCase(a, BTIH_KEY);
    CaptureIgnoresCase(b, BTIH_KEY);
  }

  /** A link built as `magnet:?xt=urn:btih:` + `h` has hash `h`
      lower-cased, when `h` is non-empty and has no `&`. */
  lemma LinkHashOfMagnet(h: string)
    requires |h| > 0 && '&' !in h
    ensures LinkHash(Const.MAGNET_PREFIX + h) == Some(Lower(h))
  {
    var prefix := Const.MAGNET_PREFIX;
    assert Lower(prefix[15..]) == BTIH_KEY;
    assert forall q :: 0 <= q < 15 ==> LowerChar(prefix[q]) != 'b';
    CaptureAfterPrefix(prefix, h, BTIH_KEY, 15);
  }

  // ---------------------------------------------------------------------
  // Deduplication
  // ---------------------------------------------------------------------

  /** `new Set(existing.map(hash).filter(Boolean))`. */
  function KnownHashes(streams: seq<Stream>): (known: set<string>)
    ensures forall h :: h in known <==> exists i :: 0 <= i < |streams| && StreamHash(streams[i]) == Some(h)
  {
    set i | 0 <= i < |streams| && StreamHash(streams[i]).Some? :: StreamHash(streams[i]).value
  }

  /** The filter test of the merge: the stream has a hash and it is not
      among the known ones. */
  predicate IsNew(known: set<string>, s: Stream) {
    StreamHash(s).Some? && StreamHash(s).value !in known
  }

  function NewIn(known: set<string>): (keep: Stream -> bool)
  {
    (s: Stream) => IsNew(known, s)
  }

  /** The incoming streams that survive deduplication against `existing`. */
  function Dedupe(existing: seq<Stream>, incoming: seq<Stream>): (r: seq<Stream>)
    ensures |r| <= |incoming|
    ensures forall i :: 0 <= i < |r| ==> r[i] in incoming && IsNew(KnownHashes(existing), r[i])
    ensures forall i :: 0 <= i < |incoming| && IsNew(KnownHashes(existing), incoming[i]) ==> incoming[i] in r
  {
    Filter(incoming, NewIn(KnownHashes(existing)))
  }

  /** Survivors keep their input order: deduplicating a concatenation is
      the concatenation of the deduplicated parts. */
  lemma DedupeAppend(existing: seq<Stream>, a: seq<Stream>, b: seq<Stream>)
    ensures Dedupe(existing, a + b) == Dedupe(existing, a) + Dedupe(existing, b)
  {
    FilterAppend(a, b, NewIn(KnownHashes(existing)));
  }

  /** A single stream survives exactly when its hash is new. */
  lemma DedupeOne(existing: seq<Stream>, s: Stream)
    ensures Dedupe(existing, [s]) == if IsNew(KnownHashes(existing), s) then [s] else []
  {
    assert [s][1..] == [];
  }

  /** A stream whose link equals an existing one up to letter case is
      dropped. */
  lemma CaseVariantIsDropped(existing: seq<Stream>, i: nat, s: Stream)
    requires i < |existing| && StreamHash(existing[i]).Some?
    requires Lower(s.magnetLink) == Lower(existing[i].magnetLink)
    ensures Dedupe(existing, [s]) == []
  {
    LinkHashIgnoresCase(s.magnetLink, existing[i].magnetLink);
    DedupeOne(existing, s);
  }

  /** After the survivors are appended, every incoming stream is known or
      has no hash, so nothing survives a second time. */
  lemma DedupeIdempotent(existing: seq<Stream>, incoming: seq<Stream>)
    ensures Dedupe(existing + Dedupe(existing, incoming), incoming) == []
  {
    var d := Dedupe(existing, incoming);
    var known' := KnownHashes(existing + d);
    KnownHashesAppend(existing, d);
    forall i | 0 <= i < |incoming|
      ensures !NewIn(known')(incoming[i])
    {
      var s := incoming[i];
      if IsNew(KnownHashes(existing), s) {
        HashIsKnown(d, s);
      }
    }
    FilterNone(incoming, NewIn(known'));
  }

  lemma KnownHashesAppend(a: seq<Stream>, b: seq<Stream>)
    ensures KnownHashes(a + b) == KnownHashes(a) + KnownHashes(b)
  {
    var ab := a + b;
    forall h | h in KnownHashes(ab) ensures h in KnownHashes(a) + KnownHashes(b) {
      var i :| 0 <= i < |ab| && StreamHash(ab[i]) == Some(h);
      if i < |a| {
        assert ab[i] == a[i];
      } else {
        assert ab[i] == b[i - |a|];
      }
    }
    forall h | h in KnownHashes(a) + KnownHashes(b) ensures h in KnownHashes(ab) {
      if h in KnownHashes(a) {
        var i :| 0 <= i < |a| && StreamHash(a[i]) == Some(h);
        assert ab[i] == a[i];
      } else {
        var i :| 0 <= i < |b| && StreamHash(b[i]) == Some(h);
        assert ab[|a| + i] == b[i];
      }
    }
  }

  /** The hash of a listed stream is known. */
  lemma HashIsKnown(streams: seq<Stream>, s: Stream)
    requires s in streams && StreamHash(s).Some?
    ensures StreamHash(s).value in KnownHashes(streams)
  {
    var i :| 0 <= i < |streams| && streams[i] == s;
  }

  // ---------------------------------------------------------------------
  // Hash uniqueness
  // ---------------------------------------------------------------------

  /** No two streams of the list share a hash. */
  predicate UniqueHashes(streams: seq<Stream>) {
    DistinctKeys(streams, StreamHash)
  }

  /** The merge keeps hashes unique as long as the incoming batch has no
      duplicate of its own: it only compares against the existing list. */
  lemma MergeKeepsUniqueHashes(existing: seq<Stream>, incoming: seq<Stream>)
    requires UniqueHashes(existing) && UniqueHashes(incoming)
    ensures UniqueHashes(existing + Dedupe(existing, incoming))
  {
    var d := Dedupe(existing, incoming);
    FilterKeepsDistinctKeys(incoming, NewIn(KnownHashes(existing)), StreamHash);
    var m := existing + d;
    forall i, j | 0 <= i < j < |m| && StreamHash(m[i]).Some?
      ensures StreamHash(m[i]) != StreamHash(m[j])
    {
      if j >= |existing| {
        assert m[j] == d[j - |existing|];
        if i < |existing| {
          assert m[i] == existing[i];
          HashIsKnown(existing, existing[i]);
          assert IsNew(KnownHashes(existing), d[j - |existing|]);
        } else {
          assert m[i] == d[i - |existing|];
        }
      }
    }
  }

  /** Duplicates inside one incoming batch are all appended: a batch that
      holds the same hashed stream twice yields a list with a repeated
      hash. */
  lemma MergeKeepsBatchDuplicates(s: Stream)
    requires StreamHash(s).Some?
    ensures Dedupe([], [s, s]) == [s, s]
    ensures !UniqueHashes([] + Dedupe([], [s, s]))
  {
    assert KnownHashes([]) == {};
    DedupeAppend([], [s], [s]);
    DedupeOne([], s);
    assert [s] + [s] == [s, s] == [] + [s, s];
  }

  // ---------------------------------------------------------------------
  // Movie records
  // ---------------------------------------------------------------------

  /** `movies.findIndex(m => m.imdbId === imdbId)`. */
  function FindRecord(records: seq<MovieRecord>, imdbId: string): (r: Option<nat>)
    ensures r.Some? ==> r.value < |records| && records[r.value].imdbId == imdbId
    ensures r.Some? ==> forall j :: 0 <= j < r.value ==> records[j].imdbId != imdbId
    ensures r.None? ==> forall j :: 0 <= j < |records| ==> records[j].imdbId != imdbId
  {
    if |records| == 0 then None
    else if records[0].imdbId == imdbId then Some(0)
    else
      match FindRecord(records[1..], imdbId)
      case None => None
      case Some(i) => Some(i + 1)
  }

  /** No two records of a year share an id. */
  predicate UniqueIds(records: seq<MovieRecord>) {
    forall i, j :: 0 <= i < j < |records| ==> records[i].imdbId != records[j].imdbId
  }

  /** The record update of the merge: the first record with the id gets the
      merged streams and a new `lastUpdated`; without one, a new record is
      appended whose `addedAt` and `lastUpdated` are two successive clock
      readings. */
  function Upsert(records: seq<MovieRecord>, imdbId: string, title: string, streams: seq<Stream>, clock: Clock): (r: seq<MovieRecord>)
    ensures FindRecord(records, imdbId).Some? ==>
      var i := FindRecord(records, imdbId).value;
      && |r| == |records|
      && r[i] == MovieRecord(imdbId, streams, records[i].originalTitle, records[i].addedAt, clock.first)
      && forall j :: 0 <= j < |r| && j != i ==> r[j] == records[j]
    ensures FindRecord(records, imdbId).None? ==>
      && |r| == |records| + 1
      && r[..|records|] == records
      && r[|records|] == MovieRecord(imdbId, streams, title, clock.first, clock.second)
  {
    match FindRecord(records, imdbId)
    case Some(i) => records[i := records[i].(streams := streams, lastUpdated := clock.first)]
    case None => records + [MovieRecord(imdbId, streams, title, clock.first, clock.second)]
  }

  /** After an upsert, looking the id up finds a record holding exactly the
      streams written. */
  lemma UpsertThenFind(records: seq<MovieRecord>, imdbId: string, title: string, streams: seq<Stream>, clock: Clock)
    ensures var r := Upsert(records, imdbId, title, streams, clock);
            FindRecord(r, imdbId).Some? && r[FindRecord(r, imdbId).value].streams == streams
  {
    var r := Upsert(records, imdbId, title, streams, clock);
    match FindRecord(records, imdbId)
    case Some(i) =>
      assert r[i].imdbId == imdbId;
      assert forall j :: 0 <= j < i ==> r[j].imdbId != imdbId;
    case None =>
      assert r[|records|].imdbId == imdbId;
      assert forall j :: 0 <= j < |records| ==> r[j].imdbId != imdbId;
  }

  /** Upserting keeps the ids of a year unique. */
  lemma UpsertKeepsIdsUnique(records: seq<MovieRecord>, imdbId: string, title: string, streams: seq<Stream>, clock: Clock)
    requires UniqueIds(records)
    ensures UniqueIds(Upsert(records, imdbId, title, streams, clock))
  {
    var r := Upsert(records, imdbId, title, streams, clock);
    if FindRecord(records, imdbId).None? {
      forall i, j | 0 <= i < j < |r|
        ensures r[i].imdbId != r[j].imdbId
      {
        if j < |records| {
          assert r[i] == records[i] && r[j] == records[j];
        } else {
          assert r[i] == records[i];
        }
      }
    }
  }

  // ---------------------------------------------------------------------
  // readMovieData
  // ---------------------------------------------------------------------

  /** `readMovieData(imdbId, year)`: the first record with the id, or
      `None` when the lock fails, the file is missing or unreadable, or no
      record has the id. */
  function ReadMovie(file: YearFile, lock: LockOutcome, imdbId: string): (r: Option<MovieRecord>)
    ensures r.Some? ==> lock.Acquired? && file.Some? && r.value.imdbId == imdbId
    ensures r.Some? ==> exists i :: 0 <= i < |file.value| && file.value[i] == r.value && forall j :: 0 <= j < i ==> file.value[j].imdbId != imdbId
    ensures r.None? <==> lock.LockFailed? || file.None? || forall j :: 0 <= j < |file.value| ==> file.value[j].imdbId != imdbId
  {
    if lock.LockFailed? || file.None? then None
    else
      match FindRecord(file.value, imdbId)
      case None => None
      case Some(i) => Some(file.value[i])
  }

  /** After an upsert, `readMovieData` finds the streams written. */
  lemma ReadMovieOfUpsert(records: seq<MovieRecord>, imdbId: string, title: string, streams: seq<Stream>, clock: Clock)
    ensures var r := ReadMovie(Some(Upsert(records, imdbId, title, streams, clock)), Acquired, imdbId);
            r.Some? && r.value.streams == streams
  {
    UpsertThenFind(records, imdbId, title, streams, clock);
  }

  // ---------------------------------------------------------------------
  // mergeAndSaveStreams
  // ---------------------------------------------------------------------

  /** The list returned to the caller and the year file afterwards. */
  datatype MergeResult = MergeResult(streams: seq<Stream>, file: YearFile)

  /** `mergeAndSaveStreams(existing, incoming, imdbId, year, title)`.
      `saved` says whether creating the directory, writing the temporary
      file and renaming it over the year file all succeeded; the rename is
      atomic, so a failed save leaves the year file as it was. A year file
      that is missing or unreadable is read as an empty list. */
  function MergeAndSave(
    existing: seq<Stream>, incoming: seq<Stream>, imdbId: string, title: string,
    file: YearFile, lock: LockOutcome, saved: bool, clock: Clock): (r: MergeResult)
    // the three no-op cases: nothing incoming, nothing new, or a failure
    ensures |incoming| == 0 || |Dedupe(existing, incoming)| == 0 || lock.LockFailed? || !saved ==>
      r == MergeResult(existing, file)
    // otherwise: existing first, then exactly the new streams, in order
    ensures lock.Acquired? && saved && |Dedupe(existing, incoming)| > 0 ==>
      && r.streams == existing + Dedupe(existing, incoming)
      && r.file == Some(Upsert(file.GetOr([]), imdbId, title, r.streams, clock))
  {
    if lock.LockFailed? || |incoming| == 0 then MergeResult(existing, file)
    else
      var survivors := Dedupe(existing, incoming);
      if |survivors| == 0 || !saved then MergeResult(existing, file)
      else
        var merged := existing + survivors;
        MergeResult(merged, Some(Upsert(file.GetOr([]), imdbId, title, merged, clock)))
  }

  /** Merging the same batch again into what a successful merge returned,
      with the file it wrote, returns that list and leaves the file alone,
      whatever the lock and the save do the second time. */
  lemma MergeAndSaveIdempotent(
    existing: seq<Stream>, incoming: seq<Stream>, imdbId: string, title: string,
    file: YearFile, clock: Clock, lock': LockOutcome, saved': bool, clock': Clock)
    ensures var r := MergeAndSave(existing, incoming, imdbId, title, file, Acquired, true, clock);
            MergeAndSave(r.streams, incoming, imdbId, title, r.file, lock', saved', clock') == r
  {
    var r := MergeAndSave(existing, incoming, imdbId, title, file, Acquired, true, clock);
    if |incoming| > 0 && |Dedupe(existing, incoming)| > 0 {
      DedupeIdempotent(existing, incoming);
    }
  }

  /** A merge that wrote the year file left it holding the returned list
      under the movie's id, where `readMovieData` finds it, and kept the ids
      of the year unique. */
  lemma MergeThenRead(
    existing: seq<Stream>, incoming: seq<Stream>, imdbId: string, title: string,
    file: YearFile, lock: LockOutcome, saved: bool, clock: Clock)
    requires file.None? || UniqueIds(file.value)
    ensures var r := MergeAndSave(existing, incoming, imdbId, title, file, lock, saved, clock);
            r.file != file ==>
              && ReadMovie(r.file, Acquired, imdbId).Some?
              && ReadMovie(r.file, Acquired, imdbId).value.streams == r.streams
              && UniqueIds(r.file.value)
  {
    var r := MergeAndSave(existing, incoming, imdbId, title, file, lock, saved, clock);
    if r.file != file {
      UpsertThenFind(file.GetOr([]), imdbId, title, r.streams, clock);
      UpsertKeepsIdsUnique(file.GetOr([]), imdbId, title, r.streams, clock);
    }
  }
}
