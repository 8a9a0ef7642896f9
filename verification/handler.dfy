/** The stream route of index.js (`/:apiKeys/stream/:type/:id.json`) and the
    magnet route (`/:apiKeys/:magnetLink`), as pure functions of what their
    network, file and clock calls returned: the per-provider cache maps are
    folded into one, the candidates whose hash is cached become playable
    entries with a display name and a redirect URL, and the entries are
    ranked by the quality score. */
module Handler {
  import opened Wrappers
  import opened Text
  import opened Seqs
  import opened Patterns
  import opened Store
  import opened Debrids
  import Util
  import Base64
  import opened Sorting
  import opened Rank
  import Indexer

  // ---------------------------------------------------------------------
  // Folding the per-provider cache maps
  // ---------------------------------------------------------------------

  predicate IsCachedIn(m: map<string, CacheInfo>, h: string) {
    h in m && m[h].cached
  }

  /** `Object.entries(results).forEach(([hash, info]) => { if (info.cached)
      cacheResults[hash] = info; })` on an empty accumulator. */
  function Cached(m: map<string, CacheInfo>): (r: map<string, CacheInfo>)
    ensures forall h :: h in r <==> IsCachedIn(m, h)
    ensures forall h :: h in r ==> h in m && r[h] == m[h]
  {
    map h | h in m && m[h].cached :: m[h]
  }

  /** Service `k` is the last one in `results` that reports `h` cached. */
  predicate LastCachedAt(results: seq<map<string, CacheInfo>>, h: string, k: int) {
    && 0 <= k < |results| && IsCachedIn(results[k], h)
    && forall j :: k < j < |results| ==> !IsCachedIn(results[j], h)
  }

  /** A hash is in `r` exactly when some service reports it cached. */
  ghost predicate HoldsCachedHashes(results: seq<map<string, CacheInfo>>, r: map<string, CacheInfo>) {
    forall h :: h in r <==> exists k :: 0 <= k < |results| && IsCachedIn(results[k], h)
  }

  /** The entry of the last service reporting a hash cached is the one in
      `r`. */
  ghost predicate LastWins(results: seq<map<string, CacheInfo>>, r: map<string, CacheInfo>) {
    forall h, k :: LastCachedAt(results, h, k) ==> h in r && r[h] == results[k][h]
  }

  /** The fold over the services' results, in service order: a hash is in
      the result exactly when some service reports it cached, and the entry
      of the last such service wins. */
  function FoldCache(results: seq<map<string, CacheInfo>>): (r: map<string, CacheInfo>)
    ensures forall h :: h in r ==> r[h].cached
    ensures forall h :: h in r <==> exists k :: 0 <= k < |results| && IsCachedIn(results[k], h)
    ensures forall h, k :: LastCachedAt(results, h, k) ==> h in r && r[h] == results[k][h]
  {
    if |results| == 0 then map[]
    else
      var prefix := results[..|results| - 1];
      var f := FoldCache(prefix);
      assert HoldsCachedHashes(prefix, f) && LastWins(prefix, f);
      FoldStepHolds(results, f);
      FoldStepLastWins(results, f);
      f + Cached(results[|results| - 1])
  }

  /** Adding one more service's cached entries keeps the set of hashes
      right. */
  lemma FoldStepHolds(results: seq<map<string, CacheInfo>>, f: map<string, CacheInfo>)
    requires |results| > 0 && HoldsCachedHashes(results[..|results| - 1], f)
    ensures HoldsCachedHashes(results, f + Cached(results[|results| - 1]))
  {
    var prefix, last := results[..|results| - 1], results[|results| - 1];
    forall h ensures h in f + Cached(last) <==> exists k :: 0 <= k < |results| && IsCachedIn(results[k], h) {
      if h in f {
        var k :| 0 <= k < |prefix| && IsCachedIn(prefix[k], h);
        assert IsCachedIn(results[k], h);
      } else if h !in Cached(last) {
        forall k | 0 <= k < |results| ensures !IsCachedIn(results[k], h) {
          if k < |prefix| {
            assert results[k] == prefix[k];
          }
        }
      }
    }
  }

  /** Adding one more service's cached entries keeps the last one winning. */
  lemma FoldStepLastWins(results: seq<map<string, CacheInfo>>, f: map<string, CacheInfo>)
    requires |results| > 0 && LastWins(results[..|results| - 1], f)
    ensures LastWins(results, f + Cached(results[|results| - 1]))
  {
    var prefix, last := results[..|results| - 1], results[|results| - 1];
    forall h, k | LastCachedAt(results, h, k) ensures h in f + Cached(last) && (f + Cached(last))[h] == results[k][h] {
      if k < |prefix| {
        assert LastCachedAt(prefix, h, k);
      }
    }
  }

  /** Every hash in the fold has a last service reporting it cached, so the
      fold is determined by the services' results. */
  lemma FoldCacheHasLast(results: seq<map<string, CacheInfo>>, h: string)
    requires h in FoldCache(results)
    ensures exists k :: LastCachedAt(results, h, k)
  {
    var k :| 0 <= k < |results| && IsCachedIn(results[k], h);
    LastExists(results, h, k);
  }

  lemma {:induction false} LastExists(results: seq<map<string, CacheInfo>>, h: string, k: nat)
    requires k < |results| && IsCachedIn(results[k], h)
    ensures exists k' :: LastCachedAt(results, h, k')
    decreases |results| - k
  {
    if !LastCachedAt(results, h, k) {
      var j :| k < j < |results| && IsCachedIn(results[j], h);
      LastExists(results, h, j);
    }
  }

  /** Folding the results of two groups of services is folding each group
      and letting the later group win. */
  lemma {:induction false} FoldCacheAppend(a: seq<map<string, CacheInfo>>, b: seq<map<string, CacheInfo>>)
    ensures FoldCache(a + b) == FoldCache(a) + FoldCache(b)
  {
    if |b| == 0 {
      assert a + b == a;
    } else {
      var b', last := b[..|b| - 1], b[|b| - 1];
      DropLastOfAppend(a, b);
      FoldCacheSnoc(a + b);
      FoldCacheSnoc(b);
      FoldCacheAppend(a, b');
      UnionAssoc(FoldCache(a), FoldCache(b'), Cached(last));
    }
  }

  lemma FoldCacheSnoc(results: seq<map<string, CacheInfo>>)
    requires |results| > 0
    ensures FoldCache(results) == FoldCache(results[..|results| - 1]) + Cached(results[|results| - 1])
  {
  }

  lemma DropLastOfAppend<T>(a: seq<T>, b: seq<T>)
    requires |b| > 0
    ensures (a + b)[..|a + b| - 1] == a + b[..|b| - 1]
    ensures (a + b)[|a + b| - 1] == b[|b| - 1]
  {
  }

  lemma UnionAssoc<K, V>(x: map<K, V>, y: map<K, V>, z: map<K, V>)
    ensures (x + y) + z == x + (y + z)
  {
  }

  // ---------------------------------------------------------------------
  // Asking the providers
  // ---------------------------------------------------------------------

  /** What a provider's cache endpoint replied to one batch: each provider
      reads its own field. */
  datatype CacheReplies = CacheReplies(
    dl: Result<DlReply<Option<map<string, DlEntry>>>, DebridError>,
    pr: Result<PrCheck, DebridError>)

  /** `service.checkCacheStatuses(hashes)`. */
  function CheckCache(p: Provider, hashes: seq<string>, reply: CacheReplies): (r: map<string, CacheInfo>)
    ensures p.DebridLink? ==> r == DebridLinkCheck(hashes, reply.dl)
    ensures p.Premiumize? ==> r == PremiumizeCheck(hashes, reply.pr)
    ensures forall h :: h in r ==> h in hashes
  {
    match p
    case DebridLink(_) => DebridLinkCheck(hashes, reply.dl)
    case Premiumize(_) => PremiumizeCheck(hashes, reply.pr)
  }

  /** The oracle for the cache endpoints: the replies a provider's endpoint
      gives to a batch of hashes. */
  type Replies = (Provider, seq<string>) -> CacheReplies

  /** The hashes of a list of candidates, `null`s filtered out. */
  function Hashes(streams: seq<Stream>): (r: seq<string>)
    ensures |r| == |Filter(streams, Defined(StreamHash))|
    ensures forall i :: 0 <= i < |r| ==> StreamHash(Filter(streams, Defined(StreamHash))[i]) == Some(r[i])
  {
    FilterMap(streams, StreamHash)
  }

  /** The maps the services reply with, in service order. */
  function ServiceResults(services: seq<Provider>, hashes: seq<string>, replies: Replies): (results: seq<map<string, CacheInfo>>)
  {
    seq(|services|, i requires 0 <= i < |services| => CheckCache(services[i], hashes, replies(services[i], hashes)))
  }

  /** The cache map the handler builds: each service checked in order,
      folded; the entry of the last service reporting a hash cached wins. */
  function CacheResults(services: seq<Provider>, hashes: seq<string>, replies: Replies): (r: map<string, CacheInfo>)
    ensures forall h :: h in r <==> exists k :: 0 <= k < |services| && IsCachedIn(CheckCache(services[k], hashes, replies(services[k], hashes)), h)
    ensures forall h :: h in r ==> h in hashes && r[h].cached
    ensures forall h, k :: LastCachedAt(ServiceResults(services, hashes, replies), h, k) ==>
              h in r && r[h] == CheckCache(services[k], hashes, replies(services[k], hashes))[h]
  {
    var results := ServiceResults(services, hashes, replies);
    var r := FoldCache(results);
    forall h ensures h in r <==> exists k :: 0 <= k < |services| && IsCachedIn(CheckCache(services[k], hashes, replies(services[k], hashes)), h) {
      if h in r {
        var k :| 0 <= k < |results| && IsCachedIn(results[k], h);
        assert results[k] == CheckCache(services[k], hashes, replies(services[k], hashes));
      } else {
        forall k | 0 <= k < |services| ensures !IsCachedIn(CheckCache(services[k], hashes, replies(services[k], hashes)), h) {
          assert results[k] == CheckCache(services[k], hashes, replies(services[k], hashes));
        }
      }
    }
    r
  }

  // ---------------------------------------------------------------------
  // Display name and URL
  // ---------------------------------------------------------------------

  const MAGNET_ICON: string := "\U{1F9F2}"
  const SEPARATOR: string := " | "
  /** The high-voltage sign and its emoji-presentation selector. */
  const BOLT: string := "\U{26A1}\U{FE0F} "

  /** `⚡️ ${service}`. */
  function ServiceItem(service: string): string {
    BOLT + service
  }

  predicate NonEmpty(s: string) {
    s != ""
  }

  /** `['🧲', quality, size, `⚡️ ${service}`].filter(Boolean).join(' | ')`:
      the badge, then whichever of quality and size are non-empty, then the
      service. */
  function DisplayName(quality: string, size: string, service: string): (name: string)
    ensures quality != "" && size != "" ==> name == BADGE + quality + SEPARATOR + size + SEPARATOR + ServiceItem(service)
    ensures quality != "" && size == "" ==> name == BADGE + quality + SEPARATOR + ServiceItem(service)
    ensures quality == "" && size != "" ==> name == BADGE + size + SEPARATOR + ServiceItem(service)
    ensures quality == "" && size == "" ==> name == BADGE + ServiceItem(service)
  {
    NameForms(quality, size, service);
    JoinWith(Filter([MAGNET_ICON, quality, size, ServiceItem(service)], NonEmpty), SEPARATOR)
  }

  lemma NameForms(quality: string, size: string, service: string)
    ensures var name := JoinWith(Filter([MAGNET_ICON, quality, size, ServiceItem(service)], NonEmpty), SEPARATOR);
            && (quality != "" && size != "" ==> name == BADGE + quality + SEPARATOR + size + SEPARATOR + ServiceItem(service))
            && (quality != "" && size == "" ==> name == BADGE + quality + SEPARATOR + ServiceItem(service))
            && (quality == "" && size != "" ==> name == BADGE + size + SEPARATOR + ServiceItem(service))
            && (quality == "" && size == "" ==> name == BADGE + ServiceItem(service))
  {
    NamedItems(quality, size, service);
    assert BADGE == MAGNET_ICON + SEPARATOR;
    var b := ServiceItem(service);
    if quality != "" && size != "" {
      assert Keep(quality) + (Keep(size) + [b]) == [quality, size, b];
      JoinFour(MAGNET_ICON, quality, size, b, SEPARATOR);
    } else if quality != "" {
      assert Keep(quality) + (Keep(size) + [b]) == [quality, b];
      JoinThree(MAGNET_ICON, quality, b, SEPARATOR);
    } else if size != "" {
      assert Keep(quality) + (Keep(size) + [b]) == [size, b];
      JoinThree(MAGNET_ICON, size, b, SEPARATOR);
    } else {
      assert Keep(quality) + (Keep(size) + [b]) == [b];
      JoinTwo(MAGNET_ICON, b, SEPARATOR);
    }
  }

  lemma JoinTwo(a: string, b: string, sep: string)
    ensures JoinWith([a, b], sep) == a + sep + b
  {
    assert [a, b][1..] == [b];
  }

  lemma JoinThree(a: string, b: string, c: string, sep: string)
    ensures JoinWith([a, b, c], sep) == a + sep + b + sep + c
  {
    assert [a, b, c][1..] == [b, c];
    JoinTwo(b, c, sep);
    AppendAssoc(a + sep, b + sep, c);
    AppendAssoc(a + sep, b, sep);
  }

  lemma JoinFour(a: string, b: string, c: string, d: string, sep: string)
    ensures JoinWith([a, b, c, d], sep) == a + sep + b + sep + c + sep + d
  {
    assert [a, b, c, d][1..] == [b, c, d];
    JoinThree(b, c, d, sep);
    var t := b + sep + c + sep + d;
    assert JoinWith([a, b, c, d], sep) == a + sep + t;
    assert a + sep + t == a + sep + b + sep + c + sep + d;
  }

  /** `[x].filter(Boolean)`. */
  function Keep(x: string): seq<string> {
    if x != "" then [x] else []
  }

  lemma FilterOne(x: string)
    ensures Filter([x], NonEmpty) == Keep(x)
  {
    assert [x][1..] == [];
  }

  lemma NamedItems(quality: string, size: string, service: string)
    ensures Filter([MAGNET_ICON, quality, size, ServiceItem(service)], NonEmpty)
              == [MAGNET_ICON] + (Keep(quality) + (Keep(size) + [ServiceItem(service)]))
  {
    FilterFour(MAGNET_ICON, quality, size, ServiceItem(service), NonEmpty);
    FilterOne(MAGNET_ICON);
    FilterOne(quality);
    FilterOne(size);
    FilterOne(ServiceItem(service));
    assert ServiceItem(service) != "";
  }

  /** A four-element list is filtered element by element. */
  lemma FilterFour<T>(a: T, b: T, c: T, d: T, keep: T -> bool)
    ensures Filter([a, b, c, d], keep) == Filter([a], keep) + (Filter([b], keep) + (Filter([c], keep) + Filter([d], keep)))
  {
    assert [a, b, c, d] == [a] + ([b] + ([c] + [d]));
    FilterAppend([a], [b] + ([c] + [d]), keep);
    FilterAppend([b], [c] + [d], keep);
    FilterAppend([c], [d], keep);
  }

  /** `${origin}/${apiKeys}/${base64Encode(magnetLink)}`, where `origin` is
      `${req.protocol}://${req.get('host')}`. */
  function StreamUrl(origin: string, apiKeys: string, magnetLink: string): string {
    origin + "/" + apiKeys + "/" + Util.Base64Encode(magnetLink)
  }

  /** The last path segment of a stream URL decodes back to the magnet link
      for any ASCII link: the magnet route receives what the stream route
      encoded. */
  lemma StreamUrlCarriesMagnet(origin: string, apiKeys: string, magnetLink: string)
    requires Base64.IsAscii(magnetLink)
    ensures var parts := Split(StreamUrl(origin, apiKeys, magnetLink), '/');
            Util.Base64Decode(parts[|parts| - 1]) == magnetLink
  {
    var e := Util.Base64Encode(magnetLink);
    var a := origin + "/" + apiKeys;
    assert '/' !in e by {
      forall i | 0 <= i < |e| ensures e[i] != '/' {
        assert Util.IsUrlSafe(e[i]);
      }
    }
    assert StreamUrl(origin, apiKeys, magnetLink) == a + ['/'] + e;
    SplitAppend(a, e, '/');
    Util.Base64RoundTrip(magnetLink);
  }

  // ---------------------------------------------------------------------
  // Ranking by the display name
  // ---------------------------------------------------------------------

  /** A quality that names a resolution: `4k`, or three or four digits and
      a `p`, in any case. */
  predicate IsResolution(q: string) {
    || Lower(q) == "4k"
    || ((|q| == 4 || |q| == 5) && AllDigits(q[..|q| - 1]) && LowerChar(q[|q| - 1]) == 'p')
  }

  /** The vertical resolution a quality names: 2160 for `4k`. */
  function ResolutionValue(q: string): nat
    requires IsResolution(q)
  {
    if Lower(q) == "4k" then UHD_SCORE else DigitsValue(q[..|q| - 1])
  }

  /** An entry whose quality names a resolution is ranked by that
      resolution, whatever its size and service. */
  lemma ScoreOfQualityName(q: string, size: string, service: string)
    requires IsResolution(q)
    ensures Score(DisplayName(q, size, service)) == ResolutionValue(q)
  {
    var tail := AfterQuality(size, service);
    NameWithQuality(q, size, service);
    if Lower(q) == "4k" {
      ScoreOfUhd(q, tail);
    } else {
      var d := q[..|q| - 1];
      var rest := [q[|q| - 1]] + tail;
      assert !IsDigit(rest[0]);
      assert d + [q[|q| - 1]] == q;
      AppendAssoc(BADGE + d, [q[|q| - 1]], tail);
      AppendAssoc(BADGE, d, [q[|q| - 1]]);
      ScoreOfLeadingRun(d, rest);
    }
  }

  /** What follows the quality in a display name. */
  function AfterQuality(size: string, service: string): string {
    if size != "" then SEPARATOR + size + SEPARATOR + ServiceItem(service) else SEPARATOR + ServiceItem(service)
  }

  lemma NameWithQuality(q: string, size: string, service: string)
    requires q != ""
    ensures DisplayName(q, size, service) == BADGE + q + AfterQuality(size, service)
  {
    if size != "" {
      AssocFive(BADGE + q, SEPARATOR, size, SEPARATOR, ServiceItem(service));
      assert SEPARATOR + size + SEPARATOR + ServiceItem(service) == SEPARATOR + (size + (SEPARATOR + ServiceItem(service)));
    } else {
      AppendAssoc(BADGE + q, SEPARATOR, ServiceItem(service));
    }
  }

  /** Without a quality, the size is what the score reads: an entry of
      `700 MB` ranks with the 700p entries. */
  lemma ScoreOfSizeOnly(d: string, rest: string, service: string)
    requires (|d| == 3 || |d| == 4) && AllDigits(d)
    requires |d| == 3 && |rest| > 0 ==> !IsDigit(rest[0])
    ensures Score(DisplayName("", d + rest, service)) == DigitsValue(d)
  {
    var tail := rest + (SEPARATOR + ServiceItem(service));
    calc {
      DisplayName("", d + rest, service);
      BADGE + (d + rest) + SEPARATOR + ServiceItem(service);
      { AssocFive(BADGE, d, rest, SEPARATOR, ServiceItem(service)); }
      BADGE + d + tail;
    }
    ScoreOfLeadingRun(d, tail);
  }

  lemma AssocFive(a: string, b: string, c: string, d: string, e: string)
    ensures a + (b + c) + d + e == a + b + (c + (d + e))
  {
  }

  // ---------------------------------------------------------------------
  // The playable entries
  // ---------------------------------------------------------------------

  /** An entry of the stream route's reply. */
  datatype Playable = Playable(name: string, title: string, url: string, service: string)

  function NameOf(p: Playable): string {
    p.name
  }

  /** The key a stream is looked up under in the cache map: its hash, or
      `"undefined"` (the property key `undefined` converts to) when its link
      has none. */
  const UNDEFINED_KEY: string := "undefined"

  function LookupKey(s: Stream): (k: string)
    ensures StreamHash(s).Some? ==> k == StreamHash(s).value
    ensures StreamHash(s).None? ==> k == UNDEFINED_KEY
  {
    StreamHash(s).GetOr(UNDEFINED_KEY)
  }

  /** The quality shown: the stored one, or on the stored-list path the
      first quality token of the website title, or nothing. */
  function QualityFor(s: Stream, stored: bool): (q: string)
    ensures s.quality != "" || !stored ==> q == s.quality
    ensures stored && s.quality == "" && FirstMatch(s.websiteTitle, QualityAt).Some? ==> q == FirstMatch(s.websiteTitle, QualityAt).value
    ensures stored && s.quality == "" && FirstMatch(s.websiteTitle, QualityAt).None? ==> q == ""
    ensures stored && s.quality == "" && q != "" ==> IsQualityToken(q)
  {
    if s.quality != "" || !stored then s.quality
    else match FirstMatch(s.websiteTitle, QualityAt)
      case None => ""
      case Some(t) => Indexer.LeftmostIsQuality(s.websiteTitle); t
  }

  /** The size shown: the stored one, or on the stored-list path the first
      `<number> GB|MB` of the website title, or nothing. */
  function SizeFor(s: Stream, stored: bool): (z: string)
    ensures s.size != "" || !stored ==> z == s.size
    ensures stored && s.size == "" ==> z == FirstMatch(s.websiteTitle, SizeAt).GetOr("")
  {
    if s.size != "" || !stored then s.size
    else FirstMatch(s.websiteTitle, SizeAt).GetOr("")
  }

  /** One candidate's entry, or `None` (filtered out) when the cache map has
      no cached entry under its key. */
  function ProcessOne(cache: map<string, CacheInfo>, origin: string, apiKeys: string, stored: bool, s: Stream): (r: Option<Playable>)
    ensures r.Some? <==> IsCachedIn(cache, LookupKey(s))
    ensures r.Some? ==>
              && r.value.service == cache[LookupKey(s)].service
              && r.value.title == s.filename
              && r.value.url == StreamUrl(origin, apiKeys, s.magnetLink)
              && r.value.name == DisplayName(QualityFor(s, stored), SizeFor(s, stored), r.value.service)
  {
    var key := LookupKey(s);
    if !IsCachedIn(cache, key) then None
    else
      var service := cache[key].service;
      Some(Playable(DisplayName(QualityFor(s, stored), SizeFor(s, stored), service), s.filename, StreamUrl(origin, apiKeys, s.magnetLink), service))
  }

  /** The candidates with a cached entry under their key. */
  function InCache(cache: map<string, CacheInfo>): (keep: Stream -> bool)
  {
    s => IsCachedIn(cache, LookupKey(s))
  }

  /** `streams.map(...).filter(Boolean)`: exactly the candidates in the
      cache map, in their order, each turned into its entry. */
  function ProcessStreams(cache: map<string, CacheInfo>, origin: string, apiKeys: string, stored: bool, streams: seq<Stream>): (r: seq<Playable>)
    ensures |r| == |Filter(streams, InCache(cache))|
    ensures forall i :: 0 <= i < |r| ==> ProcessOne(cache, origin, apiKeys, stored, Filter(streams, InCache(cache))[i]) == Some(r[i])
  {
    var f := s => ProcessOne(cache, origin, apiKeys, stored, s);
    FilterCongruent(streams, InCache(cache), Defined(f));
    FilterMap(streams, f)
  }

  /** Candidates are processed one by one: the entries of two lists are the
      entries of each, in order. */
  lemma ProcessStreamsAppend(cache: map<string, CacheInfo>, origin: string, apiKeys: string, stored: bool, a: seq<Stream>, b: seq<Stream>)
    ensures ProcessStreams(cache, origin, apiKeys, stored, a + b) == ProcessStreams(cache, origin, apiKeys, stored, a) + ProcessStreams(cache, origin, apiKeys, stored, b)
  {
    FilterMapAppend(a, b, s => ProcessOne(cache, origin, apiKeys, stored, s));
  }

  /** The cache check of a list of candidates and the entries built from
      it. */
  function Process(services: seq<Provider>, replies: Replies, origin: string, apiKeys: string, stored: bool, streams: seq<Stream>): (r: seq<Playable>)
    ensures var cache := CacheResults(services, Hashes(streams), replies);
            var kept := Filter(streams, InCache(cache));
            && |r| == |kept|
            && (forall i :: 0 <= i < |kept| ==> IsCachedIn(cache, LookupKey(kept[i])))
            && (forall i :: 0 <= i < |r| ==> ProcessOne(cache, origin, apiKeys, stored, kept[i]) == Some(r[i]))
  {
    var cache := CacheResults(services, Hashes(streams), replies);
    ProcessStreams(cache, origin, apiKeys, stored, streams)
  }

  /** A candidate with a hash gets an entry exactly when some service
      reports that hash cached. */
  lemma ProcessedWhenCached(services: seq<Provider>, replies: Replies, streams: seq<Stream>, s: Stream)
    requires StreamHash(s).Some?
    ensures var hashes := Hashes(streams);
            InCache(CacheResults(services, hashes, replies))(s) <==>
              exists k :: 0 <= k < |services| && IsCachedIn(CheckCache(services[k], hashes, replies(services[k], hashes)), StreamHash(s).value)
  {
  }

  // ---------------------------------------------------------------------
  // The stream route
  // ---------------------------------------------------------------------

  /** What the metadata service returned: `None` when `meta` is missing. */
  datatype Meta = Meta(name: string)

  /** The reply's entries and the year file afterwards. */
  datatype Outcome = Outcome(streams: seq<Playable>, file: YearFile)

  /** `processedStreams.sort(...)` on the entries. */
  function Ranked(items: seq<Playable>): (r: seq<Playable>)
    ensures SortedDesc(r, QualityKey(NameOf))
    ensures multiset(r) == multiset(items)
    ensures forall v :: Filter(r, KeyIs(QualityKey(NameOf), v)) == Filter(items, KeyIs(QualityKey(NameOf), v))
  {
    ByQuality(items, NameOf)
  }

  const NO_SERVICE: string := "No valid debrid service configured"
  const ALL_FAILED: string := "All debrid services failed"

  /** The candidates stored for the movie: `movieData?.streams || []`. */
  function StoredStreams(file: YearFile, readLock: LockOutcome, imdbId: string): (r: seq<Stream>)
    ensures readLock.LockFailed? || file.None? || (forall j :: 0 <= j < |file.value| ==> file.value[j].imdbId != imdbId) ==> r == []
    ensures readLock.Acquired? && file.Some? ==>
              forall i :: 0 <= i < |file.value| && file.value[i].imdbId == imdbId && (forall j :: 0 <= j < i ==> file.value[j].imdbId != imdbId) ==>
                r == file.value[i].streams
  {
    match ReadMovie(file, readLock, imdbId)
    case None => []
    case Some(record) => record.streams
  }

  /** The entries built from the stored candidates (none when there are
      none). */
  function StoredEntries(services: seq<Provider>, replies: Replies, origin: string, apiKeys: string, stored: seq<Stream>): (r: seq<Playable>)
    ensures |stored| == 0 ==> r == []
    ensures var cache := CacheResults(services, Hashes(stored), replies);
            var kept := Filter(stored, InCache(cache));
            && |r| == |kept|
            && (forall i :: 0 <= i < |r| ==> ProcessOne(cache, origin, apiKeys, true, kept[i]) == Some(r[i]))
  {
    if |stored| > 0 then Process(services, replies, origin, apiKeys, true, stored) else []
  }

  /** The stream route for movie `imdbId`, given the metadata reply, the
      year's file and the outcome of reading it, the providers' replies to
      the cache check of the stored candidates and, separately, to that of
      the Torrentio candidates (two calls that may answer differently), the
      Torrentio reply (`None` when the fetch failed) and the outcome of the
      merge's lock and save. The refresh the route starts in the background
      when stored entries were found is not part of the reply and is left
      out. */
  function HandleStream(
    apiKeys: string, origin: string, imdbId: string, meta: Option<Meta>,
    file: YearFile, readLock: LockOutcome, replies: Replies, fallbackReplies: Replies,
    torrentio: Option<seq<Indexer.RawStream>>, mergeLock: LockOutcome, saved: bool, clock: Clock): (r: Outcome)
    ensures GetDebridServices(apiKeys) == [] || meta.None? ==> r == Outcome([], file)
    ensures SortedDesc(r.streams, QualityKey(NameOf))
    ensures r.file == file
            || (&& meta.Some?
                && StoredEntries(GetDebridServices(apiKeys), replies, origin, apiKeys, StoredStreams(file, readLock, imdbId)) == []
                && r.file == MergeAndSave([], Indexer.TorrentioStreams(torrentio), imdbId, meta.value.name, file, mergeLock, saved, clock).file)
  {
    var services := GetDebridServices(apiKeys);
    if services == [] || meta.None? then Outcome([], file)
    else
      var local := StoredEntries(services, replies, origin, apiKeys, StoredStreams(file, readLock, imdbId));
      if local != [] then Outcome(Ranked(local), file)
      else
        var candidates := Indexer.TorrentioStreams(torrentio);
        if candidates == [] then Outcome([], file)
        else
          var merged := MergeAndSave([], candidates, imdbId, meta.value.name, file, mergeLock, saved, clock);
          Outcome(Ranked(Process(services, fallbackReplies, origin, apiKeys, false, candidates)), merged.file)
  }

  /** When a stored candidate is cached somewhere, the reply is the ranked
      stored entries and nothing is written. */
  lemma HandleStoredHit(
    apiKeys: string, origin: string, imdbId: string, meta: Meta,
    file: YearFile, readLock: LockOutcome, replies: Replies, fallbackReplies: Replies,
    torrentio: Option<seq<Indexer.RawStream>>, mergeLock: LockOutcome, saved: bool, clock: Clock)
    requires var services := GetDebridServices(apiKeys);
             services != [] && StoredEntries(services, replies, origin, apiKeys, StoredStreams(file, readLock, imdbId)) != []
    ensures var services := GetDebridServices(apiKeys);
            HandleStream(apiKeys, origin, imdbId, Some(meta), file, readLock, replies, fallbackReplies, torrentio, mergeLock, saved, clock)
              == Outcome(Ranked(StoredEntries(services, replies, origin, apiKeys, StoredStreams(file, readLock, imdbId))), file)
  {
  }

  /** When no stored candidate is cached, the Torrentio candidates are
      merged into `[]` and the reply is their ranked entries. */
  lemma HandleTorrentioPath(
    apiKeys: string, origin: string, imdbId: string, meta: Meta,
    file: YearFile, readLock: LockOutcome, replies: Replies, fallbackReplies: Replies,
    torrentio: Option<seq<Indexer.RawStream>>, mergeLock: LockOutcome, saved: bool, clock: Clock)
    requires var services := GetDebridServices(apiKeys);
             services != [] && StoredEntries(services, replies, origin, apiKeys, StoredStreams(file, readLock, imdbId)) == []
    requires Indexer.TorrentioStreams(torrentio) != []
    ensures var candidates := Indexer.TorrentioStreams(torrentio);
            HandleStream(apiKeys, origin, imdbId, Some(meta), file, readLock, replies, fallbackReplies, torrentio, mergeLock, saved, clock)
              == Outcome(Ranked(Process(GetDebridServices(apiKeys), fallbackReplies, origin, apiKeys, false, candidates)),
                         MergeAndSave([], candidates, imdbId, meta.name, file, mergeLock, saved, clock).file)
  {
  }

  /** When no stored candidate is cached and Torrentio yields no candidate,
      the reply is empty and nothing is written. */
  lemma HandleNoCandidates(
    apiKeys: string, origin: string, imdbId: string, meta: Meta,
    file: YearFile, readLock: LockOutcome, replies: Replies, fallbackReplies: Replies,
    torrentio: Option<seq<Indexer.RawStream>>, mergeLock: LockOutcome, saved: bool, clock: Clock)
    requires var services := GetDebridServices(apiKeys);
             services != [] && StoredEntries(services, replies, origin, apiKeys, StoredStreams(file, readLock, imdbId)) == []
    requires torrentio.None? || forall k :: 0 <= k < |torrentio.value| ==> !Indexer.HasInfoHash(torrentio.value[k])
    ensures HandleStream(apiKeys, origin, imdbId, Some(meta), file, readLock, replies, fallbackReplies, torrentio, mergeLock, saved, clock)
              == Outcome([], file)
  {
    if torrentio.Some? {
      FilterNone(torrentio.value, Indexer.HasInfoHash);
    }
  }

  /** When no stored candidate is cached (stored candidates or not), the
      Torrentio candidates are written with `[]` as the existing list: the
      movie's stored list is replaced by them, and the candidates stored
      before are gone. */
  lemma {:induction false} HandleReplacesStoredList(
    apiKeys: string, origin: string, imdbId: string, meta: Meta,
    file: YearFile, readLock: LockOutcome, replies: Replies, fallbackReplies: Replies,
    torrentio: Option<seq<Indexer.RawStream>>, clock: Clock)
    requires var services := GetDebridServices(apiKeys);
             services != [] && StoredEntries(services, replies, origin, apiKeys, StoredStreams(file, readLock, imdbId)) == []
    requires Dedupe([], Indexer.TorrentioStreams(torrentio)) != []
    ensures var r := HandleStream(apiKeys, origin, imdbId, Some(meta), file, readLock, replies, fallbackReplies, torrentio, Acquired, true, clock);
            && ReadMovie(r.file, Acquired, imdbId).Some?
            && ReadMovie(r.file, Acquired, imdbId).value.streams == Dedupe([], Indexer.TorrentioStreams(torrentio))
            && r.streams == Ranked(Process(GetDebridServices(apiKeys), fallbackReplies, origin, apiKeys, false, Indexer.TorrentioStreams(torrentio)))
  {
    var candidates := Indexer.TorrentioStreams(torrentio);
    HandleTorrentioPath(apiKeys, origin, imdbId, meta, file, readLock, replies, fallbackReplies, torrentio, Acquired, true, clock);
    ReadAfterReplace(candidates, imdbId, meta.name, file, clock);
  }

  /** A successful merge into `[]` leaves the movie's record holding the new
      candidates alone. */
  lemma ReadAfterReplace(candidates: seq<Stream>, imdbId: string, title: string, file: YearFile, clock: Clock)
    requires Dedupe([], candidates) != []
    ensures var m := MergeAndSave([], candidates, imdbId, title, file, Acquired, true, clock);
            && ReadMovie(m.file, Acquired, imdbId).Some?
            && ReadMovie(m.file, Acquired, imdbId).value.streams == Dedupe([], candidates)
  {
    var merged := Dedupe([], candidates);
    assert [] + merged == merged;
    ReadMovieOfUpsert(file.GetOr([]), imdbId, title, merged, clock);
  }

  // ---------------------------------------------------------------------
  // The magnet route
  // ---------------------------------------------------------------------

  /** The first service, in order, that yields a stream URL for `magnet`,
      and that URL. */
  method FirstUrl(services: seq<Provider>, magnet: string, streamUrl: (Provider, string) -> Result<string, DebridError>)
    returns (r: Option<string>)
    ensures r.Some? ==>
              exists k :: && 0 <= k < |services| && streamUrl(services[k], magnet) == Ok(r.value)
                          && forall j :: 0 <= j < k ==> streamUrl(services[j], magnet).Err?
    ensures r.None? <==> forall k :: 0 <= k < |services| ==> streamUrl(services[k], magnet).Err?
  {
    var i := 0;
    while i < |services|
      invariant 0 <= i <= |services|
      invariant forall j :: 0 <= j < i ==> streamUrl(services[j], magnet).Err?
    {
      var outcome := streamUrl(services[i], magnet);
      if outcome.Ok? {
        return Some(outcome.value);
      }
      i := i + 1;
    }
    return None;
  }

  /** The magnet route: the link is decoded, then each service is asked in
      order for a stream URL (`streamUrl` is the outcome of its
      `getStreamUrl`); the first URL is the redirect. The error is the
      `details` of the failure reply. */
  method Redirect(apiKeys: string, encoded: string, streamUrl: (Provider, string) -> Result<string, DebridError>)
    returns (r: Result<string, string>)
    ensures GetDebridServices(apiKeys) == [] ==> r == Err(NO_SERVICE)
    ensures r.Ok? ==>
              var services, magnet := GetDebridServices(apiKeys), Util.Base64Decode(encoded);
              exists k :: && 0 <= k < |services| && streamUrl(services[k], magnet) == Ok(r.value)
                          && forall j :: 0 <= j < k ==> streamUrl(services[j], magnet).Err?
    ensures GetDebridServices(apiKeys) != [] && r.Err? ==>
              && r == Err(ALL_FAILED)
              && forall k :: 0 <= k < |GetDebridServices(apiKeys)| ==> streamUrl(GetDebridServices(apiKeys)[k], Util.Base64Decode(encoded)).Err?
  {
    var services := GetDebridServices(apiKeys);
    if services == [] {
      return Err(NO_SERVICE);
    }
    var url := FirstUrl(services, Util.Base64Decode(encoded), streamUrl);
    match url
    case Some(u) => r := Ok(u);
    case None => r := Err(ALL_FAILED);
  }
}
