/** The debrid providers of src/debrids.js: how the configured key string
    becomes a list of providers, how each provider's replies are shaped into
    per-hash cache statuses and into a playable link, and the bounded retry
    loop around Premiumize requests. The HTTP requests themselves are not
    modelled: each operation takes the parsed reply (or the failure) as an
    input. */
module Debrids {
  import opened Wrappers
  import opened Text
  import opened Seqs
  import Const
  import Util

  // ---------------------------------------------------------------------
  // Providers and their keys
  // ---------------------------------------------------------------------

  /** A configured provider holding its API key with the prefix stripped. */
  datatype Provider = DebridLink(key: string) | Premiumize(key: string)

  const DEBRID_LINK_PREFIX: string := "dl"
  const PREMIUMIZE_PREFIX: string := "pr"

  /** `DebridLink.canHandle(apiKey)`. */
  predicate DebridLinkCanHandle(apiKey: string) {
    StartsWith(apiKey, DEBRID_LINK_PREFIX + "=")
  }

  /** `Premiumize.canHandle(apiKey)`. */
  predicate PremiumizeCanHandle(apiKey: string) {
    StartsWith(apiKey, PREMIUMIZE_PREFIX + "=")
  }

  /** The `BaseDebrid` constructor: `apiKey.replace(prefix + '=', '')`, which
      removes the first occurrence of `prefix=` wherever it is. */
  function StripKey(apiKey: string, prefix: string): (r: string)
    ensures Find(apiKey, prefix + "=", 0).None? ==> r == apiKey
    ensures Find(apiKey, prefix + "=", 0).Some? ==> |r| + |prefix| + 1 == |apiKey|
    ensures forall i: nat :: IsFirstOccurrence(apiKey, prefix + "=", i) ==> r == apiKey[..i] + apiKey[i + |prefix| + 1..]
  {
    RemoveFirst(apiKey, prefix + "=")
  }

  /** For a key the provider accepts, the stored key is what follows the
      three-character prefix. */
  lemma StripKeyOfHandled(apiKey: string, prefix: string)
    requires |prefix| == 2 && StartsWith(apiKey, prefix + "=")
    ensures StripKey(apiKey, prefix) == apiKey[3..]
  {
    RemoveFirstOfPrefix(apiKey, prefix + "=");
  }

  /** The provider one comma-separated segment configures, if any; a
      DebridLink key is recognised first. */
  function ServiceFor(segment: string): (r: Option<Provider>)
    ensures r.Some? <==> DebridLinkCanHandle(segment) || PremiumizeCanHandle(segment)
    ensures DebridLinkCanHandle(segment) ==> r == Some(DebridLink(segment[3..]))
    ensures !DebridLinkCanHandle(segment) && PremiumizeCanHandle(segment) ==> r == Some(Premiumize(segment[3..]))
  {
    if DebridLinkCanHandle(segment) then
      StripKeyOfHandled(segment, DEBRID_LINK_PREFIX);
      Some(DebridLink(StripKey(segment, DEBRID_LINK_PREFIX)))
    else if PremiumizeCanHandle(segment) then
      StripKeyOfHandled(segment, PREMIUMIZE_PREFIX);
      Some(Premiumize(StripKey(segment, PREMIUMIZE_PREFIX)))
    else None
  }

  predicate IsHandled(segment: string) {
    ServiceFor(segment).Some?
  }

  /** `getDebridServices(apiKeys)`: one provider for each comma-separated
      segment some provider handles, in segment order. */
  function GetDebridServices(apiKeys: string): (r: seq<Provider>)
    ensures |r| <= |Split(apiKeys, ',')|
    ensures |r| == |Filter(Split(apiKeys, ','), IsHandled)|
    ensures forall i :: 0 <= i < |r| ==> ServiceFor(Filter(Split(apiKeys, ','), IsHandled)[i]) == Some(r[i])
  {
    var segments := Split(apiKeys, ',');
    FilterCongruent(segments, IsHandled, Defined(ServiceFor));
    FilterMap(segments, ServiceFor)
  }

  /** Segments contribute independently: the providers of `a,b` are those of
      `a` followed by those of `b`, so a segment no provider handles adds
      nothing and the order of the segments is the order of the providers. */
  lemma GetDebridServicesAppend(a: string, b: string)
    ensures GetDebridServices(a + "," + b) == GetDebridServices(a) + GetDebridServices(b)
  {
    SplitAppend(a, b, ',');
    FilterMapAppend(Split(a, ','), Split(b, ','), ServiceFor);
  }

  /** A key string none of whose segments is handled configures nothing. */
  lemma GetDebridServicesUnhandled(apiKeys: string)
    requires forall i :: 0 <= i < |Split(apiKeys, ',')| ==> !IsHandled(Split(apiKeys, ',')[i])
    ensures GetDebridServices(apiKeys) == []
  {
    FilterNone(Split(apiKeys, ','), IsHandled);
  }

  // ---------------------------------------------------------------------
  // Failures
  // ---------------------------------------------------------------------

  /** The errors a provider operation fails with. `ApiError` keeps the
      DebridLink error code the message is built from; `RequestFailed` is a
      failed fetch or an unparsable reply; `Malformed` is a reply missing the
      field the code reads next. */
  datatype DebridError =
    | InvalidApiKey
    | NotPremium
    | ApiError(code: string)
    | RequestFailed
    | Malformed
    | AddMagnetFailed
    | NoVideoFiles

  /** The message of the `Error` each failure is thrown as. */
  function Message(e: DebridError): string {
    match e
    case InvalidApiKey => Const.INVALID_API_KEY
    case NotPremium => Const.NOT_PREMIUM
    case ApiError(code) => "API Error: " + code
    case RequestFailed => "Request failed"
    case Malformed => "Malformed reply"
    case AddMagnetFailed => "Failed to add magnet"
    case NoVideoFiles => "No video files found"
  }

  /** The DebridLink error codes that mean the account is not premium. */
  const QUOTA_CODES: seq<string> :=
    ["maxLink", "maxLinkHost", "maxData", "maxDataHost", "maxTorrent", "torrentTooBig", "freeServerOverload"]

  /** The switch on `data.error` of DebridLink's `#request`. */
  function DebridLinkError(code: string): (e: DebridError)
    ensures e == InvalidApiKey <==> code == "badToken"
    ensures e == NotPremium <==> code in QUOTA_CODES
    ensures e.ApiError? <==> code != "badToken" && code !in QUOTA_CODES
    ensures e.ApiError? ==> e.code == code
  {
    if code == "badToken" then InvalidApiKey
    else if code in QUOTA_CODES then NotPremium
    else ApiError(code)
  }

  /** The message thrown for a code is the invalid-key message exactly for
      `badToken` and the premium-required message exactly for the seven
      quota codes. */
  lemma DebridLinkErrorMessage(code: string)
    ensures Message(DebridLinkError(code)) == Const.INVALID_API_KEY <==> code == "badToken"
    ensures Message(DebridLinkError(code)) == Const.NOT_PREMIUM <==> code in QUOTA_CODES
  {
    var m := Message(DebridLinkError(code));
    if code != "badToken" && code !in QUOTA_CODES {
      assert m[0] == 'A';
      assert Const.INVALID_API_KEY[0] == 'I' && Const.NOT_PREMIUM[0] == 'P';
    }
  }

  // ---------------------------------------------------------------------
  // Replies
  // ---------------------------------------------------------------------

  /** A file of a torrent as the providers list it: DebridLink's `name` and
      `downloadUrl`, Premiumize's `path` and `link`. */
  datatype FileEntry = FileEntry(name: string, size: int, link: string)

  /** The JSON body of a DebridLink reply. */
  datatype DlReply<V> = DlReply(success: bool, error: string, value: V)

  /** DebridLink's `#request` on a reply already fetched and parsed: the value
      of a successful reply, the mapped error of an unsuccessful one. */
  function DebridLinkRequest<V>(reply: Result<DlReply<V>, DebridError>): (r: Result<V, DebridError>)
    ensures r.Ok? <==> reply.Ok? && reply.value.success
    ensures r.Ok? ==> r.value == reply.value.value
    ensures reply.Ok? && !reply.value.success ==> r == Err(DebridLinkError(reply.value.error))
  {
    match reply
    case Err(e) => Err(e)
    case Ok(data) => if data.success then Ok(data.value) else Err(DebridLinkError(data.error))
  }

  /** The per-hash cache status both providers report. */
  datatype CacheInfo = CacheInfo(cached: bool, files: seq<FileEntry>, fileCount: nat, service: string)

  /** An entry of DebridLink's `/seedbox/cached` value: `null`, or an object
      whose `files` may be missing. */
  datatype DlEntry = NullEntry | Entry(files: Option<seq<FileEntry>>)

  predicate HasEntry(resp: map<string, DlEntry>, hash: string) {
    hash in resp && resp[hash].Entry?
  }

  function EntryFiles(resp: map<string, DlEntry>, hash: string): seq<FileEntry> {
    if HasEntry(resp, hash) then resp[hash].files.GetOr([]) else []
  }

  /** `results[hash]` for one hash of the DebridLink loop. */
  function DlInfo(resp: map<string, DlEntry>, hash: string): CacheInfo {
    var files := EntryFiles(resp, hash);
    CacheInfo(HasEntry(resp, hash), files, |files|, "DebridLink")
  }

  /** `for (const hash of hashes) results[hash] = …`, from `acc`. */
  function DlFold(hashes: seq<string>, resp: map<string, DlEntry>, acc: map<string, CacheInfo>): (r: map<string, CacheInfo>)
    ensures r.Keys == acc.Keys + set h | h in hashes
    ensures forall h :: h in hashes ==> r[h] == DlInfo(resp, h)
    ensures forall h :: h in acc && h !in hashes ==> r[h] == acc[h]
  {
    if |hashes| == 0 then acc
    else
      ElementsOfTail(hashes);
      DlFold(hashes[1..], resp, acc[hashes[0] := DlInfo(resp, hashes[0])])
  }

  lemma ElementsOfTail(hashes: seq<string>)
    requires |hashes| > 0
    ensures forall h :: h in hashes <==> h == hashes[0] || h in hashes[1..]
  {
    assert hashes == [hashes[0]] + hashes[1..];
  }

  /** DebridLink's `checkCacheStatuses(hashes)` on the reply to its cache
      request. A failed request, an error reply or a `null` value gives the
      empty map: the method catches every error. */
  function DebridLinkCheck(hashes: seq<string>, reply: Result<DlReply<Option<map<string, DlEntry>>>, DebridError>): (r: map<string, CacheInfo>)
    ensures DebridLinkRequest(reply).Ok? && DebridLinkRequest(reply).value.Some? ==>
              var resp := DebridLinkRequest(reply).value.value;
              && r.Keys == (set h | h in hashes)
              && forall h :: h in hashes ==>
                   && (r[h].cached <==> h in resp && resp[h].Entry?)
                   && (r[h].cached && resp[h].files.Some? ==> r[h].files == resp[h].files.value)
                   && (!r[h].cached || resp[h].files.None? ==> r[h].files == [])
                   && r[h].fileCount == |r[h].files|
                   && r[h].service == "DebridLink"
    ensures DebridLinkRequest(reply).Err? || DebridLinkRequest(reply).value.None? ==> r == map[]
  {
    match DebridLinkRequest(reply)
    case Err(_) => map[]
    case Ok(value) =>
      match value
      case None => map[]
      case Some(resp) => DlFold(hashes, resp, map[])
  }

  /** A DebridLink check reports a hash cached only when the reply lists it,
      so a hash the reply omits is never cached. */
  lemma DebridLinkCheckOmitted(hashes: seq<string>, resp: map<string, DlEntry>, hash: string)
    requires hash in hashes && hash !in resp
    ensures var r := DebridLinkCheck(hashes, Ok(DlReply(true, "", Some(resp))));
            hash in r && !r[hash].cached && r[hash].fileCount == 0
  {
  }

  /** The JSON body of a Premiumize `/cache/check` reply. */
  datatype PrCheck = PrCheck(status: string, message: string, response: Option<seq<bool>>)

  /** `data.response[index]`: an index past the end reads `undefined`, which
      the handler treats as not cached. */
  function PrInfo(response: seq<bool>, index: nat): CacheInfo {
    CacheInfo(index < |response| && response[index], [], 0, "Premiumize")
  }

  /** `index` is the last position `hashes[index]` occurs at. */
  predicate IsLastIndex(hashes: seq<string>, index: nat) {
    index < |hashes| && forall j :: index < j < |hashes| ==> hashes[j] != hashes[index]
  }

  /** The hashes at positions `from` and after. */
  function HashesFrom(hashes: seq<string>, from: nat): set<string> {
    set i | from <= i < |hashes| :: hashes[i]
  }

  lemma HashesFromStep(hashes: seq<string>, from: nat)
    requires from < |hashes|
    ensures HashesFrom(hashes, from) == {hashes[from]} + HashesFrom(hashes, from + 1)
  {
  }

  /** `hashes.forEach((hash, index) => results[hash] = …)` from `from` on. */
  function PrFold(hashes: seq<string>, response: seq<bool>, from: nat, acc: map<string, CacheInfo>): (r: map<string, CacheInfo>)
    requires from <= |hashes|
    ensures r.Keys == acc.Keys + HashesFrom(hashes, from)
    ensures forall i :: from <= i < |hashes| && IsLastIndex(hashes, i) ==> r[hashes[i]] == PrInfo(response, i)
    ensures forall h :: h in acc && h !in HashesFrom(hashes, from) ==> r[h] == acc[h]
    decreases |hashes| - from
  {
    if from == |hashes| then acc
    else
      HashesFromStep(hashes, from);
      PrFold(hashes, response, from + 1, acc[hashes[from] := PrInfo(response, from)])
  }

  /** Premiumize's `checkCacheStatuses(hashes)` on the reply the retried
      request produced: with a `success` status each hash gets the flag at its
      position (the last position for a repeated hash); any failure, any other
      status (an invalid key included) or a reply without `response` gives
      the empty map. */
  function PremiumizeCheck(hashes: seq<string>, data: Result<PrCheck, DebridError>): (r: map<string, CacheInfo>)
    ensures data.Ok? && data.value.status == "success" && data.value.response.Some? ==>
              && r.Keys == (set h | h in hashes)
              && forall i :: 0 <= i < |hashes| && IsLastIndex(hashes, i) ==>
                   r[hashes[i]] == CacheInfo(i < |data.value.response.value| && data.value.response.value[i], [], 0, "Premiumize")
    ensures data.Err? || data.value.status != "success" || data.value.response.None? ==> r == map[]
  {
    match data
    case Err(_) => map[]
    case Ok(reply) =>
      if reply.status != "success" then map[]
      else match reply.response
        case None => map[]
        case Some(response) =>
          var r := PrFold(hashes, response, 0, map[]);
          assert HashesFrom(hashes, 0) == (set h | h in hashes);
          r
  }

  /** Every position of a hash list without repeats is its hash's last one,
      so hash `i` gets exactly `response[i]`. */
  lemma PremiumizeCheckDistinct(hashes: seq<string>, response: seq<bool>, i: nat)
    requires forall a, b :: 0 <= a < b < |hashes| ==> hashes[a] != hashes[b]
    requires i < |hashes| <= |response|
    ensures var r := PremiumizeCheck(hashes, Ok(PrCheck("success", "", Some(response))));
            hashes[i] in r && r[hashes[i]].cached == response[i] && r[hashes[i]].service == "Premiumize"
  {
    assert IsLastIndex(hashes, i);
  }

  // ---------------------------------------------------------------------
  // Choosing the file to play
  // ---------------------------------------------------------------------

  const PLAYABLE_EXTENSIONS: seq<string> := [".mp4", ".mkv", ".avi", ".mov", ".webm"]

  /** `/\.(mp4|mkv|avi|mov|webm)$/i.test(name)`. */
  predicate IsPlayable(name: string) {
    Util.EndsWithAny(Lower(name), PLAYABLE_EXTENSIONS)
  }

  /** Every file `getStreamUrl` accepts is also a video for `isVideo`. */
  lemma PlayableIsVideo(name: string)
    requires IsPlayable(name)
    ensures Util.IsVideo(name)
  {
    var k :| 0 <= k < |PLAYABLE_EXTENSIONS| && EndsWith(Lower(name), PLAYABLE_EXTENSIONS[k]);
    var k' := if k < 4 then k else 6;
    assert PLAYABLE_EXTENSIONS[k] == Const.VIDEO_EXTENSIONS[k'];
    EndsWithFold(name, PLAYABLE_EXTENSIONS[k]);
  }

  /** `files[k]` is what filtering to playable files, sorting by size
      descending (stably) and taking the first gives: a playable file of
      maximum size, and the earliest of those. */
  predicate IsLargestVideo(files: seq<FileEntry>, k: int) {
    && 0 <= k < |files|
    && IsPlayable(files[k].name)
    && (forall j :: 0 <= j < |files| && IsPlayable(files[j].name) ==> files[j].size <= files[k].size)
    && (forall j :: 0 <= j < k && IsPlayable(files[j].name) ==> files[j].size < files[k].size)
  }

  /** At most one file is the one chosen. */
  lemma LargestVideoUnique(files: seq<FileEntry>, k: int, k': int)
    requires IsLargestVideo(files, k) && IsLargestVideo(files, k')
    ensures k == k'
  {
  }

  /** Appending a file to a list whose choice is `k` keeps `k` unless the
      new file is playable and strictly larger. */
  lemma LargestVideoSnoc(prefix: seq<FileEntry>, f: FileEntry, k: nat)
    requires IsLargestVideo(prefix, k)
    ensures !IsPlayable(f.name) || f.size <= prefix[k].size ==> IsLargestVideo(prefix + [f], k)
    ensures IsPlayable(f.name) && f.size > prefix[k].size ==> IsLargestVideo(prefix + [f], |prefix|)
  {
    var files := prefix + [f];
    assert forall j :: 0 <= j < |prefix| ==> files[j] == prefix[j];
  }

  /** Appending a file to a list without playable files. */
  lemma NoVideoSnoc(prefix: seq<FileEntry>, f: FileEntry)
    requires forall j :: 0 <= j < |prefix| ==> !IsPlayable(prefix[j].name)
    ensures IsPlayable(f.name) ==> IsLargestVideo(prefix + [f], |prefix|)
    ensures !IsPlayable(f.name) ==> forall j :: 0 <= j < |prefix| + 1 ==> !IsPlayable((prefix + [f])[j].name)
  {
    var files := prefix + [f];
    assert forall j :: 0 <= j < |prefix| ==> files[j] == prefix[j];
  }

  /** The position of the file chosen, scanning the files left to right. */
  function LargestVideo(files: seq<FileEntry>): (r: Option<nat>)
    ensures r.Some? ==> IsLargestVideo(files, r.value)
    ensures r.None? <==> forall j :: 0 <= j < |files| ==> !IsPlayable(files[j].name)
  {
    if |files| == 0 then None
    else
      var last := |files| - 1;
      var prefix := files[..last];
      var f := files[last];
      assert files == prefix + [f];
      var best := LargestVideo(prefix);
      match best
      case None =>
        NoVideoSnoc(prefix, f);
        if IsPlayable(f.name) then Some(last) else None
      case Some(k) =>
        LargestVideoSnoc(prefix, f, k);
        if IsPlayable(f.name) && f.size > prefix[k].size then Some(last) else best
  }

  /** `videoFiles[0].<link>` or the `No video files found` failure. */
  function PickLink(files: seq<FileEntry>): (r: Result<string, DebridError>)
    ensures r.Err? <==> forall j :: 0 <= j < |files| ==> !IsPlayable(files[j].name)
    ensures r.Err? ==> r.error == NoVideoFiles
    ensures r.Ok? ==> exists k :: IsLargestVideo(files, k) && r.value == files[k].link
  {
    match LargestVideo(files)
    case None => Err(NoVideoFiles)
    case Some(k) => Ok(files[k].link)
  }

  /** DebridLink's `getStreamUrl` on the reply to `/seedbox/add`, whose value
      holds the torrent's `files` (`None` when missing). */
  function DebridLinkStreamUrl(reply: Result<DlReply<Option<seq<FileEntry>>>, DebridError>): (r: Result<string, DebridError>)
    ensures DebridLinkRequest(reply).Err? ==> r == Err(DebridLinkRequest(reply).error)
    ensures DebridLinkRequest(reply).Ok? && DebridLinkRequest(reply).value.None? ==> r == Err(Malformed)
    ensures DebridLinkRequest(reply).Ok? && DebridLinkRequest(reply).value.Some? ==>
              (r.Ok? <==> exists k :: IsLargestVideo(DebridLinkRequest(reply).value.value, k))
    ensures r.Ok? ==>
              && reply.Ok? && reply.value.value.Some?
              && exists k :: IsLargestVideo(reply.value.value.value, k) && r.value == reply.value.value.value[k].link
  {
    match DebridLinkRequest(reply)
    case Err(e) => Err(e)
    case Ok(value) =>
      match value
      case None => Err(Malformed)
      case Some(files) => PickLink(files)
  }

  /** The JSON body of a Premiumize `/transfer/directdl` reply. */
  datatype PrTransfer = PrTransfer(status: string, content: Option<seq<FileEntry>>)

  /** Premiumize's `getStreamUrl` on the reply the retried request produced. */
  function PremiumizeStreamUrl(data: Result<PrTransfer, DebridError>): (r: Result<string, DebridError>)
    ensures data.Err? ==> r == Err(data.error)
    ensures data.Ok? && data.value.status != "success" ==> r == Err(AddMagnetFailed)
    ensures r.Ok? ==>
              && data.Ok? && data.value.status == "success" && data.value.content.Some?
              && exists k :: IsLargestVideo(data.value.content.value, k) && r.value == data.value.content.value[k].link
    ensures data.Ok? && data.value.status == "success" && data.value.content.Some? ==>
              (r.Ok? <==> exists k :: IsLargestVideo(data.value.content.value, k))
  {
    match data
    case Err(e) => Err(e)
    case Ok(transfer) =>
      if transfer.status != "success" then Err(AddMagnetFailed)
      else match transfer.content
        case None => Err(Malformed)
        case Some(files) => PickLink(files)
  }

  // ---------------------------------------------------------------------
  // The Premiumize retry loop
  // ---------------------------------------------------------------------

  const RETRIES: nat := 3

  /** Premiumize's `#request`: `attempt(i)` is the outcome of the `i`-th
      fetch (counting from 0). The loop stops at the first success; after
      `RETRIES` failures it fails with the last attempt's error. `tries` is
      the number of attempts made. */
  method PremiumizeRequest<V>(attempt: nat -> Result<V, DebridError>) returns (r: Result<V, DebridError>, tries: nat)
    ensures 1 <= tries <= RETRIES
    ensures r == attempt(tries - 1)
    ensures forall k :: 0 <= k < tries - 1 ==> attempt(k).Err?
    ensures r.Err? ==> tries == RETRIES
    ensures r.Ok? <==> exists k :: 0 <= k < RETRIES && attempt(k).Ok?
  {
    var i := 0;
    var lastError := Err(RequestFailed);
    while i < RETRIES
      invariant 0 <= i <= RETRIES
      invariant forall k :: 0 <= k < i ==> attempt(k).Err?
      invariant i > 0 ==> lastError == attempt(i - 1)
    {
      var outcome := attempt(i);
      if outcome.Ok? {
        return outcome, i + 1;
      }
      lastError := outcome;
      i := i + 1;
    }
    return lastError, RETRIES;
  }
}
