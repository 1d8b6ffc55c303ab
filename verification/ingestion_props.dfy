/** Properties of the ingestion caches: the decision rule in both directions,
    the shape and uniqueness of cache names, what a call may change on disk,
    and how two calls in a row interact. */
module IngestionProperties {

  import opened Results
  import opened Text
  import opened Calendar
  import opened Metros
  import opened LausSeriesId
  import opened Ingestion

  /** The decision rule, each outcome with its exact condition. */
  lemma DecideCases(src: Source, localPath: Option<string>, onDisk: bool, forceRefresh: bool, age: int,
                    today: Date, rawDir: string)
    requires ValidDate(today) && today.year >= 0
    ensures var d := Decide(src, localPath, onDisk, forceRefresh, age, today, rawDir);
      && (d.UseLocal? <==> localPath.Some? && localPath.value != "")
      && (d.UseLocal? ==> d.path == localPath.value)
      && (d.Reuse? <==> (localPath.None? || localPath.value == "") && onDisk && !forceRefresh && age < CacheTtl)
      && (d.Download? <==> (localPath.None? || localPath.value == "") && (!onDisk || forceRefresh || age >= CacheTtl))
  {
  }

  /** The 24-hour rule is strict: a file exactly one day old is fetched
      again, one a microsecond younger is reused. */
  lemma TtlBoundary(src: Source, today: Date, rawDir: string)
    requires ValidDate(today) && today.year >= 0
    ensures Decide(src, None, true, false, CacheTtl, today, rawDir).Download?
    ensures Decide(src, None, true, false, CacheTtl - 1, today, rawDir).Reuse?
    ensures Decide(src, Some(""), true, false, CacheTtl - 1, today, rawDir).Reuse?
  {
  }

  /** Forcing a refresh always downloads unless a local file is named, and a
      named local file wins over everything else. */
  lemma ForceRefreshDownloads(src: Source, localPath: Option<string>, onDisk: bool, age: int, today: Date, rawDir: string)
    requires ValidDate(today) && today.year >= 0
    ensures (localPath.None? || localPath.value == "") ==> Decide(src, localPath, onDisk, true, age, today, rawDir).Download?
    ensures localPath.Some? && localPath.value != "" ==>
              Decide(src, localPath, onDisk, true, age, today, rawDir) == UseLocal(localPath.value)
  {
  }

  /** The returned path of the reuse and the download branch is the same
      computed path: the raw directory, "/", the source's prefix, the date,
      and the source's extension. */
  lemma ReturnedPathIsCachePath(src: Source, localPath: Option<string>, onDisk: bool, forceRefresh: bool, age: int,
                                today: Date, rawDir: string)
    requires ValidDate(today) && today.year >= 0
    requires localPath.None? || localPath.value == ""
    ensures ReturnedPath(Decide(src, localPath, onDisk, forceRefresh, age, today, rawDir))
            == rawDir + "/" + NamePrefix(src) + Ymd(today) + NameSuffix(src)
  {
    assert rawDir + "/" + (NamePrefix(src) + Ymd(today) + NameSuffix(src))
           == rawDir + "/" + NamePrefix(src) + Ymd(today) + NameSuffix(src);
  }

  /** Reads a `YYYYMMDD`-style stamp back: the last four digits are month and
      day, the rest the year. */
  function YmdDate(s: string): Option<Date> {
    if |s| >= 5 && AllDigits(s) then
      Some(Date(DecimalToNat(s[..|s| - 4]), DecimalToNat(s[|s| - 4..|s| - 2]), DecimalToNat(s[|s| - 2..])))
    else None
  }

  lemma YmdRoundTrip(d: Date)
    requires ValidDate(d) && d.year >= 0
    ensures YmdDate(Ymd(d)) == Some(d)
  {
    var s := Ymd(d);
    assert s[..|s| - 4] == NatToDecimal(d.year);
    assert s[|s| - 4..|s| - 2] == ZeroPad2(d.month);
    assert s[|s| - 2..] == ZeroPad2(d.day);
    NatDecimalRoundTrip(d.year);
  }

  /** Cache names never collide: different sources or different days give
      different files. */
  lemma CacheFileNameInjective(src1: Source, d1: Date, src2: Source, d2: Date)
    requires ValidDate(d1) && d1.year >= 0 && ValidDate(d2) && d2.year >= 0
    requires CacheFileName(src1, d1) == CacheFileName(src2, d2)
    ensures src1 == src2 && d1 == d2
  {
    var n := CacheFileName(src1, d1);
    assert n[0] == NamePrefix(src1)[0] && n[0] == NamePrefix(src2)[0];
    assert src1 == src2;
    var p, x := NamePrefix(src1), NameSuffix(src1);
    assert Ymd(d1) == n[|p|..|n| - |x|];
    assert Ymd(d2) == n[|p|..|n| - |x|];
    YmdRoundTrip(d1);
    YmdRoundTrip(d2);
  }

  /** A call that does not download leaves the disk as it was, and its result
      does not depend on the network. */
  lemma NoDownloadNoChange(order: WriteOrder, src: Source, localPath: Option<string>, forceRefresh: bool,
                           now: int, today: Date, rawDir: string, fs: FileSystem, f1: Fetch, f2: Fetch)
    requires ValidDate(today) && today.year >= 0
    requires var path := CachePath(src, rawDir, today);
             !Decide(src, localPath, path in fs, forceRefresh, if path in fs then now - fs[path].mtime else 0, today, rawDir).Download?
    ensures IngestWith(order, src, localPath, forceRefresh, now, today, rawDir, fs, f1).fs == fs
    ensures IngestWith(order, src, localPath, forceRefresh, now, today, rawDir, fs, f1)
            == IngestWith(order, src, localPath, forceRefresh, now, today, rawDir, fs, f2)
  {
  }

  /** Any call changes at most today's cache file. */
  lemma OnlyCacheFileChanges(order: WriteOrder, src: Source, localPath: Option<string>, forceRefresh: bool,
                             now: int, today: Date, rawDir: string, fs: FileSystem, fetch: Fetch, p: FilePath)
    requires ValidDate(today) && today.year >= 0
    requires p != CachePath(src, rawDir, today)
    ensures var o := IngestWith(order, src, localPath, forceRefresh, now, today, rawDir, fs, fetch);
            (p in o.fs <==> p in fs) && (p in fs ==> o.fs[p] == fs[p])
  {
  }

  /** The status is checked before the file is opened: an unreachable server
      or an HTTP error leaves the disk unchanged. */
  lemma FailedFetchWritesNothing(order: WriteOrder, src: Source, localPath: Option<string>, forceRefresh: bool,
                                 now: int, today: Date, rawDir: string, fs: FileSystem, fetch: Fetch)
    requires ValidDate(today) && today.year >= 0
    requires fetch.ConnectionFailed? || HttpFailure(fetch.status)
    ensures IngestWith(order, src, localPath, forceRefresh, now, today, rawDir, fs, fetch).fs == fs
    ensures IngestWith(order, src, localPath, forceRefresh, now, today, rawDir, fs, fetch).result.Err? ==>
              IngestWith(order, src, localPath, forceRefresh, now, today, rawDir, fs, fetch).result.error
              == (if fetch.ConnectionFailed? then ConnectionError else HttpError(fetch.status))
  {
  }

  /** What a download that succeeds leaves behind: the body (for BLS, its
      re-rendered JSON) in today's cache file, stamped with the call's time,
      and that file's path as the result. */
  function StoredBody(src: Source, fetch: Fetch): Option<string>
    requires fetch.Responded?
  {
    match src
    case RedfinHousing => Some(fetch.content)
    case BlsEmployment => fetch.json
  }

  lemma DownloadStores(order: WriteOrder, src: Source, localPath: Option<string>, forceRefresh: bool,
                       now: int, today: Date, rawDir: string, fs: FileSystem, fetch: Fetch)
    requires ValidDate(today) && today.year >= 0
    requires var path := CachePath(src, rawDir, today);
             Decide(src, localPath, path in fs, forceRefresh, if path in fs then now - fs[path].mtime else 0, today, rawDir).Download?
    requires fetch.Responded? && !HttpFailure(fetch.status) && StoredBody(src, fetch).Some?
    ensures var o := IngestWith(order, src, localPath, forceRefresh, now, today, rawDir, fs, fetch);
            var path := CachePath(src, rawDir, today);
            && o.result == Ok(PathText(path))
            && path in o.fs
            && o.fs[path] == FileEntry(StoredBody(src, fetch).value, now)
  {
  }

  /** Idempotence within a day: after a call that succeeded without a local
      file, today's cache file exists, and any later call (same day, no
      refresh forced, no local file) made less than 24 hours after that
      file's time stamp returns the same path, changes nothing and makes no
      request. When the first call downloaded, the stamp is its own time. */
  lemma SecondRunReuses(order: WriteOrder, src: Source, first: Outcome, now: int, later: int, today: Date,
                        rawDir: string, fs: FileSystem, f1: Fetch, f2: Fetch)
    requires ValidDate(today) && today.year >= 0
    requires first == IngestWith(order, src, None, false, now, today, rawDir, fs, f1)
    requires first.result.Ok?
    ensures CachePath(src, rawDir, today) in first.fs
    ensures CachePath(src, rawDir, today) !in fs ==> first.fs[CachePath(src, rawDir, today)].mtime == now
    ensures later - first.fs[CachePath(src, rawDir, today)].mtime < CacheTtl ==>
              IngestWith(order, src, None, false, later, today, rawDir, first.fs, f2) == first
  {
  }

  /** As written, a BLS answer whose body is not JSON truncates today's cache
      file and stamps it with the call's time; the next call within 24 hours
      then reuses the empty file instead of downloading. */
  lemma TruncatedCacheReusedAsWritten(now: int, later: int, today: Date, rawDir: string, fs: FileSystem,
                                      status: int, content: string, f2: Fetch)
    requires ValidDate(today) && today.year >= 0
    requires CachePath(BlsEmployment, rawDir, today) !in fs
    requires !HttpFailure(status)
    requires now <= later < now + CacheTtl
    ensures var first := IngestAsWritten(BlsEmployment, None, false, now, today, rawDir, fs, Responded(status, content, None));
            var second := IngestAsWritten(BlsEmployment, None, false, later, today, rawDir, first.fs, f2);
            var path := CachePath(BlsEmployment, rawDir, today);
            && first.result == Err(InvalidJson)
            && path in first.fs && first.fs[path].content == ""
            && second.result == Ok(PathText(path))
            && second.fs[path].content == ""
  {
  }

  /** Corrected, the undecodable answer leaves the disk untouched, so the next
      call downloads again. */
  lemma UndecodableBodyRetried(now: int, later: int, today: Date, rawDir: string, fs: FileSystem,
                               status: int, content: string, f2: Fetch)
    requires ValidDate(today) && today.year >= 0
    requires CachePath(BlsEmployment, rawDir, today) !in fs
    requires !HttpFailure(status)
    ensures var first := Ingest(BlsEmployment, None, false, now, today, rawDir, fs, Responded(status, content, None));
            && first.result == Err(InvalidJson)
            && first.fs == fs
            && Decide(BlsEmployment, None, CachePath(BlsEmployment, rawDir, today) in first.fs, false, 0, today, rawDir).Download?
  {
  }

  /** The request names the twenty configured series, each once and each
      parsing back to its metro and measure; it spans 2000 to the current
      year, asks for catalog data, no calculations and no annual averages,
      and carries the API key exactly when a non-empty one is configured. */
  lemma BlsRequestContents(currentYear: int, apiKey: Option<string>)
    ensures var r := BlsRequestFor(currentYear, apiKey);
      && |r.seriesIds| == 20
      && (forall a, b :: 0 <= a < b < |r.seriesIds| ==> r.seriesIds[a] != r.seriesIds[b])
      && (forall k, j :: 0 <= k < |BlsMetroAreas| && 0 <= j < 4 ==>
            ParseSeriesId(r.seriesIds[4 * k + j]) == Ok(SeriesKey(BlsMetroAreas[k].info.fullCode, MeasureCode(MeasureOrder[j]))))
      && DecimalToInt(r.startYear) == Some(2000)
      && DecimalToInt(r.endYear) == Some(currentYear)
      && r.catalog && !r.calculations && !r.annualAverage
      && (r.registrationKey.Some? <==> apiKey.Some? && apiKey.value != "")
      && (r.registrationKey.Some? ==> r.registrationKey == apiKey)
  {
    RequestedSeriesIdsParse();
    RequestedSeriesIdsDistinct();
  }
}
