/** The raw-data caches of the two ingestion steps (BLS employment JSON and
    Redfin housing TSV.gz): where today's artifact lives, when a cached copy
    is reused, and what a download leaves on disk. The clock, the file system
    and the network are parameters. */
module Ingestion {

  import opened Results
  import opened Text
  import opened Calendar
  import opened Metros
  import opened LausSeriesId

  datatype Source = BlsEmployment | RedfinHousing

  /** A file named by the caller verbatim, or a file in the raw-data directory. */
  datatype FilePath = Given(path: string) | RawDirFile(dir: string, name: string)

  /** `str(path)`: a directory and a name are joined with "/". */
  function PathText(p: FilePath): string {
    match p
    case Given(s) => s
    case RawDirFile(dir, name) => dir + "/" + name
  }

  /** 24 hours, in microseconds, the resolution of `datetime` differences. */
  const CacheTtl: int := 24 * 60 * 60 * 1000000

  /** `strftime("%Y%m%d")`: the year in decimal, then two-digit month and day. */
  function Ymd(d: Date): (s: string)
    requires ValidDate(d) && d.year >= 0
    ensures |s| >= 5 && AllDigits(s)
  {
    NatToDecimal(d.year) + ZeroPad2(d.month) + ZeroPad2(d.day)
  }

  function NamePrefix(src: Source): string {
    match src
    case BlsEmployment => "bls_employment_"
    case RedfinHousing => "redfin_housing_"
  }

  function NameSuffix(src: Source): string {
    match src
    case BlsEmployment => ".json"
    case RedfinHousing => ".tsv.gz"
  }

  /** The cache file name of a source for a given day. */
  function CacheFileName(src: Source, today: Date): (name: string)
    requires ValidDate(today) && today.year >= 0
  {
    NamePrefix(src) + Ymd(today) + NameSuffix(src)
  }

  function CachePath(src: Source, rawDir: string, today: Date): FilePath
    requires ValidDate(today) && today.year >= 0
  {
    RawDirFile(rawDir, CacheFileName(src, today))
  }

  /** What an ingestion call does before touching the network. */
  datatype Decision = UseLocal(path: string) | Reuse(cache: FilePath) | Download(cache: FilePath)

  /** The cache decision. A non-empty `localPath` is used as given (no
      existence check); otherwise today's cache file is reused when it
      exists, no refresh is forced and it is strictly younger than 24 hours
      (`age` is now minus the file's modification time, negative for a file
      stamped in the future); in every other case it is downloaded again. */
  function Decide(src: Source, localPath: Option<string>, onDisk: bool, forceRefresh: bool, age: int,
                  today: Date, rawDir: string): (d: Decision)
    requires ValidDate(today) && today.year >= 0
    ensures d.Reuse? || d.Download? ==> d.cache == CachePath(src, rawDir, today)
  {
    if localPath.Some? && localPath.value != "" then UseLocal(localPath.value)
    else if onDisk && !forceRefresh && age < CacheTtl then Reuse(CachePath(src, rawDir, today))
    else Download(CachePath(src, rawDir, today))
  }

  /** The path an ingestion call returns when it does not fail. */
  function ReturnedPath(d: Decision): string {
    match d
    case UseLocal(p) => p
    case Reuse(c) => PathText(c)
    case Download(c) => PathText(c)
  }

  /** A file on disk: its content and its modification time (microseconds). */
  datatype FileEntry = FileEntry(content: string, mtime: int)

  type FileSystem = map<FilePath, FileEntry>

  /** What the HTTP call produced. `json` is the indented re-rendering of the
      body when it parses as JSON. */
  datatype Fetch = ConnectionFailed | Responded(status: int, content: string, json: Option<string>)

  datatype IngestError = ConnectionError | HttpError(status: int) | InvalidJson

  datatype Outcome = Outcome(result: Result<string, IngestError>, fs: FileSystem)

  /** `raise_for_status`: a 4xx or 5xx status is an error. */
  predicate HttpFailure(status: int) {
    400 <= status < 600
  }

  /** The order of the BLS writer's two steps: the code opens (and so
      truncates) the output file before it decodes the response body; the
      corrected order decodes first. */
  datatype WriteOrder = OpenThenDecode | DecodeThenOpen

  /** `download_bls_employment_data` / `download_redfin_city_tsv` after the
      request: check the status, then write the cache file stamped `now`. */
  function Store(order: WriteOrder, src: Source, path: FilePath, fetch: Fetch, now: int, fs: FileSystem): (o: Outcome)
    ensures forall p :: p != path ==> (p in o.fs <==> p in fs) && (p in fs ==> o.fs[p] == fs[p])
    ensures o.result.Ok? ==> path in o.fs && o.fs[path].mtime == now
  {
    match fetch
    case ConnectionFailed => Outcome(Err(ConnectionError), fs)
    case Responded(status, content, json) =>
      if HttpFailure(status) then Outcome(Err(HttpError(status)), fs)
      else
        match src
        case RedfinHousing => Outcome(Ok(PathText(path)), fs[path := FileEntry(content, now)])
        case BlsEmployment =>
          match json
          case Some(text) => Outcome(Ok(PathText(path)), fs[path := FileEntry(text, now)])
          case None =>
            if order == OpenThenDecode then Outcome(Err(InvalidJson), fs[path := FileEntry("", now)])
            else Outcome(Err(InvalidJson), fs)
  }

  /** `ingest_employment_bls` / `ingest_housing_redfin`, given the clock
      (`now` in microseconds and today's date), the file system and what the
      network would answer. The code reads both from the one local clock, so
      `today` is meant to be the calendar day of `now`; the properties hold
      for any pair. A call changes no file but today's cache file; a
      non-empty local path is returned as is without touching the disk; any
      other success returns today's cache path and leaves that file on disk. */
  function IngestWith(order: WriteOrder, src: Source, localPath: Option<string>, forceRefresh: bool,
                      now: int, today: Date, rawDir: string, fs: FileSystem, fetch: Fetch): (o: Outcome)
    requires ValidDate(today) && today.year >= 0
    ensures forall p :: p != CachePath(src, rawDir, today) ==> (p in o.fs <==> p in fs) && (p in fs ==> o.fs[p] == fs[p])
    ensures localPath.Some? && localPath.value != "" ==> o == Outcome(Ok(localPath.value), fs)
    ensures (localPath.None? || localPath.value == "") && o.result.Ok? ==>
              o.result.value == PathText(CachePath(src, rawDir, today)) && CachePath(src, rawDir, today) in o.fs
  {
    var path := CachePath(src, rawDir, today);
    var onDisk := path in fs;
    var age := if onDisk then now - fs[path].mtime else 0;
    match Decide(src, localPath, onDisk, forceRefresh, age, today, rawDir)
    case UseLocal(p) => Outcome(Ok(p), fs)
    case Reuse(c) => Outcome(Ok(PathText(c)), fs)
    case Download(c) => Store(order, src, c, fetch, now, fs)
  }

  /** Ingestion as written: a failure that changes the disk is an
      undecodable BLS body, and it leaves today's cache file empty and
      stamped with the call's time. */
  function IngestAsWritten(src: Source, localPath: Option<string>, forceRefresh: bool,
                           now: int, today: Date, rawDir: string, fs: FileSystem, fetch: Fetch): (o: Outcome)
    requires ValidDate(today) && today.year >= 0
    ensures o.result.Err? && o.fs != fs ==>
              && src == BlsEmployment && o.result.error == InvalidJson
              && o.fs == fs[CachePath(src, rawDir, today) := FileEntry("", now)]
  {
    IngestWith(OpenThenDecode, src, localPath, forceRefresh, now, today, rawDir, fs, fetch)
  }

  /** Ingestion with the BLS body decoded before the cache file is opened:
      a call that fails leaves the disk as it was. */
  function Ingest(src: Source, localPath: Option<string>, forceRefresh: bool,
                  now: int, today: Date, rawDir: string, fs: FileSystem, fetch: Fetch): (o: Outcome)
    requires ValidDate(today) && today.year >= 0
    ensures o.result.Err? ==> o.fs == fs
  {
    IngestWith(DecodeThenOpen, src, localPath, forceRefresh, now, today, rawDir, fs, fetch)
  }

  /** The BLS request payload. */
  datatype BlsRequest = BlsRequest(
    seriesIds: seq<string>,
    startYear: string,
    endYear: string,
    catalog: bool,
    calculations: bool,
    annualAverage: bool,
    registrationKey: Option<string>)

  const BlsStartYear: nat := 2000

  /** The payload `ingest_employment_bls` sends: every configured series, from
      2000 to the current year, monthly values only, and the API key when one
      is configured (an empty key counts as none). */
  function BlsRequestFor(currentYear: int, apiKey: Option<string>): (q: BlsRequest)
    ensures DecimalToInt(q.startYear) == Some(2000) && DecimalToInt(q.endYear) == Some(currentYear)
    ensures q.catalog && !q.calculations && !q.annualAverage
    ensures q.registrationKey.Some? <==> apiKey.Some? && apiKey.value != ""
    ensures q.registrationKey.Some? ==> q.registrationKey == apiKey
  {
    IntDecimalRoundTrip(BlsStartYear);
    IntDecimalRoundTrip(currentYear);
    BlsRequest(
      RequestedSeriesIds(),
      IntToDecimal(BlsStartYear),
      IntToDecimal(currentYear),
      true,
      false,
      false,
      if apiKey.Some? && apiKey.value != "" then apiKey else None)
  }
}
