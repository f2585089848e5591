/**
 * The commands the desktop shell invokes (src-tauri/src/command.rs), with the
 * framework and lock plumbing stripped away: each command receives the shared
 * configuration object, and whatever it would observe of the outside world
 * (the filesystem, the cache directory, the clock, the remote server, the
 * archive library's verdict) as parameters.
 */
module Commands {
  import opened Wrappers
  import opened Paths
  import opened Catalog
  import opened Config

  /** The ways a command fails; the ones the application panics on are made explicit. */
  datatype CommandError =
    | NoGamePath                  // `game_path` unset when an archive is to be extracted
    | ArchiveUnreadable(src: Path) // the archive could not be read from the cache
    | UnzipFailed(dest: Path)     // the archive library reported an error
    | RequestFailed               // the HEAD request itself failed
    | HttpStatus(code: int)       // the server answered with a non-success status
    | LastModifiedUnparsable      // `Last-Modified` is not text or not an RFC 2822 date-time

  /** The answer `change_game_path` gives on success ("setup complete"). */
  const CONFIRMATION: string := "설정 완료"

  /** What follows the rejected path in `change_game_path`'s error ("has no game folder."). */
  const NO_GAME_FOLDER: string := "에 game 폴더가 없습니다."

  // ---------------------------------------------------------------- game path

  /** `get_game_path`: the configured installation directory. */
  function GetGamePath(config: MyConfig): (p: Option<Path>)
    reads config
    ensures p == config.gamePath
  {
    config.gamePath
  }

  /** A usable installation directory has a `game` entry inside it. */
  predicate HasGameFolder(fs: FileSystem, path: Path)
  {
    Join(path, "game") in fs
  }

  /**
   * `change_game_path`: accepts `path` exactly when it has a `game` entry,
   * and then makes it the game path; a rejection leaves the configuration as
   * it was and names the rejected path at the head of its message.
   */
  method ChangeGamePath(config: MyConfig, path: Path, fs: FileSystem) returns (r: Result<string, string>)
    modifies config
    ensures r.Success? <==> HasGameFolder(fs, path)
    ensures r.Success? ==> r.value == CONFIRMATION && GetGamePath(config) == Some(path)
    ensures r.Failure? ==> r.error == Display(path) + NO_GAME_FOLDER && Display(path) <= r.error
    ensures r.Failure? ==> config.gamePath == old(config.gamePath)
    ensures config.downloadedAt == old(config.downloadedAt)
  {
    if !HasGameFolder(fs, path) {
      r := Failure(Display(path) + NO_GAME_FOLDER);
    } else {
      config.gamePath := Some(path);
      r := Success(CONFIRMATION);
    }
  }

  // ---------------------------------------------------------------- ledger

  /** `get_download_time`: the ledger entry for `t`, if there is one. */
  function GetDownloadTime(config: MyConfig, t: Target): (r: Option<Instant>)
    reads config
    ensures r.Some? <==> t in config.downloadedAt
    ensures r.Some? ==> r.value == config.downloadedAt[t]
  {
    if t in config.downloadedAt then Some(config.downloadedAt[t]) else None
  }

  /**
   * `record_download_time`: stamps `t` with the current instant `now`,
   * inserting or overwriting its entry and nothing else.
   */
  method RecordDownloadTime(config: MyConfig, t: Target, now: Instant)
    modifies config
    ensures config.downloadedAt == old(config.downloadedAt)[t := now]
    ensures config.gamePath == old(config.gamePath)
    ensures GetDownloadTime(config, t) == Some(now)
    ensures forall u :: u != t ==> GetDownloadTime(config, u) == old(GetDownloadTime(config, u))
  {
    config.downloadedAt := config.downloadedAt[t := now];
  }

  // ---------------------------------------------------------------- cache

  /**
   * `is_exists`: whether the archive of `t` is present in the cache
   * directory; it is given no configuration, so the ledger cannot matter.
   */
  function IsExists(fs: FileSystem, cacheDir: Path, t: Target): (r: bool)
    ensures r <==> Cached(fs, cacheDir, t)
    ensures r <==> ArchivePath(cacheDir, t) in fs
  {
    Cached(fs, cacheDir, t)
  }

  /**
   * Reconciliation keeps a ledger entry exactly when `is_exists` reports its
   * archive present, so afterwards every recorded target is present locally.
   */
  lemma SyncAgreesWithIsExists(ledger: Ledger, fs: FileSystem, cacheDir: Path)
    ensures forall t :: t in ledger ==> (t in Retained(ledger, fs, cacheDir) <==> IsExists(fs, cacheDir, t))
    ensures forall t :: t in Retained(ledger, fs, cacheDir) ==> IsExists(fs, cacheDir, t)
  {
  }

  // ---------------------------------------------------------------- update check

  /** The `Last-Modified` header of a reply, already handed to the date-time parser. */
  datatype LastModified = Absent | Unparsable | At(instant: Instant)

  /** The outcome of a HEAD request: a failure to get any reply, or a reply. */
  datatype HeadResponse = NoResponse | Response(status: int, lastModified: LastModified)

  /** The remote side: the reply a HEAD request to each URL would get. */
  type Remote = string -> HeadResponse

  /** `StatusCode::is_success`: the 2xx class (section 15.3 of RFC 9110). */
  predicate IsSuccess(status: int)
  {
    200 <= status <= 299
  }

  /**
   * The decision `check_update` makes from the reply and the recorded
   * download instant of the target.
   */
  function Decide(response: HeadResponse, recorded: Option<Instant>): (r: Result<bool, CommandError>)
    ensures response.NoResponse? ==> r == Failure(RequestFailed)
    ensures response.Response? && !IsSuccess(response.status) ==> r == Failure(HttpStatus(response.status))
    ensures response.Response? && IsSuccess(response.status) && response.lastModified.Unparsable? ==>
      r == Failure(LastModifiedUnparsable)
    ensures r.Failure? ==> response.NoResponse? || !IsSuccess(response.status)
                           || response.lastModified.Unparsable?
    ensures r == Success(true) <==>
      && response.Response? && IsSuccess(response.status)
      && response.lastModified.At? && recorded.Some?
      && response.lastModified.instant > recorded.value
  {
    match response
    case NoResponse => Failure(RequestFailed)
    case Response(status, lastModified) =>
      if !IsSuccess(status) then Failure(HttpStatus(status))
      else match lastModified
        case Absent => Success(false)
        case Unparsable => Failure(LastModifiedUnparsable)
        case At(remote) => Success(recorded.Some? && remote > recorded.value)
  }

  /**
   * `check_update`: asks the target's own URL, and compares the answer with
   * the target's own ledger entry.
   */
  function CheckUpdate(config: MyConfig, t: Target, remote: Remote): (r: Result<bool, CommandError>)
    reads config
    ensures remote(DownloadUrl(t)).NoResponse? ==> r == Failure(RequestFailed)
    ensures var reply := remote(DownloadUrl(t));
      reply.Response? && !IsSuccess(reply.status) ==> r == Failure(HttpStatus(reply.status))
    ensures var reply := remote(DownloadUrl(t));
      reply.Response? && IsSuccess(reply.status) && reply.lastModified.Unparsable? ==>
        r == Failure(LastModifiedUnparsable)
    ensures var reply := remote(DownloadUrl(t));
      r.Failure? ==> reply.NoResponse? || !IsSuccess(reply.status) || reply.lastModified.Unparsable?
    ensures var reply := remote(DownloadUrl(t));
      r == Success(true) <==>
        && reply.Response? && IsSuccess(reply.status) && reply.lastModified.At?
        && t in config.downloadedAt && reply.lastModified.instant > config.downloadedAt[t]
  {
    Decide(remote(DownloadUrl(t)), GetDownloadTime(config, t))
  }

  /** A non-success status is an error carrying the code, whatever the ledger says. */
  lemma ErrorStatusIgnoresLedger(status: int, lastModified: LastModified, recorded: Option<Instant>)
    requires !IsSuccess(status)
    ensures Decide(Response(status, lastModified), recorded) == Failure(HttpStatus(status))
  {
  }

  /** Without a `Last-Modified` header or without a recorded download, no update is reported. */
  lemma NoEvidenceNoUpdate(response: HeadResponse, recorded: Option<Instant>)
    requires response.Response? && IsSuccess(response.status)
    requires response.lastModified.Absent? || (response.lastModified.At? && recorded.None?)
    ensures Decide(response, recorded) == Success(false)
  {
  }

  /** Equal instants are not "newer". */
  lemma EqualInstantsNotNewer(status: int, instant: Instant)
    requires IsSuccess(status)
    ensures Decide(Response(status, At(instant)), Some(instant)) == Success(false)
  {
  }

  /** An update reported against some download is reported against any earlier one too. */
  lemma UpdateMonotone(response: HeadResponse, earlier: Instant, later: Instant)
    requires earlier <= later
    requires Decide(response, Some(later)) == Success(true)
    ensures Decide(response, Some(earlier)) == Success(true)
  {
  }

  /**
   * Against a recorded instant `now`, a 2xx reply carrying an instant reports
   * an update exactly when that instant is strictly later than `now`.
   */
  lemma CheckAfterRecord(status: int, instant: Instant, now: Instant)
    requires IsSuccess(status)
    ensures Decide(Response(status, At(instant)), Some(now)) == Success(instant > now)
  {
  }

  /**
   * `record_download_time(t)` followed by `check_update(t)`: against a 2xx
   * reply carrying an instant, the check reports an update exactly when that
   * instant is strictly later than the recorded `now`.
   */
  method RecordThenCheckUpdate(config: MyConfig, t: Target, now: Instant, remote: Remote)
    returns (r: Result<bool, CommandError>)
    modifies config
    ensures config.downloadedAt == old(config.downloadedAt)[t := now]
    ensures config.gamePath == old(config.gamePath)
    ensures var reply := remote(DownloadUrl(t));
      reply.Response? && IsSuccess(reply.status) && reply.lastModified.At? ==>
        r == Success(reply.lastModified.instant > now)
  {
    RecordDownloadTime(config, t, now);
    r := CheckUpdate(config, t, remote);
  }

  // ---------------------------------------------------------------- installation

  /** What extraction does to the outside world, in order. */
  datatype Effect =
    | ReadArchive(src: Path)          // the whole archive is read into memory
    | Unzip(src: Path, dest: Path)    // its entries are written under `dest`

  /** The result of an `extract_*` command and the effects it had on the way. */
  datatype ExtractRun = ExtractRun(outcome: Result<(), CommandError>, effects: seq<Effect>)

  /**
   * `extract_translation`, `extract_builtin_font` and `extract_external_font`
   * as one command over the catalog: the destination is the game path, read
   * first; the source is the target's archive in the cache directory, read
   * without a prior existence check; `unzipSucceeds` is the archive
   * library's verdict on that archive and destination.
   */
  function Extract(config: MyConfig, t: Target, cacheDir: Path, fs: FileSystem, unzipSucceeds: bool): (run: ExtractRun)
    reads config
    ensures config.gamePath.None? ==> run == ExtractRun(Failure(NoGamePath), [])
    ensures forall e :: e in run.effects ==> e.src == ArchivePath(cacheDir, t)
    ensures forall e :: e in run.effects && e.Unzip? ==>
      config.gamePath == Some(e.dest) && IsExists(fs, cacheDir, t)
    ensures run.outcome.Success? <==>
      config.gamePath.Some? && IsExists(fs, cacheDir, t) && unzipSucceeds
    ensures config.gamePath.Some? && !IsExists(fs, cacheDir, t) ==>
      run == ExtractRun(Failure(ArchiveUnreadable(ArchivePath(cacheDir, t))), [ReadArchive(ArchivePath(cacheDir, t))])
    ensures config.gamePath.Some? && IsExists(fs, cacheDir, t) ==>
      run.effects == [ReadArchive(ArchivePath(cacheDir, t)), Unzip(ArchivePath(cacheDir, t), config.gamePath.value)]
    ensures config.gamePath.Some? && IsExists(fs, cacheDir, t) && !unzipSucceeds ==>
      run.outcome == Failure(UnzipFailed(config.gamePath.value))
  {
    match config.gamePath
    case None => ExtractRun(Failure(NoGamePath), [])
    case Some(dest) =>
      var src := ArchivePath(cacheDir, t);
      if src !in fs then ExtractRun(Failure(ArchiveUnreadable(src)), [ReadArchive(src)])
      else if !unzipSucceeds then ExtractRun(Failure(UnzipFailed(dest)), [ReadArchive(src), Unzip(src, dest)])
      else ExtractRun(Success(()), [ReadArchive(src), Unzip(src, dest)])
  }
}
