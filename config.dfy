/**
 * The persisted configuration (`MyConfig` in src-tauri/src/config.rs): an
 * optional game installation path and the download ledger, a map from each
 * target to the instant its archive was last downloaded.
 */
module Config {
  import opened Wrappers
  import opened Paths
  import opened Catalog

  /** A UTC instant, as a count of time units on one fixed scale. */
  type Instant = int

  /** `downloaded_at`: at most one recorded instant per target. */
  type Ledger = map<Target, Instant>

  /** Steam's application id of the game whose directory is probed for. */
  const DEADLOCK_APP_ID: nat := 1422450

  /**
   * The initial game path found by the Steam probe: `steam` is `None` when no
   * Steam installation is located, and otherwise maps the ids of the
   * installed applications to their install directories.
   */
  function ProbeGamePath(steam: Option<map<nat, Path>>): (p: Option<Path>)
    ensures p.Some? <==> steam.Some? && DEADLOCK_APP_ID in steam.value
    ensures p.Some? ==> p.value == steam.value[DEADLOCK_APP_ID]
  {
    match steam
    case None => None
    case Some(apps) => if DEADLOCK_APP_ID in apps then Some(apps[DEADLOCK_APP_ID]) else None
  }

  /** Where the archive of `t` is kept: the cache directory joined with its catalog file name. */
  function ArchivePath(cacheDir: Path, t: Target): Path
  {
    Join(cacheDir, FileName(t))
  }

  /** The test `sync` keeps an entry by: the target's archive exists in the cache directory. */
  predicate Cached(fs: FileSystem, cacheDir: Path, t: Target)
  {
    ArchivePath(cacheDir, t) in fs
  }

  /** The ledger `sync` leaves behind: the entries whose archive is cached. */
  function Retained(ledger: Ledger, fs: FileSystem, cacheDir: Path): (kept: Ledger)
    ensures kept.Keys <= ledger.Keys && |kept| <= |ledger|
    ensures forall t :: t in kept ==> Cached(fs, cacheDir, t)
    ensures forall t :: t in ledger && Cached(fs, cacheDir, t) ==> t in kept && kept[t] == ledger[t]
  {
    var kept := map t | t in ledger && Cached(fs, cacheDir, t) :: ledger[t];
    SubsetCardinality(kept.Keys, ledger.Keys);
    kept
  }

  /** Reconciling twice against the same cache contents is reconciling once. */
  lemma RetainedIdempotent(ledger: Ledger, fs: FileSystem, cacheDir: Path)
    ensures Retained(Retained(ledger, fs, cacheDir), fs, cacheDir) == Retained(ledger, fs, cacheDir)
  {
  }

  class MyConfig {
    /** `game_path`: where the game is installed, if known. */
    var gamePath: Option<Path>
    /** `downloaded_at`: the download ledger. */
    var downloadedAt: Ledger

    /** `MyConfig::new`: the probed game path and an empty ledger. */
    constructor (steam: Option<map<nat, Path>>)
      ensures gamePath == ProbeGamePath(steam)
      ensures downloadedAt == map[]
    {
      gamePath := ProbeGamePath(steam);
      downloadedAt := map[];
    }

    /**
     * `MyConfig::sync`: drops, in place, every ledger entry whose archive is
     * missing from the cache directory, visiting the entries one by one as
     * `retain` does; the game path is left alone.
     */
    method Sync(fs: FileSystem, cacheDir: Path)
      modifies this
      ensures downloadedAt == Retained(old(downloadedAt), fs, cacheDir)
      ensures gamePath == old(gamePath)
    {
      var pending := downloadedAt.Keys;
      while pending != {}
        invariant pending <= old(downloadedAt).Keys
        invariant forall t :: t in downloadedAt <==>
          t in old(downloadedAt) && (t in pending || Cached(fs, cacheDir, t))
        invariant forall t :: t in downloadedAt ==> downloadedAt[t] == old(downloadedAt)[t]
        invariant gamePath == old(gamePath)
        decreases pending
      {
        var t :| t in pending;
        if !Cached(fs, cacheDir, t) {
          downloadedAt := downloadedAt - {t};
        }
        pending := pending - {t};
      }
    }
  }
}
