# Configuration ledger and command rules of the Deadlock toolkit backend

This project models, in Dafny, the state-carrying core of the Tauri backend of a
desktop helper that installs three optional asset packs (a translation and two
font packs) into a Steam game directory:

- the closed **download-target catalog** (`DownloadTarget`), with each
  target's archive file name and remote URL (`catalog.dfy`);
- the **configuration** `MyConfig`, holding the optional game path and the
  download ledger (`downloaded_at`, target to instant), its constructor and the
  in-place reconciliation `sync` against the cache directory (`config.dfy`);
- the **commands**: changing and reading the game path, recording and reading
  download times, the local presence test, the freshness decision of
  `check_update`, and the shared logic of the three `extract_*` commands
  (`commands.dfy`).

Paths are sequences of components and the filesystem is the set of existing
paths (`paths.dfy`); instants are integers on one time scale. The shared
configuration is a class whose commands that write (`change_game_path`,
`record_download_time`, `sync`) are methods with `modifies`; the commands that
only read (`get_game_path`, `get_download_time`, `check_update`, the
`extract_*` preconditions) are functions that read it. `GetGamePath` is the
plain read of `game_path` that `ChangeGamePath`'s contract is stated with.

The outside world is passed in: the filesystem and cache directory as
values, "now" as an instant, the Steam probe's findings as an optional map
from application id to directory, the remote server as a function from URL to
the reply a HEAD request gets, and the archive library's verdict as a boolean.
The `unwrap()` calls the application panics on (a missing game path, a failed
extraction, an unparsable `Last-Modified` header) are explicit error values of
`CommandError`.

## Model

| member | source | states |
|---|---|---|
| `Catalog.FileName` | src-tauri/src/config.rs:19-33 | each target's archive name is its snake_case serialized key followed by `.zip` |
| `Catalog.DownloadUrl` | src-tauri/src/config.rs:35-47 | each target's URL is the Google Drive download endpoint `https://drive.google.com/uc?id=` followed by that target's file id |
| `Catalog.FileNameInjective` | src-tauri/src/config.rs:27-33 | two targets have the same archive name iff they are the same target |
| `Catalog.DownloadUrlInjective` | src-tauri/src/config.rs:35-47 | two targets have the same download URL iff they are the same target |
| `Catalog.LedgerAtMostCatalog` | src-tauri/src/config.rs:15-24 | a map keyed by targets, such as the ledger, has at most three entries, one per catalog value |
| `Paths.Join` | src-tauri/src/command.rs:24 | joining appends exactly one component and keeps the directory as a prefix |
| `Paths.Display` | src-tauri/src/command.rs:25 | a one-component path displays as that component, and any displayed path ends with its last component |
| `Config.ProbeGamePath` | src-tauri/src/config.rs:52-57 | the probed path exists iff Steam is located and has app 1422450 installed, and is then that app's directory |
| `Config.MyConfig.constructor` | src-tauri/src/config.rs:51-62 | a new configuration has the probed game path and an empty ledger, whatever the probe found |
| `Config.Retained` | src-tauri/src/config.rs:76-78 | the reconciled ledger adds no key and no entries, every key left has its archive in the cache directory, and every entry whose archive is there is kept with its instant |
| `Config.RetainedIdempotent` | src-tauri/src/config.rs:76-78 | reconciling twice against the same cache contents gives the same ledger as reconciling once |
| `Config.MyConfig.Sync` | src-tauri/src/config.rs:76-79 | in place, the ledger becomes the reconciled ledger of its old value and the game path is unchanged |
| `Commands.ChangeGamePath` | src-tauri/src/command.rs:21-32 | succeeds iff `path/game` exists; on success the game path becomes `path` and the answer is the confirmation text; on failure the game path is unchanged and the message is the displayed path followed by the "no game folder" text, so it begins with the rejected path; the ledger is never touched |
| `Commands.GetGamePath` | src-tauri/src/command.rs:15-19 | returns the stored game path as it is, present or absent |
| `Commands.GetDownloadTime` | src-tauri/src/command.rs:118-125 | returns the ledger's instant for the target when it has an entry, and nothing otherwise |
| `Commands.RecordDownloadTime` | src-tauri/src/command.rs:106-116 | the target's entry becomes `now`, every other entry and the game path are unchanged, and reading the target's download time then gives `now` |
| `Commands.IsExists` | src-tauri/src/command.rs:127-131 | true iff the cache directory joined with the target's archive name exists; no configuration is consulted |
| `Commands.SyncAgreesWithIsExists` | src-tauri/src/command.rs:127-131 | reconciliation keeps a ledger entry exactly when `is_exists` reports its archive present |
| `Commands.Decide` | src-tauri/src/command.rs:144-168 | a failed request or non-2xx status is an error (the latter carrying the code); a 2xx reply with an unparsable `Last-Modified` is the parse error; errors arise only from these three causes; the answer is `true` iff the status is 2xx, the header gives an instant, a download is recorded and the instant is strictly later |
| `Commands.CheckUpdate` | src-tauri/src/command.rs:133-169 | the same decision, made from the reply of the target's own URL and the target's own ledger entry: request failure, non-2xx status (with its code) and unparsable header are the only errors, and the answer is `true` iff the header's instant is strictly later than the target's recorded download |
| `Commands.ErrorStatusIgnoresLedger` | src-tauri/src/command.rs:144-146 | a non-2xx status gives the status error whatever the header and ledger hold |
| `Commands.NoEvidenceNoUpdate` | src-tauri/src/command.rs:149-168 | with a 2xx status, a missing header or a missing ledger entry gives `false` |
| `Commands.EqualInstantsNotNewer` | src-tauri/src/command.rs:164 | a remote instant equal to the recorded one gives `false` |
| `Commands.UpdateMonotone` | src-tauri/src/command.rs:153-165 | if an update is reported against a recorded instant, it is reported against any earlier recorded instant |
| `Commands.CheckAfterRecord` | src-tauri/src/command.rs:153-165 | against a recorded instant `now` and a 2xx reply carrying an instant, the decision is `true` iff the remote instant is strictly later than `now` |
| `Commands.RecordThenCheckUpdate` | src-tauri/src/command.rs:106-169 | the game path is kept, the ledger gains the entry `t := now`, and checking it against a 2xx reply with an instant reports an update iff that instant is strictly later than `now` |
| `Commands.Extract` | src-tauri/src/command.rs:34-104 | without a game path it fails with no effect at all; every effect concerns the cache directory joined with the target's catalog file name; once the game path is set and the archive exists, the run reads the archive and then unzips it into the game path, in that order and nothing else; it succeeds iff the game path is set, the archive exists and the archive library succeeds; a missing archive is a read error after one read attempt |

## Left out

- The Tauri command plumbing, the `RwLock` around the configuration and the `unwrap()` on poisoned locks: they carry no rule of their own, and the model passes the configuration object directly.
- Resolution of the application cache directory through the application handle (`app_cache_dir().unwrap()`): the cache directory is a parameter, so its failure is not modelled.
- `MyConfig::load` and `MyConfig::save` (JSON through serde): file I/O whose round trip is a promise of the serialization library.
- src-tauri/src/lib.rs (startup, load-or-create, save on window close) is not part of this model. It never calls `sync`, so reconciliation is modelled as an operation of its own, not as a startup step.
- `check_update` is not registered among the commands in lib.rs; only its decision is modelled.
- The HEAD request itself (reqwest): network I/O, modelled as a function from URL to reply.
- Parsing of the `Last-Modified` header as an RFC 2822 date-time (section 3.3 of RFC 2822) and the debug printing of both instants: foreign code; a header that is not text and one that does not parse are the single outcome `Unparsable`.
- The Steam library probe (steamlocate): its findings are a parameter.
- ZIP extraction (`zip_extract`): its effect is the single `Unzip` step and its outcome a boolean. The code panics on every extraction error, so malformed archives and destination write failures are one error here.
- `Commands.Extract`: reading the archive is modelled as failing exactly when the file does not exist; an existing but unreadable file is not modelled.
- `Commands.ChangeGamePath`: the conversion of the input string to a path and the platform's path separator are not modelled; paths are component sequences displayed with `/`.
- Instants are integers: sub-second precision of the recorded `now` against whole-second RFC 2822 headers, and UTC offsets, are not modelled beyond the comparison of instants.
- Two revisions of the source name the catalog's file-name function differently (`file_name` and `to_file_name`); both are `Catalog.FileName`. The three `extract_*` commands write the archive names as literals; they are the catalog's names, which `Catalog.FileName` states.
