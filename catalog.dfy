/**
 * The closed catalog of downloadable assets (`DownloadTarget` in
 * src-tauri/src/config.rs): three targets, each with a constant archive
 * file name and a constant remote URL.
 */
module Catalog {

  datatype Target = Translation | BuiltinFont | ExternalFont

  /** Every target, once each. */
  const ALL_TARGETS: set<Target> := {Translation, BuiltinFont, ExternalFont}

  /**
   * The key under which a target is serialized: the variant name in
   * snake_case, as `#[serde(rename_all = "snake_case")]` writes it.
   */
  function SerdeKey(t: Target): string
  {
    match t
    case Translation => "translation"
    case BuiltinFont => "builtin_font"
    case ExternalFont => "external_font"
  }

  /** `DownloadTarget::file_name`: the archive's name in the cache directory. */
  function FileName(t: Target): (name: string)
    ensures name == SerdeKey(t) + ".zip"
  {
    match t
    case Translation => "translation.zip"
    case BuiltinFont => "builtin_font.zip"
    case ExternalFont => "external_font.zip"
  }

  /** The Google Drive endpoint every archive is downloaded from. */
  const DRIVE_DOWNLOAD: string := "https://drive.google.com/uc?id="

  /** The Google Drive file id under which each target's archive is published. */
  function DriveFileId(t: Target): string
  {
    match t
    case Translation => "1eYAZiLb6xmNQZw-sxh1mJWshTC6xHLJz"
    case BuiltinFont => "1kEHlqJ58PE5lSaSr_Hmmgclij1tSjR17"
    case ExternalFont => "1t2lh6KPnTkBoM_-PPFmx5CRBum-gLb31"
  }

  /**
   * `DownloadTarget::download_url`: where the archive is published, the
   * Drive download endpoint followed by the archive's file id.
   */
  function DownloadUrl(t: Target): (url: string)
    ensures |DRIVE_DOWNLOAD| <= |url| && url[..|DRIVE_DOWNLOAD|] == DRIVE_DOWNLOAD
    ensures url[|DRIVE_DOWNLOAD|..] == DriveFileId(t)
  {
    DRIVE_DOWNLOAD + DriveFileId(t)
  }

  /** Distinct targets keep distinct archives in the cache directory. */
  lemma FileNameInjective(a: Target, b: Target)
    ensures FileName(a) == FileName(b) <==> a == b
  {
  }

  /** Distinct targets are fetched from distinct remote locations. */
  lemma DownloadUrlInjective(a: Target, b: Target)
    ensures DownloadUrl(a) == DownloadUrl(b) <==> a == b
  {
  }

  /** A finite subset has no more elements than its superset. */
  lemma {:induction false} SubsetCardinality<X>(a: set<X>, b: set<X>)
    requires a <= b
    ensures |a| <= |b|
  {
    if a != {} {
      var x :| x in a;
      SubsetCardinality(a - {x}, b - {x});
    }
  }

  /**
   * The catalog is closed: any map keyed by targets (the download ledger)
   * holds at most one entry per catalog value, so at most three.
   */
  lemma LedgerAtMostCatalog<V>(m: map<Target, V>)
    ensures |m| <= |ALL_TARGETS| == 3
  {
    assert m.Keys <= ALL_TARGETS by {
      forall t | t in m.Keys ensures t in ALL_TARGETS {
        match t
        case Translation =>
        case BuiltinFont =>
        case ExternalFont =>
      }
    }
    SubsetCardinality(m.Keys, ALL_TARGETS);
  }
}
