/**
 * The data the client helper exchanges with a Perforce server through p4java:
 * per-file results, the requests it issues, the local effects it causes, and
 * the remote session itself as a bundle of oracle functions.
 */
module Perforce {
  import opened Wrappers

  /** p4java's `FileSpecOpStatus`; only `Valid` versus anything else matters here. */
  datatype OpStatus = Valid | Info | Error | ClientError | Unknown

  /** p4java's `FileAction`; only `Abandoned` is inspected. */
  datatype FileAction = Abandoned | OtherAction(name: string)

  /** One per-file record returned by a remote operation. */
  datatype FileResult = FileResult(
    status: OpStatus,
    message: string,
    action: Option<FileAction>,
    depotPath: Option<string>,
    originalPath: Option<string>)

  /** How the workspace is populated; every variant carries the `have` and `force` flags. */
  datatype Populate =
    | AutoClean(delete: bool, replace: bool, have: bool, force: bool)
    | ForceClean(have: bool, force: bool)
    | OtherPopulate(have: bool, force: bool)

  /** The `p4 sync` flags the helper sets: `-p`, `-f` and `-n`. */
  datatype SyncOptions = SyncOptions(serverBypass: bool, forceUpdate: bool, noUpdate: bool)

  /** The `p4 reconcile` flags the helper sets: `-a`, `-e`, `-d`, `-n` and `-f`. */
  datatype ReconcileOptions = ReconcileOptions(
    outsideAdd: bool, outsideEdit: bool, removed: bool, noUpdate: bool, useWildcards: bool)

  /** What a request applies to: path patterns, or the file specs of an earlier answer. */
  datatype FileSpecs = Specs(paths: seq<string>) | ResultSpecs(results: seq<FileResult>)

  /** A remote operation the helper issues. */
  datatype Request =
    | Sync(files: FileSpecs, sync: SyncOptions)
    | Revert(paths: seq<string>, keepContent: bool)
    | Reconcile(paths: seq<string>, reconcile: ReconcileOptions)
    | Unshelve(review: int, paths: seq<string>, target: int, forceOverwrite: bool, previewOnly: bool)

  /** One observable step of a run: a remote request or an effect on the local disk. */
  datatype Event =
    | Remote(request: Request)
    | DeleteLocal(path: string)
    | RemoveTree(root: string)
    | PrintRevision(rev: string, path: string)

  /** One row of the `p4 cstat` answer, with its change number already parsed. */
  datatype StatusEntry = StatusEntry(status: string, change: int)

  /** An exception that escapes an operation. */
  datatype Error =
    | MissingCantMarker(message: string)
    | UnmappedRevision(rev: string)
    | NullChangelistList
    | NullChangelist

  /**
   * The bound workspace and its server. `respond` answers a request given every
   * event that happened earlier in the run; `where` is the client-view lookup of
   * `p4 where`; `validate` is `validateFileSpecs`, whose body is not part of this
   * model; `changelists` answers `getChangelists` for a spec and a maximum count
   * (`None` for a null list, `None` entries for null summaries); `cstat` answers
   * `p4 cstat` for a spec.
   */
  datatype Session = Session(
    root: string,
    name: string,
    respond: (seq<Event>, Request) -> seq<FileResult>,
    where: string -> Option<string>,
    validate: (seq<FileResult>, bool, seq<string>) -> bool,
    changelists: (string, nat) -> Option<seq<Option<int>>>,
    cstat: string -> seq<StatusEntry>)

  /** What one operation did, in order, and the verdict it returned or the error it raised. */
  datatype Run = Run(events: seq<Event>, outcome: Result<bool, Error>)
  {
    /**
     * `this` followed by `next`, the verdicts combined with `&=`: a false verdict
     * does not stop `next` from running; only an error does.
     */
    function Then(next: Run): Run
    {
      match outcome
      case Failure(_) => this
      case Success(ok) =>
        match next.outcome
        case Failure(e) => Run(events + next.events, Failure(e))
        case Success(ok') => Run(events + next.events, Success(ok && ok'))
    }
  }

  /** A run that does nothing and succeeds. */
  const Idle: Run := Run([], Success(true))

  /**
   * The path `depotToLocal` hands to `p4 where`: the depot path, else the
   * original path, else none at all.
   */
  function SelectPath(r: FileResult): (p: Option<string>)
    ensures p.None? <==> r.depotPath.None? && r.originalPath.None?
    ensures r.depotPath.Some? ==> p == r.depotPath
    ensures r.depotPath.None? ==> p == r.originalPath
  {
    if r.depotPath.Some? then r.depotPath else r.originalPath
  }

  /** `depotToLocal`: the local path of a result, or `None` (Java `null`). */
  function LocalPath(s: Session, r: FileResult): (p: Option<string>)
    ensures r.depotPath.None? && r.originalPath.None? ==> p.None?
  {
    match SelectPath(r)
    case None => None
    case Some(d) => s.where(d)
  }
}
