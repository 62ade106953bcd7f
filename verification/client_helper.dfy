/**
 * The decisions of the Jenkins Perforce plugin's `ClientHelper`: which remote
 * operations it issues, in which order and with which flags, and how it reduces
 * the per-file answers to a verdict or a list.
 */
module ClientHelper {
  import opened Wrappers
  import opened Strings
  import opened Perforce

  const UpToDate := "file(s) up-to-date."
  const ExclusiveLock := "exclusive file already opened"
  /** What separates the revision from the reason in an exclusive-lock message. */
  const CantMarker := " - can't "

  // The benign message patterns passed to `validateFileSpecs` at each call site.
  const SyncBenign: seq<string> := [UpToDate, "file does not exist", "no file(s) as of that date"]
  const PendingBenign: seq<string> := ["not opened on this client"]
  const ChangedBenign: seq<string> :=
    ["also opened by", "no file(s) to reconcile", "must sync/resolve", ExclusiveLock]
  const ChangedBlocking: seq<string> := ["also opened by", "must sync/resolve", ExclusiveLock]
  const RestoreBenign: seq<string> := [UpToDate, "file does not exist"]
  const ExtraBenign: seq<string> := ["- no file(s) to reconcile", "instead of", "empty, assuming text"]
  const HeadBenign: seq<string> := [UpToDate]
  const UnshelveBenign: seq<string> := ["also opened by", "no such file(s)", ExclusiveLock]
  const KeepRevertBenign: seq<string> := ["file(s) not opened on this client"]

  const PreviewOptions := SyncOptions(false, false, true)
  const DefaultSyncOptions := SyncOptions(false, false, false)
  const ForceSyncOptions := SyncOptions(false, true, false)
  /** `reconcile -n -a`: files present locally but not versioned. */
  const ExtraOptions := ReconcileOptions(true, false, false, true, true)
  /** `reconcile -n -e -d`: versioned files edited or removed outside Perforce. */
  const ChangedOptions := ReconcileOptions(false, true, true, true, true)

  /** Every file under the workspace root. */
  function RootSpec(root: string): string
  {
    root + "/..."
  }

  /** The workspace as of a change. */
  function ChangeSpec(root: string, change: int): string
  {
    RootSpec(root) + "@" + IntToString(change)
  }

  /** The workspace as of a label. */
  function LabelSpec(root: string, labelName: string): string
  {
    RootSpec(root) + "@" + labelName
  }

  /** The flags a sync takes from the populate strategy. */
  function SyncOptionsFor(p: Populate): (o: SyncOptions)
    ensures o.forceUpdate == p.force
    ensures o.serverBypass <==> !p.have && !p.force
    ensures !(o.serverBypass && o.forceUpdate) && !o.noUpdate
  {
    SyncOptions(!p.have && !p.force, p.force, false)
  }

  /** The answers to one request, checked against a list of benign patterns. */
  function Checked(s: Session, h: seq<Event>, req: Request, benign: seq<string>): Run
  {
    Run([Remote(req)], Success(s.validate(s.respond(h, req), false, benign)))
  }

  /** The loop of `updateFiles`: no rejected result reports "file(s) up-to-date.". */
  function NoneUpToDate(rs: seq<FileResult>): (b: bool)
    ensures b <==> forall i :: 0 <= i < |rs| ==> rs[i].status == Valid || !Contains(rs[i].message, UpToDate)
  {
    if |rs| == 0 then true
    else if rs[0].status != Valid && Contains(rs[0].message, UpToDate) then false
    else NoneUpToDate(rs[1..])
  }

  /** `updateFiles`: a preview sync of the workspace; true when an update is needed. */
  function UpdateFiles(s: Session, h: seq<Event>): Run
  {
    var req := Sync(Specs([RootSpec(s.root)]), PreviewOptions);
    Run([Remote(req)], Success(NoneUpToDate(s.respond(h, req))))
  }

  /** The private `syncFiles(files, populate)`. */
  function SyncSpec(s: Session, h: seq<Event>, spec: string, p: Populate): Run
  {
    Checked(s, h, Sync(Specs([spec]), SyncOptionsFor(p)), SyncBenign)
  }

  /** `syncFiles(int change, populate)`. */
  function SyncChange(s: Session, h: seq<Event>, change: int, p: Populate): Run
  {
    SyncSpec(s, h, ChangeSpec(s.root, change), p)
  }

  /** `syncFiles(String label, populate)`. */
  function SyncLabel(s: Session, h: seq<Event>, labelName: string, p: Populate): Run
  {
    SyncSpec(s, h, LabelSpec(s.root, labelName), p)
  }

  /** Whether a result is acted on: every result, or only abandoned ones. */
  predicate Selected(r: FileResult, abandonedOnly: bool)
  {
    !abandonedOnly || r.action == Some(Abandoned)
  }

  /** The local deletions for the selected results that resolve to a local path, in order. */
  function Deletions(s: Session, rs: seq<FileResult>, abandonedOnly: bool): (d: seq<Event>)
    ensures |d| <= |rs|
    ensures forall e :: e in d ==> e.DeleteLocal?
    ensures forall e :: e in d ==>
      exists i :: 0 <= i < |rs| && Selected(rs[i], abandonedOnly) && LocalPath(s, rs[i]) == Some(e.path)
    ensures forall i :: 0 <= i < |rs| && Selected(rs[i], abandonedOnly) && LocalPath(s, rs[i]).Some? ==>
      DeleteLocal(LocalPath(s, rs[i]).value) in d
  {
    if |rs| == 0 then []
    else
      var here := if Selected(rs[0], abandonedOnly) then LocalPath(s, rs[0]) else None;
      var rest := Deletions(s, rs[1..], abandonedOnly);
      assert forall i :: 1 <= i < |rs| ==> rs[i] == rs[1..][i - 1];
      match here
      case None => rest
      case Some(p) => [DeleteLocal(p)] + rest
  }

  /** `tidyPending`: revert everything, then delete the files of reverted adds. */
  function TidyPending(s: Session, h: seq<Event>): Run
  {
    var req := Revert([RootSpec(s.root)], false);
    var list := s.respond(h, req);
    Run([Remote(req)] + Deletions(s, list, true), Success(s.validate(list, false, PendingBenign)))
  }

  /** `tidyDelete`: find the files outside version control and delete each one. */
  function TidyDelete(s: Session, h: seq<Event>): Run
  {
    var req := Reconcile([RootSpec(s.root)], ExtraOptions);
    var extra := s.respond(h, req);
    Run([Remote(req)] + Deletions(s, extra, false), Success(s.validate(extra, false, ExtraBenign)))
  }

  /** A result the server rejected because another client holds the file's exclusive lock. */
  predicate LockRejected(r: FileResult)
  {
    r.status != Valid && Contains(r.message, ExclusiveLock)
  }

  /** The results that satisfy `keep`, in order. */
  function KeepWhere(rs: seq<FileResult>, keep: FileResult -> bool): (l: seq<FileResult>)
    ensures |l| <= |rs|
  {
    if |rs| == 0 then []
    else if keep(rs[0]) then [rs[0]] + KeepWhere(rs[1..], keep)
    else KeepWhere(rs[1..], keep)
  }

  /** The lock-rejected results, in order. */
  function LockedResults(rs: seq<FileResult>): (l: seq<FileResult>)
    ensures |l| <= |rs|
  {
    KeepWhere(rs, LockRejected)
  }

  /** `msg.substring(0, msg.indexOf(" - can't "))`: the revision an exclusive-lock message names. */
  function RevisionToken(msg: string): (tok: string)
    requires Contains(msg, CantMarker)
    ensures |tok| <= |msg| && tok == msg[..|tok|] && OccursAt(msg, CantMarker, |tok|)
    ensures forall j :: 0 <= j < |tok| ==> !OccursAt(msg, CantMarker, j)
  {
    msg[..IndexOf(msg, CantMarker).value]
  }

  /**
   * The revision tokens of lock-rejected results, read in order until one lacks
   * the marker; `stray` is that message, on which `substring` throws.
   */
  datatype Scan = Scan(tokens: seq<string>, stray: Option<string>)

  /** How many lock-rejected results, from the first, carry the " - can't " marker. */
  function MarkedPrefix(locked: seq<FileResult>): (n: nat)
    ensures n <= |locked|
    ensures forall i :: 0 <= i < n ==> Contains(locked[i].message, CantMarker)
    ensures n < |locked| ==> !Contains(locked[n].message, CantMarker)
    decreases |locked|
  {
    if |locked| == 0 || !Contains(locked[0].message, CantMarker) then 0
    else
      var rest := locked[1..];
      assert forall i :: 0 <= i < |rest| ==> rest[i] == locked[i + 1];
      1 + MarkedPrefix(rest)
  }

  function ScanTokens(locked: seq<FileResult>): (sc: Scan)
    ensures |sc.tokens| <= |locked|
    ensures forall i :: 0 <= i < |sc.tokens| ==>
      Contains(locked[i].message, CantMarker) && sc.tokens[i] == RevisionToken(locked[i].message)
    ensures sc.stray.None? <==> |sc.tokens| == |locked|
    ensures sc.stray.Some? ==>
      sc.stray.value == locked[|sc.tokens|].message && !Contains(sc.stray.value, CantMarker)
  {
    var n := MarkedPrefix(locked);
    var tokens := seq(n, i requires 0 <= i < n => RevisionToken(locked[i].message));
    Scan(tokens, if n < |locked| then Some(locked[n].message) else None)
  }

  /** One forced sync per token, each checked, none stopping the next. */
  function RetrySyncs(s: Session, h: seq<Event>, tokens: seq<string>): (r: Run)
    ensures r.outcome.Success?
    ensures |r.events| == |tokens|
    ensures forall i :: 0 <= i < |tokens| ==> r.events[i] == Remote(Sync(Specs([tokens[i]]), ForceSyncOptions))
    decreases |tokens|
  {
    if |tokens| == 0 then Idle
    else
      var first := Checked(s, h, Sync(Specs([tokens[0]]), ForceSyncOptions), RestoreBenign);
      first.Then(RetrySyncs(s, h + first.events, tokens[1..]))
  }

  /** The forced sync of the reconciled list, when nothing blocks it. */
  function Restore(s: Session, h: seq<Event>, update: seq<FileResult>): Run
  {
    if s.validate(update, true, ChangedBlocking)
    then Checked(s, h, Sync(ResultSpecs(update), ForceSyncOptions), RestoreBenign)
    else Idle
  }

  /**
   * `tidyReplace`: find edited or missing files, force-sync them back unless
   * something blocks it, then force-sync each exclusively locked revision.
   */
  function TidyReplace(s: Session, h: seq<Event>): Run
  {
    var req := Reconcile([RootSpec(s.root)], ChangedOptions);
    var update := s.respond(h, req);
    var scanned := Run([Remote(req)], Success(s.validate(update, false, ChangedBenign)));
    var restored := Restore(s, h + scanned.events, update);
    var scan := ScanTokens(LockedResults(update));
    var retried := RetrySyncs(s, h + scanned.events + restored.events, scan.tokens);
    var done := scanned.Then(restored).Then(retried);
    match scan.stray
    case None => done
    case Some(m) => Run(done.events, Failure(MissingCantMarker(m)))
  }

  /** `tidyWorkspace`: dispatch on the populate strategy. */
  function TidyWorkspace(s: Session, h: seq<Event>, p: Populate): Run
  {
    match p
    case AutoClean(delete, replace, _, _) =>
      var pending := TidyPending(s, h);
      var extra := if delete then TidyDelete(s, h + pending.events) else Idle;
      var changed := if replace then TidyReplace(s, h + pending.events + extra.events) else Idle;
      pending.Then(extra).Then(changed)
    case ForceClean(_, _) =>
      var wiped := SyncChange(s, h, 0, p);
      Run(wiped.events + [RemoveTree(s.root)], wiped.outcome)
    case OtherPopulate(_, _) => Idle
  }

  /**
   * `printFile` for each token in turn: the revision is written to the local
   * path `p4 where` maps it to. The first revision without one stops the loop,
   * because `new File(null)` throws before anything is written.
   */
  function PrintFiles(s: Session, tokens: seq<string>): (r: Run)
    ensures |r.events| <= |tokens|
    ensures forall i :: 0 <= i < |r.events| ==>
      s.where(tokens[i]).Some? && r.events[i] == PrintRevision(tokens[i], s.where(tokens[i]).value)
    ensures r.outcome.Success? <==> |r.events| == |tokens|
    ensures r.outcome.Success? ==> r.outcome.value
    ensures r.outcome.Failure? ==>
      s.where(tokens[|r.events|]).None? && r.outcome.error == UnmappedRevision(tokens[|r.events|])
    decreases |tokens|
  {
    if |tokens| == 0 then Idle
    else
      match s.where(tokens[0])
      case None => Run([], Failure(UnmappedRevision(tokens[0])))
      case Some(path) =>
        var rest := PrintFiles(s, tokens[1..]);
        Run([PrintRevision(tokens[0], path)] + rest.events, rest.outcome)
  }

  /**
   * `unshelveFiles`: sync to head, unshelve the review, print each exclusively
   * locked revision, then revert the opened files keeping their content.
   */
  function UnshelveFiles(s: Session, h: seq<Event>, review: int): Run
  {
    var head := Checked(s, h, Sync(Specs([RootSpec(s.root)]), DefaultSyncOptions), HeadBenign);
    var req := Unshelve(review, [RootSpec(s.root)], 0, true, false);
    var shelved := s.respond(h + head.events, req);
    var unshelved := Run([Remote(req)], Success(s.validate(shelved, false, UnshelveBenign)));
    PrintAndRevert(s, h, head.Then(unshelved), ScanTokens(LockedResults(shelved)))
  }

  /**
   * The rest of `unshelveFiles` after the run `sofar`: print each scanned
   * revision, raise on the first unmapped revision or on a stray message, and
   * otherwise revert the opened files keeping their content.
   */
  function PrintAndRevert(s: Session, h: seq<Event>, sofar: Run, scan: Scan): Run
  {
    var printed := PrintFiles(s, scan.tokens);
    var done := sofar.Then(printed);
    if printed.outcome.Failure? then done
    else
      match scan.stray
      case Some(m) => Run(done.events, Failure(MissingCantMarker(m)))
      case None => done.Then(Checked(s, h + done.events, Revert([RootSpec(s.root)], true), KeepRevertBenign))
  }

  /** `getClientHead`: the newest change in the client's view, 0 when there is none. */
  function GetClientHead(s: Session): (r: Result<int, Error>)
    ensures var answer := s.changelists("//" + s.name + "/...", 1);
      && (answer.None? <==> r.Failure?)
      && (answer.Some? && (|answer.value| == 0 || answer.value[0].None?) ==> r == Success(0))
      && (answer.Some? && |answer.value| > 0 && answer.value[0].Some? ==> r == Success(answer.value[0].value))
      && (r.Success? && r.value != 0 ==> answer.Some? && |answer.value| > 0 && answer.value[0] == Some(r.value))
  {
    match s.changelists("//" + s.name + "/...", 1)
    case None => Failure(NullChangelistList)
    case Some(list) =>
      if |list| == 0 || list[0].None? then Success(0) else Success(list[0].value)
  }

  /** The ids of a list of changelist summaries; a null summary raises. */
  function Ids(list: seq<Option<int>>): (r: Result<seq<int>, Error>)
    ensures r.Success? <==> forall i :: 0 <= i < |list| ==> list[i].Some?
    ensures r.Failure? ==> r.error == NullChangelist
    ensures r.Success? ==> |r.value| == |list| && forall i :: 0 <= i < |list| ==> list[i] == Some(r.value[i])
  {
    if |list| == 0 then Success([])
    else if list[0].None? then Failure(NullChangelist)
    else
      match Ids(list[1..])
      case Failure(e) => Failure(e)
      case Success(rest) => Success([list[0].value] + rest)
  }

  /** The spec `listChanges` queries: the client's view between two changes. */
  function RangeSpec(name: string, from: int, to: int): string
  {
    "//" + name + "/...@" + IntToString(from) + "," + IntToString(to)
  }

  /** `listChanges(from, to)`: the ids of the summaries the server returns; a null list is empty. */
  function ListChanges(s: Session, from: int, to: int): (r: Result<seq<int>, Error>)
    ensures var answer := s.changelists(RangeSpec(s.name, from, to), 50);
      && (answer.None? ==> r == Success([]))
      && (r.Failure? <==> answer.Some? && exists i :: 0 <= i < |answer.value| && answer.value[i].None?)
      && (r.Failure? ==> r.error == NullChangelist)
      && (answer.Some? && r.Success? ==>
            |r.value| == |answer.value| && forall i :: 0 <= i < |r.value| ==> answer.value[i] == Some(r.value[i]))
  {
    match s.changelists(RangeSpec(s.name, from, to), 50)
    case None => Success([])
    case Some(list) => Ids(list)
  }

  /** A `cstat` status naming a change the workspace still lacks, wholly or in part. */
  predicate NeedsChange(status: string)
  {
    StartsWith(status, "need") || StartsWith(status, "partial")
  }

  /** The loop of the private `listClientChanges(fileSpec)`. */
  function PendingChanges(entries: seq<StatusEntry>): (r: seq<int>)
    ensures |r| <= |entries|
    ensures forall c :: c in r <==> exists i :: 0 <= i < |entries| && NeedsChange(entries[i].status) && entries[i].change == c
  {
    if |entries| == 0 then []
    else
      var rest := PendingChanges(entries[1..]);
      assert forall i :: 1 <= i < |entries| ==> entries[i] == entries[1..][i - 1];
      if NeedsChange(entries[0].status) then [entries[0].change] + rest else rest
  }

  /** The private `listClientChanges(fileSpec)`. */
  function ListClientChangesFor(s: Session, fileSpec: string): seq<int>
  {
    PendingChanges(s.cstat(fileSpec))
  }

  /** `listClientChanges()`: changes needed to bring the workspace to head. */
  function ListClientChanges(s: Session): seq<int>
  {
    ListClientChangesFor(s, RootSpec(s.root))
  }

  /** `listClientChanges(int)`: changes needed to bring the workspace to a change. */
  function ListClientChangesTo(s: Session, changeLimit: int): seq<int>
  {
    ListClientChangesFor(s, ChangeSpec(s.root, changeLimit))
  }
}
