# ClientHelper of the Jenkins Perforce plugin, modelled in Dafny

`ClientHelper` is the part of the Jenkins Perforce (p4) plugin that brings a build
workspace into line with the depot. It syncs the workspace to a change or a label.
It cleans the workspace under one of two policies. AutoClean reverts pending
files, deletes files that are not versioned and restores edited or missing files.
ForceClean syncs to change 0 and removes the workspace root. It also unshelves a
review and lists changes. Nearly every step is a p4java call. This model keeps
the logic between those calls:

- which requests are issued, in which order and with which flags;
- which local files are deleted or printed;
- how the per-file answers are reduced to a verdict or a list of change numbers.

Files:

- `wrappers.dfy`: `Option` (Java `null`) and `Result` (a value or a raised error).
- `strings.dfy`: the `java.lang.String` operations the helper uses: `indexOf`,
  `contains`, `startsWith`, `substring` and the decimal text of an `int`. The
  module also has `ParseInt`, an inverse of that text, used to prove that
  different change numbers give different sync targets.
- `perforce.dfy`: the data the helper exchanges with the server. This covers
  per-file results (`FileResult`), the populate strategies (`Populate`), requests,
  the events of a run, and the remote `Session`.
- `client_helper.dfy`: the operations of `ClientHelper`.
- `client_helper_proofs.dfy`: lemmas that relate several calls, or that hold for
  every answer the server might give.

The remote session is a datatype of oracle functions:

- `respond(history, request)` answers a request. It receives every event that
  happened earlier in the run, so the server may change state between calls.
- `where` is the client-view lookup used by `depotToLocal`.
- `validate` stands for `validateFileSpecs`. That method lives in
  `ConnectionHelper`, which is not part of this model, so `validate` is left
  uninterpreted. Each call site's benign-message list is kept as data
  (`SyncBenign`, `PendingBenign`, `ChangedBenign`, `ChangedBlocking`,
  `RestoreBenign`, `ExtraBenign`, `HeadBenign`, `UnshelveBenign`,
  `KeepRevertBenign`). The boolean argument is the `true` passed at
  `ClientHelper.java:276`. Every other call site uses the overload without
  that argument, which the model encodes as `validate(_, false, _)`.
- `changelists` and `cstat` answer `getChangelists` and `p4 cstat`.

The workspace operations (the syncs, `updateFiles`, `tidyWorkspace` and its steps,
`unshelveFiles`) return a `Run`: the ordered list of events they caused and either
their boolean verdict or the error they raised. The events are remote requests,
`DeleteLocal(path)`, `RemoveTree(root)` and `PrintRevision(rev, path)`. The
queries (`getClientHead`, `listChanges`, `listClientChanges`) record no events and
return a `Result` or a list. Four errors are modelled:

- `MissingCantMarker`: an "exclusive file already opened" message that does not
  contain `" - can't "`. For such a message `msg.substring(0, msg.indexOf(" - can't "))`
  throws. This aborts `tidyReplace` after the retries before it, and
  `unshelveFiles` after the prints before it.
- `UnmappedRevision`: a revision to print that `p4 where` maps to no local path.
  `depotToLocal` returns null for it, and `new File(null)` in `printFile` throws.
  This aborts `unshelveFiles` before its revert.
- `NullChangelistList` and `NullChangelist`: a null answer from `getChangelists`,
  or a null summary in it.

The two reconcile steps spell one benign pattern differently. `tidyDelete` passes
`"- no file(s) to reconcile"`, with a leading dash (`ClientHelper.java:319`), while
`tidyReplace` passes `"no file(s) to reconcile"` (line 271). `ExtraBenign` keeps
the dash and `ChangedBenign` does not.

## Model

| member | source | states |
|---|---|---|
| `Strings.IndexOf` | src/main/java/org/jenkinsci/plugins/p4/client/ClientHelper.java:291 | `indexOf` returns the first position where the marker occurs, and none exactly when it occurs nowhere |
| `ClientHelper.RevisionToken` | src/main/java/org/jenkinsci/plugins/p4/client/ClientHelper.java:291 | the token is the message prefix that ends right where `" - can't "` starts, and no earlier occurrence of the marker starts inside it |
| `ClientHelperProofs.TokenOfComposedMessage` | src/main/java/org/jenkinsci/plugins/p4/client/ClientHelper.java:417 | a message built as revision + `" - can't "` + reason yields back exactly the revision, whenever no occurrence of the marker starts inside the revision |
| `ClientHelperProofs.NoSpaceNoMarker` | src/main/java/org/jenkinsci/plugins/p4/client/ClientHelper.java:417 | a revision without a space cannot hold the start of the marker, so the previous row covers every space-free depot revision |
| `ClientHelperProofs.ClobberMessageToken` | src/main/java/org/jenkinsci/plugins/p4/client/ClientHelper.java:291 | `"//depot/foo#3 - can't clobber writable file"` yields `"//depot/foo#3"` |
| `ClientHelper.SyncOptionsFor` | src/main/java/org/jenkinsci/plugins/p4/client/ClientHelper.java:169-177 | the private `syncFiles` sets force-update to exactly `force` and bypass exactly when neither `have` nor `force` is set; the two are never both on and no-update is never set |
| `ClientHelperProofs.ChangeSpecInjective` | src/main/java/org/jenkinsci/plugins/p4/client/ClientHelper.java:140-141 | two different change numbers never give the same `root/...@change` target |
| `ClientHelperProofs.SyncChangeTargets` | src/main/java/org/jenkinsci/plugins/p4/client/ClientHelper.java:135-183 | `SyncChange` (`syncFiles(int, populate)`) issues exactly one sync of `root/...@` followed by the change's decimal text, with the strategy's flags; its verdict is that sync's check against the three benign patterns, and it never raises |
| `ClientHelperProofs.SyncToChange120` | src/main/java/org/jenkinsci/plugins/p4/client/ClientHelper.java:135-147 | syncing workspace `/ws` to change 120 with `have` set issues one sync of `/ws/...@120` without bypass or force |
| `ClientHelperProofs.SyncLabelTargets` | src/main/java/org/jenkinsci/plugins/p4/client/ClientHelper.java:155-183 | `SyncLabel` (`syncFiles(String, populate)`) issues exactly one sync of `root/...@label` with the strategy's flags; its verdict is that sync's check, and it never raises |
| `ClientHelperProofs.LabelSpecInjective` | src/main/java/org/jenkinsci/plugins/p4/client/ClientHelper.java:160-161 | two different labels never give the same target |
| `ClientHelper.NoneUpToDate` | src/main/java/org/jenkinsci/plugins/p4/client/ClientHelper.java:118-126 | true exactly when no non-VALID result's message contains "file(s) up-to-date." |
| `ClientHelperProofs.UpdateFilesVerdict` | src/main/java/org/jenkinsci/plugins/p4/client/ClientHelper.java:107-127 | `UpdateFiles` (`updateFiles`) previews one sync of `root/...` and returns false exactly when a rejected result reports "file(s) up-to-date." |
| `ClientHelperProofs.NoneUpToDateAppend` | src/main/java/org/jenkinsci/plugins/p4/client/ClientHelper.java:118-126 | the answer for two batches of results is the conjunction of the answers for each |
| `ClientHelperProofs.AcceptedResultsIgnored` | src/main/java/org/jenkinsci/plugins/p4/client/ClientHelper.java:119 | inserting a VALID result anywhere never changes the answer |
| `Perforce.SelectPath` | src/main/java/org/jenkinsci/plugins/p4/client/ClientHelper.java:345-351 | the depot path if present, else the original path; none exactly when both are absent |
| `Perforce.LocalPath` | src/main/java/org/jenkinsci/plugins/p4/client/ClientHelper.java:344-356 | a result with neither path resolves to no local path (`null`) |
| `ClientHelper.Deletions` | src/main/java/org/jenkinsci/plugins/p4/client/ClientHelper.java:244-252 | only deletions are produced, no more deletions than results; a path is deleted if and only if some selected result resolves to it. The selected results are the ABANDONED ones after revert, and every result in `tidyDelete` (lines 324-330) |
| `ClientHelperProofs.DeletionsAppend` | src/main/java/org/jenkinsci/plugins/p4/client/ClientHelper.java:244-252 | the deletions of two batches are those of the first followed by those of the second; a single result yields exactly one deletion, of its local path, when it is selected and resolves to one, and none otherwise. Together these fix the order and give one deletion per resolving result |
| `ClientHelperProofs.PendingShape` | src/main/java/org/jenkinsci/plugins/p4/client/ClientHelper.java:231-254 | `TidyPending` (`tidyPending`) issues one revert of `root/...` without `-k`, then exactly the deletions `Deletions` gives for the ABANDONED answers, and nothing else; its verdict is the revert's check |
| `ClientHelperProofs.DeleteShape` | src/main/java/org/jenkinsci/plugins/p4/client/ClientHelper.java:307-333 | `TidyDelete` (`tidyDelete`) issues one `reconcile -n -a` of `root/...`, then exactly the deletions `Deletions` gives for all its answers, and nothing else; its verdict is the scan's check |
| `ClientHelperProofs.LockedResultsMembers` | src/main/java/org/jenkinsci/plugins/p4/client/ClientHelper.java:287-290 | a result is kept by the lock-rejected filter if and only if it is non-VALID and its message contains "exclusive file already opened" |
| `ClientHelperProofs.LockedResultsAppend` | src/main/java/org/jenkinsci/plugins/p4/client/ClientHelper.java:287-290 | the filter distributes over concatenation and keeps a single result exactly when it is rejected, so the lock-rejected results keep their order and their duplicates |
| `ClientHelper.ScanTokens` | src/main/java/org/jenkinsci/plugins/p4/client/ClientHelper.java:287-302 | the i-th token is the revision token of the i-th lock-rejected message; scanning stops at the first message without `" - can't "`, which is reported |
| `ClientHelper.RetrySyncs` | src/main/java/org/jenkinsci/plugins/p4/client/ClientHelper.java:292-299 | exactly one forced sync per token, of that token, in order, and never an error |
| `ClientHelperProofs.RetryVerdict` | src/main/java/org/jenkinsci/plugins/p4/client/ClientHelper.java:292-299 | the retries' verdict is true exactly when each forced sync's answer, given the retries issued before it, passes the check against "file(s) up-to-date." and "file does not exist" |
| `ClientHelperProofs.ReplaceParts` | src/main/java/org/jenkinsci/plugins/p4/client/ClientHelper.java:256-305 | `TidyReplace` (`tidyReplace`) is its scan, then the restoring sync, then the retries. It raises exactly when the token scan hits a message without the marker, and its verdict is the conjunction of the three checks |
| `ClientHelperProofs.ReplaceRetriesEachLockedRevision` | src/main/java/org/jenkinsci/plugins/p4/client/ClientHelper.java:274-302 | the reconciled list is force-synced only when the blocking check passes. After that comes one forced sync of the token of each lock-rejected result, in order |
| `ClientHelperProofs.ReplaceRaisesOnMissingMarker` | src/main/java/org/jenkinsci/plugins/p4/client/ClientHelper.java:287-291 | `tidyReplace` raises exactly when some lock-rejected message lacks `" - can't "`; a true verdict implies the changed-files check passed |
| `ClientHelperProofs.ReplaceShape` | src/main/java/org/jenkinsci/plugins/p4/client/ClientHelper.java:262-299 | `tidyReplace` issues one `reconcile -n -e -d` of `root/...` and then only forced syncs |
| `ClientHelperProofs.AutoCleanOrder` | src/main/java/org/jenkinsci/plugins/p4/client/ClientHelper.java:203-216 | under AutoClean, `TidyWorkspace` reverts first and only once; the extra-files scan runs if and only if `delete`, the changed-files scan if and only if `replace`, and the extra-files scan comes before the changed-files scan; every local deletion comes before every sync; the root is never removed |
| `ClientHelperProofs.AutoCleanVerdict` | src/main/java/org/jenkinsci/plugins/p4/client/ClientHelper.java:194-228 | the AutoClean verdict is the conjunction of the revert check, the extra-files check (when `delete`) and the replace verdict (when `replace`); it raises only from replace |
| `ClientHelperProofs.ForceCleanWipes` | src/main/java/org/jenkinsci/plugins/p4/client/ClientHelper.java:218-226 | ForceClean issues exactly one sync of `root/...@0` with the strategy's flags and then removes the root; its verdict is that sync's check |
| `ClientHelperProofs.OtherPopulateIsIdle` | src/main/java/org/jenkinsci/plugins/p4/client/ClientHelper.java:203-228 | a strategy that is neither AutoClean nor ForceClean issues nothing and returns true |
| `ClientHelperProofs.TidyTraceIgnoresVerdicts` | src/main/java/org/jenkinsci/plugins/p4/client/ClientHelper.java:193-229 | no short-circuit: the events of `tidyWorkspace` do not depend on any `validateFileSpecs` verdict except the blocking check at line 276 |
| `ClientHelper.PrintFiles` | src/main/java/org/jenkinsci/plugins/p4/client/ClientHelper.java:344-380 | the revisions are printed in order, each to the local path `p4 where` gives it. The loop stops at the first revision without a local path and raises `UnmappedRevision` for it. It succeeds, with one print per revision, exactly when every revision is mapped |
| `ClientHelperProofs.UnshelveSequence` | src/main/java/org/jenkinsci/plugins/p4/client/ClientHelper.java:389-433 | `UnshelveFiles` (`unshelveFiles`) syncs `root/...` to head and unshelves the review with forced overwrite into change 0. It then prints the lock-rejected revisions in order, each to its local path. The first unmapped revision raises, before any later message is scanned. With every revision mapped, a message without the marker raises. Otherwise the revert with `-k` runs last. The verdict is the conjunction of the sync, unshelve and revert checks, and the prints do not contribute |
| `ClientHelper.GetClientHead` | src/main/java/org/jenkinsci/plugins/p4/client/ClientHelper.java:442-456 | the first summary's id when the list is non-empty and that summary is non-null, else 0; a null list raises |
| `ClientHelper.Ids` | src/main/java/org/jenkinsci/plugins/p4/client/ClientHelper.java:477-481 | the ids of all summaries, in order, when none is null; a null summary raises |
| `ClientHelper.ListChanges` | src/main/java/org/jenkinsci/plugins/p4/client/ClientHelper.java:468-484 | a null list gives no changes; otherwise it raises exactly when some summary is null, and else returns the summaries' ids, one per summary, in order |
| `ClientHelper.PendingChanges` | src/main/java/org/jenkinsci/plugins/p4/client/ClientHelper.java:516-528 | a change is listed if and only if some entry with that change has a status starting with "need" or "partial" |
| `ClientHelperProofs.PendingChangesAppend` | src/main/java/org/jenkinsci/plugins/p4/client/ClientHelper.java:516-528 | the filter distributes over concatenation, so input order is kept |
| `ClientHelperProofs.ClientChangesQueried` | src/main/java/org/jenkinsci/plugins/p4/client/ClientHelper.java:492-512 | `ListClientChanges` asks `cstat` about `root/...` and `ListClientChangesTo` about `root/...@limit`; each lists exactly the changes some entry of that answer still needs |
| `ClientHelperProofs.NeedIsKeptSubmittedIsDropped` | src/main/java/org/jenkinsci/plugins/p4/client/ClientHelper.java:518-526 | entries `need 5` and `submitted 6` give `[5]` |

## Left out

- The body of `validateFileSpecs`: it lives in `ConnectionHelper`, which is not part of this model, so `Session.validate` is uninterpreted.
- Connection, login and client set-up (`clientLogin`, `setClient`, `isClientValid`, `getClientView`): remote I/O and credential plumbing.
- The p4java calls (`sync`, `revertFiles`, `reconcileFiles`, `unshelveChangelist`, `where`, `getChangelists`, `getFileContents`, `execMapCmd`): they are the oracle functions of `Session`.
- Exceptions raised by p4java or the file system are not modelled, except the missing `" - can't "` marker, the revision to print without a local path, and the null changelist list or summary. Among them: a `where` answer with no entries, `FileUtils.forceDelete` on a missing root, and a null status message.
- `printFile` byte streaming, `File.delete` and `FileUtils.forceDelete`: file-system I/O, recorded only as `PrintRevision`, `DeleteLocal` and `RemoveTree` events.
- `Integer.parseInt` of the `cstat` change field and a missing `status` key: each entry carries its change already parsed.
- The maximum of 50 (and of 1) changelists is passed to the oracle but not enforced on its answer.
- Logging through `log` and `Logger`.
- Convergence, idempotence and the removal of the root after ForceClean depend on the server and the file system, which are oracles here.
- The `p4 where` lookups of `depotToLocal` and the `getFileContents` call of `printFile` are remote requests that are not recorded as events: `where` is a history-independent oracle, and a print is recorded only as `PrintRevision`.
- `PrintFiles`: `printFile` builds a p4java file spec from the revision token before asking `p4 where`. That parsing is not part of this model, so the `where` oracle is asked about the token itself.
