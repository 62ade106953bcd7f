/**
 * Properties of the client helper's decisions that relate several calls or
 * hold for every answer the server might give.
 */
module ClientHelperProofs {
  import opened Wrappers
  import opened Strings
  import opened Perforce
  import opened ClientHelper

  // ---------------------------------------------------------------------------
  // Target specs
  // ---------------------------------------------------------------------------

  /** Two different changes never produce the same sync target. */
  lemma ChangeSpecInjective(root: string, a: int, b: int)
    requires ChangeSpec(root, a) == ChangeSpec(root, b)
    ensures a == b
  {
    var n := |RootSpec(root) + "@"|;
    assert ChangeSpec(root, a)[n..] == IntToString(a);
    assert ChangeSpec(root, b)[n..] == IntToString(b);
    IntToStringInjective(a, b);
  }

  /** Syncing workspace `/ws` to change 120 with `have` set targets `/ws/...@120`, without bypass or force. */
  lemma SyncToChange120(s: Session, h: seq<Event>, p: Populate)
    requires s.root == "/ws" && p.have && !p.force
    ensures SyncChange(s, h, 120, p).events == [Remote(Sync(Specs(["/ws/...@120"]), SyncOptions(false, false, false)))]
  {
    assert NatToString(1) == "1";
    assert NatToString(12) == "12";
    assert IntToString(120) == "120";
    assert ChangeSpec("/ws", 120) == "/ws/...@120";
    assert SyncOptionsFor(p) == SyncOptions(false, false, false);
  }

  /**
   * Syncing to a change issues one sync of the workspace root qualified by the
   * change's decimal text, with the strategy's flags; the verdict is that sync's
   * check and it never raises.
   */
  lemma SyncChangeTargets(s: Session, h: seq<Event>, change: int, p: Populate)
    ensures var req := Sync(Specs([s.root + "/...@" + IntToString(change)]), SyncOptionsFor(p));
      SyncChange(s, h, change, p) == Run([Remote(req)], Success(s.validate(s.respond(h, req), false, SyncBenign)))
  {
    assert ChangeSpec(s.root, change) == s.root + "/...@" + IntToString(change);
  }

  /**
   * Syncing to a label issues one sync of the workspace root qualified by that
   * label, with the strategy's flags; the verdict is that sync's check.
   */
  lemma SyncLabelTargets(s: Session, h: seq<Event>, labelName: string, p: Populate)
    ensures var req := Sync(Specs([s.root + "/...@" + labelName]), SyncOptionsFor(p));
      SyncLabel(s, h, labelName, p) == Run([Remote(req)], Success(s.validate(s.respond(h, req), false, SyncBenign)))
  {
    assert LabelSpec(s.root, labelName) == s.root + "/...@" + labelName;
  }

  /** Two different labels never produce the same sync target. */
  lemma LabelSpecInjective(root: string, a: string, b: string)
    requires LabelSpec(root, a) == LabelSpec(root, b)
    ensures a == b
  {
    var n := |RootSpec(root) + "@"|;
    assert LabelSpec(root, a)[n..] == a;
    assert LabelSpec(root, b)[n..] == b;
  }

  // ---------------------------------------------------------------------------
  // Exclusive-lock revision tokens
  // ---------------------------------------------------------------------------

  /**
   * A message built as revision, marker, reason yields back exactly the revision,
   * provided no occurrence of the marker starts inside the revision.
   */
  lemma TokenOfComposedMessage(rev: string, reason: string)
    requires forall j :: 0 <= j < |rev| ==> !OccursAt(rev + CantMarker, CantMarker, j)
    ensures Contains(rev + CantMarker + reason, CantMarker)
    ensures RevisionToken(rev + CantMarker + reason) == rev
  {
    var msg := rev + CantMarker + reason;
    assert msg[|rev|..|rev| + |CantMarker|] == CantMarker;
    assert OccursAt(msg, CantMarker, |rev|);
    forall j: nat | j < |rev|
      ensures !OccursAt(msg, CantMarker, j)
    {
      assert !OccursAt(rev + CantMarker, CantMarker, j);
      assert forall k :: j <= k < j + |CantMarker| ==> msg[k] == (rev + CantMarker)[k];
      assert msg[j..j + |CantMarker|] == (rev + CantMarker)[j..j + |CantMarker|];
    }
    var k := IndexOf(msg, CantMarker);
    assert k.Some?;
    assert k.value == |rev|;
  }

  /** A revision without a space cannot hold the start of " - can't ", which begins with one. */
  lemma NoSpaceNoMarker(rev: string)
    requires ' ' !in rev
    ensures forall j :: 0 <= j < |rev| ==> !OccursAt(rev + CantMarker, CantMarker, j)
  {
    forall j | 0 <= j < |rev|
      ensures !OccursAt(rev + CantMarker, CantMarker, j)
    {
      var m := rev + CantMarker;
      assert m[j] == rev[j] && rev[j] in rev;
      if j + |CantMarker| <= |m| {
        assert m[j..j + |CantMarker|][0] == m[j] != CantMarker[0];
      }
    }
  }

  lemma ClobberMessageToken()
    ensures var msg := "//depot/foo#3" + CantMarker + "clobber writable file";
      Contains(msg, CantMarker) && RevisionToken(msg) == "//depot/foo#3"
  {
    NoSpaceNoMarker("//depot/foo#3");
    TokenOfComposedMessage("//depot/foo#3", "clobber writable file");
  }

  // ---------------------------------------------------------------------------
  // updateFiles and listClientChanges
  // ---------------------------------------------------------------------------

  /**
   * `updateFiles` previews a sync of the whole workspace and answers false exactly
   * when some rejected result reports "file(s) up-to-date.".
   */
  lemma UpdateFilesVerdict(s: Session, h: seq<Event>)
    ensures var req := Sync(Specs([s.root + "/..."]), SyncOptions(false, false, true));
      var rs := s.respond(h, req);
      var r := UpdateFiles(s, h);
      && r.events == [Remote(req)]
      && r.outcome.Success?
      && (!r.outcome.value <==> exists i :: 0 <= i < |rs| && rs[i].status != Valid && Contains(rs[i].message, UpToDate))
  {
  }

  /** The `updateFiles` scan over two batches is the conjunction of the scans over each. */
  lemma {:induction false} NoneUpToDateAppend(a: seq<FileResult>, b: seq<FileResult>)
    ensures NoneUpToDate(a + b) == (NoneUpToDate(a) && NoneUpToDate(b))
    decreases |a|
  {
    if |a| == 0 {
      assert a + b == b;
    } else {
      assert (a + b)[1..] == a[1..] + b;
      NoneUpToDateAppend(a[1..], b);
    }
  }

  /** Inserting an accepted result anywhere never changes the `updateFiles` verdict. */
  lemma AcceptedResultsIgnored(rs: seq<FileResult>, i: nat, v: FileResult)
    requires i <= |rs| && v.status == Valid
    ensures NoneUpToDate(rs[..i] + [v] + rs[i..]) == NoneUpToDate(rs)
  {
    var before, after := rs[..i], rs[i..];
    assert rs == before + after;
    assert NoneUpToDate([v]);
    NoneUpToDateAppend(before, [v]);
    NoneUpToDateAppend(before + [v], after);
    NoneUpToDateAppend(before, after);
  }

  /** `listClientChanges` keeps input order: filtering distributes over concatenation. */
  lemma {:induction false} PendingChangesAppend(a: seq<StatusEntry>, b: seq<StatusEntry>)
    ensures PendingChanges(a + b) == PendingChanges(a) + PendingChanges(b)
    decreases |a|
  {
    if |a| == 0 {
      assert a + b == b;
    } else {
      assert (a + b)[1..] == a[1..] + b;
      PendingChangesAppend(a[1..], b);
    }
  }

  /**
   * `listClientChanges()` asks `cstat` about `root/...` and `listClientChanges(limit)`
   * about `root/...@limit`; each lists exactly the changes some entry of that answer
   * still needs.
   */
  lemma ClientChangesQueried(s: Session, changeLimit: int)
    ensures var head := s.cstat(s.root + "/...");
      forall c :: c in ListClientChanges(s) <==>
        exists i :: 0 <= i < |head| && NeedsChange(head[i].status) && head[i].change == c
    ensures var upTo := s.cstat(s.root + "/...@" + IntToString(changeLimit));
      forall c :: c in ListClientChangesTo(s, changeLimit) <==>
        exists i :: 0 <= i < |upTo| && NeedsChange(upTo[i].status) && upTo[i].change == c
  {
    assert ChangeSpec(s.root, changeLimit) == s.root + "/...@" + IntToString(changeLimit);
  }

  lemma NeedIsKeptSubmittedIsDropped()
    ensures PendingChanges([StatusEntry("need", 5), StatusEntry("submitted", 6)]) == [5]
  {
    assert "submitted"[0] != "need"[0] && "submitted"[0] != "partial"[0];
    assert StartsWith("need", "need");
  }

  // ---------------------------------------------------------------------------
  // tidyWorkspace
  // ---------------------------------------------------------------------------

  /** Only local deletions. */
  ghost predicate DeletesOnly(d: seq<Event>)
  {
    forall i :: 0 <= i < |d| ==> d[i].DeleteLocal?
  }

  /** Only forced syncs. */
  ghost predicate ForcedSyncsOnly(d: seq<Event>)
  {
    forall i :: 0 <= i < |d| ==> d[i].Remote? && d[i].request.Sync? && d[i].request.sync == ForceSyncOptions
  }

  /**
   * The lock-rejected filter keeps order and duplicates: it maps over a
   * concatenation piecewise and keeps a single result exactly when it is rejected.
   */
  lemma LockedResultsAppend(a: seq<FileResult>, b: seq<FileResult>)
    ensures LockedResults(a + b) == LockedResults(a) + LockedResults(b)
    ensures |a| == 1 ==> LockedResults(a) == if LockRejected(a[0]) then a else []
  {
    KeepWhereAppend(a, b, LockRejected);
    if |a| == 1 {
      KeepWhereOne(a[0], LockRejected);
      assert a == [a[0]];
    }
  }

  /** The lock-rejected filter keeps exactly the rejected results. */
  lemma LockedResultsMembers(rs: seq<FileResult>)
    ensures forall r :: r in LockedResults(rs) <==> r in rs && LockRejected(r)
  {
    KeepWhereMembers(rs, LockRejected);
  }

  lemma {:induction false} KeepWhereAppend(a: seq<FileResult>, b: seq<FileResult>, keep: FileResult -> bool)
    ensures KeepWhere(a + b, keep) == KeepWhere(a, keep) + KeepWhere(b, keep)
    decreases |a|
  {
    if |a| == 0 {
      assert a + b == b;
    } else {
      assert (a + b)[0] == a[0] && (a + b)[1..] == a[1..] + b;
      KeepWhereAppend(a[1..], b, keep);
    }
  }

  lemma KeepWhereOne(r: FileResult, keep: FileResult -> bool)
    ensures KeepWhere([r], keep) == if keep(r) then [r] else []
  {
    assert [r][1..] == [];
  }

  lemma {:induction false} KeepWhereMembers(rs: seq<FileResult>, keep: FileResult -> bool)
    ensures forall r :: r in KeepWhere(rs, keep) <==> r in rs && keep(r)
    decreases |rs|
  {
    if |rs| > 0 {
      KeepWhereMembers(rs[1..], keep);
      assert rs == [rs[0]] + rs[1..];
    }
  }

  /**
   * The verdict of the retries is true exactly when every forced sync's answer,
   * given the retries issued before it, passes the check.
   */
  lemma {:induction false} RetryVerdict(s: Session, h: seq<Event>, tokens: seq<string>)
    ensures var r := RetrySyncs(s, h, tokens);
      r.outcome.value <==> forall i :: 0 <= i < |tokens| ==>
        s.validate(s.respond(h + r.events[..i], Sync(Specs([tokens[i]]), ForceSyncOptions)), false, RestoreBenign)
    decreases |tokens|
  {
    if |tokens| > 0 {
      var req := Sync(Specs([tokens[0]]), ForceSyncOptions);
      var h' := h + [Remote(req)];
      var rest := RetrySyncs(s, h', tokens[1..]);
      RetryVerdict(s, h', tokens[1..]);
      var r := RetrySyncs(s, h, tokens);
      assert r.events == [Remote(req)] + rest.events;
      assert r.outcome.value == (s.validate(s.respond(h, req), false, RestoreBenign) && rest.outcome.value);
      RetryChecksCons(s, h, rest.events, tokens);
    }
  }

  /** The checks of a run of retries: the first one's, then the rest's after it. */
  lemma RetryChecksCons(s: Session, h: seq<Event>, rest: seq<Event>, tokens: seq<string>)
    requires |tokens| > 0 && |rest| == |tokens| - 1
    ensures var first := Remote(Sync(Specs([tokens[0]]), ForceSyncOptions));
      (forall i :: 0 <= i < |tokens| ==>
         s.validate(s.respond(h + ([first] + rest)[..i], Sync(Specs([tokens[i]]), ForceSyncOptions)), false, RestoreBenign))
      <==>
      (&& s.validate(s.respond(h, Sync(Specs([tokens[0]]), ForceSyncOptions)), false, RestoreBenign)
       && forall i :: 0 <= i < |tokens[1..]| ==>
            s.validate(s.respond(h + [first] + rest[..i], Sync(Specs([tokens[1..][i]]), ForceSyncOptions)), false, RestoreBenign))
  {
    var first := Remote(Sync(Specs([tokens[0]]), ForceSyncOptions));
    assert h + ([first] + rest)[..0] == h;
    forall i | 1 <= i < |tokens|
      ensures h + ([first] + rest)[..i] == h + [first] + rest[..i - 1] && tokens[i] == tokens[1..][i - 1]
    {
      assert ([first] + rest)[..i] == [first] + rest[..i - 1];
    }
  }

  /** How a `tidyReplace` run is assembled from its scan, its restoring sync and its retries. */
  lemma ReplaceParts(s: Session, h: seq<Event>)
    ensures var req := Reconcile([RootSpec(s.root)], ChangedOptions);
      var update := s.respond(h, req);
      var restored := Restore(s, h + [Remote(req)], update);
      var sc := ScanTokens(LockedResults(update));
      var retried := RetrySyncs(s, h + [Remote(req)] + restored.events, sc.tokens);
      var r := TidyReplace(s, h);
      && restored.outcome.Success? && retried.outcome.Success?
      && r.events == [Remote(req)] + restored.events + retried.events
      && (r.outcome.Failure? <==> sc.stray.Some?)
      && (r.outcome.Success? ==>
            (r.outcome.value <==>
               s.validate(update, false, ChangedBenign) && restored.outcome.value && retried.outcome.value))
  {
  }

  /**
   * `tidyReplace` force-syncs the reconciled list only when nothing blocks it, then
   * force-syncs the revision of each lock-rejected result, in order.
   */
  lemma ReplaceRetriesEachLockedRevision(s: Session, h: seq<Event>)
    ensures var update := s.respond(h, Reconcile([RootSpec(s.root)], ChangedOptions));
      var r := TidyReplace(s, h);
      var locked := LockedResults(update);
      var sc := ScanTokens(locked);
      var k := if s.validate(update, true, ChangedBlocking) then 2 else 1;
      && |r.events| == k + |sc.tokens|
      && r.events[0] == Remote(Reconcile([RootSpec(s.root)], ChangedOptions))
      && (k == 2 ==> r.events[1] == Remote(Sync(ResultSpecs(update), ForceSyncOptions)))
      && (forall i :: 0 <= i < |sc.tokens| ==>
            r.events[k + i] == Remote(Sync(Specs([RevisionToken(locked[i].message)]), ForceSyncOptions)))
  {
    var req := Reconcile([RootSpec(s.root)], ChangedOptions);
    var update := s.respond(h, req);
    var sc := ScanTokens(LockedResults(update));
    var restored := Restore(s, h + [Remote(req)], update);
    var retried := RetrySyncs(s, h + [Remote(req)] + restored.events, sc.tokens);
    ReplaceParts(s, h);
    RetriesLayout(TidyReplace(s, h).events, Remote(req), restored.events, retried.events, sc.tokens);
  }

  /** A scan, then the restoring sync if any, then one forced sync per token. */
  lemma RetriesLayout(e: seq<Event>, scan: Event, restored: seq<Event>, retried: seq<Event>, tokens: seq<string>)
    requires e == [scan] + restored + retried
    requires |retried| == |tokens|
    requires forall i :: 0 <= i < |tokens| ==> retried[i] == Remote(Sync(Specs([tokens[i]]), ForceSyncOptions))
    ensures |e| == 1 + |restored| + |tokens| && e[0] == scan
    ensures forall i :: 0 <= i < |restored| ==> e[1 + i] == restored[i]
    ensures forall i :: 0 <= i < |tokens| ==>
      e[1 + |restored| + i] == Remote(Sync(Specs([tokens[i]]), ForceSyncOptions))
  {
  }

  /**
   * `tidyReplace` raises exactly when some lock-rejected message lacks the
   * " - can't " marker, and reports success only if the changed-files scan passed.
   */
  lemma ReplaceRaisesOnMissingMarker(s: Session, h: seq<Event>)
    ensures var update := s.respond(h, Reconcile([RootSpec(s.root)], ChangedOptions));
      var r := TidyReplace(s, h);
      var locked := LockedResults(update);
      && (r.outcome.Failure? <==> exists l :: l in locked && !Contains(l.message, CantMarker))
      && (r.outcome == Success(true) ==> s.validate(update, false, ChangedBenign))
  {
  }

  /**
   * The deletions of two batches are those of the first, then those of the
   * second; a single result yields one deletion exactly when it is selected and
   * resolves to a local path, and none otherwise.
   */
  lemma DeletionsAppend(s: Session, a: seq<FileResult>, b: seq<FileResult>, abandonedOnly: bool)
    ensures Deletions(s, a + b, abandonedOnly) == Deletions(s, a, abandonedOnly) + Deletions(s, b, abandonedOnly)
    ensures |a| == 1 ==> Deletions(s, a, abandonedOnly) == DeletionOf(s, a[0], abandonedOnly)
  {
    DeletionsAsList(s, a + b, abandonedOnly);
    DeletionsAsList(s, a, abandonedOnly);
    DeletionsAsList(s, b, abandonedOnly);
    DeletionListAppend(s, a, b, abandonedOnly);
    if |a| == 1 {
      assert a[1..] == [];
    }
  }

  /** `Deletions` without its contract, so that proofs about it unfold cheaply. */
  function DeletionList(s: Session, rs: seq<FileResult>, abandonedOnly: bool): seq<Event>
  {
    if |rs| == 0 then [] else DeletionOf(s, rs[0], abandonedOnly) + DeletionList(s, rs[1..], abandonedOnly)
  }

  lemma {:induction false} DeletionsAsList(s: Session, rs: seq<FileResult>, abandonedOnly: bool)
    ensures Deletions(s, rs, abandonedOnly) == DeletionList(s, rs, abandonedOnly)
    decreases |rs|
  {
    if |rs| > 0 {
      DeletionsCons(s, rs, abandonedOnly);
      DeletionsAsList(s, rs[1..], abandonedOnly);
    }
  }

  lemma {:induction false} DeletionListAppend(s: Session, a: seq<FileResult>, b: seq<FileResult>, abandonedOnly: bool)
    ensures DeletionList(s, a + b, abandonedOnly) == DeletionList(s, a, abandonedOnly) + DeletionList(s, b, abandonedOnly)
    decreases |a|
  {
    if |a| == 0 {
      assert a + b == b;
    } else {
      assert (a + b)[0] == a[0] && (a + b)[1..] == a[1..] + b;
      DeletionListAppend(s, a[1..], b, abandonedOnly);
    }
  }

  /** The deletion one result contributes: its local path when selected and resolved. */
  function DeletionOf(s: Session, r: FileResult, abandonedOnly: bool): seq<Event>
  {
    if Selected(r, abandonedOnly) && LocalPath(s, r).Some? then [DeleteLocal(LocalPath(s, r).value)] else []
  }

  lemma DeletionsCons(s: Session, rs: seq<FileResult>, abandonedOnly: bool)
    requires |rs| > 0
    ensures Deletions(s, rs, abandonedOnly) == DeletionOf(s, rs[0], abandonedOnly) + Deletions(s, rs[1..], abandonedOnly)
  {
  }

  /**
   * `tidyPending` reverts first, then deletes the local file of each abandoned
   * result that resolves to one; its verdict is the revert's check.
   */
  lemma PendingShape(s: Session, h: seq<Event>)
    ensures var answers := s.respond(h, Revert([RootSpec(s.root)], false));
      var r := TidyPending(s, h);
      && |r.events| > 0 && r.events[0] == Remote(Revert([RootSpec(s.root)], false)) && DeletesOnly(r.events[1..])
      && r.events[1..] == Deletions(s, answers, true)
      && r.outcome == Success(s.validate(answers, false, PendingBenign))
  {
    var answers := s.respond(h, Revert([RootSpec(s.root)], false));
    assert TidyPending(s, h).events[1..] == Deletions(s, answers, true);
  }

  /**
   * `tidyDelete` scans for extra files first, then deletes the local file of every
   * result that resolves to one; its verdict is the scan's check.
   */
  lemma DeleteShape(s: Session, h: seq<Event>)
    ensures var extra := s.respond(h, Reconcile([RootSpec(s.root)], ExtraOptions));
      var r := TidyDelete(s, h);
      && |r.events| > 0 && r.events[0] == Remote(Reconcile([RootSpec(s.root)], ExtraOptions)) && DeletesOnly(r.events[1..])
      && r.events[1..] == Deletions(s, extra, false)
      && r.outcome == Success(s.validate(extra, false, ExtraBenign))
  {
    var extra := s.respond(h, Reconcile([RootSpec(s.root)], ExtraOptions));
    assert TidyDelete(s, h).events[1..] == Deletions(s, extra, false);
  }

  /** `tidyReplace` scans for changed files first, then only force-syncs. */
  lemma ReplaceShape(s: Session, h: seq<Event>)
    ensures var e := TidyReplace(s, h).events;
      |e| > 0 && e[0] == Remote(Reconcile([RootSpec(s.root)], ChangedOptions)) && ForcedSyncsOnly(e[1..])
  {
    var req := Reconcile([RootSpec(s.root)], ChangedOptions);
    var update := s.respond(h, req);
    var restored := Restore(s, h + [Remote(req)], update);
    var retried := RetrySyncs(s, h + [Remote(req)] + restored.events, ScanTokens(LockedResults(update)).tokens);
    ReplaceParts(s, h);
    ScanThenForcedSyncs(TidyReplace(s, h).events, Remote(req), restored.events, retried.events);
  }

  lemma ScanThenForcedSyncs(e: seq<Event>, scan: Event, a: seq<Event>, b: seq<Event>)
    requires e == [scan] + a + b
    requires ForcedSyncsOnly(a) && ForcedSyncsOnly(b)
    ensures |e| > 0 && e[0] == scan && ForcedSyncsOnly(e[1..])
  {
    assert e[1..] == a + b;
    assert forall i :: |a| <= i < |a + b| ==> (a + b)[i] == b[i - |a|];
  }

  /** An AutoClean run is its three steps' runs, each issued after the ones before. */
  lemma AutoCleanParts(s: Session, h: seq<Event>, p: Populate)
    requires p.AutoClean?
    ensures var pending := TidyPending(s, h);
      var extra := if p.delete then TidyDelete(s, h + pending.events) else Idle;
      var changed := if p.replace then TidyReplace(s, h + pending.events + extra.events) else Idle;
      TidyWorkspace(s, h, p) == pending.Then(extra).Then(changed)
  {
  }

  /** The order an AutoClean trace keeps; see `AutoCleanOrder`. */
  ghost predicate AutoCleanOrdered(e: seq<Event>, root: string, delete: bool, replace: bool)
  {
    var extraScan := Remote(Reconcile([RootSpec(root)], ExtraOptions));
    var changedScan := Remote(Reconcile([RootSpec(root)], ChangedOptions));
    && |e| > 0 && e[0] == Remote(Revert([RootSpec(root)], false))
    && (forall i :: 0 < i < |e| ==> !(e[i].Remote? && e[i].request.Revert?))
    && (forall i :: 0 <= i < |e| ==> !e[i].RemoveTree? && !e[i].PrintRevision?)
    && (delete <==> exists i :: 0 <= i < |e| && e[i] == extraScan)
    && (replace <==> exists i :: 0 <= i < |e| && e[i] == changedScan)
    && (forall i, j :: 0 <= i < |e| && 0 <= j < |e| && e[i] == extraScan && e[j] == changedScan ==> i < j)
    && (forall i, j :: 0 <= i < |e| && 0 <= j < |e| && e[i].DeleteLocal? && e[j].Remote? && e[j].request.Sync? ==> i < j)
  }

  /** The ordering facts follow from the shape of the three segments alone. */
  lemma SegmentsOrdered(a: seq<Event>, b: seq<Event>, c: seq<Event>, root: string, delete: bool, replace: bool)
    requires |a| > 0 && a[0] == Remote(Revert([RootSpec(root)], false)) && DeletesOnly(a[1..])
    requires delete ==> |b| > 0 && b[0] == Remote(Reconcile([RootSpec(root)], ExtraOptions)) && DeletesOnly(b[1..])
    requires !delete ==> b == []
    requires replace ==> |c| > 0 && c[0] == Remote(Reconcile([RootSpec(root)], ChangedOptions)) && ForcedSyncsOnly(c[1..])
    requires !replace ==> c == []
    ensures AutoCleanOrdered(a + b + c, root, delete, replace)
  {
    SegmentKinds(a, b, c, root, delete, replace);
    SegmentScans(a, b, c, root, delete, replace);
    SegmentDeletesFirst(a, b, c, root, delete, replace);
  }

  /** Where each event of `a + b + c` comes from. */
  lemma Locate(a: seq<Event>, b: seq<Event>, c: seq<Event>)
    ensures forall i :: 0 <= i < |a| ==> (a + b + c)[i] == a[i]
    ensures forall i :: |a| <= i < |a| + |b| ==> (a + b + c)[i] == b[i - |a|]
    ensures forall i :: |a| + |b| <= i < |a| + |b| + |c| ==> (a + b + c)[i] == c[i - |a| - |b|]
  {
  }

  /** Past its head, a segment is its tail. */
  lemma TailIndex(a: seq<Event>)
    ensures forall i :: 1 <= i < |a| ==> a[i] == a[1..][i - 1]
  {
  }

  lemma SegmentKinds(a: seq<Event>, b: seq<Event>, c: seq<Event>, root: string, delete: bool, replace: bool)
    requires |a| > 0 && a[0] == Remote(Revert([RootSpec(root)], false)) && DeletesOnly(a[1..])
    requires delete ==> |b| > 0 && b[0] == Remote(Reconcile([RootSpec(root)], ExtraOptions)) && DeletesOnly(b[1..])
    requires !delete ==> b == []
    requires replace ==> |c| > 0 && c[0] == Remote(Reconcile([RootSpec(root)], ChangedOptions)) && ForcedSyncsOnly(c[1..])
    requires !replace ==> c == []
    ensures var e := a + b + c;
      && |e| > 0 && e[0] == Remote(Revert([RootSpec(root)], false))
      && (forall i :: 0 < i < |e| ==> !(e[i].Remote? && e[i].request.Revert?))
      && (forall i :: 0 <= i < |e| ==> !e[i].RemoveTree? && !e[i].PrintRevision?)
  {
    TailIndex(a);
    TailIndex(b);
    TailIndex(c);
    Locate(a, b, c);
  }

  lemma SegmentScans(a: seq<Event>, b: seq<Event>, c: seq<Event>, root: string, delete: bool, replace: bool)
    requires |a| > 0 && a[0] == Remote(Revert([RootSpec(root)], false)) && DeletesOnly(a[1..])
    requires delete ==> |b| > 0 && b[0] == Remote(Reconcile([RootSpec(root)], ExtraOptions)) && DeletesOnly(b[1..])
    requires !delete ==> b == []
    requires replace ==> |c| > 0 && c[0] == Remote(Reconcile([RootSpec(root)], ChangedOptions)) && ForcedSyncsOnly(c[1..])
    requires !replace ==> c == []
    ensures var e := a + b + c;
      var extraScan := Remote(Reconcile([RootSpec(root)], ExtraOptions));
      var changedScan := Remote(Reconcile([RootSpec(root)], ChangedOptions));
      && (delete <==> exists i :: 0 <= i < |e| && e[i] == extraScan)
      && (replace <==> exists i :: 0 <= i < |e| && e[i] == changedScan)
      && (forall i, j :: 0 <= i < |e| && 0 <= j < |e| && e[i] == extraScan && e[j] == changedScan ==> i < j)
  {
    TailIndex(a);
    TailIndex(b);
    TailIndex(c);
    Locate(a, b, c);
    if delete {
      assert (a + b + c)[|a|] == b[0];
    }
    if replace {
      assert (a + b + c)[|a| + |b|] == c[0];
    }
  }

  lemma SegmentDeletesFirst(a: seq<Event>, b: seq<Event>, c: seq<Event>, root: string, delete: bool, replace: bool)
    requires |a| > 0 && a[0] == Remote(Revert([RootSpec(root)], false)) && DeletesOnly(a[1..])
    requires delete ==> |b| > 0 && b[0] == Remote(Reconcile([RootSpec(root)], ExtraOptions)) && DeletesOnly(b[1..])
    requires !delete ==> b == []
    requires replace ==> |c| > 0 && c[0] == Remote(Reconcile([RootSpec(root)], ChangedOptions)) && ForcedSyncsOnly(c[1..])
    requires !replace ==> c == []
    ensures var e := a + b + c;
      forall i, j :: 0 <= i < |e| && 0 <= j < |e| && e[i].DeleteLocal? && e[j].Remote? && e[j].request.Sync? ==> i < j
  {
    TailIndex(a);
    TailIndex(b);
    TailIndex(c);
    Locate(a, b, c);
  }

  /**
   * AutoClean runs revert first and only once, the delete-extras scan exactly when
   * `delete` is set, the changed-files scan exactly when `replace` is set and after
   * the delete-extras scan, deletes every local file before any restoring sync,
   * and never removes the workspace root.
   */
  lemma AutoCleanOrder(s: Session, h: seq<Event>, p: Populate)
    requires p.AutoClean?
    ensures AutoCleanOrdered(TidyWorkspace(s, h, p).events, s.root, p.delete, p.replace)
  {
    var pending := TidyPending(s, h);
    var extra := if p.delete then TidyDelete(s, h + pending.events) else Idle;
    var changed := if p.replace then TidyReplace(s, h + pending.events + extra.events) else Idle;
    AutoCleanParts(s, h, p);
    PendingShape(s, h);
    if p.delete {
      DeleteShape(s, h + pending.events);
    }
    if p.replace {
      ReplaceShape(s, h + pending.events + extra.events);
    }
    assert TidyWorkspace(s, h, p).events == pending.events + extra.events + changed.events;
    SegmentsOrdered(pending.events, extra.events, changed.events, s.root, p.delete, p.replace);
  }

  /** The AutoClean verdict is the conjunction of the verdicts of the steps that ran. */
  lemma AutoCleanVerdict(s: Session, h: seq<Event>, p: Populate)
    requires p.AutoClean?
    ensures var revertAnswers := s.respond(h, Revert([RootSpec(s.root)], false));
      var pending := TidyPending(s, h);
      var extraAnswers := s.respond(h + pending.events, Reconcile([RootSpec(s.root)], ExtraOptions));
      var extra := if p.delete then TidyDelete(s, h + pending.events) else Idle;
      var changed := TidyReplace(s, h + pending.events + extra.events);
      var r := TidyWorkspace(s, h, p);
      && (r.outcome.Failure? ==> p.replace && r.outcome == changed.outcome)
      && (r.outcome.Success? <==> !p.replace || changed.outcome.Success?)
      && (r.outcome.Success? ==>
            (r.outcome.value <==>
               && s.validate(revertAnswers, false, PendingBenign)
               && (p.delete ==> s.validate(extraAnswers, false, ExtraBenign))
               && (p.replace ==> changed.outcome.value)))
  {
  }

  /** ForceClean syncs the workspace to change 0 with the strategy's flags, then removes the root. */
  lemma ForceCleanWipes(s: Session, h: seq<Event>, p: Populate)
    requires p.ForceClean?
    ensures var req := Sync(Specs([s.root + "/...@0"]), SyncOptionsFor(p));
      var r := TidyWorkspace(s, h, p);
      && r.events == [Remote(req), RemoveTree(s.root)]
      && r.outcome == Success(s.validate(s.respond(h, req), false, SyncBenign))
  {
    assert IntToString(0) == "0";
    assert ChangeSpec(s.root, 0) == s.root + "/...@0";
  }

  /** A strategy that is neither AutoClean nor ForceClean issues nothing and succeeds. */
  lemma OtherPopulateIsIdle(s: Session, h: seq<Event>, p: Populate)
    requires p.OtherPopulate?
    ensures TidyWorkspace(s, h, p).events == []
    ensures TidyWorkspace(s, h, p).outcome == Success(true)
  {
  }

  // ---------------------------------------------------------------------------
  // No short-circuit: verdicts never steer which operations run
  // ---------------------------------------------------------------------------

  /** Two sessions that differ only in `validate`, agreeing on its second mode. */
  ghost predicate SameButVerdicts(s: Session, s': Session)
  {
    && s'.root == s.root
    && s'.respond == s.respond
    && s'.where == s.where
    && forall rs, pats :: s.validate(rs, true, pats) == s'.validate(rs, true, pats)
  }

  lemma {:induction false} DeletionsIgnoreVerdicts(s: Session, s': Session, rs: seq<FileResult>, abandonedOnly: bool)
    requires SameButVerdicts(s, s')
    ensures Deletions(s, rs, abandonedOnly) == Deletions(s', rs, abandonedOnly)
    decreases |rs|
  {
    if |rs| > 0 {
      DeletionsIgnoreVerdicts(s, s', rs[1..], abandonedOnly);
    }
  }

  lemma PendingIgnoresVerdicts(s: Session, s': Session, h: seq<Event>)
    requires SameButVerdicts(s, s')
    ensures TidyPending(s, h).events == TidyPending(s', h).events
  {
    DeletionsIgnoreVerdicts(s, s', s.respond(h, Revert([RootSpec(s.root)], false)), true);
  }

  lemma DeleteIgnoresVerdicts(s: Session, s': Session, h: seq<Event>)
    requires SameButVerdicts(s, s')
    ensures TidyDelete(s, h).events == TidyDelete(s', h).events
  {
    DeletionsIgnoreVerdicts(s, s', s.respond(h, Reconcile([RootSpec(s.root)], ExtraOptions)), false);
  }

  lemma ReplaceIgnoresVerdicts(s: Session, s': Session, h: seq<Event>)
    requires SameButVerdicts(s, s')
    ensures TidyReplace(s, h).events == TidyReplace(s', h).events
    ensures TidyReplace(s, h).outcome.Failure? <==> TidyReplace(s', h).outcome.Failure?
  {
    var req := Reconcile([RootSpec(s.root)], ChangedOptions);
    var update := s.respond(h, req);
    var tokens := ScanTokens(LockedResults(update)).tokens;
    var restored := Restore(s, h + [Remote(req)], update);
    assert restored.events == Restore(s', h + [Remote(req)], update).events;
    var h' := h + [Remote(req)] + restored.events;
    assert RetrySyncs(s, h', tokens).events == RetrySyncs(s', h', tokens).events;
    ReplaceParts(s, h);
    ReplaceParts(s', h);
  }

  /**
   * The operations `tidyWorkspace` issues do not depend on any verdict of
   * `validateFileSpecs` except the blocking check that guards the restoring sync.
   */
  lemma TidyTraceIgnoresVerdicts(s: Session, s': Session, h: seq<Event>, p: Populate)
    requires SameButVerdicts(s, s')
    ensures TidyWorkspace(s, h, p).events == TidyWorkspace(s', h, p).events
    ensures TidyWorkspace(s, h, p).outcome.Failure? <==> TidyWorkspace(s', h, p).outcome.Failure?
  {
    if p.AutoClean? {
      AutoCleanParts(s, h, p);
      AutoCleanParts(s', h, p);
      PendingIgnoresVerdicts(s, s', h);
      var pending := TidyPending(s, h).events;
      if p.delete {
        DeleteIgnoresVerdicts(s, s', h + pending);
      }
      var extra := if p.delete then TidyDelete(s, h + pending).events else [];
      if p.replace {
        ReplaceIgnoresVerdicts(s, s', h + pending + extra);
      }
    }
  }

  // ---------------------------------------------------------------------------
  // unshelveFiles
  // ---------------------------------------------------------------------------

  /**
   * `unshelveFiles` syncs to head, unshelves the review with forced overwrite into
   * the default change, then prints each lock-rejected revision to its local path.
   * The first revision `p4 where` does not map raises, and so does a lock-rejected
   * message without the marker once every revision before it is printed; only
   * when neither happens does the revert keeping content run. The verdict is the
   * conjunction of the three checks and the prints contribute nothing to it.
   */
  lemma UnshelveSequence(s: Session, h: seq<Event>, review: int)
    ensures var head := Sync(Specs([RootSpec(s.root)]), DefaultSyncOptions);
      var unshelve := Unshelve(review, [RootSpec(s.root)], 0, true, false);
      var shelved := s.respond(h + [Remote(head)], unshelve);
      var checks := s.validate(s.respond(h, head), false, HeadBenign) && s.validate(shelved, false, UnshelveBenign);
      UnshelveShape(s, h, Remote(head), Remote(unshelve), checks, ScanTokens(LockedResults(shelved)), UnshelveFiles(s, h, review))
  {
    var head := Sync(Specs([RootSpec(s.root)]), DefaultSyncOptions);
    var unshelve := Unshelve(review, [RootSpec(s.root)], 0, true, false);
    var shelved := s.respond(h + [Remote(head)], unshelve);
    var checks := s.validate(s.respond(h, head), false, HeadBenign) && s.validate(shelved, false, UnshelveBenign);
    UnshelveParts(s, h, review);
    PrintAndRevertLayout(s, h, Remote(head), Remote(unshelve), checks, ScanTokens(LockedResults(shelved)));
  }

  /**
   * The run `r` starts with the requests `first` and `second`, whose verdict is
   * `ok`, and prints the scanned revisions to their local paths in order. The
   * first unmapped revision raises. With every revision mapped, a stray message
   * raises, and otherwise the revert keeping content runs last.
   */
  ghost predicate UnshelveShape(s: Session, h: seq<Event>, first: Event, second: Event, ok: bool, scan: Scan, r: Run)
  {
    var revert := Revert([RootSpec(s.root)], true);
    var mapped := forall k :: 0 <= k < |scan.tokens| ==> s.where(scan.tokens[k]).Some?;
    && 2 <= |r.events|
    && r.events[0] == first && r.events[1] == second
    && (forall i :: 0 <= i < |scan.tokens| && 2 + i < |r.events| ==>
          s.where(scan.tokens[i]).Some? && r.events[2 + i] == PrintRevision(scan.tokens[i], s.where(scan.tokens[i]).value))
    && (!mapped ==>
          && |r.events| < 2 + |scan.tokens|
          && s.where(scan.tokens[|r.events| - 2]).None?
          && r.outcome == Failure(UnmappedRevision(scan.tokens[|r.events| - 2])))
    && (mapped && scan.stray.Some? ==>
          |r.events| == 2 + |scan.tokens| && r.outcome == Failure(MissingCantMarker(scan.stray.value)))
    && (mapped && scan.stray.None? ==>
          && |r.events| == 3 + |scan.tokens|
          && r.events[2 + |scan.tokens|] == Remote(revert)
          && r.outcome == Success(ok && s.validate(s.respond(h + r.events[..2 + |scan.tokens|], revert), false, KeepRevertBenign)))
  }

  /** An `unshelveFiles` run is its two checked requests, then the prints and the revert. */
  lemma UnshelveParts(s: Session, h: seq<Event>, review: int)
    ensures var head := Sync(Specs([RootSpec(s.root)]), DefaultSyncOptions);
      var unshelve := Unshelve(review, [RootSpec(s.root)], 0, true, false);
      var shelved := s.respond(h + [Remote(head)], unshelve);
      var checks := s.validate(s.respond(h, head), false, HeadBenign) && s.validate(shelved, false, UnshelveBenign);
      UnshelveFiles(s, h, review) ==
        PrintAndRevert(s, h, Run([Remote(head), Remote(unshelve)], Success(checks)), ScanTokens(LockedResults(shelved)))
  {
    var head := Sync(Specs([RootSpec(s.root)]), DefaultSyncOptions);
    var unshelve := Unshelve(review, [RootSpec(s.root)], 0, true, false);
    var headRun := Checked(s, h, head, HeadBenign);
    assert headRun.events == [Remote(head)];
    var shelved := s.respond(h + headRun.events, unshelve);
    var unshelved := Run([Remote(unshelve)], Success(s.validate(shelved, false, UnshelveBenign)));
    assert headRun.Then(unshelved).events == [Remote(head), Remote(unshelve)];
  }

  /**
   * After two requests whose verdict is `ok`, the prints come in token order up
   * to the first unmapped revision, which raises; with every revision mapped, a
   * stray message raises, and otherwise the revert keeping content runs last.
   */
  lemma PrintAndRevertLayout(s: Session, h: seq<Event>, first: Event, second: Event, ok: bool, scan: Scan)
    ensures UnshelveShape(s, h, first, second, ok, scan, PrintAndRevert(s, h, Run([first, second], Success(ok)), scan))
  {
    var pr := PrintFiles(s, scan.tokens);
    var prefix := [first, second] + pr.events;
    PrefixLayout(prefix, first, second, pr.events, Remote(Revert([RootSpec(s.root)], true)));
    if pr.outcome.Failure? {
      assert s.where(scan.tokens[|pr.events|]).None?;
    } else {
      assert |pr.events| == |scan.tokens|;
    }
  }

  /** Two requests, then some events, then possibly one more event. */
  lemma PrefixLayout(prefix: seq<Event>, first: Event, second: Event, middle: seq<Event>, last: Event)
    requires prefix == [first, second] + middle
    ensures |prefix| == 2 + |middle| && prefix[0] == first && prefix[1] == second
    ensures forall i :: 0 <= i < |middle| ==> prefix[2 + i] == middle[i]
    ensures |prefix + [last]| == 3 + |middle| && (prefix + [last])[2 + |middle|] == last
    ensures (prefix + [last])[..2 + |middle|] == prefix
  {
  }
}
