/**
 A reachable store in which a batch commit differs from its files committed one by one.
 */
module NestedCommits {
  import opened Metadata
  import opened BatchCommit
  import opened Namenode
  import opened NamenodeRuns
  import opened FileRecords

  lemma PutAt(t: seq<Event>, now: nat, p: Path, st: ParsedType)
    requires GoodTrace(t) && GoodPath(p) && st.Some? && GetInode(StoreAfter(t), p) == Absent(p) && 0 < now
    ensures var t' := t + [Event(now, PutReq(p, st))];
      GoodTrace(t') && StoreAfter(t') ==
        StoreAfter(t)[p := Absent(p).(valid := true, ddlLock := now + LOCK_REFRESH_INTERVAL, storageType := st)]
  {
    Snoc(t, Event(now, PutReq(p, st)));
    PutIsServed(StoreAfter(t), now, p, st);
    hide StoreAfter;
  }

  /**
   After put /a and put /a/b the batch commit of both passes its checks with both files under lease, and
   it leaves /a locked and without its block list, which no commit one by one does.
   */
  lemma NestedBatchDiffers(st: ParsedType, a: CommitItem, b: CommitItem, aggId: string)
    requires st.Some? && a.path == ["a"] && b.path == ["a", "b"] && a.range.Some? && b.range.Some?
    ensures var t := [Event(1, PutReq(["a"], st)), Event(1, PutReq(["a", "b"], st))];
      GoodTrace(t) &&
      var db, xs := StoreAfter(t), PrepareCommits(StoreAfter(t), [a, b], aggId);
      && xs.Ok? && NonRoot(xs.value) && AllParentsKnown(db, xs.value) && AllLeased(db, xs.value)
      && OneAggregate(xs.value) && ApplyPutOkBatch(db, xs.value).Ok?
      && ApplyPutOkBatch(db, xs.value) != FoldPutOk(db, xs.value)
  {
    var pa: Path, pb: Path := ["a"], ["a", "b"];
    var put, put' := Event(1, PutReq(pa, st)), Event(1, PutReq(pb, st));
    assert StoreAfter([]) == map[];
    PutAt([], 1, pa, st);
    assert [] + [put] == [put];
    PutAt([put], 1, pb, st);
    assert [put] + [put'] == [put, put'];
    var db := StoreAfter([put, put']);
    hide StoreAfter;
    NestedBatch(db, a, b, aggId);
  }

  lemma NestedBatch(db: Store, a: CommitItem, b: CommitItem, aggId: string)
    requires KeysOk(db) && a.path != [] && b.path != [] && a.path == Parent(b.path)
    requires PrepareCommit(db, a, aggId).Ok? && PrepareCommit(db, b, aggId).Ok?
    requires ParentKnown(db, a.path) && ParentKnown(db, b.path)
    requires GetInode(db, a.path).ddlLock != 0 && GetInode(db, b.path).ddlLock != 0
    ensures var xs := PrepareCommits(db, [a, b], aggId);
      && xs.Ok? && NonRoot(xs.value) && AllParentsKnown(db, xs.value) && AllLeased(db, xs.value)
      && OneAggregate(xs.value) && ApplyPutOkBatch(db, xs.value).Ok?
      && ApplyPutOkBatch(db, xs.value) != FoldPutOk(db, xs.value)
  {
    hide PrepareCommits;
    var commits := [a, b];
    assert commits[0] == a && commits[1] == b;
    var xs := PrepareCommits(db, commits, aggId).value;
    assert xs[0].fullpath == a.path && xs[1].fullpath == b.path;
    hide PrepareCommit, FoldPutOk, BatchFiles, BatchParents;
    assert !NoneIsParent(xs);
    BatchIsFoldExactly(db, xs);
  }
}
