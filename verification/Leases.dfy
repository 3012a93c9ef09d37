/**
 File leases over whole runs: a put is granted only when every lease granted on the path since its
 last commit or removal has run out, whatever else happened in between.
 */
module Leases {
  import opened Metadata
  import opened Namenode
  import opened Batches
  import opened NamenodeRuns

  /** The request asks for, or extends, a lease on `p`. */
  ghost predicate Grants(req: Request, p: Path) {
    match req
    case PutReq(q, _) => q == p
    case LockReq(q) => q == p
    case PutBatchReq(puts) => InPuts(puts, p)
    case _ => false
  }

  /**
   The request ends the upload of `p`, or removes `p`. A batch commit does not end the upload of a file
   that is the parent of another committed file: the parent record, written last, restores the lock.
   */
  ghost predicate Ends(req: Request, p: Path) {
    match req
    case PutOkReq(q, _, _) => q == p
    case RmReq(q) => q == p
    case PutOkBatchReq(commits, _) => InCommits(commits, p) && !HasChild(commits, p)
    case _ => false
  }

  /** The times of the leases granted on `p` since its last commit or removal. */
  ghost function LeaseTimes(t: seq<Event>, p: Path): (r: seq<nat>)
    requires GoodTrace(t)
  {
    if t == [] then [] else
      var n := |t| - 1;
      var before := LeaseTimes(t[..n], p);
      if !Served(StoreAfter(t[..n]), t[n]) then before
      else if Grants(t[n].req, p) then before + [t[n].now]
      else if Ends(t[n].req, p) then []
      else before
  }

  /** Clock readings never go back. */
  ghost predicate ClockOk(t: seq<Event>) {
    forall i, j :: 0 <= i < j < |t| ==> t[i].now <= t[j].now
  }

  // What one served request does to the lock field of one path.

  lemma WriteAt(db: Store, p: Path, sub: seq<string>, x: Inode, q: Path)
    requires KeysOk(db) && p != [] && x.fullpath == p && ParentKnown(db, p)
    ensures var y := GetInode(WithParent(db, p, sub, x), q);
      y == if q == p then x else if q == Parent(p) then GetInode(db, q).(sub := sub) else GetInode(db, q)
  {
  }

  lemma PutBatchLock(db: Store, now: nat, puts: seq<PutItem>, p: Path)
    requires KeysOk(db) && PreparePuts(db, now, puts).Ok?
    ensures var x, y := GetInode(db, p), GetInode(ApplyPutBatch(db, PreparePuts(db, now, puts).value), p);
      if InPuts(puts, p) then x.ddlLock < now && y.ddlLock == now + LOCK_REFRESH_INTERVAL && y.valid
      else y == x
  {
    hide PreparePuts, ApplyPutBatch, GetInode, InPuts, KeysOk, LastPut;
    PutBatchRecord(db, now, puts, p);
  }

  lemma PutOkBatchLock(db: Store, commits: seq<CommitItem>, aggId: string, p: Path)
    requires KeysOk(db) && GoodCommits(commits) && PrepareCommits(db, commits, aggId).Ok?
    ensures var xs := PrepareCommits(db, commits, aggId).value;
      NonRoot(xs) &&
      var x, y := GetInode(db, p), GetInode(db + BatchFiles(db, xs) + BatchParents(db, xs), p);
      y.ddlLock == (if InCommits(commits, p) && !HasChild(commits, p) then 0 else x.ddlLock) && y.valid == x.valid
  {
    PutOkBatchRecord(db, commits, aggId, p);
    hide PrepareCommits, BatchFiles, BatchParents, GetInode, KeysOk, HasChild, InCommits;
  }

  lemma BatchLockEffect(db: Store, now: nat, req: Request, p: Path)
    requires KeysOk(db) && GoodRequest(req) && Handle(db, now, req).Ok? && (req.PutBatchReq? || req.PutOkBatchReq?)
    ensures var x, y := GetInode(db, p), GetInode(Handle(db, now, req).value, p);
      if Grants(req, p) then y.ddlLock == now + LOCK_REFRESH_INTERVAL && y.valid && x.ddlLock < now
      else if Ends(req, p) then y.ddlLock == 0
      else y.ddlLock == x.ddlLock && y.valid == x.valid
  {
    hide Handle, PreparePuts, PrepareCommits, ApplyPutBatch, BatchFiles, BatchParents, GetInode, KeysOk, InPuts,
      InCommits, HasChild;
    match req {
      case PutBatchReq(puts) =>
        ServedPuts(db, now, puts);
        PutBatchLock(db, now, puts, p);
      case PutOkBatchReq(commits, aggId) =>
        ServedCommits(db, now, commits, aggId);
        PutOkBatchLock(db, commits, aggId, p);
    }
  }

  /** A served request, seen from one path: grant, end, a fresh directory, or no change. */
  lemma LockEffect(db: Store, now: nat, req: Request, p: Path)
    requires KeysOk(db) && GoodRequest(req) && Handle(db, now, req).Ok?
    ensures var x, y := GetInode(db, p), GetInode(Handle(db, now, req).value, p);
      if Grants(req, p) then
        y.ddlLock == now + LOCK_REFRESH_INTERVAL && y.valid && (!req.LockReq? ==> x.ddlLock < now)
      else if Ends(req, p) then
        y.ddlLock == 0
      else
        (y.ddlLock == x.ddlLock && (x.valid ==> y.valid)) || (!x.valid && y.ddlLock == 0)
  {
    match req {
      case MkdirReq(q) => WriteAt(db, q, AddName(ParentSub(db, q), FileName(DefaultDir(q))), DefaultDir(q), p);
      case RmReq(q) =>
        var n := FileName(Absent(q));
        WriteAt(db, q, EraseName(EraseName(ParentSub(db, q), n), n + "/"), Absent(q), p);
      case PutOkReq(q, sub, filesize) =>
        var x := PreparePutOk(db, q, sub, filesize).value;
        WriteAt(db, q, AddName(ParentSub(db, q), FileName(x)), Committed(GetInode(db, q), x), p);
      case PutBatchReq(_) => hide *; BatchLockEffect(db, now, req, p);
      case PutOkBatchReq(_, _) => hide *; BatchLockEffect(db, now, req, p);
      case _ =>
    }
  }

  // Over whole runs.

  /** While a lease is out its path is live, and the lock field outlasts the lease. */
  ghost predicate LeaseInv(db: Store, times: seq<nat>, p: Path) {
    && (times != [] ==> GetInode(db, p).valid)
    && forall k :: 0 <= k < |times| ==> times[k] + LOCK_REFRESH_INTERVAL <= GetInode(db, p).ddlLock
  }

  lemma {:induction false} RunLeases(t: seq<Event>, p: Path)
    requires GoodTrace(t) && ClockOk(t)
    ensures LeaseInv(StoreAfter(t), LeaseTimes(t, p), p)
    ensures forall k :: 0 <= k < |LeaseTimes(t, p)| ==> t != [] && LeaseTimes(t, p)[k] <= t[|t| - 1].now
  {
    if t != [] {
      var n := |t| - 1;
      RunLeases(t[..n], p);
      var db := StoreAfter(t[..n]);
      assert n > 0 ==> t[n - 1].now <= t[n].now;
      hide Handle;
      if Served(db, t[n]) {
        LockEffect(db, t[n].now, t[n].req, p);
      }
    }
  }

  /** A put, alone or in a batch, is served only when every lease on its path has run out. */
  lemma LeaseExclusion(t: seq<Event>, e: Event, p: Path)
    requires GoodTrace(t) && ClockOk(t) && GoodRequest(e.req)
    requires Grants(e.req, p) && !e.req.LockReq? && Served(StoreAfter(t), e)
    ensures forall k :: 0 <= k < |LeaseTimes(t, p)| ==> LeaseTimes(t, p)[k] + LOCK_REFRESH_INTERVAL < e.now
  {
    RunLeases(t, p);
    LockEffect(StoreAfter(t), e.now, e.req, p);
  }

  /** The lock field is the last lease's end, or zero when none is out. */
  ghost predicate LeaseExact(db: Store, times: seq<nat>, p: Path) {
    GetInode(db, p).ddlLock == if times == [] then 0 else times[|times| - 1] + LOCK_REFRESH_INTERVAL
  }

  lemma LeaseSnoc(t: seq<Event>, p: Path)
    requires GoodTrace(t) && t != []
    requires var s := t[..|t| - 1];
      LeaseInv(StoreAfter(s), LeaseTimes(s, p), p) && LeaseExact(StoreAfter(s), LeaseTimes(s, p), p)
    ensures LeaseExact(StoreAfter(t), LeaseTimes(t, p), p)
  {
    hide Handle, Grants, Ends, KeysOk, GetInode;
    var s, e := t[..|t| - 1], t[|t| - 1];
    if Served(StoreAfter(s), e) {
      LockEffect(StoreAfter(s), e.now, e.req, p);
    }
  }

  lemma {:induction false} RunLeasesExact(t: seq<Event>, p: Path)
    requires GoodTrace(t) && ClockOk(t)
    ensures LeaseExact(StoreAfter(t), LeaseTimes(t, p), p)
  {
    if t != [] {
      var n := |t| - 1;
      assert ClockOk(t[..n]);
      hide ClockOk, LeaseTimes, StoreAfter, LeaseExact, LeaseInv;
      RunLeasesExact(t[..n], p);
      RunLeases(t[..n], p);
      LeaseSnoc(t, p);
    }
  }

  /** Over every run the leases alone decide whether a put on a path that is no directory is served. */
  lemma LeasesDecide(t: seq<Event>, now: nat, p: Path, storageType: ParsedType)
    requires GoodTrace(t) && ClockOk(t) && GoodPath(p)
    requires t != [] ==> t[|t| - 1].now <= now
    ensures var inode := GetInode(StoreAfter(t), p);
      Served(StoreAfter(t), Event(now, PutReq(p, storageType))) <==>
      && 0 < now && storageType.Some? && !(inode.valid && inode.isDirectory)
      && forall k :: 0 <= k < |LeaseTimes(t, p)| ==> LeaseTimes(t, p)[k] + LOCK_REFRESH_INTERVAL < now
  {
    var times := LeaseTimes(t, p);
    RunLeases(t, p);
    RunLeasesExact(t, p);
    if times != [] {
      assert times[|times| - 1] in times;
    }
    hide LeaseTimes, StoreAfter;
  }
}
