/**
 Which requests the namenode serves, and how it refuses the others, told from the history of the run alone:
 what each path was last made, which leases are out on it, and whether a record of it was ever written.
 */
module Decisions {
  import opened Options
  import opened Metadata
  import opened Namenode
  import opened Batches
  import opened NamenodeRuns
  import opened Leases

  // What the history says.

  /** The request makes `q` a directory or a file, and so writes a record of it. */
  ghost predicate Makes(req: Request, q: Path) {
    match req
    case MkdirReq(p) => p == q
    case PutReq(p, _) => p == q
    case PutBatchReq(puts) => InPuts(puts, q)
    case _ => false
  }

  /** A served request once made `q`, whatever became of it since. */
  ghost predicate EverMade(t: seq<Event>, q: Path)
    requires GoodTrace(t)
  {
    t != [] &&
    var n := |t| - 1;
    EverMade(t[..n], q) || (Served(StoreAfter(t[..n]), t[n]) && Makes(t[n].req, q))
  }

  ghost predicate Known(t: seq<Event>, q: Path)
    requires GoodTrace(t)
  {
    q == [] || EverMade(t, q)
  }

  /** Leases granted at `times` have run out after their 60 seconds. */
  ghost predicate AllOut(times: seq<nat>, now: nat) {
    0 < now && forall k :: 0 <= k < |times| ==> times[k] + 60 < now
  }

  /** Every lease on `p` has run out. */
  ghost predicate Free(t: seq<Event>, now: nat, p: Path)
    requires GoodTrace(t)
  {
    AllOut(LeaseTimes(t, p), now)
  }

  /** Why a request is refused, or None when it is served. */
  ghost function Verdict(t: seq<Event>, now: nat, req: Request): (r: Option<Error>)
    requires GoodTrace(t) && GoodRequest(req)
  {
    match req
    case MkdirReq(p) =>
      if RunKind(t, Parent(p)) == Nothing then Some(PathNotExists)
      else if RunKind(t, p) != Nothing then Some(PathExists)
      else None
    case PutReq(p, storageType) => PutVerdict(t, now, p, storageType)
    case PutOkReq(p, _, _) =>
      if CommitVerdict(t, p).Some? then CommitVerdict(t, p)
      else if !Known(t, Parent(p)) then Some(ParentMissing)
      else None
    case RmReq(p) =>
      if RunKind(t, p) == Nothing then Some(PathNotExists)
      else if !Known(t, Parent(p)) then Some(ParentMissing)
      else None
    case LockReq(p) => if RunKind(t, p) == Nothing then Some(PathNotExists) else None
    case PutBatchReq(puts) => PutsVerdict(t, now, puts)
    case PutOkBatchReq(commits, _) =>
      if CommitsVerdict(t, commits).Some? then CommitsVerdict(t, commits)
      else if exists i :: 0 <= i < |commits| && !Known(t, Parent(commits[i].path)) then Some(ParentMissing)
      else None
  }

  ghost function PutVerdict(t: seq<Event>, now: nat, p: Path, storageType: ParsedType): (r: Option<Error>)
    requires GoodTrace(t)
  {
    if RunKind(t, p) == Directory then Some(PathExists)
    else if !Free(t, now, p) then Some(LockConflict)
    else if storageType.None? then Some(BadStorageType)
    else None
  }

  ghost function CommitVerdict(t: seq<Event>, p: Path): (r: Option<Error>)
    requires GoodTrace(t)
  {
    match RunKind(t, p)
    case Nothing => Some(PathNotExists)
    case Directory => Some(ExpectedFile)
    case File => None
  }

  /** The first refusal of a batch; every item is judged by the history before the batch. */
  ghost function PutsVerdict(t: seq<Event>, now: nat, puts: seq<PutItem>): (r: Option<Error>)
    requires GoodTrace(t)
  {
    if puts == [] then None
    else
      var first := PutVerdict(t, now, puts[0].path, puts[0].storageType);
      if first.Some? then first else PutsVerdict(t, now, puts[1..])
  }

  ghost function CommitsVerdict(t: seq<Event>, commits: seq<CommitItem>): (r: Option<Error>)
    requires GoodTrace(t)
  {
    if commits == [] then None
    else
      var first := CommitVerdict(t, commits[0].path);
      if first.Some? then first
      else if commits[0].range.None? then Some(BadRange)
      else CommitsVerdict(t, commits[1..])
  }

  ghost predicate Agrees<T>(r: Result<T>, verdict: Option<Error>) {
    match verdict
    case None => r.Ok?
    case Some(e) => r == Err(e)
  }

  // The store against the history.

  lemma RootStays(t: seq<Event>)
    requires GoodTrace(t)
    ensures RunKind(t, []) == Directory
  {
    if t != [] {
      var n := |t| - 1;
      RootStays(t[..n]);
      assert GoodRequest(t[n].req);
      hide StoreAfter, Served;
    }
  }

  /** A path is live exactly when the run last made it a file or a directory. */
  lemma LivesExactly(t: seq<Event>, p: Path)
    requires GoodTrace(t)
    ensures PathLives(StoreAfter(t), p) <==> RunKind(t, p) != Nothing
  {
    RunKinds(t, p);
    RootStays(t);
    hide StoreAfter, RunKind;
  }

  lemma TreeStepKeys(db: Store, now: nat, req: Request, q: Path)
    requires KeysOk(db) && GoodRequest(req) && Handle(db, now, req).Ok? && q != []
    requires !req.PutBatchReq? && !req.PutOkBatchReq?
    ensures q in Handle(db, now, req).value <==> q in db || Makes(req, q)
  {
  }

  lemma {:induction false} PutBatchStored(db: Store, now: nat, puts: seq<PutItem>, q: Path)
    requires KeysOk(db) && PreparePuts(db, now, puts).Ok?
    ensures q in ApplyPutBatch(db, PreparePuts(db, now, puts).value) <==> q in db || InPuts(puts, q)
  {
    hide PreparePut;
    if puts != [] {
      var n := |puts| - 1;
      var xs := PreparePuts(db, now, puts).value;
      assert xs[..n] == PreparePuts(db, now, puts[..n]).value;
      PutBatchStored(db, now, puts[..n], q);
      assert q in ApplyPutBatch(db, xs) <==> q in ApplyPutBatch(db, xs[..n]) || q == puts[n].path;
      hide PreparePuts, ApplyPutBatch;
      if puts[n].path != q {
        LaterPut(puts, q);
      }
    }
  }

  /** A batch commit writes the records of live files and of known parents only. */
  lemma PutOkBatchStored(db: Store, commits: seq<CommitItem>, aggId: string, q: Path)
    requires KeysOk(db) && GoodCommits(commits) && PrepareCommits(db, commits, aggId).Ok? && q != []
    requires forall i :: 0 <= i < |commits| ==> ParentKnown(db, commits[i].path)
    ensures var xs := PrepareCommits(db, commits, aggId).value;
      NonRoot(xs) && (q in db + BatchFiles(db, xs) + BatchParents(db, xs) <==> q in db)
  {
    BatchFileRecord(db, commits, aggId, q);
    BatchParentRecord(db, commits, aggId, q);
    if InCommits(commits, q) {
      CommitsAreFiles(db, commits, aggId, q);
    }
    hide BatchFiles, BatchParents, PrepareCommits, LastCommit, AddNames, KeysOk;
  }

  lemma StepKeys(db: Store, now: nat, req: Request, q: Path)
    requires KeysOk(db) && GoodRequest(req) && Handle(db, now, req).Ok? && q != []
    ensures q in Handle(db, now, req).value <==> q in db || Makes(req, q)
  {
    match req {
      case PutBatchReq(puts) =>
        hide Handle, PreparePuts, ApplyPutBatch, InPuts;
        ServedPuts(db, now, puts);
        PutBatchStored(db, now, puts, q);
      case PutOkBatchReq(commits, aggId) =>
        ServedParents(db, now, commits, aggId);
        hide Handle, PrepareCommits, BatchFiles, BatchParents;
        ServedCommits(db, now, commits, aggId);
        PutOkBatchStored(db, commits, aggId, q);
      case _ => hide *; TreeStepKeys(db, now, req, q);
    }
  }

  lemma ServedParents(db: Store, now: nat, commits: seq<CommitItem>, aggId: string)
    requires KeysOk(db) && GoodRequest(PutOkBatchReq(commits, aggId))
    requires Handle(db, now, PutOkBatchReq(commits, aggId)).Ok?
    ensures forall i :: 0 <= i < |commits| ==> ParentKnown(db, commits[i].path)
  {
    hide BatchFiles, BatchParents;
    var xs := PrepareCommits(db, commits, aggId).value;
    assert forall i :: 0 <= i < |xs| ==> xs[i].fullpath == commits[i].path;
  }

  /** A record is stored exactly of the paths that were ever made. */
  lemma {:induction false} StoredExactly(t: seq<Event>, q: Path)
    requires GoodTrace(t) && q != []
    ensures q in StoreAfter(t) <==> EverMade(t, q)
  {
    if t != [] {
      var n := |t| - 1;
      StoredExactly(t[..n], q);
      hide Handle, Makes;
      if Served(StoreAfter(t[..n]), t[n]) {
        StepKeys(StoreAfter(t[..n]), t[n].now, t[n].req, q);
      }
    }
  }

  lemma KnownExactly(t: seq<Event>, p: Path)
    requires GoodTrace(t) && p != []
    ensures ParentKnown(StoreAfter(t), p) <==> Known(t, Parent(p))
  {
    if Parent(p) != [] {
      StoredExactly(t, Parent(p));
    }
    hide StoreAfter, EverMade;
  }

  lemma FreeExactly(t: seq<Event>, now: nat, p: Path)
    requires GoodTrace(t) && ClockOk(t) && (t != [] ==> t[|t| - 1].now <= now)
    ensures GetInode(StoreAfter(t), p).ddlLock < now <==> Free(t, now, p)
  {
    hide LeaseTimes, StoreAfter, ClockOk, GetInode, AllOut, LeaseInv, LeaseExact;
    RunLeases(t, p);
    RunLeasesExact(t, p);
    LockFree(StoreAfter(t), LeaseTimes(t, p), p, now);
  }

  lemma LockFree(db: Store, times: seq<nat>, p: Path, now: nat)
    requires LeaseInv(db, times, p) && LeaseExact(db, times, p)
    ensures GetInode(db, p).ddlLock < now <==> AllOut(times, now)
  {
    hide GetInode;
    LastRunsOut(times, GetInode(db, p).ddlLock, now);
  }

  lemma LastRunsOut(times: seq<nat>, lock: nat, now: nat)
    requires forall k :: 0 <= k < |times| ==> times[k] + 60 <= lock
    requires lock == if times == [] then 0 else times[|times| - 1] + 60
    ensures lock < now <==> AllOut(times, now)
  {
  }

  // Each request.

  /** A mkdir is served exactly when its parent is live and its path is not. */
  lemma MkdirsDecided(t: seq<Event>, now: nat, p: Path)
    requires GoodTrace(t) && GoodPath(p)
    ensures Agrees(Handle(StoreAfter(t), now, MkdirReq(p)), Verdict(t, now, MkdirReq(p)))
    ensures Served(StoreAfter(t), Event(now, MkdirReq(p))) <==>
      RunKind(t, Parent(p)) != Nothing && RunKind(t, p) == Nothing
  {
    LivesExactly(t, Parent(p));
    LivesExactly(t, p);
    hide StoreAfter, RunKind, WithParent, AddName;
  }

  /** An rm is served exactly when its path is live and a record of its parent was ever written. */
  lemma RemovalsDecided(t: seq<Event>, now: nat, p: Path)
    requires GoodTrace(t) && GoodPath(p)
    ensures Agrees(Handle(StoreAfter(t), now, RmReq(p)), Verdict(t, now, RmReq(p)))
    ensures Served(StoreAfter(t), Event(now, RmReq(p))) <==> RunKind(t, p) != Nothing && Known(t, Parent(p))
  {
    LivesExactly(t, p);
    KnownExactly(t, p);
    hide StoreAfter, RunKind, Known, WithParent, EraseName;
  }

  /** A lock is served exactly when its path is live, whether a lease on it is out or not. */
  lemma LocksDecided(t: seq<Event>, now: nat, p: Path)
    requires GoodTrace(t) && GoodPath(p)
    ensures Agrees(Handle(StoreAfter(t), now, LockReq(p)), Verdict(t, now, LockReq(p)))
    ensures Served(StoreAfter(t), Event(now, LockReq(p))) <==> RunKind(t, p) != Nothing
  {
    LivesExactly(t, p);
    hide StoreAfter, RunKind;
  }

  lemma PutDecided(t: seq<Event>, now: nat, p: Path, storageType: ParsedType)
    requires GoodTrace(t) && ClockOk(t) && (t != [] ==> t[|t| - 1].now <= now)
    ensures Agrees(PreparePut(StoreAfter(t), p, now, storageType), PutVerdict(t, now, p, storageType))
  {
    RunKinds(t, p);
    FreeExactly(t, now, p);
    hide StoreAfter, RunKind, Free;
  }

  lemma CommitDecided(t: seq<Event>, p: Path, sub: seq<string>, filesize: nat)
    requires GoodTrace(t)
    ensures Agrees(PreparePutOk(StoreAfter(t), p, sub, filesize), CommitVerdict(t, p))
  {
    RunKinds(t, p);
    hide StoreAfter, RunKind;
  }

  /** A commit is served exactly when its path is a file and a record of its parent was ever written. */
  lemma CommitsServed(t: seq<Event>, now: nat, p: Path, sub: seq<string>, filesize: nat)
    requires GoodTrace(t) && GoodPath(p)
    ensures Agrees(Handle(StoreAfter(t), now, PutOkReq(p, sub, filesize)), Verdict(t, now, PutOkReq(p, sub, filesize)))
    ensures Served(StoreAfter(t), Event(now, PutOkReq(p, sub, filesize))) <==>
      RunKind(t, p) == File && Known(t, Parent(p))
  {
    CommitDecided(t, p, sub, filesize);
    KnownExactly(t, p);
    hide StoreAfter, RunKind, Known, WithParent, AddName;
  }

  lemma {:induction false} PutsDecided(t: seq<Event>, now: nat, puts: seq<PutItem>, n: nat)
    requires GoodTrace(t) && ClockOk(t) && (t != [] ==> t[|t| - 1].now <= now) && n <= |puts|
    requires PreparePuts(StoreAfter(t), now, puts[..n]).Ok?
    ensures Agrees(PreparePuts(StoreAfter(t), now, puts), PutsVerdict(t, now, puts[n..]))
    decreases |puts| - n
  {
    hide StoreAfter, PutVerdict, PreparePut;
    if n == |puts| {
      assert puts[..n] == puts;
    } else {
      PutDecided(t, now, puts[n].path, puts[n].storageType);
      assert puts[..n + 1][..n] == puts[..n];
      assert puts[n..][1..] == puts[n + 1..];
      if PreparePut(StoreAfter(t), puts[n].path, now, puts[n].storageType).Ok? {
        PutsDecided(t, now, puts, n + 1);
      } else {
        assert PreparePuts(StoreAfter(t), now, puts[..n + 1]).Err?;
        PutsFail(StoreAfter(t), now, puts, n + 1);
      }
    }
  }

  lemma {:induction false} CommitListDecided(t: seq<Event>, commits: seq<CommitItem>, aggId: string, n: nat)
    requires GoodTrace(t) && n <= |commits| && PrepareCommits(StoreAfter(t), commits[..n], aggId).Ok?
    ensures Agrees(PrepareCommits(StoreAfter(t), commits, aggId), CommitsVerdict(t, commits[n..]))
    decreases |commits| - n
  {
    hide StoreAfter, CommitVerdict, PreparePutOk;
    if n == |commits| {
      assert commits[..n] == commits;
    } else {
      CommitDecided(t, commits[n].path, commits[n].sub, commits[n].filesize);
      assert commits[..n + 1][..n] == commits[..n];
      assert commits[n..][1..] == commits[n + 1..];
      if PrepareCommit(StoreAfter(t), commits[n], aggId).Ok? {
        CommitListDecided(t, commits, aggId, n + 1);
      } else {
        assert PrepareCommits(StoreAfter(t), commits[..n + 1], aggId).Err?;
        CommitsFail(StoreAfter(t), commits, aggId, n + 1);
      }
    }
  }

  lemma NothingPrepared(db: Store, now: nat)
    requires KeysOk(db)
    ensures PreparePuts(db, now, []) == Ok([])
  {
  }

  lemma PutBatchDecided(t: seq<Event>, now: nat, puts: seq<PutItem>)
    requires GoodTrace(t) && ClockOk(t) && (t != [] ==> t[|t| - 1].now <= now) && GoodRequest(PutBatchReq(puts))
    ensures Agrees(Handle(StoreAfter(t), now, PutBatchReq(puts)), Verdict(t, now, PutBatchReq(puts)))
  {
    hide StoreAfter, PreparePut, ApplyPutBatch, PutsVerdict, PreparePuts, KeysOk, ClockOk;
    NothingPrepared(StoreAfter(t), now);
    assert puts[..0] == [] && puts[0..] == puts;
    PutsDecided(t, now, puts, 0);
  }

  lemma CommitBatchDecided(t: seq<Event>, now: nat, commits: seq<CommitItem>, aggId: string)
    requires GoodTrace(t) && GoodRequest(PutOkBatchReq(commits, aggId))
    ensures Agrees(Handle(StoreAfter(t), now, PutOkBatchReq(commits, aggId)),
                   Verdict(t, now, PutOkBatchReq(commits, aggId)))
  {
    hide StoreAfter, PrepareCommit, BatchFiles, BatchParents, Known;
    assert commits[..0] == [] && commits[0..] == commits;
    assert PrepareCommits(StoreAfter(t), [], aggId) == Ok([]);
    CommitListDecided(t, commits, aggId, 0);
    forall i | 0 <= i < |commits|
      ensures ParentKnown(StoreAfter(t), commits[i].path) <==> Known(t, Parent(commits[i].path))
    {
      KnownExactly(t, commits[i].path);
    }
    hide PrepareCommits, CommitsVerdict, ParentKnown;
  }

  /** Over every run each request, batches included, is served or refused exactly as the history says. */
  lemma AllDecided(t: seq<Event>, now: nat, req: Request)
    requires GoodTrace(t) && ClockOk(t) && (t != [] ==> t[|t| - 1].now <= now) && GoodRequest(req)
    ensures Agrees(Handle(StoreAfter(t), now, req), Verdict(t, now, req))
    ensures Served(StoreAfter(t), Event(now, req)) <==> Verdict(t, now, req) == None
  {
    hide StoreAfter, Handle, Verdict;
    match req
    case MkdirReq(p) => MkdirsDecided(t, now, p);
    case PutReq(p, storageType) => PutServed(t, now, p, storageType);
    case PutOkReq(p, sub, filesize) => CommitsServed(t, now, p, sub, filesize);
    case RmReq(p) => RemovalsDecided(t, now, p);
    case LockReq(p) => LocksDecided(t, now, p);
    case PutBatchReq(puts) => PutBatchDecided(t, now, puts);
    case PutOkBatchReq(commits, aggId) => CommitBatchDecided(t, now, commits, aggId);
  }

  lemma PutServed(t: seq<Event>, now: nat, p: Path, storageType: ParsedType)
    requires GoodTrace(t) && ClockOk(t) && (t != [] ==> t[|t| - 1].now <= now) && GoodPath(p)
    ensures Agrees(Handle(StoreAfter(t), now, PutReq(p, storageType)), Verdict(t, now, PutReq(p, storageType)))
  {
    PutDecided(t, now, p, storageType);
    hide StoreAfter, PreparePut, PutVerdict;
  }
}
