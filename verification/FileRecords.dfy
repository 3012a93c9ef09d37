/**
 What the store remembers of a file over whole runs: block list and size of the last commit, storage
 type of the last put, the mark of the last aggregate the file was committed in, and the names that
 requests below the file have put into its block list.
 */
module FileRecords {
  import opened Options
  import opened Metadata
  import opened Namenode
  import opened Batches
  import opened Listing
  import opened NamenodeRuns
  import opened Leases

  datatype Record = Record(sub: seq<string>, filesize: nat, storageType: ParsedType, aggInodeId: string)

  const NO_RECORD := Record([], 0, None, "")

  function RecordOf(x: Inode): (r: Record) {
    Record(x.sub, x.filesize, x.storageType, x.aggInodeId)
  }

  /**
   The block list of `p` after a request on its child named `n`. The store keeps block lists and listings
   in one field, and it lists a child in its parent's record whatever that record is.
   */
  function SubAfterChild(sub: seq<string>, req: Request, n: string): (r: seq<string>) {
    match req
    case MkdirReq(_) => AddName(sub, n + "/")
    case PutOkReq(_, _, _) => AddName(sub, n)
    case RmReq(_) => EraseName(EraseName(sub, n), n + "/")
    case _ => sub
  }

  /** The record of `p` after a served request; `dir` says that `p` is a live directory, which has none. */
  ghost function RecordAfter(dir: bool, r: Record, req: Request, p: Path): (r': Record) {
    match req
    case PutBatchReq(puts) => if InPuts(puts, p) then r.(storageType := LastPut(puts, p).storageType) else r
    case PutOkBatchReq(commits, aggId) =>
      if HasChild(commits, p) then
        if dir then r else r.(sub := AddNames(r.sub, commits, p))
      else if InCommits(commits, p) then
        var c := LastCommit(commits, p);
        r.(sub := c.sub, filesize := c.filesize, aggInodeId := if aggId == "" then r.aggInodeId else aggId)
      else r
    case _ =>
      if req.path == p then OwnRecordAfter(r, req)
      else if IsChild(req.path, p) && !dir then r.(sub := SubAfterChild(r.sub, req, BaseName(req.path)))
      else r
  }

  function OwnRecordAfter(r: Record, req: Request): (r': Record) {
    match req
    case MkdirReq(_) => NO_RECORD
    case RmReq(_) => NO_RECORD
    case PutReq(_, storageType) => r.(storageType := storageType)
    case PutOkReq(_, sub, filesize) => r.(sub := sub, filesize := filesize)
    case _ => r
  }

  /** The record of `p` that the served requests of a run define. */
  ghost function RunRecord(t: seq<Event>, p: Path): (r: Record)
    requires GoodTrace(t)
  {
    if t == [] then NO_RECORD else
      var n := |t| - 1;
      var before := RunRecord(t[..n], p);
      if Served(StoreAfter(t[..n]), t[n]) then RecordAfter(RunKind(t[..n], p) == Directory, before, t[n].req, p)
      else before
  }

  /** Live directories have no record; every other path has exactly `r`. */
  ghost predicate Recorded(db: Store, r: Record, p: Path) {
    r == if IsDir(db, p) then NO_RECORD else RecordOf(GetInode(db, p))
  }

  /** A write of a listing and a child, seen from `p`: its own record, its listing, or nothing. */
  lemma WriteRecord(db: Store, q: Path, x: Inode, sub: seq<string>, r: Record, p: Path)
    requires KeysOk(db) && q != [] && x.fullpath == q && ParentKnown(db, q) && Recorded(db, r, p)
    ensures Recorded(WithParent(db, q, sub, x),
      if q == p then if x.valid && x.isDirectory then NO_RECORD else RecordOf(x)
      else if IsChild(q, p) && !IsDir(db, p) then r.(sub := sub)
      else r, p)
  {
    WriteAt(db, q, sub, x, p);
  }

  lemma TreeStepRecord(db: Store, now: nat, req: Request, r: Record, p: Path)
    requires KeysOk(db) && GoodRequest(req) && Handle(db, now, req).Ok? && Recorded(db, r, p)
    requires req.MkdirReq? || req.RmReq?
    ensures Recorded(Handle(db, now, req).value, RecordAfter(IsDir(db, p), r, req, p), p)
  {
    var q := req.path;
    var x := if req.MkdirReq? then DefaultDir(q) else Absent(q);
    assert BaseName(q) + "" == BaseName(q);
    var sub := SubAfterChild(ParentSub(db, q), req, BaseName(q));
    WriteRecord(db, q, x, sub, r, p);
    hide WithParent, AddName, EraseName;
  }

  lemma FileStepRecord(db: Store, now: nat, req: Request, r: Record, p: Path)
    requires KeysOk(db) && GoodRequest(req) && Handle(db, now, req).Ok? && Recorded(db, r, p)
    requires req.PutReq? || req.LockReq? || req.PutOkReq?
    ensures Recorded(Handle(db, now, req).value, RecordAfter(IsDir(db, p), r, req, p), p)
  {
    if req.PutOkReq? {
      var q := req.path;
      var inode := PreparePutOk(db, q, req.sub, req.filesize).value;
      assert BaseName(q) + "" == BaseName(q);
      WriteRecord(db, q, Committed(GetInode(db, q), inode), AddName(ParentSub(db, q), BaseName(q)), r, p);
      hide WithParent, AddName;
    }
  }

  lemma PutBatchStepRecord(db: Store, now: nat, puts: seq<PutItem>, r: Record, p: Path)
    requires KeysOk(db) && PreparePuts(db, now, puts).Ok? && Recorded(db, r, p)
    ensures Recorded(ApplyPutBatch(db, PreparePuts(db, now, puts).value),
                     RecordAfter(IsDir(db, p), r, PutBatchReq(puts), p), p)
  {
    hide PreparePuts, ApplyPutBatch, GetInode, InPuts, LastPut, KeysOk;
    PutBatchRecord(db, now, puts, p);
    var x := GetInode(db, p);
    var y := GetInode(ApplyPutBatch(db, PreparePuts(db, now, puts).value), p);
    if InPuts(puts, p) {
      assert RecordOf(y) == RecordOf(x).(storageType := LastPut(puts, p).storageType);
      assert !y.isDirectory && !IsDir(db, p);
    }
  }

  lemma PutOkBatchStepRecord(db: Store, r: Record, commits: seq<CommitItem>, aggId: string, p: Path)
    requires KeysOk(db) && GoodCommits(commits) && PrepareCommits(db, commits, aggId).Ok? && Recorded(db, r, p)
    ensures var xs := PrepareCommits(db, commits, aggId).value;
      NonRoot(xs) && Recorded(db + BatchFiles(db, xs) + BatchParents(db, xs),
                              RecordAfter(IsDir(db, p), r, PutOkBatchReq(commits, aggId), p), p)
  {
    PutOkBatchRecord(db, commits, aggId, p);
    if InCommits(commits, p) {
      CommitsAreFiles(db, commits, aggId, p);
    }
    hide PrepareCommits, BatchFiles, BatchParents, GetInode, KeysOk, HasChild, InCommits, LastCommit, AddNames;
  }

  lemma StepRecord(db: Store, now: nat, req: Request, r: Record, p: Path)
    requires KeysOk(db) && GoodRequest(req) && Handle(db, now, req).Ok? && Recorded(db, r, p)
    ensures Recorded(Handle(db, now, req).value, RecordAfter(IsDir(db, p), r, req, p), p)
  {
    hide Handle, PreparePuts, PrepareCommits, ApplyPutBatch, BatchFiles, BatchParents, GetInode, KeysOk, RecordAfter,
      Recorded;
    match req {
      case PutBatchReq(puts) =>
        ServedPuts(db, now, puts);
        PutBatchStepRecord(db, now, puts, r, p);
      case PutOkBatchReq(commits, aggId) =>
        ServedCommits(db, now, commits, aggId);
        PutOkBatchStepRecord(db, r, commits, aggId, p);
      case MkdirReq(_) => TreeStepRecord(db, now, req, r, p);
      case RmReq(_) => TreeStepRecord(db, now, req, r, p);
      case _ => FileStepRecord(db, now, req, r, p);
    }
  }

  lemma DirectoryKind(t: seq<Event>, p: Path)
    requires GoodTrace(t)
    ensures RunKind(t, p) == Directory <==> IsDir(StoreAfter(t), p)
  {
    RunKinds(t, p);
    hide RunKind, StoreAfter;
  }

  /**
   Over every run, whatever happened to other paths, a path that is no live directory carries exactly the
   record that the served requests on it and on its children define.
   */
  lemma {:induction false} RunRecords(t: seq<Event>, p: Path)
    requires GoodTrace(t)
    ensures Recorded(StoreAfter(t), RunRecord(t, p), p)
  {
    if t != [] {
      var n := |t| - 1;
      RunRecords(t[..n], p);
      DirectoryKind(t[..n], p);
      hide Handle, RecordAfter, Recorded, IsDir, RunKind;
      if Served(StoreAfter(t[..n]), t[n]) {
        StepRecord(StoreAfter(t[..n]), t[n].now, t[n].req, RunRecord(t[..n], p), p);
      }
    }
  }

  lemma RecordSnoc(t: seq<Event>, e: Event, p: Path)
    requires GoodTrace(t) && GoodRequest(e.req) && Served(StoreAfter(t), e)
    ensures GoodTrace(t + [e]) && StoreAfter(t + [e]) == After(StoreAfter(t), e)
    ensures RunRecord(t + [e], p) == RecordAfter(IsDir(StoreAfter(t), p), RunRecord(t, p), e.req, p)
  {
    hide RecordAfter, IsDir, RunKind, Handle, KeysOk;
    assert (t + [e])[..|t + [e]| - 1] == t;
    DirectoryKind(t, p);
  }

  /** The listed form of the child that the request adds is new, or one that it removes is there. */
  predicate ChangesSub(sub: seq<string>, req: Request, n: string) {
    match req
    case MkdirReq(_) => n + "/" !in sub
    case PutOkReq(_, _, _) => n !in sub
    case RmReq(_) => n in sub || n + "/" in sub
    case _ => false
  }

  lemma SubChangesExactly(sub: seq<string>, req: Request, n: string)
    ensures SubAfterChild(sub, req, n) != sub <==> ChangesSub(sub, req, n)
  {
    if req.RmReq? {
      EraseNameIs(sub, n);
      EraseNameIs(EraseName(sub, n), n + "/");
      if !ChangesSub(sub, req, n) {
        EraseAbsent(sub, n);
        EraseAbsent(sub, n + "/");
      }
    }
  }

  lemma {:induction false} EraseAbsent(sub: seq<string>, name: string)
    requires name !in sub
    ensures EraseName(sub, name) == sub
  {
    if sub != [] {
      EraseAbsent(sub[1..], name);
    }
  }

  /**
   A served request on a child of `p` changes the record of `p` exactly when `p` is no live directory and
   the name is new (mkdir, commit) or there (rm): then the name goes into, or out of, the block list.
   */
  lemma ChildChangesBlocks(t: seq<Event>, e: Event, p: Path)
    requires GoodTrace(t) && GoodRequest(e.req) && Served(StoreAfter(t), e)
    requires !e.req.PutBatchReq? && !e.req.PutOkBatchReq? && IsChild(e.req.path, p)
    ensures GoodTrace(t + [e])
    ensures var db, db', n := StoreAfter(t), StoreAfter(t + [e]), BaseName(e.req.path);
      && KindOf(db', p) == KindOf(db, p)
      && (RunRecord(t + [e], p) != RunRecord(t, p) <==>
        !IsDir(db, p) && ChangesSub(GetInode(db, p).sub, e.req, n))
      && (IsDir(db, p) || RecordOf(GetInode(db', p)) ==
        RecordOf(GetInode(db, p)).(sub := SubAfterChild(GetInode(db, p).sub, e.req, n)))
  {
    RecordSnoc(t, e, p);
    RunRecords(t, p);
    RunRecords(t + [e], p);
    StepKind(StoreAfter(t), e.now, e.req, p);
    SubChangesExactly(GetInode(StoreAfter(t), p).sub, e.req, BaseName(e.req.path));
    hide StoreAfter, Handle, RunRecord, SubAfterChild, ChangesSub, GetInode;
  }

  lemma StaysFile(db: Store, e: Event)
    requires KeysOk(db) && GoodRequest(e.req) && Served(db, e)
    ensures e.req.PutOkReq? ==> IsFile(After(db, e), e.req.path)
    ensures e.req.PutReq? ==> !IsDir(db, e.req.path) && IsFile(After(db, e), e.req.path)
  {
  }

  lemma PutIsServed(db: Store, now: nat, p: Path, storageType: ParsedType)
    requires KeysOk(db) && GoodPath(p) && storageType.Some? && !IsDir(db, p) && GetInode(db, p).ddlLock < now
    ensures Served(db, Event(now, PutReq(p, storageType)))
  {
  }

  lemma CommitIsServed(db: Store, now: nat, p: Path, sub: seq<string>, filesize: nat)
    requires KeysOk(db) && GoodPath(p) && IsFile(db, p) && ParentKnown(db, p)
    ensures Served(db, Event(now, PutOkReq(p, sub, filesize)))
  {
  }

  lemma FileIsStored(db: Store, p: Path)
    requires IsFile(db, p)
    ensures p in db
  {
  }

  /** Uploading a file below a live file is served, and appends its name to the block list of that file. */
  lemma NameAmongBlocks(t: seq<Event>, now: nat, p: Path, n: string, st: ParsedType, sub: seq<string>, filesize: nat)
    requires GoodTrace(t) && GoodPath(p) && '/' !in n && st.Some? && IsFile(StoreAfter(t), p)
    requires !IsDir(StoreAfter(t), p + [n]) && GetInode(StoreAfter(t), p + [n]).ddlLock < now
    requires n !in GetInode(StoreAfter(t), p).sub
    ensures var put, commit := Event(now, PutReq(p + [n], st)), Event(now, PutOkReq(p + [n], sub, filesize));
      && GoodTrace(t + [put] + [commit])
      && Served(StoreAfter(t), put) && Served(StoreAfter(t + [put]), commit)
      && IsFile(StoreAfter(t + [put] + [commit]), p)
      && GetInode(StoreAfter(t + [put] + [commit]), p).sub == GetInode(StoreAfter(t), p).sub + [n]
  {
    hide StoreAfter, Handle, RunRecord, After, Served, GetInode, GoodTrace;
    var q := p + [n];
    ChildOf(p, n);
    var put, commit := Event(now, PutReq(q, st)), Event(now, PutOkReq(q, sub, filesize));
    PutIsServed(StoreAfter(t), now, q, st);
    ChildChangesBlocks(t, put, p);
    RecordSnoc(t, put, q);
    StaysFile(StoreAfter(t), put);
    FileIsStored(StoreAfter(t + [put]), p);
    CommitIsServed(StoreAfter(t + [put]), now, q, sub, filesize);
    ChildChangesBlocks(t + [put], commit, p);
  }

  /** The upload of a file of the root into an empty store. */
  lemma FirstUpload(n: string, st: ParsedType, sub: seq<string>, filesize: nat)
    requires '/' !in n && st.Some?
    ensures var t := [Event(1, PutReq([n], st)), Event(1, PutOkReq([n], sub, filesize))];
      && GoodTrace(t) && IsFile(StoreAfter(t), [n]) && GetInode(StoreAfter(t), [n]).sub == sub
      && forall q :: q != [] && q != [n] ==> GetInode(StoreAfter(t), q) == Absent(q)
  {
    var p: Path := [n];
    var put, commit := Event(1, PutReq(p, st)), Event(1, PutOkReq(p, sub, filesize));
    var db: Store := map[];
    assert StoreAfter([]) == db;
    PutIsServed(db, 1, p, st);
    RecordSnoc([], put, p);
    var x := PreparePut(db, p, 1, st).value;
    assert [] + [put] == [put] && StoreAfter([put]) == db[p := x];
    hide StoreAfter;
    CommitIsServed(db[p := x], 1, p, sub, filesize);
    RecordSnoc([put], commit, p);
    assert [put] + [commit] == [put, commit];
  }

  /** Such a run: put /a, commit /a with one block, put /a/b, commit /a/b. */
  lemma BlocksOfAFileGrow(st: ParsedType, text: string, sub: seq<string>, filesize: nat)
    requires st.Some? && text != "b"
    ensures var t := [Event(1, PutReq(["a"], st)), Event(1, PutOkReq(["a"], [text], filesize)),
                      Event(1, PutReq(["a", "b"], st)), Event(1, PutOkReq(["a", "b"], sub, filesize))];
      GoodTrace(t) && IsFile(StoreAfter(t), ["a"]) && GetInode(StoreAfter(t), ["a"]).sub == [text, "b"]
  {
    hide StoreAfter, After, Served, Handle;
    var t := [Event(1, PutReq(["a"], st)), Event(1, PutOkReq(["a"], [text], filesize))];
    FirstUpload("a", st, [text], filesize);
    assert ["a"] + ["b"] == ["a", "b"];
    NameAmongBlocks(t, 1, ["a"], "b", st, sub, filesize);
    var put, commit := Event(1, PutReq(["a", "b"], st)), Event(1, PutOkReq(["a", "b"], sub, filesize));
    assert t + [put] + [commit] == [t[0], t[1], put, commit];
  }

  /** A served commit is what the store gives back: exactly the block list and size that were committed. */
  lemma CommitIsReadBack(t: seq<Event>, now: nat, p: Path, sub: seq<string>, filesize: nat)
    requires GoodTrace(t) && GoodPath(p) && Served(StoreAfter(t), Event(now, PutOkReq(p, sub, filesize)))
    ensures var t' := t + [Event(now, PutOkReq(p, sub, filesize))];
      var x := GetInode(StoreAfter(t'), p);
      && IsFile(StoreAfter(t'), p) && x.sub == sub && x.filesize == filesize
      && x.storageType == RunRecord(t, p).storageType && x.aggInodeId == RunRecord(t, p).aggInodeId
  {
    hide StoreAfter, Handle, RunRecord, After, Served;
    var e := Event(now, PutOkReq(p, sub, filesize));
    RecordSnoc(t, e, p);
    RunRecords(t + [e], p);
    StaysFile(StoreAfter(t), e);
  }

  /** A put alone, before any commit, sets the storage type and keeps all else that a read goes by. */
  lemma PutRetypesBlocks(t: seq<Event>, put: Event)
    requires GoodTrace(t) && put.req.PutReq? && GoodPath(put.req.path) && Served(StoreAfter(t), put)
    ensures GoodTrace(t + [put])
    ensures var x, y := GetInode(StoreAfter(t), put.req.path), GetInode(StoreAfter(t + [put]), put.req.path);
      y == x.(storageType := y.storageType, valid := true, isDirectory := false, ddlLock := y.ddlLock) &&
      y.storageType == put.req.storageType && !IsDir(StoreAfter(t), put.req.path)
  {
    hide StoreAfter, Handle, RunRecord, After, Served;
    RecordSnoc(t, put, put.req.path);
    StaysFile(StoreAfter(t), put);
    RunRecords(t, put.req.path);
    RunRecords(t + [put], put.req.path);
  }

  /** A plain upload of a file, put and commit, leaves the mark of the aggregate it was once committed in. */
  lemma AggregateMarkStays(t: seq<Event>, put: Event, commit: Event)
    requires GoodTrace(t) && put.req.PutReq? && commit.req.PutOkReq? && put.req.path == commit.req.path
    requires GoodPath(put.req.path)
    requires Served(StoreAfter(t), put) && Served(StoreAfter(t + [put]), commit)
    ensures var p, t' := put.req.path, t + [put] + [commit];
      GetInode(StoreAfter(t'), p).aggInodeId == GetInode(StoreAfter(t), p).aggInodeId
  {
    hide StoreAfter, Handle, RunRecord, After, Served;
    var p := put.req.path;
    RecordSnoc(t, put, p);
    RecordSnoc(t + [put], commit, p);
    StaysFile(StoreAfter(t), put);
    StaysFile(StoreAfter(t + [put]), commit);
    RunRecords(t, p);
    RunRecords(t + [put] + [commit], p);
  }
}
