/**
 Whole runs of the namenode from an empty store: what its listings and its file leases guarantee
 after any sequence of requests, served or refused.
 */
module NamenodeRuns {
  import opened Metadata
  import opened BatchCommit
  import opened Namenode
  import opened Batches
  import opened Listing

  datatype Event = Event(now: nat, req: Request)

  predicate GoodTrace(t: seq<Event>) {
    forall i :: 0 <= i < |t| ==> GoodRequest(t[i].req)
  }

  /** A refused request leaves the store alone. */
  function After(db: Store, e: Event): (db': Store)
    requires KeysOk(db) && GoodRequest(e.req)
    ensures KeysOk(db')
  {
    match Handle(db, e.now, e.req)
    case Ok(next) => ApplyEntryKeys(db, Propose(db, e.now, e.req).value); next
    case Err(_) => db
  }

  predicate Served(db: Store, e: Event)
    requires KeysOk(db) && GoodRequest(e.req)
  {
    Handle(db, e.now, e.req).Ok?
  }

  function StoreAfter(t: seq<Event>): (db: Store)
    requires GoodTrace(t)
    ensures KeysOk(db)
  {
    if t == [] then map[] else After(StoreAfter(t[..|t| - 1]), t[|t| - 1])
  }

  lemma Snoc(t: seq<Event>, e: Event)
    requires GoodTrace(t) && GoodRequest(e.req)
    ensures GoodTrace(t + [e]) && StoreAfter(t + [e]) == After(StoreAfter(t), e)
  {
    assert (t + [e])[..|t + [e]| - 1] == t;
  }

  /** In every reachable store every listed name denotes a live inode of the matching kind, once. */
  lemma {:induction false} RunListing(t: seq<Event>)
    requires GoodTrace(t)
    ensures ListingOk(StoreAfter(t))
  {
    if t != [] {
      var n := |t| - 1;
      RunListing(t[..n]);
      var db := StoreAfter(t[..n]);
      if Served(db, t[n]) {
        StepKeepsListing(db, t[n].now, t[n].req);
      }
    }
  }

  // Exact listings.

  ghost function CommitPaths(commits: seq<CommitItem>): (r: set<Path>) {
    set i | 0 <= i < |commits| :: commits[i].path
  }

  /** The files whose commit was served since their last removal. */
  ghost function DoneAfter(done: set<Path>, req: Request): (r: set<Path>) {
    match req
    case PutOkReq(p, _, _) => done + {p}
    case PutOkBatchReq(commits, _) => done + CommitPaths(commits)
    case RmReq(p) => done - {p}
    case _ => done
  }

  ghost function Done(t: seq<Event>): (r: set<Path>)
    requires GoodTrace(t)
  {
    if t == [] then {} else
      var n := |t| - 1;
      if Served(StoreAfter(t[..n]), t[n]) then DoneAfter(Done(t[..n]), t[n].req) else Done(t[..n])
  }

  ghost predicate Live(db: Store, done: set<Path>, q: Path) {
    IsDir(db, q) || q in done
  }

  /** `d` lists exactly its live subdirectories and its committed files. */
  ghost predicate ListsExactly(db: Store, done: set<Path>, d: Path) {
    forall n: string :: '/' !in n ==>
      && (n + "/" in GetInode(db, d).sub <==> IsDir(db, d + [n]))
      && (n in GetInode(db, d).sub <==> d + [n] in done)
  }

  /** Committed files are live files, and every live directory's listing is exact. */
  ghost predicate DirsExact(db: Store, done: set<Path>) {
    && (forall q :: q in done ==> IsFile(db, q) && q != [])
    && (forall d: Path :: IsDir(db, d) ==> ListsExactly(db, done, d))
  }

  /** A directory is made over a path that still has a live child. */
  ghost predicate MkdirOverLive(db: Store, done: set<Path>, req: Request) {
    req.MkdirReq? && exists n: string :: '/' !in n && Live(db, done, req.path + [n])
  }

  /** The new listing of the parent of `p` differs from the old one in the entries for `p` only. */
  ghost predicate EntryChanged(sub: seq<string>, sub': seq<string>, name: string, dir: bool, file: bool) {
    && (forall n: string :: '/' !in n && n != name ==>
      (n in sub' <==> n in sub) && (n + "/" in sub' <==> n + "/" in sub))
    && (name + "/" in sub' <==> dir) && (name in sub' <==> file)
  }

  lemma WriteKinds(db: Store, p: Path, x: Inode, sub: seq<string>, q: Path)
    requires KeysOk(db) && p != [] && x.fullpath == p && ParentKnown(db, p)
    ensures var db' := WithParent(db, p, sub, x);
      && GetInode(db', p) == x
      && (q != p ==> (IsDir(db', q) <==> IsDir(db, q)) && (IsFile(db', q) <==> IsFile(db, q)))
      && GetInode(db', Parent(p)).sub == sub
      && (q != p && q != Parent(p) ==> GetInode(db', q) == GetInode(db, q))
  {
    assert Parent(p) != p;
  }

  /** What a write of a parent's listing and a child must be for listings to stay exact. */
  ghost predicate ExactWrite(db: Store, done: set<Path>, p: Path, x: Inode, sub: seq<string>, done': set<Path>)
    requires GoodPath(p)
  {
    && KeysOk(db) && x.fullpath == p && ParentKnown(db, p)
    && (x.valid && x.isDirectory ==> x.sub == [] && forall n: string :: '/' !in n ==> !Live(db, done, p + [n]))
    && done' - {p} == done - {p} && (p in done' ==> x.valid && !x.isDirectory)
    && (IsDir(db, Parent(p)) ==>
      EntryChanged(ParentSub(db, p), sub, BaseName(p), x.valid && x.isDirectory, p in done'))
  }

  lemma SameButOne(done: set<Path>, done': set<Path>, p: Path, q: Path)
    requires done' - {p} == done - {p} && q != p
    ensures q in done' <==> q in done
  {
    assert q in done' <==> q in done' - {p};
    assert q in done <==> q in done - {p};
  }

  lemma ExactWriteLists(db: Store, done: set<Path>, p: Path, x: Inode, sub: seq<string>, done': set<Path>, d: Path,
                        n: string)
    requires GoodPath(p) && ExactWrite(db, done, p, x, sub, done') && DirsExact(db, done)
    requires IsDir(WithParent(db, p, sub, x), d) && '/' !in n
    ensures var db' := WithParent(db, p, sub, x);
      && (n + "/" in GetInode(db', d).sub <==> IsDir(db', d + [n]))
      && (n in GetInode(db', d).sub <==> d + [n] in done')
  {
    var q := d + [n];
    ChildOf(d, n);
    WriteKinds(db, p, x, sub, q);
    WriteKinds(db, p, x, sub, d);
    if q != p {
      SameButOne(done, done', p, q);
    }
    if d == p {
      assert !Live(db, done, p + [n]);
    } else {
      assert IsDir(db, d) && ListsExactly(db, done, d);
      assert q == p <==> d == Parent(p) && n == BaseName(p);
      hide IsFile, WithParent, GetInode, DirsExact;
    }
  }

  /** Writing a parent's listing and a child keeps listings exact. */
  lemma ExactWriteOk(db: Store, done: set<Path>, p: Path, x: Inode, sub: seq<string>, done': set<Path>)
    requires GoodPath(p) && ExactWrite(db, done, p, x, sub, done') && DirsExact(db, done)
    ensures DirsExact(WithParent(db, p, sub, x), done')
  {
    var db' := WithParent(db, p, sub, x);
    forall q | q in done' ensures IsFile(db', q) && q != [] {
      WriteKinds(db, p, x, sub, q);
      if q != p {
        SameButOne(done, done', p, q);
      }
    }
    hide WithParent, IsDir, IsFile, GetInode, ExactWrite;
    forall d: Path | IsDir(db', d) ensures ListsExactly(db', done', d) {
      forall n: string | '/' !in n
        ensures n + "/" in GetInode(db', d).sub <==> IsDir(db', d + [n])
        ensures n in GetInode(db', d).sub <==> d + [n] in done'
      {
        ExactWriteLists(db, done, p, x, sub, done', d, n);
      }
    }
  }

  lemma AddNameChanges(sub: seq<string>, name: string, dir: bool)
    requires '/' !in name && name !in sub && name + "/" !in sub
    ensures EntryChanged(sub, AddName(sub, name + (if dir then "/" else "")), name, dir, !dir)
  {
    FormOf(name, true);
    FormOf(name, false);
    assert name + "" == name;
    var s := name + (if dir then "/" else "");
    assert AddName(sub, s) == sub + [s];
    forall n: string | '/' !in n && n != name ensures n != s && n + "/" != s {
      FormOf(n, true);
      FormOf(n, false);
      assert n + "" == n;
    }
    assert s != (if dir then name else name + "/");
  }

  lemma EraseNameChanges(sub: seq<string>, name: string)
    requires '/' !in name
    ensures EntryChanged(sub, EraseName(EraseName(sub, name), name + "/"), name, false, false)
  {
    EraseNameIs(sub, name);
    EraseNameIs(EraseName(sub, name), name + "/");
    forall n: string | '/' !in n && n != name ensures n != name + "/" && n + "/" != name && n + "/" != name + "/" {
      FormOf(n, true);
      FormOf(n, false);
      FormOf(name, true);
      assert n + "" == n;
    }
  }

  /** What an exact listing says of one path. */
  lemma ListedAt(db: Store, done: set<Path>, p: Path)
    requires DirsExact(db, done) && GoodPath(p) && IsDir(db, Parent(p))
    ensures BaseName(p) + "/" in ParentSub(db, p) <==> IsDir(db, p)
    ensures BaseName(p) in ParentSub(db, p) <==> p in done
  {
    assert ListsExactly(db, done, Parent(p));
    assert Parent(p) + [BaseName(p)] == p;
  }

  lemma ExactMkdir(db: Store, done: set<Path>, p: Path)
    requires KeysOk(db) && DirsExact(db, done) && GoodPath(p) && PrepareMkdir(db, p).Ok?
    requires !MkdirOverLive(db, done, MkdirReq(p))
    ensures ApplyMkdir(db, DefaultDir(p)).Ok? && DirsExact(ApplyMkdir(db, DefaultDir(p)).value, done)
  {
    var x, sub := DefaultDir(p), ParentSub(db, p);
    assert !IsDir(db, p) && p !in done;
    hide DirsExact, EntryChanged;
    if IsDir(db, Parent(p)) {
      ListedAt(db, done, p);
      AddNameChanges(sub, BaseName(p), true);
    }
    hide AddName;
    ExactWriteOk(db, done, p, x, AddName(sub, FileName(x)), done);
  }

  /** A directory made over a live child lists nothing, although the child is there. */
  lemma InexactMkdir(db: Store, done: set<Path>, p: Path)
    requires KeysOk(db) && DirsExact(db, done) && GoodPath(p) && PrepareMkdir(db, p).Ok?
    requires MkdirOverLive(db, done, MkdirReq(p))
    ensures ApplyMkdir(db, DefaultDir(p)).Ok? && !DirsExact(ApplyMkdir(db, DefaultDir(p)).value, done)
  {
    var n: string :| '/' !in n && Live(db, done, p + [n]);
    var x, sub := DefaultDir(p), AddName(ParentSub(db, p), FileName(DefaultDir(p)));
    WriteKinds(db, p, x, sub, p + [n]);
    ChildOf(p, n);
    var db' := WithParent(db, p, sub, x);
    assert GetInode(db', p) == x;
    hide WithParent, AddName;
    assert !ListsExactly(db', done, p);
  }

  lemma ExactRm(db: Store, done: set<Path>, p: Path)
    requires KeysOk(db) && DirsExact(db, done) && GoodPath(p) && ParentKnown(db, p)
    ensures DirsExact(ApplyRm(db, Absent(p)).value, done - {p})
  {
    var x, sub := Absent(p), ParentSub(db, p);
    assert FileName(x) == BaseName(p);
    EraseNameChanges(sub, BaseName(p));
    hide EraseName;
    ExactWriteOk(db, done, p, x, EraseName(EraseName(sub, BaseName(p)), BaseName(p) + "/"), done - {p});
  }

  lemma ExactPutOk(db: Store, done: set<Path>, x: Inode)
    requires KeysOk(db) && DirsExact(db, done) && GoodPath(x.fullpath) && !x.isDirectory
    requires IsFile(db, x.fullpath) && ParentKnown(db, x.fullpath)
    ensures DirsExact(ApplyPutOk(db, x).value, done + {x.fullpath})
  {
    var p := x.fullpath;
    var y, sub := Committed(GetInode(db, p), x), ParentSub(db, p);
    var name := BaseName(p);
    assert FileName(x) == name + "" == name;
    hide DirsExact;
    if IsDir(db, Parent(p)) {
      ListedAt(db, done, p);
      if p !in done {
        AddNameChanges(sub, name, false);
      }
    }
    hide WithParent;
    ExactWriteOk(db, done, p, y, AddName(sub, name), done + {p});
  }

  /** Steps that keep every directory, its listing and every committed file. */
  lemma SameDirsExact(db: Store, db': Store, done: set<Path>)
    requires DirsExact(db, done)
    requires forall q: Path :: IsDir(db', q) <==> IsDir(db, q)
    requires forall q: Path :: IsDir(db, q) ==> GetInode(db', q).sub == GetInode(db, q).sub
    requires forall q: Path :: IsFile(db, q) ==> IsFile(db', q)
    ensures DirsExact(db', done)
  {
    hide IsDir, IsFile, GetInode;
    forall d: Path | IsDir(db', d) ensures ListsExactly(db', done, d) {
      assert ListsExactly(db, done, d);
    }
  }

  ghost function PathsOf(xs: seq<Inode>): (r: set<Path>) {
    set i | 0 <= i < |xs| :: xs[i].fullpath
  }

  /** Whose names a batch commit adds to the listing of `d`: the files of the batch that are in `d`. */
  lemma BatchAdds(db: Store, xs: seq<Inode>, d: Path, s: string)
    requires NonRoot(xs) && forall i :: 0 <= i < |xs| ==> GoodPath(xs[i].fullpath) && !xs[i].isDirectory
    ensures var sub, parents := GetInode(db, d).sub, BatchParents(db, xs);
      var sub' := if d in parents then parents[d].sub else sub;
      && ('/' !in s ==> (s in sub' <==> s in sub || d + [s] in PathsOf(xs)))
      && ('/' in s ==> (s in sub' <==> s in sub))
  {
    hide BatchParents, GetInode;
    BatchParentsAt(db, xs, d);
    if d in BatchParents(db, xs) {
      BatchSub(db, xs, d, s);
    }
    forall i | 0 <= i < |xs|
      ensures FileName(xs[i]) == BaseName(xs[i].fullpath) && '/' !in FileName(xs[i])
      ensures Parent(xs[i].fullpath) == d && FileName(xs[i]) == s <==> xs[i].fullpath == d + [s]
    {
      ChildOf(d, s);
      assert xs[i].fullpath == Parent(xs[i].fullpath) + [BaseName(xs[i].fullpath)];
    }
  }

  lemma ExactPutOkBatchLists(db: Store, done: set<Path>, xs: seq<Inode>, d: Path, n: string)
    requires KeysOk(db) && NonRoot(xs) && ListsExactly(db, done, d) && '/' !in n
    requires forall i :: 0 <= i < |xs| ==> GoodPath(xs[i].fullpath) && !xs[i].isDirectory && IsFile(db, xs[i].fullpath)
    requires IsDir(db + BatchFiles(db, xs) + BatchParents(db, xs), d)
    ensures var db' := db + BatchFiles(db, xs) + BatchParents(db, xs);
      && (n + "/" in GetInode(db', d).sub <==> IsDir(db', d + [n]))
      && (n in GetInode(db', d).sub <==> d + [n] in done + PathsOf(xs))
  {
    hide IsDir, IsFile, GetInode, BatchFiles, BatchParents, KeysOk, PathsOf;
    PutOkBatchKinds(db, xs, d);
    PutOkBatchKinds(db, xs, d + [n]);
    BatchAdds(db, xs, d, n);
    BatchAdds(db, xs, d, n + "/");
  }

  lemma ExactPutOkBatchAt(db: Store, done: set<Path>, xs: seq<Inode>, d: Path)
    requires KeysOk(db) && DirsExact(db, done) && NonRoot(xs)
    requires forall i :: 0 <= i < |xs| ==> GoodPath(xs[i].fullpath) && !xs[i].isDirectory && IsFile(db, xs[i].fullpath)
    requires IsDir(db + BatchFiles(db, xs) + BatchParents(db, xs), d)
    ensures ListsExactly(db + BatchFiles(db, xs) + BatchParents(db, xs), done + PathsOf(xs), d)
  {
    var db', done' := db + BatchFiles(db, xs) + BatchParents(db, xs), done + PathsOf(xs);
    hide IsDir, IsFile, GetInode, BatchFiles, BatchParents, KeysOk, PathsOf, GoodPath;
    PutOkBatchKinds(db, xs, d);
    assert ListsExactly(db, done, d);
    hide DirsExact;
    forall n: string | '/' !in n
      ensures n + "/" in GetInode(db', d).sub <==> IsDir(db', d + [n])
      ensures n in GetInode(db', d).sub <==> d + [n] in done'
    {
      hide ListsExactly;
      ExactPutOkBatchLists(db, done, xs, d, n);
    }
  }

  lemma ExactPutOkBatch(db: Store, done: set<Path>, xs: seq<Inode>)
    requires KeysOk(db) && DirsExact(db, done) && NonRoot(xs)
    requires forall i :: 0 <= i < |xs| ==> GoodPath(xs[i].fullpath) && !xs[i].isDirectory && IsFile(db, xs[i].fullpath)
    ensures DirsExact(db + BatchFiles(db, xs) + BatchParents(db, xs), done + PathsOf(xs))
  {
    var db', done' := db + BatchFiles(db, xs) + BatchParents(db, xs), done + PathsOf(xs);
    hide IsDir, IsFile, GetInode, BatchFiles, BatchParents, KeysOk, ListsExactly, GoodPath;
    forall q | q in done' ensures IsFile(db', q) && q != [] {
      PutOkBatchKinds(db, xs, q);
    }
    forall d: Path | IsDir(db', d) ensures ListsExactly(db', done', d) {
      ExactPutOkBatchAt(db, done, xs, d);
    }
  }

  lemma ExactPutBatch(db: Store, done: set<Path>, now: nat, puts: seq<PutItem>)
    requires KeysOk(db) && DirsExact(db, done) && PreparePuts(db, now, puts).Ok?
    ensures DirsExact(ApplyPutBatch(db, PreparePuts(db, now, puts).value), done)
  {
    var db' := ApplyPutBatch(db, PreparePuts(db, now, puts).value);
    forall q: Path
      ensures IsDir(db', q) <==> IsDir(db, q)
      ensures IsDir(db, q) ==> GetInode(db', q).sub == GetInode(db, q).sub
      ensures IsFile(db, q) ==> IsFile(db', q)
    {
      PutBatchAt(db, now, puts, q);
    }
    hide *;
    SameDirsExact(db, db', done);
  }

  /** A batch of puts makes files of its paths, none of them a live directory, and spares all others. */
  lemma PutBatchAt(db: Store, now: nat, puts: seq<PutItem>, q: Path)
    requires KeysOk(db) && PreparePuts(db, now, puts).Ok?
    ensures var db' := ApplyPutBatch(db, PreparePuts(db, now, puts).value);
      if InPuts(puts, q) then !IsDir(db, q) && IsFile(db', q) else GetInode(db', q) == GetInode(db, q)
  {
    hide PreparePuts, ApplyPutBatch, InPuts, KeysOk, LastPut;
    PutBatchRecord(db, now, puts, q);
  }

  lemma ExactPut(db: Store, done: set<Path>, x: Inode)
    requires DirsExact(db, done) && x.valid && !x.isDirectory && !IsDir(db, x.fullpath)
    ensures DirsExact(ApplyPut(db, x), done)
  {
    hide DirsExact;
    SameDirsExact(db, ApplyPut(db, x), done);
  }

  lemma ExactLock(db: Store, done: set<Path>, x: Inode)
    requires DirsExact(db, done) && x == GetInode(db, x.fullpath).(ddlLock := x.ddlLock)
    ensures DirsExact(ApplyPut(db, x), done)
  {
    hide DirsExact;
    SameDirsExact(db, ApplyPut(db, x), done);
  }

  lemma ExactTreeStep(db: Store, done: set<Path>, now: nat, req: Request)
    requires KeysOk(db) && DirsExact(db, done) && GoodRequest(req) && Handle(db, now, req).Ok?
    requires req.MkdirReq? || req.RmReq?
    ensures DirsExact(Handle(db, now, req).value, DoneAfter(done, req)) <==> !MkdirOverLive(db, done, req)
  {
    hide DirsExact, WithParent;
    if req.RmReq? {
      ExactRm(db, done, req.path);
    } else if MkdirOverLive(db, done, req) {
      InexactMkdir(db, done, req.path);
    } else {
      ExactMkdir(db, done, req.path);
    }
  }

  lemma ExactFileStep(db: Store, done: set<Path>, now: nat, req: Request)
    requires KeysOk(db) && DirsExact(db, done) && GoodRequest(req) && Handle(db, now, req).Ok?
    requires req.PutReq? || req.LockReq? || req.PutOkReq?
    ensures DirsExact(Handle(db, now, req).value, DoneAfter(done, req))
  {
    hide DirsExact, WithParent;
    match req {
      case PutReq(p, storageType) => ExactPut(db, done, PreparePut(db, p, now, storageType).value);
      case LockReq(p) => ExactLock(db, done, PrepareLock(db, p, now).value);
      case PutOkReq(p, sub, filesize) => ExactPutOk(db, done, PreparePutOk(db, p, sub, filesize).value);
    }
  }

  lemma ExactBatchStep(db: Store, done: set<Path>, now: nat, req: Request)
    requires KeysOk(db) && DirsExact(db, done) && GoodRequest(req) && Handle(db, now, req).Ok?
    requires req.PutBatchReq? || req.PutOkBatchReq?
    ensures DirsExact(Handle(db, now, req).value, DoneAfter(done, req))
  {
    hide DirsExact, BatchFiles, BatchParents, Handle, PreparePuts, ApplyPutBatch;
    match req {
      case PutBatchReq(puts) =>
        ServedPuts(db, now, puts);
        ExactPutBatch(db, done, now, puts);
      case PutOkBatchReq(commits, aggId) =>
        ServedCommits(db, now, commits, aggId);
        var xs := PrepareCommits(db, commits, aggId).value;
        forall i | 0 <= i < |xs| ensures IsFile(db, xs[i].fullpath) {
          CommitsAreFiles(db, commits, aggId, commits[i].path);
        }
        ExactPutOkBatch(db, done, xs);
        assert PathsOf(xs) == CommitPaths(commits);
    }
  }

  /** A served request leaves exact listings exact unless it makes a directory over a live child. */
  lemma StepExactly(db: Store, done: set<Path>, now: nat, req: Request)
    requires KeysOk(db) && DirsExact(db, done) && GoodRequest(req) && Handle(db, now, req).Ok?
    ensures DirsExact(Handle(db, now, req).value, DoneAfter(done, req)) <==> !MkdirOverLive(db, done, req)
  {
    hide DirsExact, Handle, DoneAfter;
    match req {
      case MkdirReq(_) => ExactTreeStep(db, done, now, req);
      case RmReq(_) => ExactTreeStep(db, done, now, req);
      case PutBatchReq(_) => ExactBatchStep(db, done, now, req);
      case PutOkBatchReq(_, _) => ExactBatchStep(db, done, now, req);
      case _ => ExactFileStep(db, done, now, req);
    }
  }

  /** No served mkdir of the run is over a live child. */
  ghost predicate NoMkdirOverLive(t: seq<Event>)
    requires GoodTrace(t)
  {
    t == [] ||
    var n := |t| - 1;
    && NoMkdirOverLive(t[..n])
    && (Served(StoreAfter(t[..n]), t[n]) ==> !MkdirOverLive(StoreAfter(t[..n]), Done(t[..n]), t[n].req))
  }

  /** Listings are exact after each of the first `n` events. */
  ghost predicate ExactUpTo(t: seq<Event>, n: nat)
    requires GoodTrace(t) && n <= |t|
  {
    forall k: nat {:trigger t[..k]} :: k <= n ==> DirsExact(StoreAfter(t[..k]), Done(t[..k]))
  }

  lemma EmptyExact()
    ensures DirsExact(map[], {})
  {
  }

  lemma ExactSnoc(t: seq<Event>)
    requires GoodTrace(t) && t != []
    ensures var s, e := t[..|t| - 1], t[|t| - 1];
      var db, done := StoreAfter(s), Done(s);
      DirsExact(db, done) ==>
        (DirsExact(StoreAfter(t), Done(t)) <==> !(Served(db, e) && MkdirOverLive(db, done, e.req)))
  {
    hide Handle, DoneAfter, DirsExact, MkdirOverLive, KeysOk;
    var s, e := t[..|t| - 1], t[|t| - 1];
    if DirsExact(StoreAfter(s), Done(s)) && Served(StoreAfter(s), e) {
      StepExactly(StoreAfter(s), Done(s), e.now, e.req);
    }
  }

  lemma {:induction false} ExactExactlyUpTo(t: seq<Event>, n: nat)
    requires GoodTrace(t) && n <= |t|
    ensures ExactUpTo(t, n) <==> NoMkdirOverLive(t[..n])
  {
    hide DirsExact, MkdirOverLive;
    if n == 0 {
      EmptyExact();
      assert t[..0] == [];
    } else {
      ExactExactlyUpTo(t, n - 1);
      assert t[..n][..n - 1] == t[..n - 1];
      ExactSnoc(t[..n]);
      hide StoreAfter, Done, Served;
    }
  }

  /** Listings stay exact throughout a run exactly when no served mkdir is over a live child. */
  lemma RunExactly(t: seq<Event>)
    requires GoodTrace(t)
    ensures ExactUpTo(t, |t|) <==> NoMkdirOverLive(t)
  {
    ExactExactlyUpTo(t, |t|);
    assert t[..|t|] == t;
  }

  /** In such a run a live directory lists exactly its live subdirectories and committed files, once each. */
  lemma RunListsExactly(t: seq<Event>, d: Path, s: string)
    requires GoodTrace(t) && NoMkdirOverLive(t) && IsDir(StoreAfter(t), d)
    ensures NoDuplicates(GetInode(StoreAfter(t), d).sub)
    ensures s in GetInode(StoreAfter(t), d).sub <==>
      && '/' !in ListedName(s)
      && (if ListsDir(s) then IsDir(StoreAfter(t), d + [ListedName(s)]) else d + [ListedName(s)] in Done(t))
  {
    RunListing(t);
    RunExactly(t);
    assert t[..|t|] == t;
    assert DirsExact(StoreAfter(t), Done(t));
    ListedExactly(StoreAfter(t), Done(t), d, s);
  }

  lemma ListedExactly(db: Store, done: set<Path>, d: Path, s: string)
    requires ListingOk(db) && DirsExact(db, done) && IsDir(db, d)
    ensures NoDuplicates(GetInode(db, d).sub)
    ensures s in GetInode(db, d).sub <==>
      && '/' !in ListedName(s)
      && (if ListsDir(s) then IsDir(db, d + [ListedName(s)]) else d + [ListedName(s)] in done)
  {
    var n := ListedName(s);
    assert DirOk(db, d) && ListsExactly(db, done, d);
    assert s == if ListsDir(s) then n + "/" else n;
    assert s in GetInode(db, d).sub ==> EntryOk(db, d, s);
  }

  // What a path is, over whole runs.

  datatype Kind = Nothing | File | Directory

  function KindOf(db: Store, p: Path): (k: Kind) {
    if IsDir(db, p) then Directory else if IsFile(db, p) then File else Nothing
  }

  ghost function KindAfter(k: Kind, req: Request, p: Path): (k': Kind) {
    match req
    case MkdirReq(q) => if q == p then Directory else k
    case PutReq(q, _) => if q == p then File else k
    case RmReq(q) => if q == p then Nothing else k
    case PutBatchReq(puts) => if InPuts(puts, p) then File else k
    case _ => k
  }

  /** The kind given to `p` by the last served mkdir, put or rm of that path. */
  ghost function RunKind(t: seq<Event>, p: Path): (k: Kind)
    requires GoodTrace(t)
  {
    if t == [] then if p == [] then Directory else Nothing else
      var n := |t| - 1;
      if Served(StoreAfter(t[..n]), t[n]) then KindAfter(RunKind(t[..n], p), t[n].req, p) else RunKind(t[..n], p)
  }

  lemma TreeStepKind(db: Store, now: nat, req: Request, p: Path)
    requires KeysOk(db) && GoodRequest(req) && Handle(db, now, req).Ok? && (req.MkdirReq? || req.RmReq?)
    ensures KindOf(Handle(db, now, req).value, p) == KindAfter(KindOf(db, p), req, p)
  {
    var q := req.path;
    if req.MkdirReq? {
      WriteKinds(db, q, DefaultDir(q), AddName(ParentSub(db, q), FileName(DefaultDir(q))), p);
    } else {
      var n := FileName(Absent(q));
      WriteKinds(db, q, Absent(q), EraseName(EraseName(ParentSub(db, q), n), n + "/"), p);
    }
    hide WithParent, AddName, EraseName, GetInode;
  }

  lemma FileStepKind(db: Store, now: nat, req: Request, p: Path)
    requires KeysOk(db) && GoodRequest(req) && Handle(db, now, req).Ok?
    requires req.PutReq? || req.LockReq? || req.PutOkReq?
    ensures KindOf(Handle(db, now, req).value, p) == KindAfter(KindOf(db, p), req, p)
  {
    if req.PutOkReq? {
      var q := req.path;
      var x := PreparePutOk(db, q, req.sub, req.filesize).value;
      WriteKinds(db, q, Committed(GetInode(db, q), x), AddName(ParentSub(db, q), FileName(x)), p);
      hide WithParent, AddName, KeysOk;
    }
  }

  lemma PutBatchKind(db: Store, now: nat, puts: seq<PutItem>, p: Path)
    requires KeysOk(db) && PreparePuts(db, now, puts).Ok?
    ensures KindOf(ApplyPutBatch(db, PreparePuts(db, now, puts).value), p) ==
      if InPuts(puts, p) then File else KindOf(db, p)
  {
    PutBatchAt(db, now, puts, p);
    hide PreparePuts, InPuts, KeysOk, ApplyPutBatch, GetInode;
  }

  lemma PutOkBatchKind(db: Store, commits: seq<CommitItem>, aggId: string, p: Path)
    requires KeysOk(db) && GoodCommits(commits) && PrepareCommits(db, commits, aggId).Ok?
    ensures var xs := PrepareCommits(db, commits, aggId).value;
      NonRoot(xs) && KindOf(db + BatchFiles(db, xs) + BatchParents(db, xs), p) == KindOf(db, p)
  {
    PutOkBatchRecord(db, commits, aggId, p);
    hide PrepareCommits, BatchFiles, BatchParents, GetInode, KeysOk, HasChild, InCommits;
  }

  lemma StepKind(db: Store, now: nat, req: Request, p: Path)
    requires KeysOk(db) && GoodRequest(req) && Handle(db, now, req).Ok?
    ensures KindOf(Handle(db, now, req).value, p) == KindAfter(KindOf(db, p), req, p)
  {
    hide Handle, KindOf, PreparePuts, PrepareCommits, ApplyPutBatch, BatchFiles, BatchParents, InPuts, KeysOk;
    match req {
      case MkdirReq(_) => TreeStepKind(db, now, req, p);
      case RmReq(_) => TreeStepKind(db, now, req, p);
      case PutBatchReq(puts) =>
        ServedPuts(db, now, puts);
        PutBatchKind(db, now, puts, p);
      case PutOkBatchReq(commits, aggId) =>
        ServedCommits(db, now, commits, aggId);
        PutOkBatchKind(db, commits, aggId, p);
      case _ => FileStepKind(db, now, req, p);
    }
  }

  /** Over every run a path is what the last served mkdir, put or rm of that very path made it. */
  lemma {:induction false} RunKinds(t: seq<Event>, p: Path)
    requires GoodTrace(t)
    ensures KindOf(StoreAfter(t), p) == RunKind(t, p)
  {
    if t != [] {
      var n := |t| - 1;
      RunKinds(t[..n], p);
      hide Handle, KindOf, KindAfter;
      if Served(StoreAfter(t[..n]), t[n]) {
        StepKind(StoreAfter(t[..n]), t[n].now, t[n].req, p);
      }
    }
  }

  /** A commit passes its check exactly when the path was put since it was last removed. */
  lemma CommitsDecided(t: seq<Event>, p: Path, sub: seq<string>, filesize: nat)
    requires GoodTrace(t)
    ensures PreparePutOk(StoreAfter(t), p, sub, filesize).Ok? <==> RunKind(t, p) == File
  {
    RunKinds(t, p);
    hide StoreAfter, RunKind;
  }
}
