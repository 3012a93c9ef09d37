/**
 The request handlers of the namenode leader, filling an inode step by step against the live store,
 and a whole session of requests, which leaves the store that the run of those requests defines.
 */
module NamenodeServer {
  import opened Options
  import opened Text
  import StorageTypes
  import opened Ranges
  import opened Metadata
  import opened RocksStore
  import opened Namenode
  import opened Batches
  import opened Listing
  import opened NamenodeRuns

  class Leader {
    const store: RocksDB

    constructor ()
      ensures store.db == map[] && fresh(store)
    {
      store := new RocksDB();
    }

    /** prepare_put, then the storage type of the request: refused for a live directory and a running lease. */
    method CheckPut(p: Path, now: nat, storageType: ParsedType) returns (r: Result<Inode>)
      requires KeysOk(store.db)
      ensures r == PreparePut(store.db, p, now, storageType)
      ensures r.Ok? <==> !IsDir(store.db, p) && GetInode(store.db, p).ddlLock < now && storageType.Some?
      ensures r == Err(LockConflict) <==> !IsDir(store.db, p) && GetInode(store.db, p).ddlLock >= now
      ensures r.Ok? ==> r.value.fullpath == p && IsFile(ApplyPut(store.db, r.value), p)
      ensures r.Ok? ==> r.value.sub == GetInode(store.db, p).sub && r.value.filesize == GetInode(store.db, p).filesize
    {
      var inode := GetInode(store.db, p);
      if inode.valid && inode.isDirectory {
        return Err(PathExists);
      }
      inode := inode.(isDirectory := false);
      inode := inode.(valid := true);
      if inode.ddlLock >= now {
        return Err(LockConflict);
      }
      inode := inode.(ddlLock := now + LOCK_REFRESH_INTERVAL);
      if storageType.None? {
        return Err(BadStorageType);
      }
      inode := inode.(storageType := storageType);
      r := Ok(inode);
    }

    /** prepare_put_ok, then the block list and size of the request: refused for all but live files. */
    method CheckPutOk(p: Path, sub: seq<string>, filesize: nat) returns (r: Result<Inode>)
      requires KeysOk(store.db)
      ensures r == PreparePutOk(store.db, p, sub, filesize)
      ensures r.Ok? <==> IsFile(store.db, p)
      ensures r == Err(ExpectedFile) <==> IsDir(store.db, p)
    {
      var inode := GetInode(store.db, p);
      if !inode.valid {
        return Err(PathNotExists);
      }
      if inode.isDirectory {
        return Err(ExpectedFile);
      }
      inode := inode.(sub := sub);
      inode := inode.(filesize := filesize);
      r := Ok(inode);
    }

    /** The loop of put_batch: every request is checked against the store before the batch. */
    method CheckPuts(now: nat, puts: seq<PutItem>) returns (r: Result<seq<Inode>>)
      requires KeysOk(store.db)
      ensures r == PreparePuts(store.db, now, puts)
    {
      var inodes := [];
      for i := 0 to |puts|
        invariant PreparePuts(store.db, now, puts[..i]) == Ok(inodes)
      {
        assert puts[..i + 1][..i] == puts[..i];
        var c := CheckPut(puts[i].path, now, puts[i].storageType);
        if c.Err? {
          PutsFail(store.db, now, puts, i + 1);
          return Err(c.error);
        }
        inodes := inodes + [c.value];
      }
      assert puts[..|puts|] == puts;
      r := Ok(inodes);
    }

    /** The loop of put_ok_batch, tagging each inode with the new aggregate's id. */
    method CheckCommits(commits: seq<CommitItem>, aggId: string) returns (r: Result<seq<Inode>>)
      requires KeysOk(store.db)
      ensures r == PrepareCommits(store.db, commits, aggId)
    {
      var inodes := [];
      for i := 0 to |commits|
        invariant PrepareCommits(store.db, commits[..i], aggId) == Ok(inodes)
      {
        assert commits[..i + 1][..i] == commits[..i];
        var c := CheckPutOk(commits[i].path, commits[i].sub, commits[i].filesize);
        if c.Err? {
          CommitsFail(store.db, commits, aggId, i + 1);
          return Err(c.error);
        }
        if commits[i].range.None? {
          CommitsFail(store.db, commits, aggId, i + 1);
          return Err(BadRange);
        }
        var inode := c.value;
        inode := inode.(aggInodeId := aggId);
        inodes := inodes + [inode];
      }
      assert commits[..|commits|] == commits;
      r := Ok(inodes);
    }

    /** The check of each handler, and the log entry it proposes. */
    method ProposeEntry(e: Event) returns (entry: Result<LogEntry>)
      requires KeysOk(store.db) && GoodRequest(e.req)
      ensures entry == Propose(store.db, e.now, e.req)
    {
      match e.req {
        case PutReq(p, st) =>
          var c := CheckPut(p, e.now, st);
          entry := Map(c, inode => OpPut(inode));
        case PutOkReq(p, sub, filesize) =>
          var c := CheckPutOk(p, sub, filesize);
          entry := Map(c, inode => OpPutOk(inode));
        case PutBatchReq(puts) =>
          var c := CheckPuts(e.now, puts);
          entry := Map(c, inodes => OpPutBatch(inodes));
        case PutOkBatchReq(commits, aggId) =>
          var c := CheckCommits(commits, aggId);
          entry := Map(c, inodes => OpPutOkBatch(inodes));
        case MkdirReq(p) => entry := Map(PrepareMkdir(store.db, p), inode => OpMkdir(inode));
        case RmReq(p) => entry := Map(PrepareRm(store.db, p), inode => OpRm(inode));
        case LockReq(p) => entry := Map(PrepareLock(store.db, p, e.now), inode => OpPut(inode));
      }
    }

    /** Checks a request and, when it passes, proposes and applies its log entry. */
    method Serve(e: Event) returns (served: bool)
      requires KeysOk(store.db) && GoodRequest(e.req)
      modifies store
      ensures store.db == After(old(store.db), e) && KeysOk(store.db)
      ensures served <==> Served(old(store.db), e)
    {
      hide KeysOk, Propose, ApplyEntry;
      var entry := ProposeEntry(e);
      if entry.Err? {
        return false;
      }
      served := ApplyOne(store, entry.value);
    }

    /** Any session of requests leaves exactly the store of its run. */
    method Session(t: seq<Event>)
      requires store.db == map[] && GoodTrace(t)
      modifies store
      ensures store.db == StoreAfter(t)
    {
      hide After, KeysOk;
      for i := 0 to |t|
        invariant GoodTrace(t[..i]) && store.db == StoreAfter(t[..i])
      {
        assert t[..i + 1][..i] == t[..i];
        var _ := Serve(t[i]);
      }
      assert t[..|t|] == t;
    }
  }

  /** What the client sends parses: the storage type it prints, and the range it writes behind a shard list. */
  lemma ClientRequestsParse(path: Path, st: StorageTypes.StorageType, text: string, begin: nat, end: nat, filesize: nat)
    requires forall i :: 0 <= i < |StorageTypes.Numbers(st)| ==> StorageTypes.Numbers(st)[i] <= INT_MAX
    requires begin <= INT_MAX && end <= INT_MAX
    ensures PutOf(path, StorageTypes.ToText(st)).storageType == Some(st)
    ensures CommitOf(path, [SubText(text, begin, end)], filesize).range == Some((begin, end))
  {
    hide StorageTypes.FromString, StorageTypes.ToText, NamenodeParse, SubText;
    StorageTypes.StorageTypeReadsBack(st);
    RangeReadsBack(text, begin, end);
  }
}
