/**
 The namenode as a state machine: the leader checks a request against its store and proposes a log
 entry; every replica applies the entry. A request is served as one atomic step at a clock time.
 */
module Namenode {
  import opened Options
  import opened Ranges
  import StorageTypes
  import opened Metadata
  import opened RocksStore

  /** What StorageTypes.FromString makes of the storage type in a put request. */
  type ParsedType = Option<StorageTypes.StorageType>

  datatype PutItem = PutItem(path: Path, storageType: ParsedType)

  /** One commit of a batch, with what the namenode's parser makes of its first sub. */
  datatype CommitItem = CommitItem(path: Path, sub: seq<string>, filesize: nat, range: Option<(int, int)>)

  function PutOf(path: Path, storageType: string): (item: PutItem) {
    PutItem(path, StorageTypes.FromString(storageType))
  }

  function CommitOf(path: Path, sub: seq<string>, filesize: nat): (item: CommitItem) {
    CommitItem(path, sub, filesize, if sub == [] then None else NamenodeParse(sub[0]))
  }

  datatype Request =
    | MkdirReq(path: Path)
    | PutReq(path: Path, storageType: ParsedType)
    | PutOkReq(path: Path, sub: seq<string>, filesize: nat)
    | RmReq(path: Path)
    | LockReq(path: Path)
    | PutBatchReq(puts: seq<PutItem>)
    | PutOkBatchReq(commits: seq<CommitItem>, aggId: string)

  /** OpType and payload of a raft log entry. */
  datatype LogEntry =
    | OpMkdir(inode: Inode)
    | OpPut(inode: Inode)
    | OpPutOk(inode: Inode)
    | OpRm(inode: Inode)
    | OpPutBatch(inodes: seq<Inode>)
    | OpPutOkBatch(inodes: seq<Inode>)

  /** An absolute path below the root whose last component is a name. */
  predicate GoodPath(p: Path) {
    p != [] && '/' !in BaseName(p)
  }

  predicate GoodRequest(req: Request) {
    match req
    case PutBatchReq(puts) => forall i :: 0 <= i < |puts| ==> GoodPath(puts[i].path)
    case PutOkBatchReq(commits, _) => forall i :: 0 <= i < |commits| ==> GoodPath(commits[i].path)
    case _ => GoodPath(req.path)
  }

  predicate GoodEntry(e: LogEntry) {
    match e
    case OpPutBatch(inodes) => NonRoot(inodes)
    case OpPutOkBatch(inodes) => NonRoot(inodes)
    case _ => e.inode.fullpath != []
  }

  /** The checks of put_batch, all against the store before the batch; the first error wins. */
  function PreparePuts(db: Store, now: nat, puts: seq<PutItem>): (r: Result<seq<Inode>>)
    requires KeysOk(db)
    ensures r.Ok? <==> forall i :: 0 <= i < |puts| ==> PreparePut(db, puts[i].path, now, puts[i].storageType).Ok?
    ensures r.Ok? ==> |r.value| == |puts| && forall i :: 0 <= i < |puts| ==>
      Ok(r.value[i]) == PreparePut(db, puts[i].path, now, puts[i].storageType) && r.value[i].fullpath == puts[i].path
  {
    if puts == [] then Ok([])
    else
      var n := |puts| - 1;
      match PreparePuts(db, now, puts[..n])
      case Err(e) => Err(e)
      case Ok(inodes) =>
        match PreparePut(db, puts[n].path, now, puts[n].storageType)
        case Err(e) => Err(e)
        case Ok(inode) => Ok(inodes + [inode])
  }

  /** The checks of one commit of a batch: its first sub must carry the range of the file. */
  function PrepareCommit(db: Store, item: CommitItem, aggId: string): (r: Result<Inode>) {
    match PreparePutOk(db, item.path, item.sub, item.filesize)
    case Err(e) => Err(e)
    case Ok(inode) =>
      if item.range.None? then Err(BadRange)
      else Ok(inode.(aggInodeId := aggId))
  }

  /** The checks of put_ok_batch; every inode is tagged with the id of the new aggregate. */
  function PrepareCommits(db: Store, commits: seq<CommitItem>, aggId: string): (r: Result<seq<Inode>>)
    requires KeysOk(db)
    ensures r.Ok? <==> forall i :: 0 <= i < |commits| ==> PrepareCommit(db, commits[i], aggId).Ok?
    ensures r.Ok? ==> |r.value| == |commits| && forall i :: 0 <= i < |commits| ==>
      r.value[i] == GetInode(db, commits[i].path)
        .(sub := commits[i].sub, filesize := commits[i].filesize, aggInodeId := aggId) &&
      r.value[i].fullpath == commits[i].path
  {
    if commits == [] then Ok([])
    else
      var n := |commits| - 1;
      match PrepareCommits(db, commits[..n], aggId)
      case Err(e) => Err(e)
      case Ok(inodes) =>
        match PrepareCommit(db, commits[n], aggId)
        case Err(e) => Err(e)
        case Ok(inode) => Ok(inodes + [inode])
  }

  function Map<A, B>(r: Result<A>, f: A -> B): (s: Result<B>) {
    match r
    case Ok(a) => Ok(f(a))
    case Err(e) => Err(e)
  }

  /** The log entry the leader proposes for a request, or why it refuses. */
  function Propose(db: Store, now: nat, req: Request): (r: Result<LogEntry>)
    requires KeysOk(db) && GoodRequest(req)
    ensures r.Ok? ==> GoodEntry(r.value)
  {
    match req
    case MkdirReq(p) => Map(PrepareMkdir(db, p), inode => OpMkdir(inode))
    case PutReq(p, storageType) => Map(PreparePut(db, p, now, storageType), inode => OpPut(inode))
    case PutOkReq(p, sub, filesize) => Map(PreparePutOk(db, p, sub, filesize), inode => OpPutOk(inode))
    case RmReq(p) => Map(PrepareRm(db, p), inode => OpRm(inode))
    case LockReq(p) => Map(PrepareLock(db, p, now), inode => OpPut(inode))
    case PutBatchReq(puts) => Map(PreparePuts(db, now, puts), inodes => OpPutBatch(inodes))
    case PutOkBatchReq(commits, aggId) => Map(PrepareCommits(db, commits, aggId), inodes => OpPutOkBatch(inodes))
  }

  /** What applying one log entry does; a missing parent record aborts before anything is written. */
  function ApplyEntry(db: Store, e: LogEntry): (r: Result<Store>)
    requires GoodEntry(e)
  {
    match e
    case OpMkdir(inode) => ApplyMkdir(db, inode)
    case OpPut(inode) => Ok(ApplyPut(db, inode))
    case OpPutOk(inode) => ApplyPutOk(db, inode)
    case OpRm(inode) => ApplyRm(db, inode)
    case OpPutBatch(inodes) => Ok(ApplyPutBatch(db, inodes))
    case OpPutOkBatch(inodes) => ApplyPutOkBatch(db, inodes)
  }

  function Handle(db: Store, now: nat, req: Request): (r: Result<Store>)
    requires KeysOk(db) && GoodRequest(req)
  {
    match Propose(db, now, req)
    case Err(e) => Err(e)
    case Ok(entry) => ApplyEntry(db, entry)
  }

  function ApplyLog(db: Store, log: seq<LogEntry>): (r: Result<Store>)
    requires forall i :: 0 <= i < |log| ==> GoodEntry(log[i])
  {
    if log == [] then Ok(db)
    else match ApplyLog(db, log[..|log| - 1])
      case Err(e) => Err(e)
      case Ok(db') => ApplyEntry(db', log[|log| - 1])
  }

  lemma {:induction false} ApplyEntryKeys(db: Store, e: LogEntry)
    requires KeysOk(db) && GoodEntry(e)
    ensures ApplyEntry(db, e).Ok? ==> KeysOk(ApplyEntry(db, e).value)
  {
    match e
    case OpPutBatch(inodes) => PutBatchKeys(db, inodes);
    case OpPutOkBatch(inodes) =>
      BatchFilesKeys(db, inodes);
      BatchParentsKeys(db, inodes);
    case _ =>
  }

  lemma {:induction false} PutBatchKeys(db: Store, inodes: seq<Inode>)
    requires KeysOk(db)
    ensures KeysOk(ApplyPutBatch(db, inodes))
  {
    if inodes != [] {
      PutBatchKeys(db, inodes[..|inodes| - 1]);
    }
  }

  lemma {:induction false} BatchFilesKeys(db: Store, inodes: seq<Inode>)
    requires KeysOk(db)
    ensures KeysOk(BatchFiles(db, inodes))
  {
    if inodes != [] {
      BatchFilesKeys(db, inodes[..|inodes| - 1]);
    }
  }

  /**
   on_apply: `applied` entries were carried out, all of them unless the next one aborts on a missing
   parent record.
   */
  method OnApply(store: RocksDB, entries: seq<LogEntry>) returns (applied: nat)
    requires KeysOk(store.db) && forall i :: 0 <= i < |entries| ==> GoodEntry(entries[i])
    modifies store
    ensures applied <= |entries| && KeysOk(store.db)
    ensures ApplyLog(old(store.db), entries[..applied]) == Ok(store.db)
    ensures applied < |entries| ==> ApplyEntry(store.db, entries[applied]) == Err(ParentMissing)
  {
    hide ApplyEntry, KeysOk;
    assert ApplyLog(store.db, entries[..0]) == Ok(store.db);
    applied := 0;
    while applied < |entries|
      invariant applied <= |entries| && KeysOk(store.db)
      invariant ApplyLog(old(store.db), entries[..applied]) == Ok(store.db)
    {
      assert entries[..applied + 1][..applied] == entries[..applied];
      ApplyEntryKeys(store.db, entries[applied]);
      var alive := ApplyOne(store, entries[applied]);
      if !alive {
        return;
      }
      applied := applied + 1;
    }
  }

  /** The dispatch of on_apply from entry type to store operation. */
  method ApplyOne(store: RocksDB, e: LogEntry) returns (alive: bool)
    requires KeysOk(store.db) && GoodEntry(e)
    modifies store
    ensures ApplyEntry(old(store.db), e) == if alive then Ok(store.db) else Err(ParentMissing)
    ensures !alive ==> store.db == old(store.db)
  {
    alive := true;
    match e
    case OpMkdir(inode) =>
      alive := ParentKnown(store.db, inode.fullpath);
      if alive {
        store.InternalMkdir(inode);
      }
    case OpPut(inode) => store.InternalPut(inode);
    case OpPutOk(inode) =>
      alive := ParentKnown(store.db, inode.fullpath);
      if alive {
        store.InternalPutOk(inode);
      }
    case OpRm(inode) =>
      alive := ParentKnown(store.db, inode.fullpath);
      if alive {
        store.InternalRm(inode);
      }
    case OpPutBatch(inodes) => store.InternalPutBatch(inodes);
    case OpPutOkBatch(inodes) =>
      alive := forall i :: 0 <= i < |inodes| ==> ParentKnown(store.db, inodes[i].fullpath);
      if alive {
        store.InternalPutOkBatch(inodes);
      }
  }

  /** Raft may hand the log over in any grouping: the store after a split log is the store after the log. */
  lemma {:induction false} LogGrouping(db: Store, a: seq<LogEntry>, b: seq<LogEntry>)
    requires forall i :: 0 <= i < |a| ==> GoodEntry(a[i])
    requires forall i :: 0 <= i < |b| ==> GoodEntry(b[i])
    requires ApplyLog(db, a).Ok?
    ensures ApplyLog(db, a + b) == ApplyLog(ApplyLog(db, a).value, b)
  {
    hide ApplyEntry, GoodEntry;
    if b == [] {
      assert a + b == a;
    } else {
      var n := |b| - 1;
      LogGrouping(db, a, b[..n]);
      assert (a + b)[..|a + b| - 1] == a + b[..n];
    }
  }
}
