/**
 How a plain file comes to carry the mark of an aggregate, in any run, and what get then makes of it.
 */
module MarkedRuns {
  import opened Options
  import opened StorageTypes
  import opened Placement
  import opened Recovery
  import opened WholeFile
  import opened Gets
  import opened Metadata
  import opened Namenode
  import opened Batches
  import opened Listing
  import opened NamenodeRuns
  import opened FileRecords

  lemma BatchOfOnePut(db: Store, now: nat, p: Path, st: ParsedType)
    requires KeysOk(db) && GoodPath(p) && st.Some? && !IsDir(db, p) && GetInode(db, p).ddlLock < now
    ensures var e := Event(now, PutBatchReq([PutItem(p, st)]));
      && GoodRequest(e.req) && Served(db, e)
      && IsFile(After(db, e), p) && db.Keys <= After(db, e).Keys
  {
    var puts := [PutItem(p, st)];
    assert puts[0].path == p;
    hide PreparePuts, ApplyPutBatch;
    assert PreparePut(db, p, now, st).Ok?;
    assert PreparePuts(db, now, puts).Ok?;
    PutBatchAt(db, now, puts, p);
    PutBatchKeepsKeys(db, PreparePuts(db, now, puts).value);
  }

  lemma {:induction false} PutBatchKeepsKeys(db: Store, xs: seq<Inode>)
    ensures db.Keys <= ApplyPutBatch(db, xs).Keys
  {
    if xs != [] {
      PutBatchKeepsKeys(db, xs[..|xs| - 1]);
    }
  }

  lemma BatchOfOneCommit(db: Store, now: nat, c: CommitItem, aggId: string)
    requires KeysOk(db) && GoodPath(c.path) && c.range.Some? && aggId != ""
    requires IsFile(db, c.path) && ParentKnown(db, c.path)
    ensures var e := Event(now, PutOkBatchReq([c], aggId));
      && GoodRequest(e.req) && Served(db, e)
      && IsFile(After(db, e), c.path) && db.Keys <= After(db, e).Keys
      && GetInode(After(db, e), c.path).ddlLock == 0 && GetInode(After(db, e), c.path).aggInodeId == aggId
  {
    var commits := [c];
    assert commits[0] == c;
    hide PrepareCommits, BatchFiles, BatchParents;
    var xs := PrepareCommits(db, commits, aggId).value;
    assert xs[0].fullpath == c.path;
    ServedCommits(db, now, commits, aggId);
    PutOkBatchRecord(db, commits, aggId, c.path);
    assert commits[0].path == c.path;
    assert !HasChild(commits, c.path);
  }

  /** A batch of one, then a plain upload: the record is that of the plain upload, with the mark of the batch. */
  lemma PlainFileMarked(t: seq<Event>, now: nat, p: Path, st0: ParsedType, c: CommitItem, aggId: string,
                        st: ParsedType, sub: seq<string>, filesize: nat)
    requires GoodTrace(t) && GoodPath(p) && st0.Some? && st.Some? && 0 < now
    requires !IsDir(StoreAfter(t), p) && GetInode(StoreAfter(t), p).ddlLock < now && ParentKnown(StoreAfter(t), p)
    requires c.path == p && c.range.Some? && aggId != ""
    ensures var t' := t + [Event(now, PutBatchReq([PutItem(p, st0)]))] + [Event(now, PutOkBatchReq([c], aggId))] +
        [Event(now, PutReq(p, st))] + [Event(now, PutOkReq(p, sub, filesize))];
      GoodTrace(t') && IsFile(StoreAfter(t'), p) &&
      var x := GetInode(StoreAfter(t'), p);
      x.sub == sub && x.filesize == filesize && x.storageType == st && x.aggInodeId == aggId
  {
    hide StoreAfter, After, Served, Handle, GetInode, GoodTrace, RunRecord, KeysOk;
    var e1, e2 := Event(now, PutBatchReq([PutItem(p, st0)])), Event(now, PutOkBatchReq([c], aggId));
    var e3, e4 := Event(now, PutReq(p, st)), Event(now, PutOkReq(p, sub, filesize));
    var t1 := t + [e1];
    var t2 := t1 + [e2];
    var t3 := t2 + [e3];
    BatchOfOnePut(StoreAfter(t), now, p, st0);
    Snoc(t, e1);
    BatchOfOneCommit(StoreAfter(t1), now, c, aggId);
    Snoc(t1, e2);
    PutIsServed(StoreAfter(t2), now, p, st);
    PutRetypesBlocks(t2, e3);
    Snoc(t2, e3);
    StaysFile(StoreAfter(t2), e3);
    PutKeepsKeys(StoreAfter(t2), e3);
    CommitIsServed(StoreAfter(t3), now, p, sub, filesize);
    CommitIsReadBack(t3, now, p, sub, filesize);
    Snoc(t3, e4);
    RunRecords(t3, p);
  }

  lemma PutKeepsKeys(db: Store, e: Event)
    requires KeysOk(db) && GoodRequest(e.req) && e.req.PutReq? && Served(db, e)
    ensures db.Keys <= After(db, e).Keys
  {
  }

  /** After such a run get does not give the plain file back, all its shards being readable. */
  lemma MarkedFileLost(t: seq<Event>, now: nat, p: Path, st0: ParsedType, c: CommitItem, aggId: string, lib: Library,
                       st: StorageType, content: Bytes, b: nat, sub: seq<string>, nodes: seq<string>,
                       digest: Bytes -> string, ends: seq<Progress>, replies: (nat, nat) -> Option<Bytes>, i: nat)
    requires GoodTrace(t) && GoodPath(p) && st0.Some? && 0 < now
    requires !IsDir(StoreAfter(t), p) && GetInode(StoreAfter(t), p).ddlLock < now && ParentKnown(StoreAfter(t), p)
    requires c.path == p && c.range.Some? && aggId != ""
    requires Sound(lib, st) && b > 0 && CanonicalNodes(nodes) && CleanDigests(digest) && Injective(digest)
    requires AreTexts(sub, lib, st, SplitBlocks(content, b), nodes, digest, ends)
    requires EnoughReadable(lib, st, SplitBlocks(content, b), nodes, digest, ends, replies)
    requires i < |content| && content[i] != 0
    requires forall r :: ReadsAs(lib, st, SplitBlocks(content, b), nodes, digest, ends, r) ==> r.1 - r.0 < i
    ensures var t' := t + [Event(now, PutBatchReq([PutItem(p, st0)]))] + [Event(now, PutOkBatchReq([c], aggId))] +
        [Event(now, PutReq(p, Some(st)))] + [Event(now, PutOkReq(p, sub, |content|))];
      GoodTrace(t') &&
      var x := GetInode(StoreAfter(t'), p);
      && x.storageType == Some(st)
      && Gotten(lib, st, x.sub, x.filesize, x.aggInodeId, replies, digest) != Some(content)
  {
    hide StoreAfter, GetInode, GoodTrace, Gotten, AreTexts, EnoughReadable, SplitBlocks, ReadsAs, Sound, IsFile;
    PlainFileMarked(t, now, p, st0, c, aggId, Some(st), sub, |content|);
    UnmarkedExactly(lib, st, content, b, sub, nodes, digest, ends, replies, aggId, i);
  }

  /** Such a run can start from the empty store. */
  lemma FromTheStart()
    ensures GoodTrace([]) && !IsDir(StoreAfter([]), ["a"]) && ParentKnown(StoreAfter([]), ["a"])
    ensures GetInode(StoreAfter([]), ["a"]).ddlLock < 1 && GoodPath(["a"])
  {
  }
}
