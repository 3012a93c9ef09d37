/**
 What a batch of puts and a batch of commits do to the record of one path: the last item for the path
 wins, and a file that is also the parent of a committed file gets the new names in place of its commit.
 */
module Batches {
  import opened Metadata
  import opened Namenode

  ghost predicate InPuts(puts: seq<PutItem>, p: Path) {
    exists i :: 0 <= i < |puts| && puts[i].path == p
  }

  ghost predicate InCommits(commits: seq<CommitItem>, p: Path) {
    exists i :: 0 <= i < |commits| && commits[i].path == p
  }

  predicate IsChild(q: Path, p: Path) {
    q != [] && Parent(q) == p
  }

  /** A file of the batch is a child of `p`. */
  ghost predicate HasChild(commits: seq<CommitItem>, p: Path) {
    exists i :: 0 <= i < |commits| && IsChild(commits[i].path, p)
  }

  predicate GoodCommits(commits: seq<CommitItem>) {
    forall i :: 0 <= i < |commits| ==> GoodPath(commits[i].path)
  }

  /** The last item of a batch for a path, given that there is one. */
  function LastPut(puts: seq<PutItem>, p: Path): (item: PutItem)
    requires InPuts(puts, p)
    ensures item in puts && item.path == p
  {
    var n := |puts| - 1;
    if puts[n].path == p then puts[n] else
      LaterPut(puts, p);
      LastPut(puts[..n], p)
  }

  lemma LaterPut(puts: seq<PutItem>, p: Path)
    requires puts != [] && puts[|puts| - 1].path != p
    ensures InPuts(puts[..|puts| - 1], p) <==> InPuts(puts, p)
  {
    var n := |puts| - 1;
    assert forall i :: 0 <= i < n ==> puts[..n][i] == puts[i];
    if InPuts(puts, p) {
      var i :| 0 <= i < |puts| && puts[i].path == p;
      assert puts[..n][i].path == p;
    }
  }

  function LastCommit(commits: seq<CommitItem>, p: Path): (item: CommitItem)
    requires InCommits(commits, p)
    ensures item in commits && item.path == p
  {
    var n := |commits| - 1;
    if commits[n].path == p then commits[n] else
      LaterCommit(commits, p);
      LastCommit(commits[..n], p)
  }

  lemma LaterCommit(commits: seq<CommitItem>, p: Path)
    requires commits != [] && commits[|commits| - 1].path != p
    ensures InCommits(commits[..|commits| - 1], p) <==> InCommits(commits, p)
  {
    var n := |commits| - 1;
    assert forall i :: 0 <= i < n ==> commits[..n][i] == commits[i];
    if InCommits(commits, p) {
      var i :| 0 <= i < |commits| && commits[i].path == p;
      assert commits[..n][i].path == p;
    }
  }

  lemma LaterChild(commits: seq<CommitItem>, p: Path)
    requires commits != [] && !IsChild(commits[|commits| - 1].path, p)
    ensures HasChild(commits[..|commits| - 1], p) <==> HasChild(commits, p)
  {
    var n := |commits| - 1;
    assert forall i :: 0 <= i < n ==> commits[..n][i] == commits[i];
    if HasChild(commits, p) {
      var i :| 0 <= i < |commits| && IsChild(commits[i].path, p);
      assert IsChild(commits[..n][i].path, p);
    }
  }

  /** A batch of puts, seen from one path: the last put of that path, checked against the old store. */
  lemma {:induction false} PutBatchRecord(db: Store, now: nat, puts: seq<PutItem>, p: Path)
    requires KeysOk(db) && PreparePuts(db, now, puts).Ok?
    ensures var y := GetInode(ApplyPutBatch(db, PreparePuts(db, now, puts).value), p);
      if InPuts(puts, p) then
        Ok(y) == PreparePut(db, p, now, LastPut(puts, p).storageType)
      else y == GetInode(db, p)
  {
    hide PreparePut;
    if puts != [] {
      var n := |puts| - 1;
      var xs := PreparePuts(db, now, puts).value;
      assert forall i :: 0 <= i < n ==> puts[..n][i] == puts[i];
      assert xs[..n] == PreparePuts(db, now, puts[..n]).value;
      PutBatchRecord(db, now, puts[..n], p);
      assert GetInode(ApplyPutBatch(db, xs), p) ==
        if puts[n].path == p then xs[n] else GetInode(ApplyPutBatch(db, xs[..n]), p);
      hide PreparePuts, ApplyPutBatch, GetInode;
      if puts[n].path != p {
        LaterPut(puts, p);
      }
    }
  }

  lemma BatchFilesStep(db: Store, xs: seq<Inode>, p: Path)
    requires xs != []
    ensures var x, files := xs[|xs| - 1], BatchFiles(db, xs[..|xs| - 1]);
      if x.fullpath == p then
        p in BatchFiles(db, xs) && BatchFiles(db, xs)[p] == WithAgg(Committed(GetInode(db, p), x), x)
      else
        (p in BatchFiles(db, xs) <==> p in files) && (p in files ==> BatchFiles(db, xs)[p] == files[p])
  {
  }

  /** The file record that a batch commit writes: the last commit of the path wins. */
  lemma {:induction false} BatchFileRecord(db: Store, commits: seq<CommitItem>, aggId: string, p: Path)
    requires KeysOk(db) && PrepareCommits(db, commits, aggId).Ok?
    ensures var files := BatchFiles(db, PrepareCommits(db, commits, aggId).value);
      && (p in files <==> InCommits(commits, p))
      && (InCommits(commits, p) ==>
        var c, x := LastCommit(commits, p), GetInode(db, p);
        files[p] == x.(ddlLock := 0, sub := c.sub, filesize := c.filesize,
                       aggInodeId := if aggId == "" then x.aggInodeId else aggId))
  {
    hide GetInode, KeysOk;
    if commits != [] {
      var n := |commits| - 1;
      BatchFileRecord(db, commits[..n], aggId, p);
      var xs := PrepareCommits(db, commits, aggId).value;
      assert xs[..n] == PrepareCommits(db, commits[..n], aggId).value;
      BatchFilesStep(db, xs, p);
      hide PrepareCommits, BatchFiles;
      if commits[n].path != p {
        LaterCommit(commits, p);
        hide InCommits;
      }
    }
  }

  /** The listing of `p` with the names of the committed files in `p` added, once each. */
  function AddNames(sub: seq<string>, commits: seq<CommitItem>, p: Path): (r: seq<string>) {
    if commits == [] then sub
    else
      var n := |commits| - 1;
      var r := AddNames(sub, commits[..n], p);
      if IsChild(commits[n].path, p) then AddName(r, BaseName(commits[n].path)) else r
  }

  lemma BatchParentsStep(db: Store, xs: seq<Inode>, p: Path)
    requires xs != [] && NonRoot(xs)
    ensures var n := |xs| - 1;
      var read := BatchParents(db, xs[..n]);
      if Parent(xs[n].fullpath) != p then
        (p in BatchParents(db, xs) <==> p in read) && (p in read ==> BatchParents(db, xs)[p] == read[p])
      else
        var cur := if p in read then read[p] else GetInode(db, p);
        p in BatchParents(db, xs) && BatchParents(db, xs)[p] == cur.(sub := AddName(cur.sub, FileName(xs[n])))
  {
  }

  lemma CommitsSnoc(db: Store, commits: seq<CommitItem>, aggId: string)
    requires KeysOk(db) && GoodCommits(commits) && commits != [] && PrepareCommits(db, commits, aggId).Ok?
    ensures var xs, n := PrepareCommits(db, commits, aggId).value, |commits| - 1;
      && NonRoot(xs) && |xs| == |commits| && GoodCommits(commits[..n])
      && PrepareCommits(db, commits[..n], aggId) == Ok(xs[..n])
      && xs[n].fullpath == commits[n].path && FileName(xs[n]) == BaseName(commits[n].path)
  {
    var n := |commits| - 1;
    assert forall i :: 0 <= i < n ==> commits[..n][i] == commits[i];
    assert PrepareCommit(db, commits[n], aggId).Ok?;
    assert BaseName(commits[n].path) + "" == BaseName(commits[n].path);
  }

  /** The parent record that a batch commit writes. */
  lemma {:induction false} BatchParentRecord(db: Store, commits: seq<CommitItem>, aggId: string, p: Path)
    requires KeysOk(db) && GoodCommits(commits) && PrepareCommits(db, commits, aggId).Ok?
    ensures var xs, x := PrepareCommits(db, commits, aggId).value, GetInode(db, p);
      && NonRoot(xs) && (p in BatchParents(db, xs) <==> HasChild(commits, p))
      && (if HasChild(commits, p) then BatchParents(db, xs)[p] == x.(sub := AddNames(x.sub, commits, p))
        else AddNames(x.sub, commits, p) == x.sub)
  {
    if commits != [] {
      var n := |commits| - 1;
      var xs := PrepareCommits(db, commits, aggId).value;
      CommitsSnoc(db, commits, aggId);
      BatchParentRecord(db, commits[..n], aggId, p);
      BatchParentsStep(db, xs, p);
      hide PrepareCommits, GetInode, BatchParents, GoodCommits, KeysOk;
      if !IsChild(commits[n].path, p) {
        LaterChild(commits, p);
        hide HasChild;
      }
    }
  }

  /** The record a batch commit leaves: parents are written last, so a file that is one loses its commit. */
  lemma PutOkBatchRecord(db: Store, commits: seq<CommitItem>, aggId: string, p: Path)
    requires KeysOk(db) && GoodCommits(commits) && PrepareCommits(db, commits, aggId).Ok?
    ensures var xs, x := PrepareCommits(db, commits, aggId).value, GetInode(db, p);
      NonRoot(xs) && GetInode(db + BatchFiles(db, xs) + BatchParents(db, xs), p) ==
        if HasChild(commits, p) then x.(sub := AddNames(x.sub, commits, p))
        else if InCommits(commits, p) then
          var c := LastCommit(commits, p);
          x.(ddlLock := 0, sub := c.sub, filesize := c.filesize,
             aggInodeId := if aggId == "" then x.aggInodeId else aggId)
        else x
  {
    BatchFileRecord(db, commits, aggId, p);
    BatchParentRecord(db, commits, aggId, p);
    hide BatchFiles, BatchParents, PrepareCommits, LastCommit, AddNames, KeysOk, InCommits, HasChild;
  }

  /** Only live files are committed. */
  lemma CommitsAreFiles(db: Store, commits: seq<CommitItem>, aggId: string, p: Path)
    requires KeysOk(db) && PrepareCommits(db, commits, aggId).Ok? && InCommits(commits, p)
    ensures GetInode(db, p).valid && !GetInode(db, p).isDirectory
  {
    var i :| 0 <= i < |commits| && commits[i].path == p;
    assert PrepareCommit(db, commits[i], aggId).Ok?;
  }

  lemma ServedPuts(db: Store, now: nat, puts: seq<PutItem>)
    requires KeysOk(db) && GoodRequest(PutBatchReq(puts)) && Handle(db, now, PutBatchReq(puts)).Ok?
    ensures PreparePuts(db, now, puts).Ok?
    ensures Handle(db, now, PutBatchReq(puts)).value == ApplyPutBatch(db, PreparePuts(db, now, puts).value)
  {
    hide PreparePuts, ApplyPutBatch;
  }

  lemma ServedCommits(db: Store, now: nat, commits: seq<CommitItem>, aggId: string)
    requires KeysOk(db) && GoodRequest(PutOkBatchReq(commits, aggId))
    requires Handle(db, now, PutOkBatchReq(commits, aggId)).Ok?
    ensures GoodCommits(commits) && PrepareCommits(db, commits, aggId).Ok?
    ensures var xs := PrepareCommits(db, commits, aggId).value;
      NonRoot(xs) && Handle(db, now, PutOkBatchReq(commits, aggId)).value ==
        db + BatchFiles(db, xs) + BatchParents(db, xs)
  {
    hide PrepareCommits, BatchFiles, BatchParents;
  }

  /** The first refusal of a batch is that of the batch. */
  lemma {:induction false} PutsFail(db: Store, now: nat, puts: seq<PutItem>, n: nat)
    requires KeysOk(db) && n <= |puts| && PreparePuts(db, now, puts[..n]).Err?
    ensures PreparePuts(db, now, puts) == PreparePuts(db, now, puts[..n])
    decreases |puts| - n
  {
    if n == |puts| {
      assert puts[..n] == puts;
    } else {
      assert puts[..n + 1][..n] == puts[..n];
      PutsFail(db, now, puts, n + 1);
    }
  }

  lemma {:induction false} CommitsFail(db: Store, commits: seq<CommitItem>, aggId: string, n: nat)
    requires KeysOk(db) && n <= |commits| && PrepareCommits(db, commits[..n], aggId).Err?
    ensures PrepareCommits(db, commits, aggId) == PrepareCommits(db, commits[..n], aggId)
    decreases |commits| - n
  {
    if n == |commits| {
      assert commits[..n] == commits;
    } else {
      assert commits[..n + 1][..n] == commits[..n];
      CommitsFail(db, commits, aggId, n + 1);
    }
  }
}
