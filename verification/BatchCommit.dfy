/**
 Committing a batch of small files against committing them one by one. The batch reads every
 parent once, computes every file record from the old store and writes the parents last; for files
 that are being uploaded this equals the fold of the single commits exactly when no file of the
 batch is the parent of another.
 */
module BatchCommit {
  import opened Metadata

  /** internal_put_ok, and the aggregate id that only the batch form records. */
  function PutOkOne(db: Store, x: Inode): (r: Result<Store>)
    requires x.fullpath != []
  {
    match ApplyPutOk(db, x)
    case Err(e) => Err(e)
    case Ok(db') => Ok(db'[x.fullpath := WithAgg(GetInode(db', x.fullpath), x)])
  }

  function FoldPutOk(db: Store, xs: seq<Inode>): (r: Result<Store>)
    requires NonRoot(xs)
  {
    if xs == [] then Ok(db)
    else match FoldPutOk(db, xs[..|xs| - 1])
      case Err(e) => Err(e)
      case Ok(db') => PutOkOne(db', xs[|xs| - 1])
  }

  ghost predicate AllParentsKnown(db: Store, xs: seq<Inode>)
    requires NonRoot(xs)
  {
    forall i :: 0 <= i < |xs| ==> ParentKnown(db, xs[i].fullpath)
  }

  ghost predicate NoneIsParent(xs: seq<Inode>)
    requires NonRoot(xs)
  {
    forall i, j :: 0 <= i < |xs| && 0 <= j < |xs| ==> xs[i].fullpath != Parent(xs[j].fullpath)
  }

  ghost predicate OneAggregate(xs: seq<Inode>) {
    forall i, j :: 0 <= i < |xs| && 0 <= j < |xs| ==> xs[i].aggInodeId == xs[j].aggInodeId
  }

  /** Every file of the batch is being uploaded, that is, holds a lease. */
  ghost predicate AllLeased(db: Store, xs: seq<Inode>) {
    forall i :: 0 <= i < |xs| ==> GetInode(db, xs[i].fullpath).ddlLock != 0
  }

  /** One single commit, path by path. */
  lemma PutOkOneAt(db: Store, x: Inode)
    requires KeysOk(db) && x.fullpath != [] && ParentKnown(db, x.fullpath)
    ensures PutOkOne(db, x).Ok? && KeysOk(PutOkOne(db, x).value)
    ensures var p, db' := Parent(x.fullpath), PutOkOne(db, x).value;
      var parent := GetInode(db, p);
      db' == db[p := parent.(sub := AddName(parent.sub, FileName(x)))]
               [x.fullpath := WithAgg(Committed(GetInode(db, x.fullpath), x), x)]
  {
  }

  lemma {:induction false} BatchFilesAt(db: Store, xs: seq<Inode>, q: Path) returns (j: nat)
    ensures q in BatchFiles(db, xs) <==> exists i :: 0 <= i < |xs| && xs[i].fullpath == q
    ensures q in BatchFiles(db, xs) ==> j < |xs| && xs[j].fullpath == q
    ensures q in BatchFiles(db, xs) ==> BatchFiles(db, xs)[q] == WithAgg(Committed(GetInode(db, q), xs[j]), xs[j])
  {
    j := 0;
    if xs != [] {
      var n := |xs| - 1;
      j := BatchFilesAt(db, xs[..n], q);
      if xs[n].fullpath == q {
        j := n;
      } else if exists i :: 0 <= i < |xs| && xs[i].fullpath == q {
        var i :| 0 <= i < |xs| && xs[i].fullpath == q;
        assert xs[..n][i].fullpath == q;
      }
    }
  }

  lemma {:induction false} BatchParentsAt(db: Store, xs: seq<Inode>, q: Path)
    requires NonRoot(xs)
    ensures q in BatchParents(db, xs) <==> exists i :: 0 <= i < |xs| && Parent(xs[i].fullpath) == q
    ensures q in BatchParents(db, xs) ==>
      BatchParents(db, xs)[q] == GetInode(db, q).(sub := BatchParents(db, xs)[q].sub)
  {
    if xs != [] {
      var n := |xs| - 1;
      BatchParentsAt(db, xs[..n], q);
      if Parent(xs[n].fullpath) != q && exists i :: 0 <= i < |xs| && Parent(xs[i].fullpath) == q {
        var i :| 0 <= i < |xs| && Parent(xs[i].fullpath) == q;
        assert Parent(xs[..n][i].fullpath) == q;
      }
    }
  }

  lemma OverlaySwap<K, V>(a: map<K, V>, b: map<K, V>, c: map<K, V>, p: K, v: V, q: K, w: V)
    requires q !in c && p != q
    ensures (a + b + c)[p := v][q := w] == a + b[q := w] + c[p := v]
  {
  }

  /** The fold's view of a parent and of a file, in terms of the records the batch keeps. */
  lemma FoldReads(db: Store, xs: seq<Inode>, n: nat)
    requires KeysOk(db) && NonRoot(xs) && n < |xs| && NonRoot(xs[..n]) && OneAggregate(xs) && NoneIsParent(xs)
    ensures var s := db + BatchFiles(db, xs[..n]) + BatchParents(db, xs[..n]);
      var x, p, parents := xs[n], Parent(xs[n].fullpath), BatchParents(db, xs[..n]);
      && GetInode(s, p) == (if p in parents then parents[p] else GetInode(db, p))
      && WithAgg(Committed(GetInode(s, x.fullpath), x), x) == WithAgg(Committed(GetInode(db, x.fullpath), x), x)
      && x.fullpath !in parents
  {
    var ys, x, p := xs[..n], xs[n], Parent(xs[n].fullpath);
    var _ := BatchFilesAt(db, ys, p);
    var j := BatchFilesAt(db, ys, x.fullpath);
    BatchParentsAt(db, ys, x.fullpath);
    assert forall i :: 0 <= i < n ==> ys[i] == xs[i];
    hide BatchFiles, BatchParents;
    assert x.fullpath !in BatchParents(db, ys);
    assert p !in BatchFiles(db, ys);
    assert x.fullpath in BatchFiles(db, ys) ==> ys[j].aggInodeId == x.aggInodeId;
  }

  /** The batch commit is the fold of the single commits when no file is the parent of another. */
  lemma {:induction false} BatchIsFold(db: Store, xs: seq<Inode>)
    requires KeysOk(db) && NonRoot(xs) && AllParentsKnown(db, xs) && OneAggregate(xs) && NoneIsParent(xs)
    ensures FoldPutOk(db, xs) == Ok(db + BatchFiles(db, xs) + BatchParents(db, xs))
    ensures FoldPutOk(db, xs) == ApplyPutOkBatch(db, xs)
    ensures KeysOk(FoldPutOk(db, xs).value)
  {
    if xs == [] {
      assert db + map[] + map[] == db;
    } else {
      var n := |xs| - 1;
      var ys, x := xs[..n], xs[n];
      BatchIsFold(db, ys);
      FoldReads(db, xs, n);
      var files, parents := BatchFiles(db, ys), BatchParents(db, ys);
      var s := db + files + parents;
      assert ParentKnown(db, xs[n].fullpath);
      PutOkOneAt(s, x);
      var p := Parent(x.fullpath);
      var parent := GetInode(s, p);
      OverlaySwap(db, files, parents, p, parent.(sub := AddName(parent.sub, FileName(x))), x.fullpath,
                  WithAgg(Committed(GetInode(db, x.fullpath), x), x));
    }
  }

  lemma PutOkKeepsUnlocked(db: Store, x: Inode, q: Path)
    requires KeysOk(db) && x.fullpath != [] && ParentKnown(db, x.fullpath)
    requires GetInode(db, q).ddlLock == 0 || q == x.fullpath
    ensures PutOkOne(db, x).Ok? && KeysOk(PutOkOne(db, x).value)
    ensures db.Keys <= PutOkOne(db, x).value.Keys && GetInode(PutOkOne(db, x).value, q).ddlLock == 0
  {
    PutOkOneAt(db, x);
  }

  /** Every file of a fold of single commits ends up unlocked: parents keep their lock fields. */
  lemma {:induction false} FoldUnlocks(db: Store, xs: seq<Inode>, i: nat)
    requires KeysOk(db) && NonRoot(xs) && AllParentsKnown(db, xs) && i < |xs|
    ensures FoldPutOk(db, xs).Ok? && KeysOk(FoldPutOk(db, xs).value) && db.Keys <= FoldPutOk(db, xs).value.Keys
    ensures GetInode(FoldPutOk(db, xs).value, xs[i].fullpath).ddlLock == 0
  {
    hide PutOkOne, GetInode, KeysOk;
    var n := |xs| - 1;
    if n > 0 {
      FoldUnlocks(db, xs[..n], if i < n then i else 0);
    } else {
      assert FoldPutOk(db, xs[..n]) == Ok(db);
    }
    assert ParentKnown(db, xs[n].fullpath);
    PutOkKeepsUnlocked(FoldPutOk(db, xs[..n]).value, xs[n], xs[i].fullpath);
  }

  /** Exactly when a batch of files under upload is committed as one-by-one commits would. */
  lemma BatchIsFoldExactly(db: Store, xs: seq<Inode>)
    requires KeysOk(db) && NonRoot(xs) && AllParentsKnown(db, xs) && OneAggregate(xs) && AllLeased(db, xs)
    ensures ApplyPutOkBatch(db, xs) == FoldPutOk(db, xs) <==> NoneIsParent(xs)
  {
    if NoneIsParent(xs) {
      BatchIsFold(db, xs);
    } else {
      var i, j :| 0 <= i < |xs| && 0 <= j < |xs| && xs[i].fullpath == Parent(xs[j].fullpath);
      var q := xs[i].fullpath;
      FoldUnlocks(db, xs, i);
      BatchParentsAt(db, xs, q);
      assert q in BatchParents(db, xs);
      assert ApplyPutOkBatch(db, xs).value[q].ddlLock == GetInode(db, q).ddlLock;
    }
  }
}
