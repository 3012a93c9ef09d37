/**
 Directory listings against inodes: in every reachable store each name a live directory lists
 denotes a live inode of the matching kind, once.
 */
module Listing {
  import opened Metadata
  import opened Namenode
  import opened Batches
  import opened BatchCommit

  predicate IsDir(db: Store, p: Path) {
    GetInode(db, p).valid && GetInode(db, p).isDirectory
  }

  predicate IsFile(db: Store, p: Path) {
    GetInode(db, p).valid && !GetInode(db, p).isDirectory
  }

  /** "n/" lists the directory n, "n" lists the file n. */
  predicate ListsDir(s: string) {
    s != "" && s[|s| - 1] == '/'
  }

  function ListedName(s: string): (n: string) {
    if ListsDir(s) then s[..|s| - 1] else s
  }

  /** The kind of inode that `s`, listed by `d`, promises is the kind stored. */
  predicate EntryOk(db: Store, d: Path, s: string) {
    var q := d + [ListedName(s)];
    '/' !in ListedName(s) && (if ListsDir(s) then IsDir(db, q) else IsFile(db, q))
  }

  predicate NoDuplicates(sub: seq<string>) {
    forall i, j :: 0 <= i < j < |sub| ==> sub[i] != sub[j]
  }

  predicate DirOk(db: Store, d: Path) {
    && NoDuplicates(GetInode(db, d).sub)
    && forall s :: s in GetInode(db, d).sub ==> EntryOk(db, d, s)
  }

  ghost predicate ListingOk(db: Store) {
    forall d: Path :: IsDir(db, d) ==> DirOk(db, d)
  }

  /** A live directory never lists both "n" and "n/". */
  lemma NeverBothForms(db: Store, d: Path, n: string)
    requires ListingOk(db) && IsDir(db, d) && '/' !in n
    ensures !(n in GetInode(db, d).sub && n + "/" in GetInode(db, d).sub)
  {
    FormOf(n, true);
    FormOf(n, false);
    assert DirOk(db, d);
    assert n in GetInode(db, d).sub ==> EntryOk(db, d, n);
  }

  /** The two listed forms of a name. */
  lemma FormOf(n: string, dir: bool)
    requires '/' !in n
    ensures var s := n + (if dir then "/" else ""); ListsDir(s) == dir && ListedName(s) == n
  {
    if !dir {
      assert n + "" == n;
    }
  }

  lemma ChildOf(d: Path, n: string)
    ensures d + [n] != [] && Parent(d + [n]) == d && BaseName(d + [n]) == n
  {
  }

  /** Which names may stand in the parent's listing once the inode at `p` has become `x`. */
  ghost predicate SubFits(db: Store, p: Path, x: Inode, sub: seq<string>)
    requires p != []
  {
    && NoDuplicates(sub)
    && forall s :: s in sub ==>
      if ListedName(s) == BaseName(p) then '/' !in BaseName(p) && x.valid && x.isDirectory == ListsDir(s)
      else s in ParentSub(db, p)
  }

  lemma ParentChildEntry(db: Store, p: Path, x: Inode, sub: seq<string>, d: Path, s: string)
    requires KeysOk(db) && p != [] && x.fullpath == p && ParentKnown(db, p) && d != p
    requires IsDir(db, d) && DirOk(db, d)
    requires d == Parent(p) ==> SubFits(db, p, x, sub)
    requires s in if d == Parent(p) then sub else GetInode(db, d).sub
    ensures EntryOk(WithParent(db, p, sub, x), d, s)
  {
    var q := d + [ListedName(s)];
    ChildOf(d, ListedName(s));
    if d == Parent(p) && ListedName(s) == BaseName(p) {
      assert q == p;
    } else {
      assert EntryOk(db, d, s);
    }
  }

  /** Writing a parent's listing and a child keeps all listings right. */
  lemma ParentChildWrite(db: Store, p: Path, x: Inode, sub: seq<string>, d: Path)
    requires ListingOk(db) && KeysOk(db) && p != [] && x.fullpath == p && ParentKnown(db, p)
    requires x.valid && x.isDirectory ==> x.sub == []
    requires IsDir(db, Parent(p)) ==> SubFits(db, p, x, sub)
    requires IsDir(WithParent(db, p, sub, x), d)
    ensures DirOk(WithParent(db, p, sub, x), d)
  {
    if d != p {
      assert IsDir(db, d) && DirOk(db, d);
      hide SubFits, EntryOk;
      forall s | s in if d == Parent(p) then sub else GetInode(db, d).sub
        ensures EntryOk(WithParent(db, p, sub, x), d, s)
      {
        ParentChildEntry(db, p, x, sub, d, s);
      }
      assert NoDuplicates(if d == Parent(p) then sub else GetInode(db, d).sub) by {
        SubFitsNoDuplicates(db, p, x, sub);
      }
    }
  }

  lemma SubFitsNoDuplicates(db: Store, p: Path, x: Inode, sub: seq<string>)
    requires p != []
    ensures SubFits(db, p, x, sub) ==> NoDuplicates(sub)
  {
  }

  /** Rewriting one inode without changing its kind or, for a directory, its listing. */
  lemma SingleWrite(db: Store, x: Inode, d: Path)
    requires ListingOk(db) && KeysOk(db)
    requires GetInode(db, x.fullpath).valid ==> x.valid && x.isDirectory == GetInode(db, x.fullpath).isDirectory
    requires x.valid && x.isDirectory ==> IsDir(db, x.fullpath) && x.sub == GetInode(db, x.fullpath).sub
    requires IsDir(ApplyPut(db, x), d)
    ensures DirOk(ApplyPut(db, x), d)
  {
    assert IsDir(db, d) && DirOk(db, d);
    forall s | s in GetInode(db, d).sub ensures EntryOk(ApplyPut(db, x), d, s) {
      assert EntryOk(db, d, s);
    }
  }

  lemma KindListed(db: Store, p: Path, s: string)
    requires GoodPath(p) && IsDir(db, Parent(p)) && DirOk(db, Parent(p))
    requires s in ParentSub(db, p) && ListedName(s) == BaseName(p)
    ensures GetInode(db, p).valid && GetInode(db, p).isDirectory == ListsDir(s)
  {
    assert Parent(p) + [BaseName(p)] == p;
    assert EntryOk(db, Parent(p), s);
  }

  lemma AddNameFits(db: Store, p: Path, x: Inode)
    requires ListingOk(db) && GoodPath(p) && x.fullpath == p && IsDir(db, Parent(p)) && x.valid
    requires GetInode(db, p).valid ==> x.isDirectory == GetInode(db, p).isDirectory
    ensures SubFits(db, p, x, AddName(ParentSub(db, p), FileName(x)))
  {
    hide EntryOk, GetInode, ListedName, ListsDir;
    FormOf(BaseName(p), x.isDirectory);
    assert DirOk(db, Parent(p));
    hide ListingOk;
    forall s | s in ParentSub(db, p) && ListedName(s) == BaseName(p) ensures x.isDirectory == ListsDir(s) {
      KindListed(db, p, s);
    }
  }

  lemma {:induction false} EraseNameIs(sub: seq<string>, name: string)
    ensures forall s :: s in EraseName(sub, name) <==> s in sub && s != name
    ensures NoDuplicates(sub) ==> NoDuplicates(EraseName(sub, name))
  {
    if sub != [] {
      EraseNameIs(sub[1..], name);
      assert sub == [sub[0]] + sub[1..];
      if NoDuplicates(sub) {
        assert sub[0] !in sub[1..];
      }
    }
  }

  lemma EraseHead(sub: seq<string>, name: string)
    requires sub != []
    ensures EraseName(sub, name) == (if sub[0] == name then [] else [sub[0]]) + EraseName(sub[1..], name)
  {
  }

  /** Erasing keeps the other names in their order, as often as they stood. */
  lemma {:induction false} EraseInOrder(front: seq<string>, back: seq<string>, name: string)
    ensures EraseName(front + back, name) == EraseName(front, name) + EraseName(back, name)
  {
    if front == [] {
      assert front + back == back;
    } else {
      EraseHead(front, name);
      EraseHead(front + back, name);
      hide EraseName;
      EraseInOrder(front[1..], back, name);
      assert (front + back)[1..] == front[1..] + back;
    }
  }

  lemma EraseOne(s: string, name: string)
    ensures EraseName([s], name) == if s == name then [] else [s]
  {
  }

  lemma EraseFits(db: Store, p: Path, x: Inode)
    requires ListingOk(db) && GoodPath(p) && x == Absent(p) && IsDir(db, Parent(p))
    ensures SubFits(db, p, x, EraseName(EraseName(ParentSub(db, p), FileName(x)), FileName(x) + "/"))
  {
    var sub, n := ParentSub(db, p), FileName(x);
    assert n == BaseName(p);
    EraseNameIs(sub, n);
    EraseNameIs(EraseName(sub, n), n + "/");
    assert DirOk(db, Parent(p));
    forall s | s in sub && ListedName(s) == n ensures s == n || s == n + "/" {
      assert ListsDir(s) ==> s == s[..|s| - 1] + "/";
    }
  }

  /** One request keeps every live directory's listing right. */
  lemma ServeKeepsListing(db: Store, now: nat, req: Request)
    requires KeysOk(db) && ListingOk(db) && GoodRequest(req)
    requires Handle(db, now, req).Ok? && !req.PutBatchReq? && !req.PutOkBatchReq?
    ensures ListingOk(Handle(db, now, req).value)
  {
    var db' := Handle(db, now, req).value;
    var p := req.path;
    match req {
      case MkdirReq(_) =>
        if IsDir(db, Parent(p)) {
          AddNameFits(db, p, DefaultDir(p));
        }
        var sub := AddName(ParentSub(db, p), FileName(DefaultDir(p)));
        forall d: Path | IsDir(db', d) ensures DirOk(db', d) {
          ParentChildWrite(db, p, DefaultDir(p), sub, d);
        }
      case PutOkReq(_, sub', filesize) =>
        var x := Committed(GetInode(db, p), GetInode(db, p).(sub := sub', filesize := filesize));
        if IsDir(db, Parent(p)) {
          AddNameFits(db, p, x);
        }
        var sub := AddName(ParentSub(db, p), FileName(x));
        forall d: Path | IsDir(db', d) ensures DirOk(db', d) {
          ParentChildWrite(db, p, x, sub, d);
        }
      case RmReq(_) =>
        if IsDir(db, Parent(p)) {
          EraseFits(db, p, Absent(p));
        }
        var n := FileName(Absent(p));
        var sub := EraseName(EraseName(ParentSub(db, p), n), n + "/");
        forall d: Path | IsDir(db', d) ensures DirOk(db', d) {
          ParentChildWrite(db, p, Absent(p), sub, d);
        }
      case PutReq(_, st) =>
        forall d: Path | IsDir(db', d) ensures DirOk(db', d) {
          SingleWrite(db, PreparePut(db, p, now, st).value, d);
        }
      case LockReq(_) =>
        forall d: Path | IsDir(db', d) ensures DirOk(db', d) {
          SingleWrite(db, PrepareLock(db, p, now).value, d);
        }
    }
  }

  /** A batch of puts writes only files, over paths that are not live directories. */
  lemma {:induction false} PutBatchKeepsListing(db: Store, xs: seq<Inode>)
    requires KeysOk(db) && ListingOk(db)
    requires forall i :: 0 <= i < |xs| ==> xs[i].valid && !xs[i].isDirectory && !IsDir(db, xs[i].fullpath)
    ensures KeysOk(ApplyPutBatch(db, xs)) && ListingOk(ApplyPutBatch(db, xs))
    ensures forall q: Path :: IsDir(ApplyPutBatch(db, xs), q) ==> IsDir(db, q)
  {
    if xs != [] {
      var n := |xs| - 1;
      PutBatchKeepsListing(db, xs[..n]);
      var s := ApplyPutBatch(db, xs[..n]);
      assert !IsDir(s, xs[n].fullpath);
      forall d: Path | IsDir(ApplyPut(s, xs[n]), d) ensures DirOk(ApplyPut(s, xs[n]), d) {
        SingleWrite(s, xs[n], d);
      }
    }
  }

  /** A file of the batch is listed by `q` as `s`. */
  ghost predicate Lists(xs: seq<Inode>, q: Path, s: string)
    requires NonRoot(xs)
  {
    exists i :: 0 <= i < |xs| && Parent(xs[i].fullpath) == q && s == FileName(xs[i])
  }

  lemma ListsStep(xs: seq<Inode>, q: Path, s: string)
    requires NonRoot(xs) && xs != []
    ensures var n := |xs| - 1;
      Lists(xs, q, s) <==> Lists(xs[..n], q, s) || (Parent(xs[n].fullpath) == q && s == FileName(xs[n]))
  {
    var n := |xs| - 1;
    assert forall i :: 0 <= i < n ==> xs[..n][i] == xs[i];
    if Lists(xs, q, s) {
      var i :| 0 <= i < |xs| && Parent(xs[i].fullpath) == q && s == FileName(xs[i]);
      assert i < n ==> Parent(xs[..n][i].fullpath) == q && s == FileName(xs[..n][i]);
    }
  }

  lemma NoneListed(db: Store, xs: seq<Inode>, q: Path, s: string)
    requires NonRoot(xs) && q !in BatchParents(db, xs)
    ensures !Lists(xs, q, s)
  {
    BatchParentsAt(db, xs, q);
  }

  /** The listing of a parent after a batch commit: the old names and the batch's own, once each. */
  lemma {:induction false} BatchSub(db: Store, xs: seq<Inode>, q: Path, s: string)
    requires NonRoot(xs) && q in BatchParents(db, xs)
    ensures var sub, sub' := GetInode(db, q).sub, BatchParents(db, xs)[q].sub;
      && (NoDuplicates(sub) ==> NoDuplicates(sub'))
      && (s in sub' <==> s in sub || Lists(xs, q, s))
  {
    var n := |xs| - 1;
    assert n >= 0;
    BatchParentsStep(db, xs, q);
    ListsStep(xs, q, s);
    hide BatchParents, Lists, GetInode;
    if q in BatchParents(db, xs[..n]) {
      BatchSub(db, xs[..n], q, s);
    } else {
      NoneListed(db, xs[..n], q, s);
    }
  }

  lemma OwnEntry(db: Store, x: Inode)
    requires GoodPath(x.fullpath) && !x.isDirectory && IsFile(db, x.fullpath)
    ensures EntryOk(db, Parent(x.fullpath), FileName(x))
  {
    FormOf(BaseName(x.fullpath), false);
    assert Parent(x.fullpath) + [BaseName(x.fullpath)] == x.fullpath;
  }

  lemma PutOkBatchEntry(db: Store, xs: seq<Inode>, d: Path, s: string)
    requires KeysOk(db) && ListingOk(db) && NonRoot(xs) && IsDir(db, d)
    requires forall i :: 0 <= i < |xs| ==> GoodPath(xs[i].fullpath) && !xs[i].isDirectory && IsFile(db, xs[i].fullpath)
    requires s in if d in BatchParents(db, xs) then BatchParents(db, xs)[d].sub else GetInode(db, d).sub
    ensures EntryOk(db, d, s)
  {
    assert DirOk(db, d);
    hide BatchParents, ListingOk, KeysOk, GetInode, EntryOk, NoDuplicates;
    if s !in GetInode(db, d).sub {
      BatchSub(db, xs, d, s);
      var i :| 0 <= i < |xs| && Parent(xs[i].fullpath) == d && s == FileName(xs[i]);
      OwnEntry(db, xs[i]);
    }
  }

  /** A batch commit changes no inode's kind or validity. */
  lemma PutOkBatchKinds(db: Store, xs: seq<Inode>, q: Path)
    requires KeysOk(db) && NonRoot(xs)
    requires forall i :: 0 <= i < |xs| ==> IsFile(db, xs[i].fullpath)
    ensures var db' := db + BatchFiles(db, xs) + BatchParents(db, xs);
      && (IsDir(db', q) <==> IsDir(db, q)) && (IsFile(db', q) <==> IsFile(db, q))
      && (IsDir(db', q) ==>
        GetInode(db', q).sub == if q in BatchParents(db, xs) then BatchParents(db, xs)[q].sub else GetInode(db, q).sub)
  {
    var _ := BatchFilesAt(db, xs, q);
    BatchParentsAt(db, xs, q);
    hide BatchFiles, BatchParents;
  }

  lemma PutOkBatchKeepsListing(db: Store, xs: seq<Inode>, d: Path)
    requires KeysOk(db) && ListingOk(db) && NonRoot(xs)
    requires forall i :: 0 <= i < |xs| ==> GoodPath(xs[i].fullpath) && !xs[i].isDirectory && IsFile(db, xs[i].fullpath)
    requires IsDir(db + BatchFiles(db, xs) + BatchParents(db, xs), d)
    ensures DirOk(db + BatchFiles(db, xs) + BatchParents(db, xs), d)
  {
    var db' := db + BatchFiles(db, xs) + BatchParents(db, xs);
    PutOkBatchKinds(db, xs, d);
    assert DirOk(db, d);
    if d in BatchParents(db, xs) {
      BatchSub(db, xs, d, "");
    }
    forall s | s in GetInode(db', d).sub ensures EntryOk(db', d, s) {
      PutOkBatchEntry(db, xs, d, s);
      PutOkBatchKinds(db, xs, d + [ListedName(s)]);
    }
  }

  lemma KeysStay(db: Store, now: nat, req: Request)
    requires KeysOk(db) && GoodRequest(req) && Handle(db, now, req).Ok?
    ensures KeysOk(Handle(db, now, req).value)
  {
    hide KeysOk, ApplyEntry, Propose;
    ApplyEntryKeys(db, Propose(db, now, req).value);
  }

  lemma AllKeepListing(db: Store, xs: seq<Inode>)
    requires KeysOk(db) && ListingOk(db) && NonRoot(xs)
    requires forall i :: 0 <= i < |xs| ==> GoodPath(xs[i].fullpath) && !xs[i].isDirectory && IsFile(db, xs[i].fullpath)
    ensures ListingOk(db + BatchFiles(db, xs) + BatchParents(db, xs))
  {
    forall d: Path | IsDir(db + BatchFiles(db, xs) + BatchParents(db, xs), d)
      ensures DirOk(db + BatchFiles(db, xs) + BatchParents(db, xs), d)
    {
      PutOkBatchKeepsListing(db, xs, d);
    }
  }

  /** Every request, batches included, keeps every live directory's listing right. */
  lemma StepKeepsListing(db: Store, now: nat, req: Request)
    requires KeysOk(db) && ListingOk(db) && GoodRequest(req) && Handle(db, now, req).Ok?
    ensures KeysOk(Handle(db, now, req).value) && ListingOk(Handle(db, now, req).value)
  {
    KeysStay(db, now, req);
    match req {
      case PutBatchReq(puts) =>
        hide Handle, ListingOk, ApplyPutBatch, KeysOk;
        ServedPuts(db, now, puts);
        PutBatchKeepsListing(db, PreparePuts(db, now, puts).value);
      case PutOkBatchReq(commits, aggId) =>
        hide Handle, ListingOk, BatchFiles, BatchParents, KeysOk;
        ServedCommits(db, now, commits, aggId);
        var xs := PrepareCommits(db, commits, aggId).value;
        forall i | 0 <= i < |xs| ensures IsFile(db, xs[i].fullpath) {
          CommitsAreFiles(db, commits, aggId, commits[i].path);
        }
        AllKeepListing(db, xs);
      case _ => hide *; ServeKeepsListing(db, now, req);
    }
  }
}
