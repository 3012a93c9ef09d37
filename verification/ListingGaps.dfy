/**
 Runs after which a live directory does not list a live child: a directory is made over a path below
 which something is still alive, because a directory was removed with its children in place or because
 a file was committed below a removed directory.
 */
module ListingGaps {
  import opened Metadata
  import opened Namenode
  import opened Listing
  import opened NamenodeRuns
  import opened Leases
  import opened FileRecords

  lemma MkdirAt(t: seq<Event>, now: nat, p: Path, q: Path)
    requires GoodTrace(t) && GoodPath(p) && PathLives(StoreAfter(t), Parent(p)) && !PathLives(StoreAfter(t), p)
    ensures var e := Event(now, MkdirReq(p));
      && GoodTrace(t + [e])
      && GetInode(StoreAfter(t + [e]), p) == DefaultDir(p)
      && (q != p ==> PathLives(StoreAfter(t + [e]), q) == PathLives(StoreAfter(t), q))
      && (q != p && q != Parent(p) ==> GetInode(StoreAfter(t + [e]), q) == GetInode(StoreAfter(t), q))
      && (q == Parent(p) && GetInode(StoreAfter(t), q).sub == [] ==>
        GetInode(StoreAfter(t + [e]), q) == GetInode(StoreAfter(t), q).(sub := [BaseName(p) + "/"]))
  {
    hide StoreAfter, GoodTrace;
    var db := StoreAfter(t);
    Snoc(t, Event(now, MkdirReq(p)));
    var sub := AddName(ParentSub(db, p), FileName(DefaultDir(p)));
    WriteAt(db, p, sub, DefaultDir(p), q);
    WriteAt(db, p, sub, DefaultDir(p), p);
    assert Parent(p) != p;
  }

  lemma RmAt(t: seq<Event>, now: nat, p: Path, q: Path)
    requires GoodTrace(t) && GoodPath(p) && PathLives(StoreAfter(t), p) && PathLives(StoreAfter(t), Parent(p))
    ensures var e := Event(now, RmReq(p));
      && GoodTrace(t + [e]) && Served(StoreAfter(t), e)
      && !PathLives(StoreAfter(t + [e]), p) && PathLives(StoreAfter(t + [e]), Parent(p)) && p in StoreAfter(t + [e])
      && (q != p && q != Parent(p) ==> GetInode(StoreAfter(t + [e]), q) == GetInode(StoreAfter(t), q))
  {
    hide StoreAfter, GoodTrace;
    var db := StoreAfter(t);
    Snoc(t, Event(now, RmReq(p)));
    var n := FileName(Absent(p));
    var sub := EraseName(EraseName(ParentSub(db, p), n), n + "/");
    hide EraseName;
    WriteAt(db, p, sub, Absent(p), q);
    WriteAt(db, p, sub, Absent(p), p);
    WriteAt(db, p, sub, Absent(p), Parent(p));
    assert Parent(p) != p;
  }

  /** A live directory that does not list a live child: some mkdir of the run was over a live child. */
  lemma GapShows(t: seq<Event>, p: Path, n: string)
    requires GoodTrace(t) && '/' !in n && IsDir(StoreAfter(t), p) && GetInode(StoreAfter(t), p).sub == []
    requires Live(StoreAfter(t), Done(t), p + [n])
    ensures !NoMkdirOverLive(t)
  {
    hide StoreAfter, Done, GetInode;
    RunExactly(t);
    assert t[..|t|] == t;
    if DirsExact(StoreAfter(t), Done(t)) {
      assert ListsExactly(StoreAfter(t), Done(t), p);
    }
  }

  /** After mkdir p, mkdir p/n, rm p, mkdir p, in any run, the new p lists nothing although p/n is a live directory. */
  lemma GapAfterRemoval(t: seq<Event>, now: nat, p: Path, n: string)
    requires GoodTrace(t) && GoodPath(p) && '/' !in n
    requires PathLives(StoreAfter(t), Parent(p)) && !PathLives(StoreAfter(t), p) && !PathLives(StoreAfter(t), p + [n])
    ensures var q := p + [n];
      var t' := t + [Event(now, MkdirReq(p))] + [Event(now, MkdirReq(q))] + [Event(now, RmReq(p))] +
        [Event(now, MkdirReq(p))];
      && GoodTrace(t') && !NoMkdirOverLive(t')
      && IsDir(StoreAfter(t'), p) && IsDir(StoreAfter(t'), q) && GetInode(StoreAfter(t'), p).sub == []
  {
    hide StoreAfter, After, Handle, WithParent, Served, GoodTrace, Done, NoMkdirOverLive;
    var q := p + [n];
    ChildOf(p, n);
    var t1 := t + [Event(now, MkdirReq(p))];
    var t2 := t1 + [Event(now, MkdirReq(q))];
    var t3 := t2 + [Event(now, RmReq(p))];
    MkdirAt(t, now, p, q);
    MkdirAt(t, now, p, Parent(p));
    MkdirAt(t1, now, q, p);
    MkdirAt(t1, now, q, Parent(p));
    RmAt(t2, now, p, q);
    MkdirAt(t3, now, p, q);
    GapShows(t3 + [Event(now, MkdirReq(p))], p, n);
  }

  lemma PutLives(db: Store, now: nat, q: Path, st: ParsedType)
    requires KeysOk(db) && GoodPath(q) && Served(db, Event(now, PutReq(q, st)))
    ensures var db' := After(db, Event(now, PutReq(q, st)));
      && IsFile(db', q) && db'.Keys == db.Keys + {q}
      && forall d: Path :: d != q ==> PathLives(db', d) == PathLives(db, d)
  {
  }

  lemma CommitLives(db: Store, now: nat, q: Path, sub: seq<string>, filesize: nat)
    requires KeysOk(db) && GoodPath(q) && Served(db, Event(now, PutOkReq(q, sub, filesize)))
    ensures var db' := After(db, Event(now, PutOkReq(q, sub, filesize)));
      IsFile(db', q) && forall d: Path :: d != q ==> PathLives(db', d) == PathLives(db, d)
  {
    hide AddName;
  }

  lemma UploadAt(t: seq<Event>, now: nat, q: Path, st: ParsedType, sub: seq<string>, filesize: nat)
    requires GoodTrace(t) && GoodPath(q) && st.Some? && !IsDir(StoreAfter(t), q)
    requires GetInode(StoreAfter(t), q).ddlLock < now && Parent(q) in StoreAfter(t)
    ensures var put, commit := Event(now, PutReq(q, st)), Event(now, PutOkReq(q, sub, filesize));
      var t' := t + [put] + [commit];
      && GoodTrace(t') && IsFile(StoreAfter(t'), q) && q in Done(t')
      && (forall d: Path :: d != q ==> PathLives(StoreAfter(t'), d) == PathLives(StoreAfter(t), d))
  {
    hide After, Served, Handle, GetInode, KeysOk, PathLives;
    var put, commit := Event(now, PutReq(q, st)), Event(now, PutOkReq(q, sub, filesize));
    PutIsServed(StoreAfter(t), now, q, st);
    PutLives(StoreAfter(t), now, q, st);
    Snoc(t, put);
    CommitIsServed(StoreAfter(t + [put]), now, q, sub, filesize);
    CommitLives(StoreAfter(t + [put]), now, q, sub, filesize);
    Snoc(t + [put], commit);
    assert (t + [put] + [commit])[..|t| + 1] == t + [put];
    hide StoreAfter;
  }

  /** The removed directory was empty: after mkdir p, rm p, put p/n, commit p/n, mkdir p, the new p lists nothing. */
  lemma GapAfterCommit(t: seq<Event>, now: nat, p: Path, n: string, st: ParsedType, sub: seq<string>, filesize: nat)
    requires GoodTrace(t) && GoodPath(p) && '/' !in n && st.Some?
    requires PathLives(StoreAfter(t), Parent(p)) && !PathLives(StoreAfter(t), p) && !PathLives(StoreAfter(t), p + [n])
    requires GetInode(StoreAfter(t), p + [n]).ddlLock < now
    ensures var q := p + [n];
      var t' := t + [Event(now, MkdirReq(p))] + [Event(now, RmReq(p))] + [Event(now, PutReq(q, st))] +
        [Event(now, PutOkReq(q, sub, filesize))] + [Event(now, MkdirReq(p))];
      && GoodTrace(t') && !NoMkdirOverLive(t')
      && IsDir(StoreAfter(t'), p) && q in Done(t') && GetInode(StoreAfter(t'), p).sub == []
  {
    hide StoreAfter, After, Handle, WithParent, Served, GoodTrace, Done, NoMkdirOverLive;
    var q := p + [n];
    ChildOf(p, n);
    var t1 := t + [Event(now, MkdirReq(p))];
    var t2 := t1 + [Event(now, RmReq(p))];
    var t4 := t2 + [Event(now, PutReq(q, st))] + [Event(now, PutOkReq(q, sub, filesize))];
    MkdirAt(t, now, p, q);
    MkdirAt(t, now, p, Parent(p));
    RmAt(t1, now, p, q);
    UploadAt(t2, now, q, st, sub, filesize);
    MkdirAt(t4, now, p, q);
    DoneStays(t4, Event(now, MkdirReq(p)), q);
    GapShows(t4 + [Event(now, MkdirReq(p))], p, n);
  }

  lemma DoneStays(t: seq<Event>, e: Event, q: Path)
    requires GoodTrace(t) && GoodRequest(e.req) && e.req.MkdirReq? && q in Done(t)
    ensures GoodTrace(t + [e]) && q in Done(t + [e])
  {
    assert (t + [e])[..|t|] == t;
  }
}
