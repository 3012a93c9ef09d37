/**
 The namenode's key-value store, updated in place by applied log entries. Each method carries out
 one RocksDB operation the way the code does (linear search in a listing, in-place erase, a cache of
 parent records) and is proved against the store function of the module Metadata.
 */
module RocksStore {
  import opened Metadata

  /** std::find over a directory listing. */
  method Contains(sub: seq<string>, name: string) returns (found: bool)
    ensures found <==> name in sub
  {
    var i := 0;
    while i < |sub| && sub[i] != name
      invariant i <= |sub| && name !in sub[..i]
    {
      i := i + 1;
    }
    found := i < |sub|;
    assert !found ==> sub[..i] == sub;
  }

  /** std::remove followed by erase: kept names move to the front, in order. */
  method Erase(sub: seq<string>, name: string) returns (kept: seq<string>)
    ensures kept == EraseName(sub, name)
  {
    kept := [];
    for i := 0 to |sub|
      invariant EraseName(sub, name) == kept + EraseName(sub[i..], name)
    {
      if sub[i] != name {
        kept := kept + [sub[i]];
      }
      assert sub[i..] == [sub[i]] + sub[i + 1..];
    }
  }

  lemma OverlayUpdate<K, V>(a: map<K, V>, b: map<K, V>, k: K, v: V)
    ensures (a + b)[k := v] == a + b[k := v]
  {
  }

  lemma OverlayAssociative<K, V>(a: map<K, V>, b: map<K, V>, c: map<K, V>)
    ensures a + (b + c) == a + b + c
  {
  }

  /** One more element of a batch: its file record, and its parent as listed so far. */
  lemma BatchStep(db: Store, inodes: seq<Inode>, i: nat, read: Store)
    requires NonRoot(inodes) && i < |inodes| && NonRoot(inodes[..i]) && NonRoot(inodes[..i + 1])
    requires var p := Parent(inodes[i].fullpath); p in read && read[p] == GetInode(db, p)
    ensures var x := inodes[i];
      BatchFiles(db, inodes[..i + 1]) ==
      BatchFiles(db, inodes[..i])[x.fullpath := WithAgg(Committed(GetInode(db, x.fullpath), x), x)]
    ensures var x, p := inodes[i], Parent(inodes[i].fullpath);
      var cur := (read + BatchParents(db, inodes[..i]))[p];
      read + BatchParents(db, inodes[..i + 1]) ==
      (read + BatchParents(db, inodes[..i]))[p := cur.(sub := AddName(cur.sub, FileName(x)))]
  {
    assert inodes[..i + 1][..i] == inodes[..i];
    var x, p := inodes[i], Parent(inodes[i].fullpath);
    var was := BatchParents(db, inodes[..i]);
    var cur := (read + was)[p];
    OverlayUpdate(read, was, p, cur.(sub := AddName(cur.sub, FileName(x))));
  }

  lemma NoParents(db: Store)
    ensures BatchParents(db, []) == map[]
  {
  }

  lemma ParentsGrow(db: Store, inodes: seq<Inode>, i: nat)
    requires NonRoot(inodes) && i < |inodes|
    ensures NonRoot(inodes[..i]) && NonRoot(inodes[..i + 1])
    ensures BatchParents(db, inodes[..i + 1]).Keys == BatchParents(db, inodes[..i]).Keys + {Parent(inodes[i].fullpath)}
  {
    assert inodes[..i + 1][..i] == inodes[..i];
  }

  class RocksDB {
    var db: Store

    constructor ()
      ensures db == map[]
    {
      db := map[];
    }

    method GetParentInode(p: Path) returns (parent: Inode)
      requires p != [] && ParentKnown(db, p)
      ensures parent == GetInode(db, Parent(p))
    {
      if Parent(p) !in db {
        parent := DefaultDir([]);
      } else {
        parent := db[Parent(p)];
      }
    }

    method InternalMkdir(inode: Inode)
      requires inode.fullpath != [] && ParentKnown(db, inode.fullpath)
      modifies this
      ensures ApplyMkdir(old(db), inode) == Ok(db)
    {
      var parent := GetParentInode(inode.fullpath);
      parent := Listed(parent, inode);
      db := db[parent.fullpath := parent][inode.fullpath := inode];
    }

    method InternalPut(inode: Inode)
      modifies this
      ensures db == ApplyPut(old(db), inode)
    {
      db := db[inode.fullpath := inode];
    }

    method InternalPutOk(inode: Inode)
      requires inode.fullpath != [] && ParentKnown(db, inode.fullpath)
      modifies this
      ensures ApplyPutOk(old(db), inode) == Ok(db)
    {
      var parent := GetParentInode(inode.fullpath);
      parent := Listed(parent, inode);
      var dbInode := GetInode(db, inode.fullpath);
      dbInode := dbInode.(ddlLock := 0);
      dbInode := dbInode.(sub := inode.sub);
      dbInode := dbInode.(filesize := inode.filesize);
      db := db[parent.fullpath := parent][dbInode.fullpath := dbInode];
    }

    method InternalRm(inode: Inode)
      requires inode.fullpath != [] && ParentKnown(db, inode.fullpath)
      modifies this
      ensures ApplyRm(old(db), inode) == Ok(db)
    {
      var parent := GetParentInode(inode.fullpath);
      var sub := Erase(parent.sub, FileName(inode));
      sub := Erase(sub, FileName(inode) + "/");
      parent := parent.(sub := sub);
      db := db[parent.fullpath := parent][inode.fullpath := inode];
    }

    method InternalPutBatch(inodes: seq<Inode>)
      modifies this
      ensures db == ApplyPutBatch(old(db), inodes)
    {
      for i := 0 to |inodes|
        invariant db == ApplyPutBatch(old(db), inodes[..i])
      {
        db := db[inodes[i].fullpath := inodes[i]];
        assert inodes[..i + 1][..i] == inodes[..i];
      }
      assert inodes[..|inodes|] == inodes;
    }

    /** First loop: each parent record is read once, before anything is written. */
    method ReadParents(inodes: seq<Inode>) returns (parents: Store)
      requires NonRoot(inodes) && forall i :: 0 <= i < |inodes| ==> ParentKnown(db, inodes[i].fullpath)
      ensures forall p :: p in parents ==> parents[p] == GetInode(db, p)
      ensures forall i :: 0 <= i < |inodes| ==> Parent(inodes[i].fullpath) in parents
      ensures forall p :: p in parents ==> p in BatchParents(db, inodes)
    {
      hide BatchParents, GetInode;
      NoParents(db);
      parents := map[];
      for i := 0 to |inodes|
        invariant forall p :: p in parents ==> parents[p] == GetInode(db, p)
        invariant forall j :: 0 <= j < i ==> Parent(inodes[j].fullpath) in parents
        invariant forall p :: p in parents ==> p in BatchParents(db, inodes[..i])
      {
        ParentsGrow(db, inodes, i);
        var parentPath := Parent(inodes[i].fullpath);
        if parentPath !in parents {
          var parent := GetParentInode(inodes[i].fullpath);
          parents := parents[parentPath := parent];
        }
      }
      assert inodes[..|inodes|] == inodes;
    }

    /** The cached parent with one more file name, unless it is there already. */
    method Listed(parent: Inode, inode: Inode) returns (r: Inode)
      requires inode.fullpath != []
      ensures r == parent.(sub := AddName(parent.sub, FileName(inode)))
    {
      r := parent;
      var found := Contains(parent.sub, FileName(inode));
      if !found {
        r := parent.(sub := parent.sub + [FileName(inode)]);
      }
    }

    /** The record of one committed file, read from the store and unlocked. */
    method FileRecord(inode: Inode) returns (r: Inode)
      ensures r == WithAgg(Committed(GetInode(db, inode.fullpath), inode), inode)
    {
      r := GetInode(db, inode.fullpath);
      r := r.(ddlLock := 0);
      r := r.(sub := inode.sub);
      r := r.(filesize := inode.filesize);
      if inode.aggInodeId != "" {
        r := r.(aggInodeId := inode.aggInodeId);
      }
    }

    /** Second loop: extend the cached parents and collect the file records, all from the old store. */
    method CommitFiles(inodes: seq<Inode>, read: Store) returns (batch: Store, parents: Store)
      requires KeysOk(db) && NonRoot(inodes)
      requires forall p :: p in read ==> read[p] == GetInode(db, p)
      requires forall i :: 0 <= i < |inodes| ==> Parent(inodes[i].fullpath) in read
      ensures batch == BatchFiles(db, inodes)
      ensures parents == read + BatchParents(db, inodes)
    {
      batch, parents := map[], read;
      assert inodes[..0] == [] && read + map[] == read;
      hide BatchFiles, BatchParents;
      for i := 0 to |inodes|
        invariant batch == BatchFiles(db, inodes[..i])
        invariant parents == read + BatchParents(db, inodes[..i])
      {
        BatchStep(db, inodes, i, read);
        var parentPath := Parent(inodes[i].fullpath);
        var parent := Listed(parents[parentPath], inodes[i]);
        parents := parents[parentPath := parent];
        var dbInode := FileRecord(inodes[i]);
        batch := batch[dbInode.fullpath := dbInode];
      }
      assert inodes[..|inodes|] == inodes;
    }

    /** Third loop: the parents are written last, in whatever order the hash map yields them. */
    method WriteParents(files: Store, parents: Store) returns (batch: Store)
      requires KeysOk(parents)
      ensures batch == files + parents
    {
      batch := files;
      var left := parents.Keys;
      while left != {}
        invariant left <= parents.Keys
        invariant batch.Keys == files.Keys + (parents.Keys - left)
        invariant forall p :: p in parents && p !in left ==> batch[p] == parents[p]
        invariant forall p :: p in files && (p !in parents || p in left) ==> batch[p] == files[p]
      {
        var path :| path in left;
        batch := batch[parents[path].fullpath := parents[path]];
        left := left - {path};
      }
    }

    method InternalPutOkBatch(inodes: seq<Inode>)
      requires KeysOk(db) && NonRoot(inodes)
      requires forall i :: 0 <= i < |inodes| ==> ParentKnown(db, inodes[i].fullpath)
      modifies this
      ensures ApplyPutOkBatch(old(db), inodes) == Ok(db)
    {
      var read := ReadParents(inodes);
      var files, parents := CommitFiles(inodes, read);
      BatchParentsKeys(db, inodes);
      assert parents == BatchParents(db, inodes);
      var batch := WriteParents(files, parents);
      OverlayAssociative(db, files, parents);
      db := db + batch;
    }
  }

  lemma {:induction false} BatchParentsKeys(db: Store, inodes: seq<Inode>)
    requires KeysOk(db) && NonRoot(inodes)
    ensures KeysOk(BatchParents(db, inodes))
  {
    if inodes != [] {
      BatchParentsKeys(db, inodes[..|inodes| - 1]);
    }
  }
}
