/**
 Namenode metadata: inodes, the path-to-inode store, and what one log entry does to it.
 A path is the sequence of its components, [] being "/". Every function here describes one
 RocksDB operation; the class in the module RocksStore carries the operations out step by step.
 */
module Metadata {
  import opened Options
  import StorageTypes

  datatype Error =
    | PathNotExists
    | PathExists
    | ExpectedFile
    | LockConflict
    | BadStorageType
    | BadRange
    | ParentMissing

  datatype Result<+T> = Ok(value: T) | Err(error: Error)

  type Path = seq<string>

  /** LOCK_REFRESH_INTERVAL, in seconds. */
  const LOCK_REFRESH_INTERVAL: nat := 60

  function Parent(p: Path): (r: Path)
    requires p != []
  {
    p[..|p| - 1]
  }

  function BaseName(p: Path): (r: string)
    requires p != []
  {
    p[|p| - 1]
  }

  datatype Inode = Inode(
    fullpath: Path,
    isDirectory: bool,
    filesize: nat,
    storageType: Option<StorageTypes.StorageType>,
    sub: seq<string>,
    valid: bool,
    ddlLock: nat,
    aggInodeId: string)

  type Store = map<Path, Inode>

  /** A default-constructed inode whose path was set and which was found to be absent. */
  function Absent(p: Path): (r: Inode) {
    Inode(p, false, 0, None, [], false, 0, "")
  }

  function DefaultDir(p: Path): (r: Inode) {
    Inode(p, true, 0, None, [], true, 0, "")
  }

  function FileName(inode: Inode): (r: string)
    requires inode.fullpath != []
  {
    BaseName(inode.fullpath) + (if inode.isDirectory then "/" else "")
  }

  /** get_inode on a fresh inode: the stored one, the implicit root, or an absent one. */
  function GetInode(db: Store, p: Path): (r: Inode) {
    if p in db then db[p] else if p == [] then DefaultDir([]) else Absent(p)
  }

  predicate PathLives(db: Store, p: Path) {
    p == [] || (p in db && db[p].valid)
  }

  /** get_parent_inode finds a parent record, or the parent is "/". */
  predicate ParentKnown(db: Store, p: Path)
    requires p != []
  {
    Parent(p) in db || Parent(p) == []
  }

  function AddName(sub: seq<string>, name: string): (r: seq<string>) {
    if name in sub then sub else sub + [name]
  }

  function EraseName(sub: seq<string>, name: string): (r: seq<string>) {
    if sub == [] then []
    else if sub[0] == name then EraseName(sub[1..], name)
    else [sub[0]] + EraseName(sub[1..], name)
  }

  /** Inode::lock. */
  function Lock(inode: Inode, now: nat): (r: Result<Inode>) {
    if inode.ddlLock >= now then Err(LockConflict)
    else Ok(inode.(ddlLock := now + LOCK_REFRESH_INTERVAL))
  }

  // What the leader checks before it proposes a log entry.

  function PrepareMkdir(db: Store, p: Path): (r: Result<Inode>)
    requires p != []
  {
    if !PathLives(db, Parent(p)) then Err(PathNotExists)
    else if PathLives(db, p) then Err(PathExists)
    else Ok(DefaultDir(p))
  }

  function PreparePut(db: Store, p: Path, now: nat, storageType: Option<StorageTypes.StorageType>): (r: Result<Inode>) {
    var inode := GetInode(db, p);
    if inode.valid && inode.isDirectory then Err(PathExists)
    else match Lock(inode.(isDirectory := false, valid := true), now)
      case Err(e) => Err(e)
      case Ok(locked) => if storageType.None? then Err(BadStorageType) else Ok(locked.(storageType := storageType))
  }

  function PreparePutOk(db: Store, p: Path, sub: seq<string>, filesize: nat): (r: Result<Inode>) {
    var inode := GetInode(db, p);
    if !inode.valid then Err(PathNotExists)
    else if inode.isDirectory then Err(ExpectedFile)
    else Ok(inode.(sub := sub, filesize := filesize))
  }

  function PrepareRm(db: Store, p: Path): (r: Result<Inode>) {
    if !PathLives(db, p) then Err(PathNotExists) else Ok(Absent(p))
  }

  function PrepareLock(db: Store, p: Path, now: nat): (r: Result<Inode>) {
    var inode := GetInode(db, p);
    if !inode.valid then Err(PathNotExists)
    else Ok(inode.(ddlLock := now + LOCK_REFRESH_INTERVAL))
  }

  // What an applied log entry does to the store.

  /** Writes the parent with its new listing, then the inode itself. */
  function WithParent(db: Store, p: Path, sub: seq<string>, inode: Inode): (r: Store)
    requires p != []
  {
    var parent := GetInode(db, Parent(p));
    db[parent.fullpath := parent.(sub := sub)][inode.fullpath := inode]
  }

  function ParentSub(db: Store, p: Path): (r: seq<string>)
    requires p != []
  {
    GetInode(db, Parent(p)).sub
  }

  function ApplyMkdir(db: Store, inode: Inode): (r: Result<Store>)
    requires inode.fullpath != []
  {
    if !ParentKnown(db, inode.fullpath) then Err(ParentMissing)
    else Ok(WithParent(db, inode.fullpath, AddName(ParentSub(db, inode.fullpath), FileName(inode)), inode))
  }

  function ApplyPut(db: Store, inode: Inode): (r: Store) {
    db[inode.fullpath := inode]
  }

  /** The stored inode once the upload described by `inode` is committed. */
  function Committed(stored: Inode, inode: Inode): (r: Inode) {
    stored.(ddlLock := 0, sub := inode.sub, filesize := inode.filesize)
  }

  function ApplyPutOk(db: Store, inode: Inode): (r: Result<Store>)
    requires inode.fullpath != []
  {
    if !ParentKnown(db, inode.fullpath) then Err(ParentMissing)
    else Ok(WithParent(db, inode.fullpath, AddName(ParentSub(db, inode.fullpath), FileName(inode)),
                       Committed(GetInode(db, inode.fullpath), inode)))
  }

  function ApplyRm(db: Store, inode: Inode): (r: Result<Store>)
    requires inode.fullpath != []
  {
    if !ParentKnown(db, inode.fullpath) then Err(ParentMissing)
    else
      var name := FileName(inode);
      Ok(WithParent(db, inode.fullpath, EraseName(EraseName(ParentSub(db, inode.fullpath), name), name + "/"), inode))
  }

  function ApplyPutBatch(db: Store, inodes: seq<Inode>): (r: Store) {
    if inodes == [] then db
    else ApplyPut(ApplyPutBatch(db, inodes[..|inodes| - 1]), inodes[|inodes| - 1])
  }

  predicate NonRoot(inodes: seq<Inode>) {
    forall i :: 0 <= i < |inodes| ==> inodes[i].fullpath != []
  }

  function WithAgg(stored: Inode, inode: Inode): (r: Inode) {
    if inode.aggInodeId == "" then stored else stored.(aggInodeId := inode.aggInodeId)
  }

  /** The file records that a batch commit writes; each is computed from the store before the batch. */
  function BatchFiles(db: Store, inodes: seq<Inode>): (r: Store) {
    if inodes == [] then map[]
    else
      var x := inodes[|inodes| - 1];
      BatchFiles(db, inodes[..|inodes| - 1])[x.fullpath := WithAgg(Committed(GetInode(db, x.fullpath), x), x)]
  }

  /** The parent records that a batch commit reads once, extends in memory and writes last. */
  function BatchParents(db: Store, inodes: seq<Inode>): (r: Store)
    requires NonRoot(inodes)
  {
    if inodes == [] then map[]
    else
      var x := inodes[|inodes| - 1];
      var read := BatchParents(db, inodes[..|inodes| - 1]);
      var p := Parent(x.fullpath);
      var cur := if p in read then read[p] else GetInode(db, p);
      read[p := cur.(sub := AddName(cur.sub, FileName(x)))]
  }

  function ApplyPutOkBatch(db: Store, inodes: seq<Inode>): (r: Result<Store>)
    requires NonRoot(inodes)
  {
    if exists i :: 0 <= i < |inodes| && !ParentKnown(db, inodes[i].fullpath) then Err(ParentMissing)
    else Ok(db + BatchFiles(db, inodes) + BatchParents(db, inodes))
  }

  /** Every record is stored under its own path. */
  predicate KeysOk(db: Store) {
    forall p :: p in db ==> db[p].fullpath == p
  }
}
