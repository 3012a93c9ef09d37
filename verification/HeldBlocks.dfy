/**
 What the block files are for: a block that was fetched once is answered without the datanodes, until an
 open of its path brings another shard list for it.
 */
module HeldBlocks {
  import opened Options
  import opened ShardList
  import opened StorageTypes
  import opened Recovery
  import opened BlockReads
  import opened CachedReads

  /** A read within the file touches block j. */
  predicate Touches(inode: FileInode, offset: nat, size: nat, j: nat) {
    InRange(inode, offset, size) && j < |inode.sub| &&
    var (first, second) := IndexsOf(inode, offset, size);
    first <= j < second
  }

  /** Operation i of the run reads block j of path p, and the shards that arrive for it decode to something. */
  ghost predicate Fetches(lib: Library, digest: Bytes -> string, ops: seq<Op>, i: nat, p: string, j: nat) {
    && i < |ops| && ops[i].ReadOp? && ops[i].path == p && p in Opened(ops[..i])
    && var inode, op := Opened(ops[..i])[p], ops[i];
    && Touches(inode, op.offset, op.size, j)
    && DecodedShards(lib, inode.storageType, ParseShards(inode.sub[j]), op.replies(j), digest) != []
  }

  /** Every open of p among operations i, ..., k - 1 brings the shard list `text` for block j. */
  ghost predicate SameText(ops: seq<Op>, i: nat, k: nat, p: string, j: nat, text: string)
    requires k <= |ops|
  {
    forall m :: i <= m < k && ops[m].OpenOp? && ops[m].path == p ==>
      j < |ops[m].remote.sub| && ops[m].remote.sub[j] == text
  }

  function Stored(files: Files, p: string, j: nat): (block: Bytes) {
    if (p, j) in files then files[(p, j)] else []
  }

  /** Block j of p is in a file that is not empty, and the open inode names it by `text`. */
  ghost predicate InFile(lib: Library, digest: Bytes -> string, ops: seq<Op>, p: string, j: nat, text: string) {
    && var files := FilesAfter(lib, digest, ops);
    && Stored(files, p, j) != []
    && p in Opened(ops) && j < |Opened(ops)[p].sub| && Opened(ops)[p].sub[j] == text
  }

  lemma {:induction false} ReadFills(lib: Library, digest: Bytes -> string, files: Files, path: string,
                                     inode: FileInode, replies: Replies, lo: nat, hi: nat, j: nat)
    requires Usable(inode) && lo <= j < hi && j < |inode.sub|
    requires DecodedShards(lib, inode.storageType, ParseShards(inode.sub[j]), replies(j), digest) != []
    ensures var r := FilesRead(lib, digest, files, path, inode, replies, lo, hi);
      (path, j) in r && r[(path, j)] != []
    decreases hi
  {
    hide DecodedShards, ParseShards;
    if j < hi - 1 {
      ReadFills(lib, digest, files, path, inode, replies, lo, hi - 1, j);
    }
  }

  lemma {:induction false} ReadLeaves(lib: Library, digest: Bytes -> string, files: Files, path: string,
                                      inode: FileInode, replies: Replies, lo: nat, hi: nat, k: (string, int))
    requires Usable(inode) && lo <= hi && k in files && files[k] != []
    ensures var r := FilesRead(lib, digest, files, path, inode, replies, lo, hi); k in r && r[k] == files[k]
    decreases hi
  {
    hide DecodedShards, ParseShards;
    if lo < hi {
      ReadLeaves(lib, digest, files, path, inode, replies, lo, hi - 1, k);
    }
  }

  lemma FetchFills(lib: Library, digest: Bytes -> string, ops: seq<Op>, i: nat, p: string, j: nat)
    requires Fetches(lib, digest, ops, i, p, j)
    ensures InFile(lib, digest, ops[..i + 1], p, j, Opened(ops[..i])[p].sub[j])
  {
    var inode, op := Opened(ops[..i])[p], ops[i];
    var (first, second) := IndexsOf(inode, op.offset, op.size);
    assert ops[..i + 1][..i] == ops[..i];
    hide FilesRead, DecodedShards, ParseShards, GetIndexs;
    ReadFills(lib, digest, FilesAfter(lib, digest, ops[..i]), p, inode, op.replies, first, second, j);
  }

  lemma StepLeaves(lib: Library, digest: Bytes -> string, ops: seq<Op>, k: nat, p: string, j: nat, text: string)
    requires k < |ops| && InFile(lib, digest, ops[..k], p, j, text) && SameText(ops, k, k + 1, p, j, text)
    ensures InFile(lib, digest, ops[..k + 1], p, j, text)
    ensures Stored(FilesAfter(lib, digest, ops[..k + 1]), p, j) == Stored(FilesAfter(lib, digest, ops[..k]), p, j)
  {
    assert ops[..k + 1][..k] == ops[..k];
    hide FilesRead, DecodedShards, GetIndexs, IndexsOf;
    var m, files := Opened(ops[..k]), FilesAfter(lib, digest, ops[..k]);
    if ops[k].ReadOp? && ops[k].path in m && InRange(m[ops[k].path], ops[k].offset, ops[k].size) {
      var op, inode := ops[k], m[ops[k].path];
      var (first, second) := IndexsOf(inode, op.offset, op.size);
      ReadLeaves(lib, digest, files, op.path, inode, op.replies, first, second, (p, j));
    }
  }

  /** A block that was fetched stays in its file while opens bring the same shard list for it. */
  lemma {:induction false} StaysInFile(lib: Library, digest: Bytes -> string, ops: seq<Op>, i: nat, k: nat, p: string,
                                       j: nat)
    requires Fetches(lib, digest, ops, i, p, j) && i < k <= |ops|
    requires SameText(ops, i + 1, k, p, j, Opened(ops[..i])[p].sub[j])
    ensures InFile(lib, digest, ops[..k], p, j, Opened(ops[..i])[p].sub[j])
    ensures Stored(FilesAfter(lib, digest, ops[..k]), p, j) == Stored(FilesAfter(lib, digest, ops[..i + 1]), p, j)
    decreases k
  {
    hide InFile, FilesAfter, Stored, DecodedShards, IndexsOf;
    if k == i + 1 {
      FetchFills(lib, digest, ops, i, p, j);
    } else {
      StaysInFile(lib, digest, ops, i, k - 1, p, j);
      StepLeaves(lib, digest, ops, k - 1, p, j, Opened(ops[..i])[p].sub[j]);
    }
  }

  /** No later read loses a block that was fetched, whatever the datanodes reply to it. */
  lemma FetchedIsNotLost(lib: Library, digest: Bytes -> string, ops: seq<Op>, i: nat, k: nat, p: string, j: nat)
    requires Fetches(lib, digest, ops, i, p, j) && i < k < |ops|
    requires SameText(ops, i + 1, k, p, j, Opened(ops[..i])[p].sub[j])
    requires ops[k].ReadOp? && ops[k].path == p
    ensures p in Opened(ops[..k])
    ensures Usable(Opened(ops[..k])[p]) ==> j !in LostAt(lib, digest, ops, k)
  {
    hide Fetches, DecodedShards, FilesAfter, SameText;
    StaysInFile(lib, digest, ops, i, k, p, j);
  }

  ghost predicate FetchedBefore(lib: Library, digest: Bytes -> string, ops: seq<Op>, k: nat, p: string, j: nat)
    requires k <= |ops|
  {
    exists i: nat :: i < k && Fetches(lib, digest, ops, i, p, j) &&
      SameText(ops, i + 1, k, p, j, Opened(ops[..i])[p].sub[j])
  }

  /** Every block that read k of the run touches was fetched before, and not renamed since. */
  ghost predicate AllFetched(lib: Library, digest: Bytes -> string, ops: seq<Op>, k: nat)
    requires k < |ops| && ops[k].ReadOp? && ops[k].path in Opened(ops[..k])
  {
    forall j: nat :: Touches(Opened(ops[..k])[ops[k].path], ops[k].offset, ops[k].size, j) ==>
      FetchedBefore(lib, digest, ops, k, ops[k].path, j)
  }

  lemma LostIsTouched(lib: Library, digest: Bytes -> string, ops: seq<Op>, k: nat, j: nat)
    requires k < |ops| && ops[k].ReadOp? && ops[k].path in Opened(ops[..k]) && Usable(Opened(ops[..k])[ops[k].path])
    requires j in LostAt(lib, digest, ops, k)
    ensures Touches(Opened(ops[..k])[ops[k].path], ops[k].offset, ops[k].size, j)
  {
    hide Had, FilesAfter, GetIndexs;
  }

  lemma NotLost(lib: Library, digest: Bytes -> string, ops: seq<Op>, k: nat, j: nat)
    requires k < |ops| && ops[k].ReadOp? && ops[k].path in Opened(ops[..k]) && Usable(Opened(ops[..k])[ops[k].path])
    requires FetchedBefore(lib, digest, ops, k, ops[k].path, j)
    ensures j !in LostAt(lib, digest, ops, k)
  {
    hide LostAt, SameText, DecodedShards, IndexsOf;
    var p := ops[k].path;
    var i: nat :| i < k && Fetches(lib, digest, ops, i, p, j) &&
      SameText(ops, i + 1, k, p, j, Opened(ops[..i])[p].sub[j]);
    FetchedIsNotLost(lib, digest, ops, i, k, p, j);
  }

  /** With all datanodes down a read of fetched blocks still returns exactly the bytes of the range. */
  lemma OfflineRead(lib: Library, digest: Bytes -> string, blockOf: string -> Bytes, ops: seq<Op>, k: nat,
                    answer: Option<Answer>)
    requires AllStanding(lib, digest, blockOf, ops) && k < |ops| && AnswerOk(lib, digest, ops, k, answer)
    requires ops[k].ReadOp? && ops[k].path in Opened(ops[..k]) && WellFormed(blockOf, Opened(ops[..k])[ops[k].path])
    requires AllFetched(lib, digest, ops, k)
    ensures var inode, op := Opened(ops[..k])[ops[k].path], ops[k];
      && inode.filesize <= |BlockRange(blockOf, inode, {}, 0, |inode.sub|)|
      && answer == Some(Data(if inode.filesize < op.offset then []
                             else Content(blockOf, inode)[op.offset..EndOf(inode, op.offset, op.size)]))
  {
    assert Usable(Opened(ops[..k])[ops[k].path]);
    hide FetchedBefore, Touches, LostAt, WellFormed, Content, AnswerOk, AllStanding;
    forall j ensures j !in LostAt(lib, digest, ops, k) {
      if j in LostAt(lib, digest, ops, k) {
        LostIsTouched(lib, digest, ops, k, j);
        NotLost(lib, digest, ops, k, j);
      }
    }
    ExactRead(lib, digest, blockOf, ops, k, answer);
  }
}
