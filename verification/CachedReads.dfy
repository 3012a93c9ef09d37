/**
 Ranged reads through the client's cache of block files. A block is taken from its file or decoded from
 whatever shards the datanodes return to this read; a block that cannot be decoded leaves an empty file
 behind and is missing from the answer.
 */
module CachedReads {
  import opened Division
  import opened Options
  import opened ShardList
  import opened StorageTypes
  import opened Placement
  import opened Recovery
  import opened WholeFile
  import opened BlockReads

  /** What the datanodes reply to one read, by block index and place in the shard list. */
  type Replies = nat -> nat -> Option<Bytes>

  /** The block files, by path and index. */
  type Files = map<(string, int), Bytes>

  /** An inode with a storage type that blocks can be cut and decoded by. */
  predicate Usable(inode: FileInode) {
    inode.BlockSize() > 0 && inode.storageType.DecodeBlocks() >= 1
  }

  /** Block i: its file when that is not empty, else what can be decoded now. */
  function Had(lib: Library, digest: Bytes -> string, files: Files, path: string, inode: FileInode, replies: Replies,
               i: nat): (block: Bytes)
    requires Usable(inode) && i < |inode.sub|
  {
    if (path, i) in files && files[(path, i)] != [] then files[(path, i)]
    else DecodedShards(lib, inode.storageType, ParseShards(inode.sub[i]), replies(i), digest)
  }

  function AllHad(lib: Library, digest: Bytes -> string, files: Files, path: string, inode: FileInode,
                  replies: Replies): (blocks: seq<Bytes>)
    requires Usable(inode)
    ensures |blocks| == |inode.sub|
    ensures forall i :: 0 <= i < |blocks| ==> blocks[i] == Had(lib, digest, files, path, inode, replies, i)
  {
    seq(|inode.sub|, i requires 0 <= i < |inode.sub| => Had(lib, digest, files, path, inode, replies, i))
  }

  /** The block files once blocks lo, ..., hi - 1 were read: each holds what was had, be it nothing. */
  function FilesRead(lib: Library, digest: Bytes -> string, files: Files, path: string, inode: FileInode,
                     replies: Replies, lo: nat, hi: nat): (r: Files)
    requires Usable(inode) && lo <= hi
    decreases hi
  {
    if lo == hi then files
    else
      var r := FilesRead(lib, digest, files, path, inode, replies, lo, hi - 1);
      if hi - 1 < |inode.sub| then r[(path, hi - 1) := Had(lib, digest, files, path, inode, replies, hi - 1)] else r
  }

  /** The shard list of a block is another one, or none, in the remote inode. */
  predicate Outdated(local: seq<string>, remote: seq<string>, i: int) {
    0 <= i < |local| && (|remote| <= i || local[i] != remote[i])
  }

  /** The block files after an open: those with an outdated shard list are gone. */
  function AfterOpen(files: Files, path: string, local: seq<string>, remote: seq<string>): (r: Files) {
    map k | k in files && !(k.0 == path && Outdated(local, remote, k.1)) :: files[k]
  }

  /** Some block files may have been removed, and nothing else. */
  ghost predicate Pruned(was: Files, now: Files) {
    forall k :: k in now ==> k in was && now[k] == was[k]
  }

  /** Reading blocks changes no file of a later one. */
  lemma {:induction false} LaterFiles(lib: Library, digest: Bytes -> string, files: Files, path: string,
                                      inode: FileInode, replies: Replies, lo: nat, hi: nat, i: nat)
    requires Usable(inode) && lo <= hi <= i
    ensures var r := FilesRead(lib, digest, files, path, inode, replies, lo, hi);
      ((path, i) in r <==> (path, i) in files) && ((path, i) in files ==> r[(path, i)] == files[(path, i)])
    decreases hi
  {
    hide Had;
    if lo < hi {
      LaterFiles(lib, digest, files, path, inode, replies, lo, hi - 1, i);
    }
  }

  lemma HadLater(lib: Library, digest: Bytes -> string, files: Files, path: string, inode: FileInode, replies: Replies,
                 lo: nat, i: nat)
    requires Usable(inode) && lo <= i < |inode.sub|
    ensures Had(lib, digest, FilesRead(lib, digest, files, path, inode, replies, lo, i), path, inode, replies, i) ==
      Had(lib, digest, files, path, inode, replies, i)
  {
    hide FilesRead, DecodedShards;
    LaterFiles(lib, digest, files, path, inode, replies, lo, i, i);
  }

  lemma {:induction false} NoFilesBeyond(lib: Library, digest: Bytes -> string, files: Files, path: string,
                                         inode: FileInode, replies: Replies, lo: nat, mid: nat, hi: nat)
    requires Usable(inode) && lo <= mid <= hi && |inode.sub| <= mid
    ensures FilesRead(lib, digest, files, path, inode, replies, lo, hi) ==
      FilesRead(lib, digest, files, path, inode, replies, lo, mid)
    decreases hi
  {
    hide Had;
    if mid < hi {
      NoFilesBeyond(lib, digest, files, path, inode, replies, lo, mid, hi - 1);
    }
  }

  class BlockCache {
    const lib: Library
    const digest: Bytes -> string
    /** local_inode_cache. */
    var inodes: map<string, FileInode>
    var files: Files

    constructor (lib: Library, digest: Bytes -> string)
      ensures inodes == map[] && files == map[] && this.lib == lib && this.digest == digest
    {
      this.lib, this.digest, inodes, files := lib, digest, map[], map[];
    }

    /** First loop of update_inode: block files whose shard list changed. */
    method RemoveChanged(path: string, local: seq<string>, remote: seq<string>)
      modifies this`files
      ensures Pruned(old(files), files)
      ensures forall k :: k in old(files) ==>
        (k in files <==> !(k.0 == path && k.1 < |remote| && Outdated(local, remote, k.1)))
    {
      for i := 0 to Min(|local|, |remote|)
        invariant Pruned(old(files), files)
        invariant forall k :: k in old(files) ==>
          (k in files <==> !(k.0 == path && k.1 < i && Outdated(local, remote, k.1)))
      {
        if local[i] != remote[i] {
          files := files - {(path, i)};
        }
      }
    }

    /** Second loop of update_inode: block files past the end of the remote file. */
    method RemoveBeyond(path: string, from: nat, to: nat)
      modifies this`files
      ensures Pruned(old(files), files)
      ensures forall k :: k in old(files) ==> (k in files <==> !(k.0 == path && from <= k.1 < to))
    {
      for i := from to Max(from, to)
        invariant Pruned(old(files), files)
        invariant forall k :: k in old(files) ==> (k in files <==> !(k.0 == path && from <= k.1 < i))
      {
        files := files - {(path, i)};
      }
    }

    /** update_inode, on open: block files that no longer match the remote inode are removed. */
    method UpdateInode(path: string, remote: FileInode)
      modifies this
      ensures inodes == old(inodes)[path := remote]
      ensures files == AfterOpen(old(files), path, LocalSub(old(inodes), path), remote.sub)
    {
      var local := LocalSub(inodes, path);
      RemoveChanged(path, local, remote.sub);
      RemoveBeyond(path, |remote.sub|, |local|);
      inodes := inodes[path := remote];
    }

    /** Reads one block, from its file when that is not empty, else by decoding, which fills the file. */
    method ReadBlock(path: string, index: nat, replies: Replies) returns (block: Bytes)
      requires path in inodes && Usable(inodes[path]) && index < |inodes[path].sub|
      modifies this`files
      ensures block == Had(lib, digest, old(files), path, inodes[path], replies, index)
      ensures files == old(files)[(path, index) := block]
    {
      hide DecodedShards, ParseShards;
      var inode := inodes[path];
      if (path, index) in files && |files[(path, index)]| > 0 {
        block := files[(path, index)];
      } else {
        block := DecodeOneBlock(lib, inode.storageType, inode.sub[index], replies(index), digest);
        files := files[(path, index) := block];
      }
    }

    /** read_data on a range of block indices. */
    method ReadBlocks(path: string, first: nat, second: nat, replies: Replies) returns (s: Bytes)
      requires path in inodes && Usable(inodes[path]) && first <= second
      modifies this`files
      ensures files == FilesRead(lib, digest, old(files), path, inodes[path], replies, first, second)
      ensures s == HadRange(AllHad(lib, digest, old(files), path, inodes[path], replies), inodes[path].BlockSize(),
                            first, second)
    {
      hide Had, AllHad, FileInode.BlockSize, Zeros, Usable;
      var inode := inodes[path];
      ghost var had := AllHad(lib, digest, files, path, inode, replies);
      s := [];
      for index := first to second
        invariant files == FilesRead(lib, digest, old(files), path, inode, replies, first, index)
        invariant s == HadRange(had, inode.BlockSize(), first, index)
      {
        if index >= |inode.sub| {
          s := s + Zeros((second - index) * inode.BlockSize());
          HadZeros(had, inode.BlockSize(), first, index, second);
          NoFilesBeyond(lib, digest, old(files), path, inode, replies, first, index, second);
          return;
        }
        HadLater(lib, digest, old(files), path, inode, replies, first, index);
        var block := ReadBlock(path, index, replies);
        s := s + block;
      }
    }

    /** read_data on a byte range. */
    method Read(path: string, offset: nat, size: nat, replies: Replies) returns (r: Answer)
      requires path in inodes ==> Usable(inodes[path]) && EndOf(inodes[path], offset, size) < TWO_TO_THE_31
      modifies this`files
      ensures path !in inodes ==> r == NotOpen && files == old(files)
      ensures path in inodes ==>
        && r == AnswerFrom(AllHad(lib, digest, old(files), path, inodes[path], replies), inodes[path], offset, size)
        && files == AfterRead(lib, digest, old(files), path, inodes[path], offset, size, replies)
    {
      hide AllHad, HadRange, FilesRead, FileInode.BlockSize, GetIndexs, IndexsOf;
      if path !in inodes {
        return NotOpen;
      }
      var inode := inodes[path];
      if inode.filesize < offset {
        return Data([]);
      }
      var wanted := if inode.filesize < offset + size then inode.filesize - offset else size;
      var indexs := GetIndexs(inode.BlockSize(), offset, wanted);
      assert indexs == IndexsOf(inode, offset, size);
      var s := ReadBlocks(path, indexs.0, indexs.1, replies);
      var base := indexs.0 * inode.BlockSize();
      if |s| < offset - base + wanted {
        return PastTheEnd;
      }
      r := Data(s[offset - base..offset - base + wanted]);
    }
  }

  function LocalSub(inodes: map<string, FileInode>, path: string): (sub: seq<string>) {
    if path in inodes then inodes[path].sub else []
  }

  predicate InRange(inode: FileInode, offset: nat, size: nat) {
    Usable(inode) && offset <= inode.filesize && EndOf(inode, offset, size) < TWO_TO_THE_31
  }

  function AfterRead(lib: Library, digest: Bytes -> string, files: Files, path: string, inode: FileInode, offset: nat,
                     size: nat, replies: Replies): (r: Files)
  {
    if !InRange(inode, offset, size) then files else
      var (first, second) := IndexsOf(inode, offset, size);
      FilesRead(lib, digest, files, path, inode, replies, first, second)
  }

  // Whole runs.

  datatype Op =
    | OpenOp(path: string, remote: FileInode)
    | ReadOp(path: string, offset: nat, size: nat, replies: Replies)

  /** The inode of each open path: the remote one at its last open. */
  function Opened(ops: seq<Op>): (m: map<string, FileInode>) {
    if |ops| == 0 then map[] else
      var m, op := Opened(ops[..|ops| - 1]), ops[|ops| - 1];
      if op.OpenOp? then m[op.path := op.remote] else m
  }

  /** The block files that a run leaves. */
  function FilesAfter(lib: Library, digest: Bytes -> string, ops: seq<Op>): (files: Files) {
    if |ops| == 0 then map[] else
      var init, op := ops[..|ops| - 1], ops[|ops| - 1];
      var m, files := Opened(init), FilesAfter(lib, digest, init);
      match op
      case OpenOp(p, remote) => AfterOpen(files, p, LocalSub(m, p), remote.sub)
      case ReadOp(p, offset, size, replies) =>
        if p in m then AfterRead(lib, digest, files, p, m[p], offset, size, replies) else files
  }

  /** Usable inodes; reads within the first 2^31 bytes. */
  ghost predicate GoodOps(ops: seq<Op>) {
    forall i :: 0 <= i < |ops| ==>
      match ops[i]
      case OpenOp(_, remote) => Usable(remote)
      case ReadOp(p, offset, size, _) =>
        p in Opened(ops[..i]) ==> EndOf(Opened(ops[..i])[p], offset, size) < TWO_TO_THE_31
  }

  /** The answer to operation i. */
  ghost predicate AnswerOk(lib: Library, digest: Bytes -> string, ops: seq<Op>, i: nat, answer: Option<Answer>)
    requires i < |ops|
  {
    match ops[i]
    case OpenOp(_, _) => answer == None
    case ReadOp(p, offset, size, replies) =>
      if p !in Opened(ops[..i]) then answer == Some(NotOpen)
      else
        var inode := Opened(ops[..i])[p];
        && Usable(inode) && EndOf(inode, offset, size) < TWO_TO_THE_31
        && answer == Some(AnswerFrom(AllHad(lib, digest, FilesAfter(lib, digest, ops[..i]), p, inode, replies), inode,
                                     offset, size))
  }

  /** From an empty cache, over every run of opens and reads, the cache answers as the files of the run say. */
  method Session(lib: Library, digest: Bytes -> string, ops: seq<Op>) returns (answers: seq<Option<Answer>>)
    requires GoodOps(ops)
    ensures |answers| == |ops|
    ensures forall i :: 0 <= i < |ops| ==> AnswerOk(lib, digest, ops, i, answers[i])
  {
    var cache := new BlockCache(lib, digest);
    answers := [];
    hide Usable, AnswerFrom, AllHad, AfterRead, AfterOpen, EndOf;
    for i := 0 to |ops|
      invariant fresh(cache) && cache.lib == lib && cache.digest == digest
      invariant cache.inodes == Opened(ops[..i]) && cache.files == FilesAfter(lib, digest, ops[..i])
      invariant forall p :: p in cache.inodes ==> Usable(cache.inodes[p])
      invariant |answers| == i && forall j :: 0 <= j < i ==> AnswerOk(lib, digest, ops, j, answers[j])
    {
      assert ops[..i + 1][..i] == ops[..i];
      match ops[i]
      case OpenOp(p, remote) =>
        cache.UpdateInode(p, remote);
        answers := answers + [None];
      case ReadOp(p, offset, size, replies) =>
        var r := cache.Read(p, offset, size, replies);
        answers := answers + [Some(r)];
    }
  }

  // What the files hold, when every shard list stands for one block.

  /** Whatever the datanodes reply, decoding the shard list `text` yields `block` or nothing. */
  ghost predicate Stands(lib: Library, digest: Bytes -> string, st: StorageType, text: string, block: Bytes) {
    && st.DecodeBlocks() >= 1
    && forall replies: nat -> Option<Bytes> {:trigger DecodedShards(lib, st, ParseShards(text), replies, digest)} ::
      DecodedShards(lib, st, ParseShards(text), replies, digest) in [block, []]
  }

  /** `blockOf` gives the block that each shard list of the file stands for, of whatever size. */
  ghost predicate Standing(lib: Library, digest: Bytes -> string, blockOf: string -> Bytes, inode: FileInode) {
    && Usable(inode)
    && forall i :: 0 <= i < |inode.sub| ==>
      Stands(lib, digest, inode.storageType, inode.sub[i], blockOf(inode.sub[i]))
  }

  lemma TextStands(lib: Library, digest: Bytes -> string, st: StorageType, text: string, block: Bytes,
                   nodes: seq<string>, end: Progress)
    requires Sound(lib, st) && CanonicalNodes(nodes) && CleanDigests(digest) && Injective(digest)
    requires IsText(text, lib, st, block, nodes, digest, end)
    ensures Stands(lib, digest, st, text, block)
  {
    forall replies: nat -> Option<Bytes>
      ensures DecodedShards(lib, st, ParseShards(text), replies, digest) in [block, []]
    {
      BlockDurable(lib, st, block, end.placed, nodes, digest, replies);
    }
  }

  /** The texts that put records stand for the blocks of the file, and the file's bytes are the content put. */
  lemma PutIsIntact(lib: Library, digest: Bytes -> string, blockOf: string -> Bytes, content: Bytes, st: StorageType,
                    sub: seq<string>, nodes: seq<string>, ends: seq<Progress>)
    requires Sound(lib, st) && st.BlockSize() > 0
    requires CanonicalNodes(nodes) && CleanDigests(digest) && Injective(digest)
    requires AreTexts(sub, lib, st, SplitBlocks(content, st.BlockSize()), nodes, digest, ends)
    requires forall i :: 0 <= i < |sub| ==> blockOf(sub[i]) == SplitBlocks(content, st.BlockSize())[i]
    ensures var inode := FileInode(|content|, st, sub);
      && Standing(lib, digest, blockOf, inode) && WellFormed(blockOf, inode)
      && inode.filesize <= |BlockRange(blockOf, inode, {}, 0, |inode.sub|)|
      && Content(blockOf, inode) == content
  {
    var inode, blocks := FileInode(|content|, st, sub), SplitBlocks(content, st.BlockSize());
    ContentIsPut(blockOf, content, inode);
    hide SplitBlocks, Content, BlockRange, WellFormed, Stands;
    forall i | 0 <= i < |sub| ensures Stands(lib, digest, st, sub[i], blocks[i]) {
      assert IsText(sub[i], lib, st, blocks[i], nodes, digest, ends[i]);
      TextStands(lib, digest, st, sub[i], blocks[i], nodes, ends[i]);
    }
  }

  /** Every non-empty block file holds the block that the cached inode names. */
  ghost predicate FilesOk(blockOf: string -> Bytes, inodes: map<string, FileInode>, files: Files) {
    forall k :: k in files && files[k] != [] ==>
      k.0 in inodes && 0 <= k.1 < |inodes[k.0].sub| && files[k] == blockOf(inodes[k.0].sub[k.1])
  }

  lemma OpenKeeps(blockOf: string -> Bytes, inodes: map<string, FileInode>, files: Files, path: string,
                  remote: FileInode)
    requires FilesOk(blockOf, inodes, files)
    ensures FilesOk(blockOf, inodes[path := remote], AfterOpen(files, path, LocalSub(inodes, path), remote.sub))
  {
  }

  /** What is had of a block is the block or nothing. */
  lemma HadStands(lib: Library, digest: Bytes -> string, blockOf: string -> Bytes, inodes: map<string, FileInode>,
                  files: Files, path: string, replies: Replies, i: nat)
    requires FilesOk(blockOf, inodes, files) && path in inodes && Standing(lib, digest, blockOf, inodes[path])
    requires i < |inodes[path].sub|
    ensures Had(lib, digest, files, path, inodes[path], replies, i) in [blockOf(inodes[path].sub[i]), []]
  {
    var inode := inodes[path];
    assert Stands(lib, digest, inode.storageType, inode.sub[i], blockOf(inode.sub[i]));
    hide DecodedShards, ParseShards;
  }

  lemma FillKeeps(blockOf: string -> Bytes, inodes: map<string, FileInode>, files: Files, path: string, i: nat,
                  block: Bytes)
    requires FilesOk(blockOf, inodes, files) && path in inodes && i < |inodes[path].sub|
    requires block in [blockOf(inodes[path].sub[i]), []]
    ensures FilesOk(blockOf, inodes, files[(path, i) := block])
  {
  }

  lemma {:induction false} ReadKeeps(lib: Library, digest: Bytes -> string, blockOf: string -> Bytes,
                                     inodes: map<string, FileInode>, files: Files, path: string, replies: Replies,
                                     lo: nat, hi: nat)
    requires FilesOk(blockOf, inodes, files) && path in inodes && Standing(lib, digest, blockOf, inodes[path])
    requires lo <= hi
    ensures FilesOk(blockOf, inodes, FilesRead(lib, digest, files, path, inodes[path], replies, lo, hi))
    decreases hi
  {
    hide Stands, Had, FilesOk;
    if lo < hi {
      var inode := inodes[path];
      ReadKeeps(lib, digest, blockOf, inodes, files, path, replies, lo, hi - 1);
      if hi - 1 < |inode.sub| {
        HadStands(lib, digest, blockOf, inodes, files, path, replies, hi - 1);
        FillKeeps(blockOf, inodes, FilesRead(lib, digest, files, path, inode, replies, lo, hi - 1), path, hi - 1,
                  Had(lib, digest, files, path, inode, replies, hi - 1));
      }
    }
  }

  /** Every inode opened in the run has shard lists that stand for the blocks of `blockOf`. */
  ghost predicate AllStanding(lib: Library, digest: Bytes -> string, blockOf: string -> Bytes, ops: seq<Op>) {
    forall i :: 0 <= i < |ops| && ops[i].OpenOp? ==> Standing(lib, digest, blockOf, ops[i].remote)
  }

  /** Over every run, whatever fails in it, a non-empty block file holds the block that the last opened inode names. */
  lemma {:induction false} RunFiles(lib: Library, digest: Bytes -> string, blockOf: string -> Bytes, ops: seq<Op>)
    requires AllStanding(lib, digest, blockOf, ops)
    ensures FilesOk(blockOf, Opened(ops), FilesAfter(lib, digest, ops))
    ensures forall p :: p in Opened(ops) ==> Standing(lib, digest, blockOf, Opened(ops)[p])
  {
    hide Standing, FilesOk, AfterOpen, FilesRead, FileInode.BlockSize;
    if |ops| == 0 {
      NoFilesOk(blockOf);
    } else {
      var init, op := ops[..|ops| - 1], ops[|ops| - 1];
      assert forall i :: 0 <= i < |init| ==> init[i] == ops[i];
      RunFiles(lib, digest, blockOf, init);
      var m, files := Opened(init), FilesAfter(lib, digest, init);
      match op
      case OpenOp(p, remote) => OpenKeeps(blockOf, m, files, p, remote);
      case ReadOp(p, offset, size, replies) =>
        if p in m && InRange(m[p], offset, size) {
          var (first, second) := IndexsOf(m[p], offset, size);
          ReadKeeps(lib, digest, blockOf, m, files, p, replies, first, second);
        }
    }
  }

  lemma NoFilesOk(blockOf: string -> Bytes)
    ensures FilesOk(blockOf, map[], map[])
  {
  }

  /** The blocks that read i of a run cannot get: not in a file from before, and not to be decoded now. */
  ghost function LostAt(lib: Library, digest: Bytes -> string, ops: seq<Op>, i: nat): (lost: set<nat>)
    requires i < |ops| && ops[i].ReadOp? && ops[i].path in Opened(ops[..i])
    requires Usable(Opened(ops[..i])[ops[i].path])
  {
    var op := ops[i];
    var inode := Opened(ops[..i])[op.path];
    if !InRange(inode, op.offset, op.size) then {} else
      var (first, second) := IndexsOf(inode, op.offset, op.size);
      set j: nat | first <= j < second && j < |inode.sub| &&
        Had(lib, digest, FilesAfter(lib, digest, ops[..i]), op.path, inode, op.replies, j) == []
  }

  /** Over every run each read answers from the file as of its last open, without exactly the lost blocks. */
  lemma RunReads(lib: Library, digest: Bytes -> string, blockOf: string -> Bytes, ops: seq<Op>, i: nat,
                 answer: Option<Answer>)
    requires AllStanding(lib, digest, blockOf, ops) && i < |ops| && AnswerOk(lib, digest, ops, i, answer)
    requires ops[i].ReadOp? && ops[i].path in Opened(ops[..i])
    ensures var inode, op := Opened(ops[..i])[ops[i].path], ops[i];
      && Standing(lib, digest, blockOf, inode) && EndOf(inode, op.offset, op.size) < TWO_TO_THE_31
      && answer == Some(ReadAnswer(blockOf, inode, LostAt(lib, digest, ops, i), op.offset, op.size))
  {
    hide Standing, FilesOk, Had, FileInode.BlockSize, GetIndexs, IndexsOf, HadRange, BlockRange;
    var op, m, files := ops[i], Opened(ops[..i]), FilesAfter(lib, digest, ops[..i]);
    var inode := m[op.path];
    assert forall j :: 0 <= j < i ==> ops[..i][j] == ops[j];
    RunFiles(lib, digest, blockOf, ops[..i]);
    if op.offset <= inode.filesize {
      var (first, second) := IndexsOf(inode, op.offset, op.size);
      var had, lost := AllHad(lib, digest, files, op.path, inode, op.replies), LostAt(lib, digest, ops, i);
      forall j: nat | j < |had| ensures had[j] in [blockOf(inode.sub[j]), []] {
        HadStands(lib, digest, blockOf, m, files, op.path, op.replies, j);
      }
      assert HadBut(blockOf, inode, lost, had, first, second);
      HadIsRange(blockOf, inode, lost, had, first, second);
    }
  }

  /** A read of a run that loses no block returns exactly the bytes of the range, for a file of full blocks. */
  lemma ExactRead(lib: Library, digest: Bytes -> string, blockOf: string -> Bytes, ops: seq<Op>, i: nat,
                  answer: Option<Answer>)
    requires AllStanding(lib, digest, blockOf, ops) && i < |ops| && AnswerOk(lib, digest, ops, i, answer)
    requires ops[i].ReadOp? && ops[i].path in Opened(ops[..i]) && WellFormed(blockOf, Opened(ops[..i])[ops[i].path])
    requires LostAt(lib, digest, ops, i) == {}
    ensures var inode, op := Opened(ops[..i])[ops[i].path], ops[i];
      && inode.filesize <= |BlockRange(blockOf, inode, {}, 0, |inode.sub|)|
      && answer == Some(Data(if inode.filesize < op.offset then []
                             else Content(blockOf, inode)[op.offset..EndOf(inode, op.offset, op.size)]))
  {
    hide WellFormed, ReadAnswer, Standing;
    RunReads(lib, digest, blockOf, ops, i, answer);
    FullRead(blockOf, Opened(ops[..i])[ops[i].path], ops[i].offset, ops[i].size);
  }
}
