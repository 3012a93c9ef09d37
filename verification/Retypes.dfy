/**
 A put that is not committed gives a file a new storage type and keeps its shard lists. What then becomes
 of the file: its blocks are decoded as before exactly when the new type is the same code, and ranged
 reads stay right exactly when the block size is the same too, or the file fits into one block of either.
 */
module Retypes {
  import opened Options
  import opened Text
  import opened ShardList
  import opened StorageTypes
  import opened Placement
  import opened Recovery
  import opened WholeFile
  import opened BlockReads
  import opened Gets
  import opened Metadata
  import opened Namenode
  import opened NamenodeRuns
  import opened FileRecords

  /** Both replicate, or both code with the same k and m. */
  predicate SameCode(st: StorageType, st': StorageType) {
    if st.RE? then st'.RE? else !st'.RE? && st.k == st'.k && st.m == st'.m
  }

  lemma SameCodeDecodes(lib: Library, st: StorageType, st': StorageType, shards: seq<Shard>,
                        replies: nat -> Option<Bytes>, digest: Bytes -> string)
    requires SameCode(st, st') && st.DecodeBlocks() >= 1
    ensures st'.DecodeBlocks() == st.DecodeBlocks()
    ensures DecodedShards(lib, st', shards, replies, digest) == DecodedShards(lib, st, shards, replies, digest)
  {
  }

  /** The same code gives the block back exactly when enough listed shards are readable. */
  lemma RetypedBlock(lib: Library, st: StorageType, st': StorageType, block: Bytes, placed: seq<nat>,
                     nodes: seq<string>, digest: Bytes -> string, replies: nat -> Option<Bytes>)
    requires Sound(lib, st) && SameCode(st, st')
    requires CanonicalNodes(nodes) && CleanDigests(digest) && Injective(digest)
    requires |placed| <= |Encode(lib, st, block)|
    ensures var shards := Encode(lib, st, block);
      && st'.DecodeBlocks() >= 1
      && (forall i :: 0 <= i < |placed| ==> NodeText(Listed(placed, shards, nodes, digest)[i].0).Some?)
      && DecodedShards(lib, st', ParseShards(BlockText(placed, shards, nodes, digest)), replies, digest) ==
        if |Readable(Listed(placed, shards, nodes, digest), replies, digest)| >= st.DecodeBlocks() then block else []
  {
    hide DecodedShards, ParseShards, NodeText, Listed, Readable, Encode, BlockText;
    BlockDurable(lib, st, block, placed, nodes, digest, replies);
    var text := BlockText(placed, Encode(lib, st, block), nodes, digest);
    SameCodeDecodes(lib, st, st', ParseShards(text), replies, digest);
  }

  // A library under which any other code fails: every shard starts with a tag that tells codes apart.

  function Tag(st: StorageType, c: bv8, k: nat, m: nat): (t: bv8)
    ensures t != c
  {
    if !st.RE? && st.k == k && st.m == m then if c == 1 then 3 else 1
    else if c == 2 then 4 else 2
  }

  function TagEncode(st: StorageType, c: bv8, data: Bytes, k: nat, m: nat): (shards: seq<Bytes>) {
    seq(k + m, _ => [Tag(st, c, k, m)] + data)
  }

  function TagDecode(st: StorageType, c: bv8, shards: seq<Bytes>, k: nat, m: nat): (data: Bytes) {
    if shards != [] && shards[0] != [] && shards[0][0] == Tag(st, c, k, m) then shards[0][1..]
    else [Tag(st, c, k, m)]
  }

  function Tagging(st: StorageType, c: bv8): (lib: Library) {
    Library((data: Bytes, k: nat, m: nat) => TagEncode(st, c, data, k, m),
            (shards: seq<Bytes>, k: nat, m: nat) => TagDecode(st, c, shards, k, m))
  }

  lemma TaggingSound(st: StorageType, c: bv8, any: StorageType)
    requires any.DecodeBlocks() >= 1
    ensures Sound(Tagging(st, c), any)
  {
    if !any.RE? {
      var lib, k, m := Tagging(st, c), any.k, any.m;
      forall data: Bytes ensures |lib.encode(data, k, m)| == k + m {
      }
      forall data: Bytes, idx: seq<nat> | IsPick(idx, k + m) && |idx| == k
        ensures |lib.encode(data, k, m)| == k + m
        ensures lib.decode(Pick(lib.encode(data, k, m), idx), k, m) == data
      {
        var shards := Pick(lib.encode(data, k, m), idx);
        assert shards[0] == [Tag(st, c, k, m)] + data;
        assert shards[0][1..] == data;
      }
    }
  }

  /** Shards of another code decode to something that starts otherwise than the block. */
  lemma TaggedDecode(st: StorageType, st': StorageType, block: Bytes, shard: Bytes, datas: seq<Bytes>)
    requires !SameCode(st, st') && block != [] && datas != [] && datas[0] == shard
    requires shard == if st.RE? then block else [Tag(st, block[0], st.k, st.m)] + block
    ensures var data := Decode(Tagging(st, block[0]), st', datas); data != [] && data[0] != block[0]
  {
  }

  lemma EachShard(st: StorageType, c: bv8, block: Bytes, i: nat)
    requires i < |Encode(Tagging(st, c), st, block)|
    ensures Encode(Tagging(st, c), st, block)[i] == if st.RE? then block else [Tag(st, c, st.k, st.m)] + block
  {
  }

  /** Another code never gives the block, nor its first byte, whatever the datanodes reply. */
  lemma OtherCodeFails(st: StorageType, st': StorageType, block: Bytes, placed: seq<nat>, nodes: seq<string>,
                       digest: Bytes -> string, replies: nat -> Option<Bytes>)
    requires !SameCode(st, st') && block != [] && st.DecodeBlocks() >= 1 && st'.DecodeBlocks() >= 1
    requires CanonicalNodes(nodes) && CleanDigests(digest) && Injective(digest)
    requires |placed| <= |Encode(Tagging(st, block[0]), st, block)|
    ensures var lib := Tagging(st, block[0]);
      var shards := Encode(lib, st, block);
      && Sound(lib, st) && Sound(lib, st')
      && (forall i :: 0 <= i < |placed| ==> NodeText(Listed(placed, shards, nodes, digest)[i].0).Some?)
      && var data := DecodedShards(lib, st', ParseShards(BlockText(placed, shards, nodes, digest)), replies, digest);
        && data != block && (data != [] ==> data[0] != block[0])
        && (data == [] <==> |Readable(Listed(placed, shards, nodes, digest), replies, digest)| < st'.DecodeBlocks())
  {
    hide Sound, ParseShards, NodeText, Listed, Readable, Encode, Tagging, CanonicalShard, Decode, SameCode, ShardTexts,
      Join, CleanDigests, Injective;
    var lib := Tagging(st, block[0]);
    var shards := Encode(lib, st, block);
    TaggingSound(st, block[0], st);
    TaggingSound(st, block[0], st');
    ListedCanonical(placed, shards, nodes, digest);
    var list := Listed(placed, shards, nodes, digest);
    ShardListRoundTrip(list);
    var idx, k := Readable(list, replies, digest), st'.DecodeBlocks();
    ReadableReplies(list, replies, digest);
    if |idx| >= k {
      assert idx[0] in idx;
      ArrivedIsSent(placed, shards, nodes, digest, replies, idx[0]);
      EachShard(st, block[0], block, idx[0]);
      var datas := Replied(idx[..k], replies);
      assert datas[0] == shards[idx[0]];
      TaggedDecode(st, st', block, shards[idx[0]], datas);
    }
  }

  /** Whatever sound library, placement and replies: enough shards for the old type give the block under the new. */
  ghost predicate Survives(st: StorageType, st': StorageType, block: Bytes, nodes: seq<string>,
                           digest: Bytes -> string, lib: Library, placed: seq<nat>, replies: nat -> Option<Bytes>)
    requires CanonicalNodes(nodes) && CleanDigests(digest) && st'.DecodeBlocks() >= 1
  {
    Sound(lib, st) && Sound(lib, st') && |placed| <= |Encode(lib, st, block)| &&
    |Readable(Listed(placed, Encode(lib, st, block), nodes, digest), replies, digest)| >= st.DecodeBlocks() ==>
      (ListedCanonical(placed, Encode(lib, st, block), nodes, digest);
       var text := BlockText(placed, Encode(lib, st, block), nodes, digest);
       DecodedShards(lib, st', ParseShards(text), replies, digest) == block)
  }

  /** All shards that were sent for the attempts `placed` arrive. */
  function AllArrive(shards: seq<Bytes>): (replies: nat -> Option<Bytes>) {
    (j: nat) => if j < |shards| then Some(shards[j]) else None
  }

  lemma {:induction false} AllReadable(placed: seq<nat>, shards: seq<Bytes>, nodes: seq<string>,
                                       digest: Bytes -> string, n: nat)
    requires nodes != [] && n <= |placed| <= |shards|
    ensures |Readable(Listed(placed, shards, nodes, digest)[..n], AllArrive(shards), digest)| == n
  {
    var list := Listed(placed, shards, nodes, digest);
    if n > 0 {
      AllReadable(placed, shards, nodes, digest, n - 1);
      assert list[..n][..n - 1] == list[..n - 1];
    }
  }

  /** A placement and replies for which another code fails. */
  lemma OtherCodeWitness(st: StorageType, st': StorageType, block: Bytes, nodes: seq<string>, digest: Bytes -> string)
    returns (lib: Library, placed: seq<nat>, replies: nat -> Option<Bytes>)
    requires 1 <= st.DecodeBlocks() <= st.Blocks() && st'.DecodeBlocks() >= 1 && block != [] && !SameCode(st, st')
    requires CanonicalNodes(nodes) && CleanDigests(digest) && Injective(digest)
    ensures !Survives(st, st', block, nodes, digest, lib, placed, replies)
  {
    hide SameCode, Sound, Readable, Listed, DecodedShards, ParseShards, Encode, Tagging, NodeText, BlockText,
      CleanDigests, Injective, AllArrive;
    lib := Tagging(st, block[0]);
    TaggingSound(st, block[0], st);
    SoundEncodes(lib, st, block);
    placed := seq(st.DecodeBlocks(), i => i);
    var shards := Encode(lib, st, block);
    replies := AllArrive(shards);
    OtherCodeFails(st, st', block, placed, nodes, digest, replies);
    AllReadable(placed, shards, nodes, digest, |placed|);
    var list := Listed(placed, shards, nodes, digest);
    assert list[..|placed|] == list;
  }

  /** A retyped block can be relied on exactly when the new type is the same code. */
  lemma RetypedExactly(st: StorageType, st': StorageType, block: Bytes, nodes: seq<string>, digest: Bytes -> string)
    requires 1 <= st.DecodeBlocks() <= st.Blocks() && st'.DecodeBlocks() >= 1 && block != []
    requires CanonicalNodes(nodes) && CleanDigests(digest) && Injective(digest)
    ensures (forall lib, placed, replies :: Survives(st, st', block, nodes, digest, lib, placed, replies)) <==>
      SameCode(st, st')
  {
    hide SameCode, Sound, Readable, Listed, DecodedShards, ParseShards, Encode, CanonicalNodes, CleanDigests, Injective;
    if SameCode(st, st') {
      forall lib, placed, replies ensures Survives(st, st', block, nodes, digest, lib, placed, replies) {
        if Sound(lib, st) && |placed| <= |Encode(lib, st, block)| {
          RetypedBlock(lib, st, st', block, placed, nodes, digest, replies);
        }
      }
    } else {
      var lib, placed, replies := OtherCodeWitness(st, st', block, nodes, digest);
      hide Survives;
    }
  }

  // Whole files, over an uncommitted put.

  lemma SameCodeGets(lib: Library, st: StorageType, st': StorageType, sub: seq<string>, filesize: nat, mark: string,
                     replies: (nat, nat) -> Option<Bytes>, digest: Bytes -> string)
    requires SameCode(st, st') && st.DecodeBlocks() >= 1
    ensures st'.DecodeBlocks() >= 1
    ensures Gotten(lib, st', sub, filesize, mark, replies, digest) ==
      Gotten(lib, st, sub, filesize, mark, replies, digest)
  {
    hide DecodedShards, SameCode, ParseShards, Concat, Resize;
    forall shards: seq<Shard>, f: nat -> Option<Bytes>
      ensures st'.DecodeBlocks() == st.DecodeBlocks()
      ensures DecodedShards(lib, st', shards, f, digest) == DecodedShards(lib, st, shards, f, digest)
    {
      SameCodeDecodes(lib, st, st', shards, f, digest);
    }
    SameCodeDecodes(lib, st, st', [], First(replies), digest);
    assert DecodedBlocks(lib, st', sub, replies, digest) == DecodedBlocks(lib, st, sub, replies, digest);
  }

  /** In any run, a put of the same code that is not committed leaves a readable plain file as it was. */
  lemma RetypedFileReads(t: seq<Event>, put: Event, lib: Library, st: StorageType, content: Bytes, b: nat,
                         nodes: seq<string>, digest: Bytes -> string, ends: seq<Progress>,
                         replies: (nat, nat) -> Option<Bytes>)
    requires GoodTrace(t) && put.req.PutReq? && GoodPath(put.req.path) && Served(StoreAfter(t), put)
    requires Sound(lib, st) && b > 0 && CanonicalNodes(nodes) && CleanDigests(digest) && Injective(digest)
    requires var x := GetInode(StoreAfter(t), put.req.path);
      && x.filesize == |content| && x.aggInodeId == ""
      && AreTexts(x.sub, lib, st, SplitBlocks(content, b), nodes, digest, ends)
      && EnoughReadable(lib, st, SplitBlocks(content, b), nodes, digest, ends, replies)
    requires put.req.storageType.Some? && SameCode(st, put.req.storageType.value)
    ensures GoodTrace(t + [put])
    ensures var y := GetInode(StoreAfter(t + [put]), put.req.path);
      && y.storageType == put.req.storageType && y.storageType.value.DecodeBlocks() >= 1
      && Gotten(lib, y.storageType.value, y.sub, y.filesize, y.aggInodeId, replies, digest) == Some(content)
  {
    hide StoreAfter, Served, GetInode, AreTexts, EnoughReadable, SplitBlocks, DecodedBlocks, Concat, Resize, SameCode;
    PutRetypesBlocks(t, put);
    var x := GetInode(StoreAfter(t), put.req.path);
    PutGetIdentity(lib, st, content, b, x.sub, nodes, digest, ends, replies);
    SameCodeGets(lib, st, put.req.storageType.value, x.sub, |content|, "", replies, digest);
  }

  lemma FirstByte(content: Bytes, b: nat)
    requires b > 0 && content != []
    ensures var blocks := SplitBlocks(content, b);
      blocks != [] && blocks[0] != [] && blocks[0][0] == content[0]
  {
    AlignUpIs(|content|, b);
    if |content| / b > 0 {
      FullBlockAt(content, b, 0);
    } else {
      LastBlockAt(content, b);
    }
  }

  lemma {:induction false} FirstIsFirst(blocks: seq<Bytes>)
    requires blocks != [] && blocks[0] != []
    ensures Concat(blocks) != [] && Concat(blocks)[0] == blocks[0][0]
  {
    if |blocks| == 1 {
      assert blocks[..0] == [];
      assert Concat(blocks) == Concat(blocks[..0]) + blocks[0];
    } else {
      FirstIsFirst(blocks[..|blocks| - 1]);
    }
  }

  lemma OtherStart(got: seq<Bytes>, content: Bytes)
    requires got != [] && got[0] != [] && content != [] && got[0][0] != content[0]
    ensures Resize(Concat(got), |content|) != content
  {
    FirstIsFirst(got);
    hide Concat;
    assert Resize(Concat(got), |content|)[0] == got[0][0];
  }

  lemma OtherCodeText(st: StorageType, st': StorageType, block: Bytes, text: string, nodes: seq<string>,
                      digest: Bytes -> string, end: Progress, replies: nat -> Option<Bytes>)
    requires !SameCode(st, st') && block != [] && st.DecodeBlocks() >= 1 && st'.DecodeBlocks() >= 1
    requires CanonicalNodes(nodes) && CleanDigests(digest) && Injective(digest)
    requires IsText(text, Tagging(st, block[0]), st, block, nodes, digest, end)
    requires var shards := Encode(Tagging(st, block[0]), st, block);
      |Readable(Listed(end.placed, shards, nodes, digest), replies, digest)| >= st'.DecodeBlocks()
    ensures var lib := Tagging(st, block[0]);
      var data := DecodedShards(lib, st', ParseShards(text), replies, digest);
      Sound(lib, st) && Sound(lib, st') && data != [] && data[0] != block[0]
  {
    hide Sound, Readable, Listed, DecodedShards, ParseShards, Encode, SameCode, NodeText, Tagging, BlockText,
      CanonicalNodes, CleanDigests, Injective;
    OtherCodeFails(st, st', block, end.placed, nodes, digest, replies);
  }

  /** Under another code, with the tagging library, get yields a file that starts otherwise. */
  lemma RetypedFileFails(st: StorageType, st': StorageType, content: Bytes, b: nat, sub: seq<string>,
                         nodes: seq<string>, digest: Bytes -> string, ends: seq<Progress>,
                         replies: (nat, nat) -> Option<Bytes>)
    requires !SameCode(st, st') && content != [] && b > 0 && st.DecodeBlocks() >= 1 && st'.DecodeBlocks() >= 1
    requires CanonicalNodes(nodes) && CleanDigests(digest) && Injective(digest)
    requires AreTexts(sub, Tagging(st, content[0]), st, SplitBlocks(content, b), nodes, digest, ends)
    requires ends != [] && SplitBlocks(content, b) != []
    requires var shards := Encode(Tagging(st, content[0]), st, SplitBlocks(content, b)[0]);
      |ends[0].placed| <= |shards| &&
      |Readable(Listed(ends[0].placed, shards, nodes, digest), First(replies), digest)| >= st'.DecodeBlocks()
    ensures Sound(Tagging(st, content[0]), st) && Sound(Tagging(st, content[0]), st')
    ensures Gotten(Tagging(st, content[0]), st', sub, |content|, "", replies, digest) != Some(content)
  {
    hide Sound, Readable, Listed, DecodedShards, ParseShards, Encode, SplitBlocks, SameCode, Tagging, IsText, Concat,
      Resize, CleanDigests, Injective;
    var lib, blocks := Tagging(st, content[0]), SplitBlocks(content, b);
    FirstByte(content, b);
    assert IsText(sub[0], lib, st, blocks[0], nodes, digest, ends[0]);
    hide AreTexts;
    OtherCodeText(st, st', blocks[0], sub[0], nodes, digest, ends[0], First(replies));
    var got := DecodedBlocks(lib, st', sub, replies, digest);
    assert got[0] == DecodedShards(lib, st', ParseShards(sub[0]), First(replies), digest);
    OtherStart(got, content);
  }
}
