/**
 Reading a block back: parse its shard list, fetch shards until enough arrived, decode. Together with
 the placement this gives durability: whatever happened while the shards were placed, and whichever
 reads fail, the block comes back exactly when enough of the listed shards can be read.
 */
module Recovery {
  import opened Options
  import opened Text
  import opened ShardList
  import opened StorageTypes
  import opened Placement

  /** The i-th fetch: the raw reply counts only when its digest is the one asked for. */
  function Fetched(reply: Option<Bytes>, digest: Bytes -> string, blkid: string): (r: Option<Bytes>) {
    if reply.Some? && digest(reply.value) == blkid then reply else None
  }

  /** The positions of the listed shards that can be read, in order. */
  function Readable(shards: seq<Shard>, replies: nat -> Option<Bytes>, digest: Bytes -> string): (idx: seq<nat>)
    ensures forall i :: i in idx <==> 0 <= i < |shards| && Fetched(replies(i), digest, shards[i].1).Some?
    ensures forall i, j :: 0 <= i < j < |idx| ==> idx[i] < idx[j]
  {
    if shards == [] then [] else
      var n := |shards| - 1;
      var init := Readable(shards[..n], replies, digest);
      if Fetched(replies(n), digest, shards[n].1).Some? then
        assert forall i :: 0 <= i < |init| ==> init[i] in init;
        init + [n]
      else init
  }

  function Replied(idx: seq<nat>, replies: nat -> Option<Bytes>): (datas: seq<Bytes>)
    requires forall i :: 0 <= i < |idx| ==> replies(idx[i]).Some?
    ensures |datas| == |idx| && forall i :: 0 <= i < |idx| ==> datas[i] == replies(idx[i]).value
  {
    seq(|idx|, i requires 0 <= i < |idx| => replies(idx[i]).value)
  }

  lemma ReadableReplies(shards: seq<Shard>, replies: nat -> Option<Bytes>, digest: Bytes -> string)
    ensures var idx := Readable(shards, replies, digest);
      forall i :: 0 <= i < |idx| ==> replies(idx[i]).Some? && idx[i] < |shards|
  {
    var idx := Readable(shards, replies, digest);
    forall i | 0 <= i < |idx| ensures replies(idx[i]).Some? && idx[i] < |shards| {
      assert idx[i] in idx;
    }
  }

  /** What reading a shard list yields: the first readable shards decoded, or nothing. */
  function DecodedShards(lib: Library, st: StorageType, shards: seq<Shard>, replies: nat -> Option<Bytes>,
                         digest: Bytes -> string): (block: Bytes)
    requires st.DecodeBlocks() >= 1
  {
    var idx, k := Readable(shards, replies, digest), st.DecodeBlocks();
    if |idx| < k then [] else
      ReadableReplies(shards, replies, digest);
      Decode(lib, st, Replied(idx[..k], replies))
  }

  lemma {:induction false} ReadablePrefix(shards: seq<Shard>, n: nat, replies: nat -> Option<Bytes>,
                                          digest: Bytes -> string)
    requires n <= |shards|
    ensures Readable(shards[..n], replies, digest) <= Readable(shards, replies, digest)
    decreases |shards| - n
  {
    if n == |shards| {
      assert shards[..n] == shards;
    } else {
      assert shards[..n + 1][..n] == shards[..n];
      ReadablePrefix(shards, n + 1, replies, digest);
    }
  }

  /** The shards fetched first are the ones that are decoded. */
  lemma DecodedIs(lib: Library, st: StorageType, shards: seq<Shard>, replies: nat -> Option<Bytes>,
                  digest: Bytes -> string, datas: seq<Bytes>)
    requires 1 <= |datas| == st.DecodeBlocks() <= |Readable(shards, replies, digest)|
    requires FirstOf(datas, Readable(shards, replies, digest), replies)
    ensures DecodedShards(lib, st, shards, replies, digest) == Decode(lib, st, datas)
  {
    ReadableReplies(shards, replies, digest);
    assert Replied(Readable(shards, replies, digest)[..|datas|], replies) == datas;
  }

  ghost predicate FirstOf(datas: seq<Bytes>, idx: seq<nat>, replies: nat -> Option<Bytes>) {
    |datas| <= |idx| && forall j :: 0 <= j < |datas| ==> replies(idx[j]) == Some(datas[j])
  }

  lemma NoneFirst(idx: seq<nat>, replies: nat -> Option<Bytes>)
    ensures FirstOf([], idx, replies)
  {
  }

  lemma FirstSnoc(datas: seq<Bytes>, data: Bytes, idx: seq<nat>, replies: nat -> Option<Bytes>)
    requires FirstOf(datas, idx, replies) && |datas| < |idx| && replies(idx[|datas|]) == Some(data)
    ensures FirstOf(datas + [data], idx, replies)
  {
  }

  /** decode_one_block. */
  method DecodeOneBlock(lib: Library, st: StorageType, s: string, replies: nat -> Option<Bytes>,
                        digest: Bytes -> string)
    returns (block: Bytes)
    requires st.DecodeBlocks() >= 1
    ensures block == DecodedShards(lib, st, ParseShards(s), replies, digest)
  {
    hide Readable, ParseShards, Decode, DecodedShards, FirstOf;
    var shards := DecodeOneSub(s);
    ghost var idx := Readable(shards, replies, digest);
    var datas := [];
    NothingReadable(replies, digest);
    NoneFirst(idx, replies);
    for i := 0 to |shards|
      invariant |datas| < st.DecodeBlocks()
      invariant |datas| == |Readable(shards[..i], replies, digest)|
      invariant FirstOf(datas, idx, replies)
    {
      ReadableStep(shards, i, replies, digest);
      var data := Fetched(replies(i), digest, shards[i].1);
      if data.Some? {
        FirstSnoc(datas, data.value, idx, replies);
        datas := datas + [data.value];
        if |datas| == st.DecodeBlocks() {
          DecodedIs(lib, st, shards, replies, digest, datas);
          return Decode(lib, st, datas);
        }
      }
    }
    assert shards[..|shards|] == shards;
    TooFew(lib, st, shards, replies, digest);
    block := [];
  }

  lemma TooFew(lib: Library, st: StorageType, shards: seq<Shard>, replies: nat -> Option<Bytes>,
               digest: Bytes -> string)
    requires |Readable(shards, replies, digest)| < st.DecodeBlocks()
    ensures DecodedShards(lib, st, shards, replies, digest) == []
  {
  }

  lemma NothingReadable(replies: nat -> Option<Bytes>, digest: Bytes -> string)
    ensures Readable([], replies, digest) == []
  {
  }

  /** One more shard asked for. */
  lemma ReadableStep(shards: seq<Shard>, i: nat, replies: nat -> Option<Bytes>, digest: Bytes -> string)
    requires i < |shards|
    ensures var before, now := Readable(shards[..i], replies, digest), Readable(shards[..i + 1], replies, digest);
      && now == (if Fetched(replies(i), digest, shards[i].1).Some? then before + [i] else before)
      && |now| <= |Readable(shards, replies, digest)|
      && now == Readable(shards, replies, digest)[..|now|]
      && (|before| < |now| ==> Readable(shards, replies, digest)[|before|] == i)
  {
    assert shards[..i + 1][..i] == shards[..i];
    ReadablePrefix(shards, i + 1, replies, digest);
  }

  // Durability.

  ghost predicate Injective(digest: Bytes -> string) {
    forall a, b :: digest(a) == digest(b) ==> a == b
  }

  /** Digests are non-empty and free of the list's separators. */
  ghost predicate CleanDigests(digest: Bytes -> string) {
    forall a :: digest(a) != "" && ',' !in digest(a) && '|' !in digest(a)
  }

  ghost predicate CanonicalNodes(nodes: seq<string>) {
    nodes != [] && forall i :: 0 <= i < |nodes| ==> CanonicalNode(nodes[i])
  }

  lemma ListedCanonical(placed: seq<nat>, shards: seq<Bytes>, nodes: seq<string>, digest: Bytes -> string)
    requires CanonicalNodes(nodes) && CleanDigests(digest) && |placed| <= |shards|
    ensures forall i :: 0 <= i < |placed| ==> CanonicalShard(Listed(placed, shards, nodes, digest)[i])
    ensures forall i :: 0 <= i < |placed| ==> NodeText(Listed(placed, shards, nodes, digest)[i].0).Some?
  {
    var list := Listed(placed, shards, nodes, digest);
    forall i | 0 <= i < |placed| ensures CanonicalShard(list[i]) && NodeText(list[i].0).Some? {
      NodeTextIsIdentity(list[i].0);
    }
  }

  /** The text recorded for a block whose shards were placed by the attempts `placed`. */
  function BlockText(placed: seq<nat>, shards: seq<Bytes>, nodes: seq<string>, digest: Bytes -> string): (s: string)
    requires nodes != [] && |placed| <= |shards|
    requires forall i :: 0 <= i < |placed| ==> NodeText(Listed(placed, shards, nodes, digest)[i].0).Some?
  {
    Join(ShardTexts(Listed(placed, shards, nodes, digest)), ',')
  }

  /** Listed shards that arrive intact are the shards that were sent. */
  lemma ArrivedIsSent(placed: seq<nat>, shards: seq<Bytes>, nodes: seq<string>, digest: Bytes -> string,
                      replies: nat -> Option<Bytes>, i: nat)
    requires nodes != [] && |placed| <= |shards| && Injective(digest)
    requires i in Readable(Listed(placed, shards, nodes, digest), replies, digest)
    ensures i < |placed| && replies(i) == Some(shards[i])
  {
  }

  /** The first k readable shards are k of the shards that were sent. */
  lemma ListDecodes(lib: Library, st: StorageType, block: Bytes, placed: seq<nat>, nodes: seq<string>,
                    digest: Bytes -> string, replies: nat -> Option<Bytes>)
    requires Sound(lib, st) && nodes != [] && Injective(digest)
    requires |placed| <= |Encode(lib, st, block)|
    ensures var list := Listed(placed, Encode(lib, st, block), nodes, digest);
      DecodedShards(lib, st, list, replies, digest) ==
        if |Readable(list, replies, digest)| >= st.DecodeBlocks() then block else []
  {
    var shards := Encode(lib, st, block);
    SoundEncodes(lib, st, block);
    var list := Listed(placed, shards, nodes, digest);
    var idx, k := Readable(list, replies, digest), st.DecodeBlocks();
    ReadableReplies(list, replies, digest);
    if |idx| >= k {
      var some := idx[..k];
      forall i | 0 <= i < k ensures replies(some[i]) == Some(shards[some[i]]) && some[i] < |shards| {
        assert idx[i] in idx;
        ArrivedIsSent(placed, shards, nodes, digest, replies, some[i]);
      }
      hide Readable, Listed, Sound, Injective, Encode;
      AnyShardsDecode(lib, st, block, some);
      assert Replied(some, replies) == Pick(shards, some);
    }
  }

  /**
   A block survives its shard list: once printed, parsed, fetched and decoded it is the original block
   exactly when enough listed shards can be read, and nothing otherwise.
   */
  lemma BlockDurable(lib: Library, st: StorageType, block: Bytes, placed: seq<nat>, nodes: seq<string>,
                     digest: Bytes -> string, replies: nat -> Option<Bytes>)
    requires Sound(lib, st) && CanonicalNodes(nodes) && CleanDigests(digest) && Injective(digest)
    requires |placed| <= |Encode(lib, st, block)|
    ensures var shards := Encode(lib, st, block);
      var list := Listed(placed, shards, nodes, digest);
      && (forall i :: 0 <= i < |placed| ==> NodeText(list[i].0).Some?)
      && DecodedShards(lib, st, ParseShards(BlockText(placed, shards, nodes, digest)), replies, digest) ==
        if |Readable(list, replies, digest)| >= st.DecodeBlocks() then block else []
  {
    var shards := Encode(lib, st, block);
    ListedCanonical(placed, shards, nodes, digest);
    hide Readable, DecodedShards, ParseShards, Join, CanonicalShard, NodeText;
    ShardListRoundTrip(Listed(placed, shards, nodes, digest));
    ListDecodes(lib, st, block, placed, nodes, digest, replies);
  }

  /** A satisfied check leaves a margin: beyond replication, one listed shard more may be lost. */
  lemma CheckedBlockSurvives(lib: Library, st: StorageType, block: Bytes, placed: seq<nat>, nodes: seq<string>,
                             digest: Bytes -> string, replies: nat -> Option<Bytes>)
    requires Sound(lib, st) && CanonicalNodes(nodes) && CleanDigests(digest) && Injective(digest)
    requires |placed| <= |Encode(lib, st, block)| && st.Check(|placed|)
    requires var readable := |Readable(Listed(placed, Encode(lib, st, block), nodes, digest), replies, digest)|;
      readable >= if st.RE? then 1 else |placed| - 1
    ensures var shards := Encode(lib, st, block);
      && (forall i :: 0 <= i < |placed| ==> NodeText(Listed(placed, shards, nodes, digest)[i].0).Some?)
      && DecodedShards(lib, st, ParseShards(BlockText(placed, shards, nodes, digest)), replies, digest) == block
  {
    BlockDurable(lib, st, block, placed, nodes, digest, replies);
    hide Readable, DecodedShards, ParseShards, BlockText, NodeText, Listed;
  }

  /** All listed shards arrive but that of place `lost`. */
  function AllBut(shards: seq<Bytes>, lost: int): (replies: nat -> Option<Bytes>) {
    (j: nat) => if j < |shards| && j != lost then Some(shards[j]) else None
  }

  lemma {:induction false} ReadableBut(placed: seq<nat>, shards: seq<Bytes>, nodes: seq<string>,
                                       digest: Bytes -> string, lost: int, n: nat)
    requires nodes != [] && n <= |placed| <= |shards|
    ensures |Readable(Listed(placed, shards, nodes, digest)[..n], AllBut(shards, lost), digest)| ==
      n - (if 0 <= lost < n then 1 else 0)
  {
    var list := Listed(placed, shards, nodes, digest);
    if n > 0 {
      ReadableBut(placed, shards, nodes, digest, lost, n - 1);
      assert list[..n][..n - 1] == list[..n - 1];
    }
  }

  /** The block that comes back when all listed shards arrive but that of place `lost`. */
  function BackWithout(lib: Library, st: StorageType, block: Bytes, placed: seq<nat>, nodes: seq<string>,
                       digest: Bytes -> string, lost: int): (back: Bytes)
    requires st.DecodeBlocks() >= 1 && nodes != [] && |placed| <= |Encode(lib, st, block)|
  {
    var shards := Encode(lib, st, block);
    DecodedShards(lib, st, Listed(placed, shards, nodes, digest), AllBut(shards, lost), digest)
  }

  lemma BackExactly(lib: Library, st: StorageType, block: Bytes, placed: seq<nat>, nodes: seq<string>,
                    digest: Bytes -> string, lost: int)
    requires Sound(lib, st) && nodes != [] && Injective(digest) && |placed| <= |Encode(lib, st, block)| && block != []
    ensures BackWithout(lib, st, block, placed, nodes, digest, lost) == block <==>
      |placed| - (if 0 <= lost < |placed| then 1 else 0) >= st.DecodeBlocks()
  {
    hide Readable, DecodedShards, Listed, Encode, AllBut;
    var shards := Encode(lib, st, block);
    var list := Listed(placed, shards, nodes, digest);
    ReadableBut(placed, shards, nodes, digest, lost, |placed|);
    assert list[..|placed|] == list;
    ListDecodes(lib, st, block, placed, nodes, digest, AllBut(shards, lost));
  }

  /**
   What the check is worth: under replication it holds exactly when the block comes back at all, else
   exactly when shards are stored and the block comes back without any one of them.
   */
  lemma CheckExactly(lib: Library, st: StorageType, block: Bytes, placed: seq<nat>, nodes: seq<string>,
                     digest: Bytes -> string)
    requires Sound(lib, st) && nodes != [] && Injective(digest) && |placed| <= |Encode(lib, st, block)| && block != []
    ensures st.Check(|placed|) <==>
      if st.RE? then BackWithout(lib, st, block, placed, nodes, digest, -1) == block
      else placed != [] && forall lost: nat :: lost < |placed| ==>
        BackWithout(lib, st, block, placed, nodes, digest, lost) == block
  {
    hide BackWithout, Encode, Injective;
    BackExactly(lib, st, block, placed, nodes, digest, -1);
    forall lost: nat | lost < |placed|
      ensures BackWithout(lib, st, block, placed, nodes, digest, lost) == block <==>
        |placed| - 1 >= st.DecodeBlocks()
    {
      BackExactly(lib, st, block, placed, nodes, digest, lost);
    }
    if placed != [] {
      assert BackWithout(lib, st, block, placed, nodes, digest, 0) == block <==> |placed| - 1 >= st.DecodeBlocks();
    }
  }

  /** encode_one_block: place the shards of one block and print where they went. */
  method EncodeOneBlock(lib: Library, st: StorageType, block: Bytes, nodes: seq<string>, digest: Bytes -> string,
                        up: nat -> bool, ghost n: nat)
    returns (s: string, end: Progress)
    requires Sound(lib, st) && CanonicalNodes(nodes) && CleanDigests(digest)
    requires var job := Job(st, st.Blocks(), |nodes|, up);
      Halted(job, Run(job, START, n)) && Run(job, START, n).placed != []
    ensures end == Run(Job(st, st.Blocks(), |nodes|, up), START, n)
    ensures |end.placed| <= |Encode(lib, st, block)|
    ensures var shards := Encode(lib, st, block);
      && (forall i :: 0 <= i < |end.placed| ==> NodeText(Listed(end.placed, shards, nodes, digest)[i].0).Some?)
      && s == BlockText(end.placed, shards, nodes, digest)
  {
    var shards := Encode(lib, st, block);
    SoundEncodes(lib, st, block);
    var nodesHashs;
    nodesHashs, end := PlaceShards(st, shards, nodes, digest, up, START, n);
    ListedCanonical(end.placed, shards, nodes, digest);
    hide Run, NodeText;
    s := EncodeOneSub(nodesHashs);
  }

  /**
   End to end: however the upload attempts went, the block that encode_one_block stored is read back
   exactly when DecodeBlocks() listed shards are readable. All shards are listed unless the loop gave
   up, and it gives up only while the check does not hold.
   */
  lemma EncodedBlockSurvives(lib: Library, st: StorageType, block: Bytes, nodes: seq<string>, digest: Bytes -> string,
                             up: nat -> bool, n: nat, replies: nat -> Option<Bytes>)
    requires Sound(lib, st) && CanonicalNodes(nodes) && CleanDigests(digest) && Injective(digest)
    requires var job := Job(st, st.Blocks(), |nodes|, up); Halted(job, Run(job, START, n))
    ensures var end, shards := Run(Job(st, st.Blocks(), |nodes|, up), START, n), Encode(lib, st, block);
      && |end.placed| <= |shards| == st.Blocks()
      && (if end.gaveUp then !st.Check(|end.placed|) else |end.placed| == st.Blocks())
      && (forall i :: 0 <= i < |end.placed| ==> NodeText(Listed(end.placed, shards, nodes, digest)[i].0).Some?)
      && var list := Listed(end.placed, shards, nodes, digest);
        DecodedShards(lib, st, ParseShards(BlockText(end.placed, shards, nodes, digest)), replies, digest) ==
          if |Readable(list, replies, digest)| >= st.DecodeBlocks() then block else []
  {
    var job := Job(st, st.Blocks(), |nodes|, up);
    SoundEncodes(lib, st, block);
    GivesUpShort(job, START, n);
    RunKeeps(job, 0, START, n);
    hide Run, Readable, DecodedShards, ParseShards, BlockText, NodeText;
    BlockDurable(lib, st, block, Run(job, START, n).placed, nodes, digest, replies);
  }
}
