/**
 Ranged reads of files that were uploaded inside an aggregate. read_data decodes the shard list to the
 whole aggregate and pays no heed to the range behind it, so it reads from the start of the aggregate.
 */
module AggregateReads {
  import opened Options
  import opened Division
  import opened Text
  import opened Ranges
  import opened ShardList
  import opened StorageTypes
  import opened Placement
  import opened Recovery
  import opened BlockReads
  import opened CachedReads
  import opened Aggregates

  // What the text of an aggregated file decodes to.

  lemma RangeIsShard(begin: nat, end: nat)
    ensures ParseShard(RangeText(begin, end)) == (Decimal(begin), Decimal(end)) && Clean(RangeText(begin, end), ',')
  {
    hide Decimal;
    RangeTextClean(begin, end);
    var t, m, tail := RangeText(begin, end), |Decimal(begin)|, Decimal(end);
    assert t[..m] == Decimal(begin) && t[m + 1..] == tail;
    assert '|' !in tail && tail[..|tail|] == tail;
    FindIs(tail, '|', |tail|);
  }

  lemma EntriesParsed(texts: seq<string>, list: seq<Shard>, range: string, extra: Shard)
    requires |texts| == |list| >= 1 && Clean(range, ',') && ParseShard(range) == extra
    requires forall i :: 0 <= i < |list| ==> Clean(texts[i], ',') && ParseShard(texts[i]) == list[i]
    ensures ParseShards(Join(texts, ',') + "," + range) == list + [extra]
  {
    hide ParseShard, Join, Fields, Clean;
    JoinSnoc(texts, range, ',');
    FieldsOfJoin(texts + [range], ',');
    assert Join(texts, ',') + "," + range == Join(texts + [range], ',');
  }

  /** The shard list, and the range as one more shard. */
  lemma RangeParsed(placed: seq<nat>, shards: seq<Bytes>, nodes: seq<string>, digest: Bytes -> string,
                    begin: nat, end: nat)
    requires CanonicalNodes(nodes) && CleanDigests(digest) && 1 <= |placed| <= |shards|
    ensures var list := Listed(placed, shards, nodes, digest);
      && (forall i :: 0 <= i < |placed| ==> NodeText(list[i].0).Some?)
      && ParseShards(SubText(BlockText(placed, shards, nodes, digest), begin, end)) ==
        list + [(Decimal(begin), Decimal(end))]
  {
    hide NodeText, CanonicalShard, ParseShard, ShardText, Join, Fields, RangeText, Listed, Decimal, Clean;
    var list := Listed(placed, shards, nodes, digest);
    ListedCanonical(placed, shards, nodes, digest);
    forall i | 0 <= i < |list| ensures ParseShard(ShardText(list[i])) == list[i] && Clean(ShardText(list[i]), ',') {
      ParseShardText(list[i]);
    }
    RangeIsShard(begin, end);
    EntriesParsed(ShardTexts(list), list, RangeText(begin, end), (Decimal(begin), Decimal(end)));
  }

  /** A longer list decodes as its front does, when that suffices. */
  lemma FrontDecodes(lib: Library, st: StorageType, list: seq<Shard>, extra: Shard, replies: nat -> Option<Bytes>,
                     digest: Bytes -> string)
    requires st.DecodeBlocks() >= 1 && |Readable(list, replies, digest)| >= st.DecodeBlocks()
    ensures DecodedShards(lib, st, list + [extra], replies, digest) == DecodedShards(lib, st, list, replies, digest)
  {
    hide Readable, Decode;
    var k := st.DecodeBlocks();
    assert (list + [extra])[..|list|] == list;
    ReadablePrefix(list + [extra], |list|, replies, digest);
    assert Readable(list + [extra], replies, digest)[..k] == Readable(list, replies, digest)[..k];
  }

  lemma ExtraUnreadable(lib: Library, st: StorageType, list: seq<Shard>, extra: Shard, replies: nat -> Option<Bytes>,
                        digest: Bytes -> string)
    requires st.DecodeBlocks() >= 1 && forall a :: digest(a) != extra.1
    ensures DecodedShards(lib, st, list + [extra], replies, digest) == DecodedShards(lib, st, list, replies, digest)
  {
    assert (list + [extra])[..|list|] == list;
    assert Readable(list + [extra], replies, digest) == Readable(list, replies, digest);
    hide Readable;
  }

  /** The text of an aggregated file decodes to the aggregate when enough listed shards are readable. */
  lemma AggregateDecodes(lib: Library, st: StorageType, block: Bytes, placed: seq<nat>, nodes: seq<string>,
                         digest: Bytes -> string, replies: nat -> Option<Bytes>, begin: nat, end: nat)
    requires Sound(lib, st) && CanonicalNodes(nodes) && CleanDigests(digest) && Injective(digest)
    requires 1 <= |placed| <= |Encode(lib, st, block)|
    requires |Readable(Listed(placed, Encode(lib, st, block), nodes, digest), replies, digest)| >= st.DecodeBlocks()
    ensures var shards := Encode(lib, st, block);
      && (forall i :: 0 <= i < |placed| ==> NodeText(Listed(placed, shards, nodes, digest)[i].0).Some?)
      && var text := SubText(BlockText(placed, shards, nodes, digest), begin, end);
        DecodedShards(lib, st, ParseShards(text), replies, digest) == block
  {
    hide NodeText, Listed, Readable, DecodedShards, ParseShards, BlockText, SubText, Decimal, Encode;
    var shards := Encode(lib, st, block);
    RangeParsed(placed, shards, nodes, digest, begin, end);
    ListDecodes(lib, st, block, placed, nodes, digest, replies);
    FrontDecodes(lib, st, Listed(placed, shards, nodes, digest), (Decimal(begin), Decimal(end)), replies, digest);
  }

  /** No digest is the decimal text of an int: it is longer. */
  ghost predicate LongDigests(digest: Bytes -> string) {
    forall a, n: nat :: n <= INT_MAX ==> digest(a) != Decimal(n)
  }

  /** It decodes to the aggregate or to nothing, whatever the datanodes reply. */
  lemma AggregateStands(lib: Library, st: StorageType, block: Bytes, placed: seq<nat>, nodes: seq<string>,
                        digest: Bytes -> string, begin: nat, end: nat)
    requires Sound(lib, st) && CanonicalNodes(nodes) && CleanDigests(digest) && Injective(digest)
    requires LongDigests(digest) && end <= INT_MAX && 1 <= |placed| <= |Encode(lib, st, block)|
    ensures var shards := Encode(lib, st, block);
      && (forall i :: 0 <= i < |placed| ==> NodeText(Listed(placed, shards, nodes, digest)[i].0).Some?)
      && Stands(lib, digest, st, SubText(BlockText(placed, shards, nodes, digest), begin, end), block)
  {
    var shards := Encode(lib, st, block);
    RangeParsed(placed, shards, nodes, digest, begin, end);
    var text := SubText(BlockText(placed, shards, nodes, digest), begin, end);
    hide NodeText, Listed, Readable, DecodedShards, ParseShards, BlockText, SubText, Decimal, Encode;
    forall replies: nat -> Option<Bytes>
      ensures DecodedShards(lib, st, ParseShards(text), replies, digest) in [block, []]
    {
      ListDecodes(lib, st, block, placed, nodes, digest, replies);
      ExtraUnreadable(lib, st, Listed(placed, shards, nodes, digest), (Decimal(begin), Decimal(end)), replies, digest);
    }
  }

  // What a ranged read then returns.

  lemma {:induction false} OneBlock(blockOf: string -> Bytes, inode: FileInode, hi: nat)
    requires |inode.sub| == 1 <= hi
    ensures blockOf(inode.sub[0]) <= BlockRange(blockOf, inode, {}, 0, hi)
    decreases hi
  {
    hide FileInode.BlockSize;
    if hi == 1 {
      assert BlockRange(blockOf, inode, {}, 0, 1) == BlockRange(blockOf, inode, {}, 0, 0) + blockOf(inode.sub[0]);
    } else {
      OneBlock(blockOf, inode, hi - 1);
    }
  }

  lemma {:induction false} ZerosBeyond(blockOf: string -> Bytes, inode: FileInode, lo: nat, hi: nat)
    requires |inode.sub| <= lo <= hi
    ensures BlockRange(blockOf, inode, {}, lo, hi) == Zeros(Span(hi - lo, inode.BlockSize()))
    decreases hi
  {
    hide FileInode.BlockSize, Zeros, Span;
    if lo == hi {
      SpanNext(0, inode.BlockSize());
      assert |Zeros(0)| == 0;
    } else {
      ZerosBeyond(blockOf, inode, lo, hi - 1);
      SpanNext(hi - 1 - lo, inode.BlockSize());
      ZerosAdd(Span(hi - 1 - lo, inode.BlockSize()), inode.BlockSize());
    }
  }

  /** The inode of an aggregated file: its own size, and one shard list, that of the aggregate. */
  function SmallInode(data: Bytes, st: StorageType, text: string): (inode: FileInode) {
    FileInode(|data|, st, [text])
  }

  lemma FrontRead(blockOf: string -> Bytes, inode: FileInode, all: Bytes, offset: nat, size: nat)
    requires offset < inode.BlockSize() && |inode.sub| == 1 && blockOf(inode.sub[0]) == all
    requires offset <= inode.filesize <= |all| <= INT_MAX
    ensures ReadAnswer(blockOf, inode, {}, offset, size) == Data(all[offset..EndOf(inode, offset, size)])
  {
    hide FileInode.BlockSize, BlockRange, GetIndexs;
    var (first, second) := IndexsOf(inode, offset, size);
    var b, end := inode.BlockSize(), EndOf(inode, offset, size);
    IndexsAre(b, offset, end - offset);
    RemainderIsUnique(offset, b, 0, offset);
    assert first == 0 && second >= 1;
    hide IndexsOf;
    OneBlock(blockOf, inode, second);
    CutFront(all, BlockRange(blockOf, inode, {}, 0, second), offset, end);
  }

  lemma BeyondRead(blockOf: string -> Bytes, inode: FileInode, offset: nat, size: nat)
    requires 0 < inode.BlockSize() <= offset <= inode.filesize <= INT_MAX && |inode.sub| == 1
    ensures ReadAnswer(blockOf, inode, {}, offset, size) == Data(Zeros(EndOf(inode, offset, size) - offset))
  {
    hide FileInode.BlockSize, BlockRange, Zeros, Span, GetIndexs;
    var (first, second) := IndexsOf(inode, offset, size);
    var b, end := inode.BlockSize(), EndOf(inode, offset, size);
    IndexsAre(b, offset, end - offset);
    BeyondFirst(b, offset, end);
    var base := first * b;
    hide IndexsOf;
    ZerosBeyond(blockOf, inode, first, second);
    CutZeros(Span(second - first, b), offset - base, end - base);
  }

  /** A read within the first block returns bytes from the start of the aggregate, any other one zeros. */
  lemma AggregateRead(blockOf: string -> Bytes, data: Bytes, all: Bytes, st: StorageType, text: string,
                      offset: nat, size: nat)
    requires st.BlockSize() > 0 && blockOf(text) == all && |data| <= |all| <= INT_MAX
    ensures var inode := SmallInode(data, st, text);
      var end := EndOf(inode, offset, size);
      && end <= |data|
      && ReadAnswer(blockOf, inode, {}, offset, size) ==
        Data(if |data| < offset then [] else if offset < st.BlockSize() then all[offset..end] else Zeros(end - offset))
  {
    hide FileInode.BlockSize, StorageType.BlockSize, IndexsOf, BlockRange;
    var inode := SmallInode(data, st, text);
    SameSize(data, st, text);
    if offset <= |data| {
      hide ReadAnswer;
      if offset < st.BlockSize() {
        FrontRead(blockOf, inode, all, offset, size);
      } else {
        BeyondRead(blockOf, inode, offset, size);
      }
    }
  }

  lemma SameSize(data: Bytes, st: StorageType, text: string)
    ensures SmallInode(data, st, text).BlockSize() == st.BlockSize()
  {
  }

  lemma CutFront(p: Bytes, s: Bytes, i: nat, j: nat)
    requires p <= s && i <= j <= |p|
    ensures s[i..j] == p[i..j]
  {
  }

  lemma BeyondFirst(b: nat, offset: nat, end: nat)
    requires 0 < b <= offset <= end
    ensures 1 <= offset / b <= end / b && end - offset / b * b <= Span(end / b + 1 - offset / b, b)
  {
    QuotientMono(b, offset, b);
    QuotientMono(offset, end, b);
    RemainderIsUnique(b, b, 1, 0);
    QuotientBounds(end, b);
  }

  lemma CutZeros(n: nat, i: nat, j: nat)
    requires i <= j <= n
    ensures Zeros(n)[i..j] == Zeros(j - i)
  {
  }

  ghost predicate ReadsRight(blockOf: string -> Bytes, data: Bytes, st: StorageType, text: string, offset: nat,
                             size: nat)
    requires st.BlockSize() > 0 && |data| <= INT_MAX
  {
    ReadAnswer(blockOf, SmallInode(data, st, text), {}, offset, size) == Wanted(data, offset, size)
  }

  /** The file lies at the start of the aggregate, but for zeros past the first block. */
  predicate AtTheStart(data: Bytes, all: Bytes, b: nat) {
    data <= all && forall k :: b <= k < |data| ==> data[k] == 0
  }

  /** Every ranged read of an aggregated file is right exactly when the file is what the aggregate starts with. */
  lemma ReadsRightExactly(blockOf: string -> Bytes, data: Bytes, all: Bytes, st: StorageType, text: string)
    requires st.BlockSize() > 0 && blockOf(text) == all && |data| <= |all| <= INT_MAX
    ensures (forall offset: nat, size: nat :: ReadsRight(blockOf, data, st, text, offset, size)) <==>
      AtTheStart(data, all, st.BlockSize())
  {
    var inode, b := SmallInode(data, st, text), st.BlockSize();
    hide StorageType.BlockSize, ReadAnswer;
    if forall offset: nat, size: nat :: ReadsRight(blockOf, data, st, text, offset, size) {
      AggregateRead(blockOf, data, all, st, text, 0, |data|);
      assert ReadsRight(blockOf, data, st, text, 0, |data|);
      assert EndOf(inode, 0, |data|) == |data|;
      assert data[0..|data|] == data && all[0..|data|] == data;
      forall k | b <= k < |data| ensures data[k] == 0 {
        AggregateRead(blockOf, data, all, st, text, k, 1);
        assert ReadsRight(blockOf, data, st, text, k, 1);
        assert data[k..k + 1] == Zeros(1);
        assert data[k..k + 1][0] == data[k];
      }
    }
    if AtTheStart(data, all, b) {
      forall offset: nat, size: nat ensures ReadsRight(blockOf, data, st, text, offset, size) {
        AggregateRead(blockOf, data, all, st, text, offset, size);
        if b <= offset <= |data| {
          var end := EndOf(inode, offset, size);
          assert data[offset..end] == Zeros(end - offset);
        }
      }
    }
  }

  /** The inode that an aggregated upload commits for file i has the whole aggregate for its one block. */
  lemma SmallIsStanding(lib: Library, digest: Bytes -> string, blockOf: string -> Bytes, st: StorageType,
                        files: seq<SmallFile>, i: nat, placed: seq<nat>, nodes: seq<string>)
    requires Sound(lib, st) && CanonicalNodes(nodes) && CleanDigests(digest) && Injective(digest)
    requires LongDigests(digest) && st.BlockSize() > 0 && i < |files| && |Packed(files)| <= INT_MAX
    requires 1 <= |placed| <= |Encode(lib, st, Packed(files))|
    ensures var shards := Encode(lib, st, Packed(files));
      && (forall j :: 0 <= j < |placed| ==> NodeText(Listed(placed, shards, nodes, digest)[j].0).Some?)
      && var text := SubText(BlockText(placed, shards, nodes, digest), |Packed(files[..i])|, |Packed(files[..i + 1])|);
        && |files[i].data| <= |Packed(files)|
        && (blockOf(text) == Packed(files) ==> Standing(lib, digest, blockOf, SmallInode(files[i].data, st, text)))
  {
    RangesTile(files, i);
    hide Packed, Stands, NodeText, Listed, BlockText, SubText, Encode, Sound, LongDigests;
    AggregateStands(lib, st, Packed(files), placed, nodes, digest, |Packed(files[..i])|, |Packed(files[..i + 1])|);
  }

  /** For the files of a batch: the first non-empty one is read right, if it is no longer than a block. */
  lemma FirstReadsRight(files: seq<SmallFile>, i: nat, b: nat)
    requires i < |files| && Packed(files[..i]) == [] && |files[i].data| <= b
    ensures AtTheStart(files[i].data, Packed(files), b)
  {
    PackedSnoc(files, i);
    PackedPrefix(files, i + 1);
  }

  /** Two files of one byte: a read of the second returns the first. */
  lemma SecondReadsFirst(blockOf: string -> Bytes, st: StorageType, text: string, a: bv8, b: bv8)
    requires st.BlockSize() > 0 && blockOf(text) == Packed([SmallFile("a", [a]), SmallFile("b", [b])])
    ensures EndOf(SmallInode([b], st, text), 0, 1) < TWO_TO_THE_31
    ensures ReadAnswer(blockOf, SmallInode([b], st, text), {}, 0, 1) == Data([a])
  {
    var files := [SmallFile("a", [a]), SmallFile("b", [b])];
    PackedNothing(files);
    PackedSnoc(files, 0);
    PackedSnoc(files, 1);
    assert files[..2] == files;
    assert Packed(files) == [a, b];
    hide Packed, ReadAnswer, StorageType.BlockSize;
    AggregateRead(blockOf, [b], [a, b], st, text, 0, 1);
    assert [a, b][0..1] == [a];
  }

  /**
   Over every run of opens and reads, a read of an aggregated file whose aggregate is in a block file or
   can be decoded now returns bytes from the start of the aggregate.
   */
  lemma AggregateRunRead(lib: Library, digest: Bytes -> string, blockOf: string -> Bytes, ops: seq<Op>, i: nat,
                         answer: Option<Answer>, data: Bytes, all: Bytes, text: string)
    requires AllStanding(lib, digest, blockOf, ops) && i < |ops| && AnswerOk(lib, digest, ops, i, answer)
    requires ops[i].ReadOp? && ops[i].path in Opened(ops[..i])
    requires var inode := Opened(ops[..i])[ops[i].path]; inode == SmallInode(data, inode.storageType, text)
    requires blockOf(text) == all && |data| <= |all| <= INT_MAX && LostAt(lib, digest, ops, i) == {}
    ensures var op, st := ops[i], Opened(ops[..i])[ops[i].path].storageType;
      var end := Min(op.offset + op.size, |data|);
      answer == Some(Data(if |data| < op.offset then []
                          else if op.offset < st.BlockSize() then all[op.offset..end] else Zeros(end - op.offset)))
  {
    hide ReadAnswer, Standing, AllStanding, LostAt;
    RunReads(lib, digest, blockOf, ops, i, answer);
    var st := Opened(ops[..i])[ops[i].path].storageType;
    AggregateRead(blockOf, data, all, st, text, ops[i].offset, ops[i].size);
  }
}
