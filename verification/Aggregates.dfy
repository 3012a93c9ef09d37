/**
 Packing small files into one aggregate, and taking each of them out again. The range of a file inside
 the aggregate travels as text behind the shard list and is parsed by the client and by the namenode.
 */
module Aggregates {
  import opened Options
  import opened Text
  import opened Ranges
  import opened ShardList
  import opened StorageTypes
  import opened Placement
  import opened Recovery
  import opened WholeFile
  import opened Division
  import opened BlockReads

  /** A queued small file: where it goes, and its bytes. */
  datatype SmallFile = SmallFile(path: string, data: Bytes)

  datatype FileInfo = FileInfo(path: string, size: nat, begin: int, end: int)

  function Datas(files: seq<SmallFile>): (r: seq<Bytes>)
    ensures |r| == |files| && forall i :: 0 <= i < |r| ==> r[i] == files[i].data
  {
    seq(|files|, i requires 0 <= i < |files| => files[i].data)
  }

  /** The aggregate: the files one after the other. */
  function Packed(files: seq<SmallFile>): (r: Bytes) {
    Concat(Datas(files))
  }

  lemma PackedSnoc(files: seq<SmallFile>, n: nat)
    requires n < |files|
    ensures Packed(files[..n + 1]) == Packed(files[..n]) + files[n].data
  {
    var d := Datas(files[..n + 1]);
    assert d[..|d| - 1] == Datas(files[..n]);
  }

  /** The aggregation loop: positions are kept as ints. */
  method Aggregate(files: seq<SmallFile>) returns (aggData: Bytes, infos: seq<FileInfo>)
    ensures aggData == Packed(files) && |infos| == |files|
    ensures forall i :: 0 <= i < |files| ==>
      infos[i] == FileInfo(files[i].path, |files[i].data|, ToInt(|Packed(files[..i])|), ToInt(|Packed(files[..i + 1])|))
  {
    aggData, infos := [], [];
    var currentPos := 0;
    hide Packed;
    assert Packed(files[..0]) == [] by { PackedNothing(files); }
    for i := 0 to |files|
      invariant aggData == Packed(files[..i]) && currentPos == |aggData| && |infos| == i
      invariant forall j :: 0 <= j < i ==>
        infos[j] ==
          FileInfo(files[j].path, |files[j].data|, ToInt(|Packed(files[..j])|), ToInt(|Packed(files[..j + 1])|))
    {
      PackedSnoc(files, i);
      var fileSize := |files[i].data|;
      aggData := aggData + files[i].data;
      infos := infos + [FileInfo(files[i].path, fileSize, ToInt(currentPos), ToInt(currentPos + fileSize))];
      currentPos := currentPos + fileSize;
    }
    assert files[..|files|] == files;
  }

  lemma PackedNothing(files: seq<SmallFile>)
    ensures Packed(files[..0]) == []
  {
    assert Datas(files[..0]) == [];
  }

  lemma {:induction false} PackedPrefix(files: seq<SmallFile>, n: nat)
    requires n <= |files|
    ensures Packed(files[..n]) <= Packed(files)
    decreases |files| - n
  {
    if n == |files| {
      assert files[..n] == files;
    } else {
      PackedSnoc(files, n);
      PackedPrefix(files, n + 1);
    }
  }

  /** The ranges tile the aggregate, and each holds exactly its file. */
  lemma RangesTile(files: seq<SmallFile>, i: nat)
    requires i < |files| && |Packed(files)| <= INT_MAX
    ensures var begin, end := |Packed(files[..i])|, |Packed(files[..i + 1])|;
      && 0 <= begin && end == begin + |files[i].data| <= |Packed(files)|
      && ToInt(begin) == begin && ToInt(end) == end
      && Packed(files)[begin..end] == files[i].data
    ensures |Packed(files[..0])| == 0 && |Packed(files[..|files|])| == |Packed(files)|
  {
    hide Packed;
    PackedSnoc(files, i);
    PackedPrefix(files, i + 1);
    PackedNothing(files);
    assert files[..|files|] == files;
  }

  // Taking a file out.

  /** get on an aggregated file: the range of the decoded aggregate, one byte too many, cut to the size. */
  function Extracted(block: Bytes, begin: int, end: int, filesize: nat): (r: Option<Bytes>) {
    if begin < 0 || end > |block| || begin >= end then None
    else Some(Resize(block[begin..Min(end + 1, |block|)], filesize))
  }

  /** It throws exactly for an empty range or one not within the block; else one byte more than the range is had. */
  lemma ExtractedAt(block: Bytes, begin: int, end: int, filesize: nat, i: nat)
    ensures Extracted(block, begin, end, filesize).Some? <==> 0 <= begin < end <= |block|
    ensures 0 <= begin < end <= |block| && i < filesize ==>
      var r := Extracted(block, begin, end, filesize).value;
      |r| == filesize && r[i] == if i <= end - begin && begin + i < |block| then block[begin + i] else 0
  {
  }

  method GetAggregated(lib: Library, st: StorageType, sub: seq<string>, filesize: nat, replies: nat -> Option<Bytes>,
                       digest: Bytes -> string)
    returns (r: Option<Bytes>)
    requires st.DecodeBlocks() >= 1
    ensures r.Some? ==> sub != [] && ClientParse(sub[0]).Some?
    ensures sub != [] && ClientParse(sub[0]).Some? ==>
      var (begin, end, text) := ClientParse(sub[0]).value;
      r == Extracted(DecodedShards(lib, st, ParseShards(text), replies, digest), begin, end, filesize)
  {
    hide DecodedShards, ParseShards;
    if sub == [] {
      return None;
    }
    var parsed := ClientParse(sub[0]);
    if parsed.None? {
      return None;
    }
    var (begin, end, text) := parsed.value;
    var block := DecodeOneBlock(lib, st, text, replies, digest);
    r := Extracted(block, begin, end, filesize);
  }

  /** The byte beyond the range is cut off again; an empty range is refused. */
  lemma ExtractedIs(files: seq<SmallFile>, i: nat)
    requires i < |files| && |Packed(files)| <= INT_MAX
    ensures Extracted(Packed(files), |Packed(files[..i])|, |Packed(files[..i + 1])|, |files[i].data|) ==
      if files[i].data == [] then None else Some(files[i].data)
  {
    RangesTile(files, i);
    var all, begin, end := Packed(files), |Packed(files[..i])|, |Packed(files[..i + 1])|;
    hide Packed;
    if begin < end {
      assert all[begin..Min(end + 1, |all|)][..end - begin] == all[begin..end];
    }
  }

  /**
   The aggregate round trip: every non-empty file of a batch is read back exactly, whatever happened
   while the aggregate's shards were placed, when enough of them can be read; an empty file is refused.
   */
  lemma AggregateRoundTrip(lib: Library, st: StorageType, files: seq<SmallFile>, i: nat, placed: seq<nat>,
                           nodes: seq<string>, digest: Bytes -> string, replies: nat -> Option<Bytes>)
    requires Sound(lib, st) && CanonicalNodes(nodes) && CleanDigests(digest) && Injective(digest)
    requires i < |files| && |Packed(files)| <= INT_MAX
    requires |placed| <= |Encode(lib, st, Packed(files))|
    requires var list := Listed(placed, Encode(lib, st, Packed(files)), nodes, digest);
      |Readable(list, replies, digest)| >= st.DecodeBlocks()
    ensures var shards := Encode(lib, st, Packed(files));
      var begin, end := |Packed(files[..i])|, |Packed(files[..i + 1])|;
      && (forall j :: 0 <= j < |placed| ==> NodeText(Listed(placed, shards, nodes, digest)[j].0).Some?)
      && var parsed := ClientParse(SubText(BlockText(placed, shards, nodes, digest), begin, end));
      && parsed.Some? && parsed.value.0 == begin && parsed.value.1 == end
      && NamenodeParse(SubText(BlockText(placed, shards, nodes, digest), begin, end)) == Some((begin, end))
      && Extracted(DecodedShards(lib, st, ParseShards(parsed.value.2), replies, digest), begin, end, |files[i].data|) ==
        if files[i].data == [] then None else Some(files[i].data)
  {
    BlockDurable(lib, st, Packed(files), placed, nodes, digest, replies);
    RangesTile(files, i);
    ExtractedIs(files, i);
    hide Readable, DecodedShards, ParseShards, ClientParse, NamenodeParse, Packed, NodeText, Sound, Listed, BlockText,
      Extracted;
    RangeReadsBack(BlockText(placed, Encode(lib, st, Packed(files)), nodes, digest),
                   |Packed(files[..i])|, |Packed(files[..i + 1])|);
  }
}
