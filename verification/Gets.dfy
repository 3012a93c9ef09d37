/**
 get as a whole. A file whose inode carries the mark of an aggregate is read as a range of one block, any
 other file block by block. The mark outlives the aggregate, so a plain file may carry one: then the end
 of its shard list is read as a range.
 */
module Gets {
  import opened Options
  import opened Text
  import opened Ranges
  import opened ShardList
  import opened StorageTypes
  import opened Placement
  import opened Recovery
  import opened WholeFile
  import opened Aggregates

  /** The replies to the shards of the first block. */
  function First(replies: (nat, nat) -> Option<Bytes>): (f: nat -> Option<Bytes>) {
    (j: nat) => replies(0, j)
  }

  /** get on an aggregated file. */
  function RangeOf(lib: Library, st: StorageType, sub: seq<string>, filesize: nat, replies: nat -> Option<Bytes>,
                   digest: Bytes -> string): (r: Option<Bytes>)
    requires st.DecodeBlocks() >= 1
  {
    if sub == [] then None
    else match ClientParse(sub[0])
      case None => None
      case Some((begin, end, text)) =>
        Extracted(DecodedShards(lib, st, ParseShards(text), replies, digest), begin, end, filesize)
  }

  /** What get leaves in the local file, or nothing when it throws. */
  function Gotten(lib: Library, st: StorageType, sub: seq<string>, filesize: nat, mark: string,
                  replies: (nat, nat) -> Option<Bytes>, digest: Bytes -> string): (r: Option<Bytes>)
    requires st.DecodeBlocks() >= 1
  {
    if mark != "" then RangeOf(lib, st, sub, filesize, First(replies), digest)
    else Some(Resize(Concat(DecodedBlocks(lib, st, sub, replies, digest)), filesize))
  }

  method Get(lib: Library, st: StorageType, sub: seq<string>, filesize: nat, mark: string,
             replies: (nat, nat) -> Option<Bytes>, digest: Bytes -> string)
    returns (r: Option<Bytes>)
    requires st.DecodeBlocks() >= 1
    ensures r == Gotten(lib, st, sub, filesize, mark, replies, digest)
  {
    hide DecodedShards, DecodedBlocks, ClientParse, ParseShards;
    if mark != "" {
      r := GetAggregated(lib, st, sub, filesize, First(replies), digest);
    } else {
      var data := GetFile(lib, st, sub, filesize, replies, digest);
      r := Some(data);
    }
  }

  /** A file of an aggregate is read back through its mark. */
  lemma MarkedAggregateReads(lib: Library, st: StorageType, files: seq<SmallFile>, i: nat, placed: seq<nat>,
                             nodes: seq<string>, digest: Bytes -> string, replies: (nat, nat) -> Option<Bytes>,
                             mark: string)
    requires Sound(lib, st) && CanonicalNodes(nodes) && CleanDigests(digest) && Injective(digest)
    requires i < |files| && |Packed(files)| <= INT_MAX && mark != ""
    requires |placed| <= |Encode(lib, st, Packed(files))|
    requires var list := Listed(placed, Encode(lib, st, Packed(files)), nodes, digest);
      |Readable(list, First(replies), digest)| >= st.DecodeBlocks()
    ensures var shards := Encode(lib, st, Packed(files));
      && (forall j :: 0 <= j < |placed| ==> NodeText(Listed(placed, shards, nodes, digest)[j].0).Some?)
      && var text := BlockText(placed, shards, nodes, digest);
        var sub := [SubText(text, |Packed(files[..i])|, |Packed(files[..i + 1])|)];
        Gotten(lib, st, sub, |files[i].data|, mark, replies, digest) ==
          if files[i].data == [] then None else Some(files[i].data)
  {
    AggregateRoundTrip(lib, st, files, i, placed, nodes, digest, First(replies));
    hide Readable, DecodedShards, ParseShards, ClientParse, NamenodeParse, Packed, NodeText, Listed, BlockText,
      Extracted, Encode;
  }

  // Plain files that carry a mark.

  lemma ParsedBehind(init: string, last: string)
    requires ',' !in last
    ensures ClientParse(init + [','] + last) ==
      match ParseRange(last) { case None => None case Some((x, y)) => Some((x, y, init)) }
  {
    hide FindLast, ParseRange;
    var s := init + [','] + last;
    assert s[..|init|] == init && s[|init|] == ',' && s[|init| + 1..] == last;
    FindLastIs(s, ',', |init|);
  }

  /** The last entry of a list of at least two is taken for the range. */
  lemma LastEntryParsed(texts: seq<string>)
    requires |texts| >= 2 && Clean(texts[|texts| - 1], ',')
    ensures var n := |texts| - 1;
      ClientParse(Join(texts, ',')) ==
        match ParseRange(texts[n]) { case None => None case Some((x, y)) => Some((x, y, Join(texts[..n], ','))) }
  {
    hide Join, ClientParse, ParseRange;
    var n := |texts| - 1;
    JoinSnoc(texts[..n], texts[n], ',');
    assert texts[..n] + [texts[n]] == texts;
    ParsedBehind(Join(texts[..n], ','), texts[n]);
  }

  /** A list of one entry or none has no comma, and the range stays empty. */
  lemma ShortListParsed(texts: seq<string>)
    requires |texts| <= 1 && forall i :: 0 <= i < |texts| ==> Clean(texts[i], ',')
    ensures ClientParse(Join(texts, ',')) == Some((0, 0, Join(texts, ',')))
  {
    assert |texts| == 1 ==> Clean(texts[0], ',');
  }

  lemma ListedInit(placed: seq<nat>, shards: seq<Bytes>, nodes: seq<string>, digest: Bytes -> string)
    requires CanonicalNodes(nodes) && CleanDigests(digest) && 1 <= |placed| <= |shards|
    ensures var n, list := |placed| - 1, Listed(placed, shards, nodes, digest);
      && Listed(placed[..n], shards, nodes, digest) == list[..n]
      && (forall i :: 0 <= i < |list| ==> CanonicalShard(list[i]) && NodeText(list[i].0) == Some(list[i].0))
      && (forall i :: 0 <= i < |list| ==> Clean(ShardText(list[i]), ','))
      && ShardTexts(list[..n]) == ShardTexts(list)[..n]
  {
    var list := Listed(placed, shards, nodes, digest);
    ListedCanonical(placed, shards, nodes, digest);
    forall i | 0 <= i < |list|
      ensures NodeText(list[i].0) == Some(list[i].0) && Clean(ShardText(list[i]), ',')
    {
      ParseShardText(list[i]);
    }
    hide NodeText, CanonicalShard;
  }

  /** A node whose address starts with two numbers, as every IPv4 address does. */
  ghost predicate Dotted(node: string, x: nat, y: nat, rest: string) {
    node == Decimal(x) + "." + Decimal(y) + "." + rest && x <= INT_MAX && y <= INT_MAX
  }

  lemma EntryIsRange(node: string, hash: string, x: nat, y: nat, rest: string)
    requires Dotted(node, x, y, rest)
    ensures ParseRange(node + "|" + hash) == Some((x, y))
  {
    hide ParseRange, Decimal;
    var tail := "." + rest + "|" + hash;
    PairParses(x, '.', y, tail);
    assert node + "|" + hash == Decimal(x) + ['.'] + Decimal(y) + tail;
  }

  /** What the entry of the last listed shard reads as, when there are two or more. */
  function LastRange(placed: seq<nat>, shards: seq<Bytes>, nodes: seq<string>, digest: Bytes -> string)
    : (r: Option<(int, int)>)
    requires nodes != [] && 1 <= |placed| <= |shards|
  {
    var (node, hash) := Listed(placed, shards, nodes, digest)[|placed| - 1];
    ParseRange(node + "|" + hash)
  }

  /** The address x.y.z.w:port reads as the range (x, y). */
  lemma AddressIsRange(placed: seq<nat>, shards: seq<Bytes>, nodes: seq<string>, digest: Bytes -> string,
                       x: nat, y: nat, rest: string)
    requires nodes != [] && 1 <= |placed| <= |shards|
    requires Dotted(Listed(placed, shards, nodes, digest)[|placed| - 1].0, x, y, rest)
    ensures LastRange(placed, shards, nodes, digest) == Some((x, y))
  {
    hide ParseRange, Listed, Dotted;
    var (node, hash) := Listed(placed, shards, nodes, digest)[|placed| - 1];
    EntryIsRange(node, hash, x, y, rest);
  }

  /** The text of a plain block is read as a range of the block that all but its last shard give. */
  lemma PlainTextParsed(placed: seq<nat>, shards: seq<Bytes>, nodes: seq<string>, digest: Bytes -> string)
    requires CanonicalNodes(nodes) && CleanDigests(digest) && 2 <= |placed| <= |shards|
    ensures forall i :: 0 <= i < |placed| ==> NodeText(Listed(placed, shards, nodes, digest)[i].0).Some?
    ensures var init := placed[..|placed| - 1];
      forall i :: 0 <= i < |init| ==> NodeText(Listed(init, shards, nodes, digest)[i].0).Some?
    ensures ClientParse(BlockText(placed, shards, nodes, digest)) ==
      match LastRange(placed, shards, nodes, digest) {
        case None => None
        case Some((x, y)) => Some((x, y, BlockText(placed[..|placed| - 1], shards, nodes, digest)))
      }
  {
    hide ParseRange, ClientParse, Join;
    ListedInit(placed, shards, nodes, digest);
    LastEntryParsed(ShardTexts(Listed(placed, shards, nodes, digest)));
  }

  lemma NothingExtracted(begin: int, end: int, filesize: nat)
    ensures Extracted([], begin, end, filesize) == None
  {
  }

  /** get on a plain block whose file carries a mark. */
  lemma MarkedPlainRead(lib: Library, st: StorageType, block: Bytes, placed: seq<nat>, nodes: seq<string>,
                        digest: Bytes -> string, replies: nat -> Option<Bytes>, filesize: nat, more: seq<string>)
    requires Sound(lib, st) && CanonicalNodes(nodes) && CleanDigests(digest) && Injective(digest)
    requires 2 <= |placed| <= |Encode(lib, st, block)|
    ensures var shards := Encode(lib, st, block);
      && (forall i :: 0 <= i < |placed| ==> NodeText(Listed(placed, shards, nodes, digest)[i].0).Some?)
      && var kept := Listed(placed[..|placed| - 1], shards, nodes, digest);
        RangeOf(lib, st, [BlockText(placed, shards, nodes, digest)] + more, filesize, replies, digest) ==
          match LastRange(placed, shards, nodes, digest) {
            case None => None
            case Some((x, y)) =>
              if |Readable(kept, replies, digest)| >= st.DecodeBlocks() then Extracted(block, x, y, filesize) else None
          }
  {
    hide ClientParse, BlockText, DecodedShards, ParseShards, NodeText, Listed, Readable, Encode, Sound, LastRange,
      Extracted;
    var n, shards := |placed| - 1, Encode(lib, st, block);
    PlainTextParsed(placed, shards, nodes, digest);
    BlockDurable(lib, st, block, placed[..n], nodes, digest, replies);
    var range := LastRange(placed, shards, nodes, digest);
    if range.Some? {
      NothingExtracted(range.value.0, range.value.1, filesize);
    }
  }

  /** With one shard or none there is no comma to split at, and get throws. */
  lemma MarkedShortRead(lib: Library, st: StorageType, block: Bytes, placed: seq<nat>, nodes: seq<string>,
                        digest: Bytes -> string, replies: nat -> Option<Bytes>, filesize: nat, more: seq<string>)
    requires Sound(lib, st) && CanonicalNodes(nodes) && CleanDigests(digest)
    requires |placed| <= 1 && |placed| <= |Encode(lib, st, block)|
    ensures var shards := Encode(lib, st, block);
      && (forall i :: 0 <= i < |placed| ==> NodeText(Listed(placed, shards, nodes, digest)[i].0).Some?)
      && RangeOf(lib, st, [BlockText(placed, shards, nodes, digest)] + more, filesize, replies, digest) == None
  {
    var shards := Encode(lib, st, block);
    var list := Listed(placed, shards, nodes, digest);
    ListedCanonical(placed, shards, nodes, digest);
    forall i | 0 <= i < |list| ensures Clean(ShardText(list[i]), ',') {
      ParseShardText(list[i]);
    }
    hide NodeText, ClientParse, Join, DecodedShards, ParseShards, Listed;
    ShortListParsed(ShardTexts(list));
  }

  /** The first block's list has two entries or more, the last of which reads as the range r. */
  ghost predicate ReadsAs(lib: Library, st: StorageType, blocks: seq<Bytes>, nodes: seq<string>,
                          digest: Bytes -> string, ends: seq<Progress>, r: (int, int))
    requires nodes != []
  {
    && blocks != [] && ends != [] && 2 <= |ends[0].placed| <= |Encode(lib, st, blocks[0])|
    && LastRange(ends[0].placed, Encode(lib, st, blocks[0]), nodes, digest) == Some(r)
  }

  /** All but the last shard of the first block suffice, and the range of that block is the whole file. */
  ghost predicate LuckyRead(lib: Library, st: StorageType, blocks: seq<Bytes>, nodes: seq<string>,
                            digest: Bytes -> string, ends: seq<Progress>, replies: nat -> Option<Bytes>,
                            content: Bytes)
    requires nodes != []
  {
    exists x: int, y: int ::
      && ReadsAs(lib, st, blocks, nodes, digest, ends, (x, y))
      && Extracted(blocks[0], x, y, |content|) == Some(content)
      && |Readable(Listed(ends[0].placed[..|ends[0].placed| - 1], Encode(lib, st, blocks[0]), nodes, digest),
                   replies, digest)| >= st.DecodeBlocks()
  }

  lemma FirstText(lib: Library, st: StorageType, blocks: seq<Bytes>, sub: seq<string>, nodes: seq<string>,
                  digest: Bytes -> string, ends: seq<Progress>)
    requires nodes != [] && AreTexts(sub, lib, st, blocks, nodes, digest, ends)
    ensures |sub| == |blocks| == |ends|
    ensures sub != [] ==> IsText(sub[0], lib, st, blocks[0], nodes, digest, ends[0]) && sub == [sub[0]] + sub[1..]
  {
    hide IsText;
  }

  lemma MarkedFirst(lib: Library, st: StorageType, content: Bytes, block: Bytes, text: string, more: seq<string>,
                    nodes: seq<string>, digest: Bytes -> string, end: Progress, replies: nat -> Option<Bytes>)
    requires Sound(lib, st) && CanonicalNodes(nodes) && CleanDigests(digest) && Injective(digest)
    requires IsText(text, lib, st, block, nodes, digest, end)
    ensures RangeOf(lib, st, [text] + more, |content|, replies, digest) == Some(content) <==>
      LuckyRead(lib, st, [block], nodes, digest, [end], replies, content)
  {
    hide Sound, Readable, Listed, RangeOf, BlockText, Extracted, NodeText, Encode, CleanDigests, Injective, LastRange;
    if |end.placed| <= 1 {
      MarkedShortRead(lib, st, block, end.placed, nodes, digest, replies, |content|, more);
    } else {
      MarkedPlainRead(lib, st, block, end.placed, nodes, digest, replies, |content|, more);
      var range := LastRange(end.placed, Encode(lib, st, block), nodes, digest);
      if range.Some? {
        assert ReadsAs(lib, st, [block], nodes, digest, [end], (range.value.0, range.value.1));
      }
    }
  }

  lemma MarkedRead(lib: Library, st: StorageType, content: Bytes, blocks: seq<Bytes>, sub: seq<string>,
                   nodes: seq<string>, digest: Bytes -> string, ends: seq<Progress>, replies: nat -> Option<Bytes>)
    requires Sound(lib, st) && CanonicalNodes(nodes) && CleanDigests(digest) && Injective(digest)
    requires AreTexts(sub, lib, st, blocks, nodes, digest, ends)
    ensures RangeOf(lib, st, sub, |content|, replies, digest) == Some(content) <==>
      LuckyRead(lib, st, blocks, nodes, digest, ends, replies, content)
  {
    hide AreTexts, Sound, Readable, Listed, IsText, Extracted, Encode, CleanDigests, Injective, ClientParse,
      DecodedShards, ParseShards, LastRange;
    FirstText(lib, st, blocks, sub, nodes, digest, ends);
    if sub != [] {
      MarkedFirst(lib, st, content, blocks[0], sub[0], sub[1..], nodes, digest, ends[0], replies);
      SameFirst(lib, st, blocks, nodes, digest, ends, replies, content);
    }
  }

  /** Only the first block decides. */
  lemma SameFirst(lib: Library, st: StorageType, blocks: seq<Bytes>, nodes: seq<string>, digest: Bytes -> string,
                  ends: seq<Progress>, replies: nat -> Option<Bytes>, content: Bytes)
    requires nodes != [] && blocks != [] && ends != []
    ensures LuckyRead(lib, st, blocks, nodes, digest, ends, replies, content) <==>
      LuckyRead(lib, st, [blocks[0]], nodes, digest, [ends[0]], replies, content)
  {
    hide Readable, Listed, Extracted, Encode, LastRange;
    forall r: (int, int)
      ensures ReadsAs(lib, st, blocks, nodes, digest, ends, r) <==>
        ReadsAs(lib, st, [blocks[0]], nodes, digest, [ends[0]], r)
    {
    }
    hide ReadsAs;
  }

  /**
   Of a plain file, put as such and readable: get gives it back exactly when its inode carries no mark, or
   when the range that the end of its first shard list happens to denote is, cut to size, the whole file.
   An address that does not read as a range makes get throw.
   */
  lemma MarkDecides(lib: Library, st: StorageType, content: Bytes, b: nat, sub: seq<string>, nodes: seq<string>,
                    digest: Bytes -> string, ends: seq<Progress>, replies: (nat, nat) -> Option<Bytes>, mark: string)
    requires Sound(lib, st) && b > 0
    requires CanonicalNodes(nodes) && CleanDigests(digest) && Injective(digest)
    requires AreTexts(sub, lib, st, SplitBlocks(content, b), nodes, digest, ends)
    requires EnoughReadable(lib, st, SplitBlocks(content, b), nodes, digest, ends, replies)
    ensures Gotten(lib, st, sub, |content|, mark, replies, digest) == Some(content) <==>
      || mark == ""
      || LuckyRead(lib, st, SplitBlocks(content, b), nodes, digest, ends, First(replies), content)
  {
    hide SplitBlocks, AreTexts, EnoughReadable, RangeOf, LuckyRead, DecodedBlocks;
    if mark == "" {
      PutGetIdentity(lib, st, content, b, sub, nodes, digest, ends, replies);
    } else {
      MarkedRead(lib, st, content, SplitBlocks(content, b), sub, nodes, digest, ends, First(replies));
    }
  }

  /** Past the length of the range a lucky read yields zeros. */
  lemma LuckyIsZero(block: Bytes, x: int, y: int, content: Bytes, i: nat)
    requires Extracted(block, x, y, |content|) == Some(content) && y - x < i < |content|
    ensures content[i] == 0
  {
  }

  /** So any byte but zero past the length of the range decides: the file is given back exactly without a mark. */
  lemma UnmarkedExactly(lib: Library, st: StorageType, content: Bytes, b: nat, sub: seq<string>, nodes: seq<string>,
                        digest: Bytes -> string, ends: seq<Progress>, replies: (nat, nat) -> Option<Bytes>,
                        mark: string, i: nat)
    requires Sound(lib, st) && b > 0
    requires CanonicalNodes(nodes) && CleanDigests(digest) && Injective(digest)
    requires AreTexts(sub, lib, st, SplitBlocks(content, b), nodes, digest, ends)
    requires EnoughReadable(lib, st, SplitBlocks(content, b), nodes, digest, ends, replies)
    requires i < |content| && content[i] != 0
    requires forall r :: ReadsAs(lib, st, SplitBlocks(content, b), nodes, digest, ends, r) ==> r.1 - r.0 < i
    ensures Gotten(lib, st, sub, |content|, mark, replies, digest) == Some(content) <==> mark == ""
  {
    hide SplitBlocks, AreTexts, EnoughReadable, Gotten, Sound, Readable, Listed, Extracted, Encode, ReadsAs;
    MarkDecides(lib, st, content, b, sub, nodes, digest, ends, replies, mark);
    var blocks := SplitBlocks(content, b);
    if LuckyRead(lib, st, blocks, nodes, digest, ends, First(replies), content) {
      var x: int, y: int :|
        ReadsAs(lib, st, blocks, nodes, digest, ends, (x, y)) && Extracted(blocks[0], x, y, |content|) == Some(content);
      LuckyIsZero(blocks[0], x, y, content, i);
    }
  }
}
