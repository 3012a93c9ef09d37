/**
 Whole files: splitting into blocks through one reused buffer, placing block after block with the
 placement counters carried over, and reading all blocks back, cut to the file size.
 */
module WholeFile {
  import opened Division
  import opened Options
  import opened ShardList
  import opened StorageTypes
  import opened Placement
  import opened Recovery

  /** align_up: how many blocks of size b hold n bytes. */
  function AlignUp(n: nat, b: nat): (r: nat)
    requires b > 0
  {
    (n + b - 1) / b
  }

  lemma AlignUpIs(n: nat, b: nat)
    requires b > 0
    ensures AlignUp(n, b) == n / b + (if n % b == 0 then 0 else 1)
    ensures b * (n / b) + n % b == n && n % b < b
  {
    Decompose(n, b);
    var q, r := n / b, n % b;
    if r == 0 {
      RemainderIsUnique(n + b - 1, b, q, b - 1);
    } else {
      assert b * (q + 1) == b * q + b;
      RemainderIsUnique(n + b - 1, b, q + 1, r - 1);
    }
  }

  lemma BlockBounds(n: nat, b: nat, i: nat)
    requires b > 0 && i < n / b
    ensures i * b + b <= n && (i + 1) * b == i * b + b
  {
    Decompose(n, b);
    MulMono(b, i + 1, n / b);
  }

  /** What the reused buffer holds before the remainder is copied in: zeros, or the last full block. */
  function BufferAfter(content: Bytes, b: nat, i: nat): (r: Bytes)
    requires b > 0 && i <= |content| / b
    ensures |r| == b
  {
    if i == 0 then seq(b, _ => 0) else
      BlockBounds(|content|, b, i - 1);
      content[(i - 1) * b..i * b]
  }

  /** Block i of a file: a full block, or the remainder followed by stale bytes of the buffer. */
  function BlockAt(content: Bytes, b: nat, i: nat): (r: Bytes)
    requires b > 0 && i < AlignUp(|content|, b)
    ensures |r| == b
  {
    AlignUpIs(|content|, b);
    if i < |content| / b then BufferAfter(content, b, i + 1)
    else content[b * (|content| / b)..] + BufferAfter(content, b, |content| / b)[|content| % b..]
  }

  function SplitBlocks(content: Bytes, b: nat): (blocks: seq<Bytes>)
    requires b > 0
    ensures |blocks| == AlignUp(|content|, b)
    ensures forall i :: 0 <= i < |blocks| ==> |blocks[i]| == b && blocks[i] == BlockAt(content, b, i)
  {
    seq(AlignUp(|content|, b), i requires 0 <= i < AlignUp(|content|, b) => BlockAt(content, b, i))
  }

  /** memcpy into the front of the buffer. */
  method CopyIn(tmp: array<bv8>, content: Bytes, from: nat, n: nat)
    requires from + n <= |content| && n <= tmp.Length
    modifies tmp
    ensures tmp[..] == content[from..from + n] + old(tmp[..])[n..]
  {
    for i := 0 to n
      invariant forall j :: 0 <= j < i ==> tmp[j] == content[from + j]
      invariant forall j :: i <= j < tmp.Length ==> tmp[j] == old(tmp[j])
    {
      tmp[i] := content[from + i];
    }
  }

  /** A full block is what the buffer holds after it was copied in. */
  lemma FullBlockAt(content: Bytes, b: nat, i: nat)
    requires b > 0 && i < |content| / b
    ensures i * b + b <= |content| && BufferAfter(content, b, i + 1) == content[i * b..i * b + b]
    ensures i < AlignUp(|content|, b) && BlockAt(content, b, i) == BufferAfter(content, b, i + 1)
  {
    BlockBounds(|content|, b, i);
    AlignUpIs(|content|, b);
  }

  lemma LastBlockAt(content: Bytes, b: nat)
    requires b > 0 && |content| % b > 0
    ensures var n, r := |content| / b, |content| % b;
      && n * b + r == |content| && r < b && AlignUp(|content|, b) == n + 1
      && BlockAt(content, b, n) == content[n * b..n * b + r] + BufferAfter(content, b, n)[r..]
  {
    AlignUpIs(|content|, b);
  }

  method CopyBlock(tmp: array<bv8>, content: Bytes, blockSize: nat, i: nat)
    requires 0 < blockSize == tmp.Length && i < |content| / blockSize
    modifies tmp
    ensures tmp[..] == BufferAfter(content, blockSize, i + 1)
  {
    FullBlockAt(content, blockSize, i);
    CopyIn(tmp, content, i * blockSize, blockSize);
  }

  method CopyRest(tmp: array<bv8>, content: Bytes, blockSize: nat)
    requires 0 < blockSize == tmp.Length && |content| % blockSize > 0
    requires tmp[..] == BufferAfter(content, blockSize, |content| / blockSize)
    modifies tmp
    ensures AlignUp(|content|, blockSize) == |content| / blockSize + 1
    ensures tmp[..] == BlockAt(content, blockSize, |content| / blockSize)
  {
    LastBlockAt(content, blockSize);
    CopyIn(tmp, content, |content| / blockSize * blockSize, |content| % blockSize);
  }

  /** split_all_block. */
  method SplitAllBlock(content: Bytes, blockSize: nat) returns (vec: seq<Bytes>)
    requires blockSize > 0
    ensures vec == SplitBlocks(content, blockSize)
  {
    var blockNums, bytesRemained := |content| / blockSize, |content| % blockSize;
    AlignUpIs(|content|, blockSize);
    vec := [];
    var tmp := new bv8[blockSize](_ => 0);
    assert tmp[..] == BufferAfter(content, blockSize, 0);
    hide BufferAfter, BlockAt, AlignUp;
    for i := 0 to blockNums
      invariant |vec| == i && tmp[..] == BufferAfter(content, blockSize, i)
      invariant forall j :: 0 <= j < i ==> vec[j] == BlockAt(content, blockSize, j)
    {
      FullBlockAt(content, blockSize, i);
      CopyBlock(tmp, content, blockSize, i);
      vec := vec + [tmp[..]];
    }
    if bytesRemained > 0 {
      CopyRest(tmp, content, blockSize);
      vec := vec + [tmp[..]];
    }
  }

  /** The blocks written one after the other. */
  function Concat(blocks: seq<Bytes>): (r: Bytes) {
    if blocks == [] then [] else Concat(blocks[..|blocks| - 1]) + blocks[|blocks| - 1]
  }

  /** resize_file: cut, or fill up with zeros. */
  function Resize(s: Bytes, n: nat): (r: Bytes)
    ensures |r| == n
  {
    if n <= |s| then s[..n] else s + seq(n - |s|, _ => 0)
  }

  lemma {:induction false} FullBlocks(content: Bytes, b: nat, i: nat)
    requires b > 0 && i <= |content| / b
    ensures i <= AlignUp(|content|, b) && i * b <= |content|
    ensures Concat(SplitBlocks(content, b)[..i]) == content[..i * b]
  {
    hide SplitBlocks, AlignUp, BlockAt;
    AlignUpIs(|content|, b);
    var blocks := SplitBlocks(content, b);
    if i == 0 {
      assert blocks[..0] == [];
    } else {
      FullBlocks(content, b, i - 1);
      BlockBounds(|content|, b, i - 1);
      assert blocks[..i][..i - 1] == blocks[..i - 1];
      FullBlockAt(content, b, i - 1);
      var from := (i - 1) * b;
      assert content[..from] + content[from..from + b] == content[..from + b];
    }
  }

  /** The last block of a file that is no multiple of the block size ends in the bytes of the block before. */
  lemma StaleTail(content: Bytes, b: nat)
    requires b > 0 && |content| % b > 0
    ensures var n, r, last := |content| / b, |content| % b, SplitBlocks(content, b);
      && |last| == n + 1 && r < b
      && last[n][..r] == content[|content| - r..]
      && last[n][r..] == if n == 0 then seq(b - r, _ => 0) else last[n - 1][r..]
  {
    hide AlignUp;
    LastBlockAt(content, b);
    var n, r := |content| / b, |content| % b;
    var at, stale, blocks := n * b, BufferAfter(content, b, n), SplitBlocks(content, b);
    assert blocks[n] == content[at..at + r] + stale[r..];
    if n > 0 {
      FullBlockAt(content, b, n - 1);
      assert blocks[n - 1] == stale;
    }
    hide SplitBlocks, BlockAt;
    Appended(content, at, r, stale, blocks[n]);
  }

  lemma Appended(content: Bytes, at: nat, r: nat, stale: Bytes, last: Bytes)
    requires at + r == |content| && r <= |stale| && last == content[at..at + r] + stale[r..]
    ensures last[..r] == content[|content| - r..] && last[r..] == stale[r..]
  {
  }

  lemma LastBlock(content: Bytes, b: nat)
    requires b > 0 && |content| % b > 0
    ensures var n, r := |content| / b, |content| % b;
      && n < |SplitBlocks(content, b)| && n * b + r == |content| && r <= |SplitBlocks(content, b)[n]|
      && SplitBlocks(content, b)[n][..r] == content[n * b..]
  {
    LastBlockAt(content, b);
  }

  /** The full blocks, and the last one unless nothing remains. */
  lemma CutBack(content: Bytes, blocks: seq<Bytes>, n: nat, at: nat, r: nat)
    requires at + r == |content| && n <= |blocks| == (if r == 0 then n else n + 1)
    requires Concat(blocks[..n]) == content[..at]
    requires r > 0 ==> r <= |blocks[n]| && blocks[n][..r] == content[at..]
    ensures Resize(Concat(blocks), |content|) == content
  {
    if r == 0 {
      assert blocks[..n] == blocks;
    } else {
      assert blocks[..|blocks| - 1] == blocks[..n];
      assert (content[..at] + blocks[n])[..|content|] == content[..at] + blocks[n][..r];
    }
  }

  /** Concatenating all blocks and cutting to the size drops exactly the stale bytes. */
  lemma SplitRoundTrip(content: Bytes, b: nat)
    requires b > 0
    ensures Resize(Concat(SplitBlocks(content, b)), |content|) == content
  {
    hide AlignUp, SplitBlocks, BlockAt, Concat, Resize;
    AlignUpIs(|content|, b);
    var n, r := |content| / b, |content| % b;
    FullBlocks(content, b, n);
    if r > 0 {
      LastBlock(content, b);
    }
    CutBack(content, SplitBlocks(content, b), n, n * b, r);
  }

  // Put: every block placed in turn.

  /** The loop states in which the blocks of a file end; the counters of one block start the next. */
  function BlockEnds(job: Job, blocks: nat, steps: seq<nat>): (ends: seq<Progress>)
    requires job.nodes > 0 && |steps| >= blocks
    ensures |ends| == blocks
  {
    if blocks == 0 then [] else
      var before := BlockEnds(job, blocks - 1, steps);
      before + [Run(job, BlockStart(before), steps[blocks - 1])]
  }

  function BlockStart(before: seq<Progress>): (s: Progress)
    ensures s.placed == [] && !s.gaveUp
  {
    if before == [] then START else NextBlock(before[|before| - 1])
  }

  /** Every block's placement ended with some shard stored. */
  ghost predicate AllEnd(job: Job, ends: seq<Progress>) {
    forall i :: 0 <= i < |ends| ==> Halted(job, ends[i]) && 0 < |ends[i].placed| <= job.shards
  }

  lemma {:induction false} EndsPrefix(job: Job, blocks: nat, steps: seq<nat>, i: nat)
    requires job.nodes > 0 && i <= blocks <= |steps|
    ensures BlockEnds(job, blocks, steps)[..i] == BlockEnds(job, i, steps)
  {
    if i < blocks {
      EndsPrefix(job, blocks - 1, steps, i);
      assert BlockEnds(job, blocks, steps)[..i] == BlockEnds(job, blocks - 1, steps)[..i];
    } else {
      assert BlockEnds(job, blocks, steps)[..i] == BlockEnds(job, blocks, steps);
    }
  }

  /** Attempt t of the whole file goes to node t mod n, whatever block it serves. */
  lemma {:induction false} BlocksInTurn(job: Job, blocks: nat, steps: seq<nat>)
    requires job.nodes > 0 && blocks <= |steps|
    ensures var s := BlockStart(BlockEnds(job, blocks, steps)); s.node == NodeOf(s.attempts, job.nodes)
    ensures blocks > 0 ==> |BlockEnds(job, blocks, steps)[blocks - 1].placed| <= job.shards
  {
    if blocks > 0 {
      BlocksInTurn(job, blocks - 1, steps);
      var s := BlockStart(BlockEnds(job, blocks - 1, steps));
      RunKeeps(job, s.attempts, s, steps[blocks - 1]);
    } else {
      assert NodeOf(0, job.nodes) == 0;
    }
  }

  /** The text recorded for one block. */
  ghost predicate IsText(text: string, lib: Library, st: StorageType, block: Bytes, nodes: seq<string>,
                         digest: Bytes -> string, end: Progress)
    requires nodes != []
  {
    var shards := Encode(lib, st, block);
    && |end.placed| <= |shards|
    && (forall j :: 0 <= j < |end.placed| ==> NodeText(Listed(end.placed, shards, nodes, digest)[j].0).Some?)
    && text == BlockText(end.placed, shards, nodes, digest)
  }

  /** The texts recorded for the blocks of a file. */
  ghost predicate AreTexts(sub: seq<string>, lib: Library, st: StorageType, blocks: seq<Bytes>, nodes: seq<string>,
                           digest: Bytes -> string, ends: seq<Progress>)
    requires nodes != []
  {
    && |sub| == |blocks| == |ends|
    && forall i :: 0 <= i < |sub| ==> IsText(sub[i], lib, st, blocks[i], nodes, digest, ends[i])
  }

  lemma TextsSnoc(sub: seq<string>, text: string, lib: Library, st: StorageType, blocks: seq<Bytes>, nodes: seq<string>,
                  digest: Bytes -> string, ends: seq<Progress>, i: nat)
    requires nodes != [] && i < |blocks| == |ends| && AreTexts(sub, lib, st, blocks[..i], nodes, digest, ends[..i])
    requires IsText(text, lib, st, blocks[i], nodes, digest, ends[i])
    ensures AreTexts(sub + [text], lib, st, blocks[..i + 1], nodes, digest, ends[..i + 1])
  {
    hide IsText;
  }

  /** Block i starts where the blocks before it left the counters. */
  lemma EndsStep(job: Job, blocks: nat, steps: seq<nat>, i: nat)
    requires job.nodes > 0 && i < blocks <= |steps|
    ensures var end := BlockEnds(job, blocks, steps)[i];
      && end == Run(job, BlockStart(BlockEnds(job, i, steps)), steps[i])
      && BlockStart(BlockEnds(job, i + 1, steps)) == NextBlock(end)
  {
    EndsPrefix(job, blocks, steps, i + 1);
    assert BlockEnds(job, blocks, steps)[..i + 1][i] == BlockEnds(job, i + 1, steps)[i];
  }

  /** datanode_put: every block through the placement loop, counters carried over. */
  method DatanodePut(lib: Library, st: StorageType, blocks: seq<Bytes>, nodes: seq<string>, digest: Bytes -> string,
                     up: nat -> bool, ghost steps: seq<nat>)
    returns (sub: seq<string>)
    requires Sound(lib, st) && CanonicalNodes(nodes) && CleanDigests(digest) && |steps| == |blocks|
    requires var job := Job(st, st.Blocks(), |nodes|, up); AllEnd(job, BlockEnds(job, |blocks|, steps))
    ensures AreTexts(sub, lib, st, blocks, nodes, digest, BlockEnds(Job(st, st.Blocks(), |nodes|, up), |blocks|, steps))
  {
    ghost var job := Job(st, st.Blocks(), |nodes|, up);
    ghost var ends := BlockEnds(job, |blocks|, steps);
    sub := [];
    var s := START;
    assert blocks[..0] == [] && ends[..0] == [];
    hide Run, Encode, Sound, CanonicalNodes, IsText, AreTexts, BlockStart, BlockEnds;
    for i := 0 to |blocks|
      invariant s == BlockStart(BlockEnds(job, i, steps))
      invariant AreTexts(sub, lib, st, blocks[..i], nodes, digest, ends[..i])
    {
      EndsStep(job, |blocks|, steps, i);
      BlocksInTurn(job, i, steps);
      SoundEncodes(lib, st, blocks[i]);
      var text, end := PutBlock(lib, st, blocks[i], nodes, digest, up, s, steps[i]);
      s := NextBlock(end);
      TextsSnoc(sub, text, lib, st, blocks, nodes, digest, ends, i);
      sub := sub + [text];
    }
    assert blocks[..|blocks|] == blocks && ends[..|blocks|] == ends;
  }

  /** One block of datanode_put: the placement loop from the carried counters, then the text. */
  method PutBlock(lib: Library, st: StorageType, block: Bytes, nodes: seq<string>, digest: Bytes -> string,
                  up: nat -> bool, start: Progress, ghost n: nat)
    returns (text: string, end: Progress)
    requires CanonicalNodes(nodes) && CleanDigests(digest) && |Encode(lib, st, block)| == st.Blocks()
    requires start.placed == [] && !start.gaveUp && start.node == NodeOf(start.attempts, |nodes|)
    requires var job := Job(st, st.Blocks(), |nodes|, up);
      Halted(job, Run(job, start, n)) && Run(job, start, n).placed != []
    ensures end == Run(Job(st, st.Blocks(), |nodes|, up), start, n)
    ensures IsText(text, lib, st, block, nodes, digest, end)
  {
    var shards := Encode(lib, st, block);
    var nodesHashs;
    nodesHashs, end := PlaceShards(st, shards, nodes, digest, up, start, n);
    ListedCanonical(end.placed, shards, nodes, digest);
    hide Run, NodeText;
    text := EncodeOneSub(nodesHashs);
  }

  /** put: split the file, encode and place its blocks, and record one text per block. */
  method PutFile(lib: Library, st: StorageType, content: Bytes, nodes: seq<string>, digest: Bytes -> string,
                 up: nat -> bool, ghost steps: seq<nat>)
    returns (sub: seq<string>)
    requires Sound(lib, st) && st.BlockSize() > 0 && CanonicalNodes(nodes) && CleanDigests(digest)
    requires |steps| == AlignUp(|content|, st.BlockSize())
    requires var job := Job(st, st.Blocks(), |nodes|, up); AllEnd(job, BlockEnds(job, |steps|, steps))
    ensures AreTexts(sub, lib, st, SplitBlocks(content, st.BlockSize()), nodes, digest,
                     BlockEnds(Job(st, st.Blocks(), |nodes|, up), |steps|, steps))
  {
    var blocks := SplitAllBlock(content, st.BlockSize());
    sub := DatanodePut(lib, st, blocks, nodes, digest, up, steps);
  }

  // Get: every block decoded, then cut.

  /** The blocks that reading the texts of a file yields. */
  function DecodedBlocks(lib: Library, st: StorageType, sub: seq<string>, replies: (nat, nat) -> Option<Bytes>,
                         digest: Bytes -> string): (blocks: seq<Bytes>)
    requires st.DecodeBlocks() >= 1
    ensures |blocks| == |sub|
    ensures forall i :: 0 <= i < |sub| ==>
      blocks[i] == DecodedShards(lib, st, ParseShards(sub[i]), (j: nat) => replies(i, j), digest)
  {
    seq(|sub|, i requires 0 <= i < |sub| =>
      DecodedShards(lib, st, ParseShards(sub[i]), (j: nat) => replies(i, j), digest))
  }

  /** The loop of get over a file that is no aggregate. */
  method GetFile(lib: Library, st: StorageType, sub: seq<string>, filesize: nat, replies: (nat, nat) -> Option<Bytes>,
                 digest: Bytes -> string)
    returns (data: Bytes)
    requires st.DecodeBlocks() >= 1
    ensures data == Resize(Concat(DecodedBlocks(lib, st, sub, replies, digest)), filesize)
  {
    ghost var blocks := DecodedBlocks(lib, st, sub, replies, digest);
    hide DecodedShards, DecodedBlocks;
    data := [];
    for i := 0 to |sub|
      invariant data == Concat(blocks[..i])
    {
      var block := DecodeOneBlock(lib, st, sub[i], (j: nat) => replies(i, j), digest);
      assert blocks[..i + 1][..i] == blocks[..i];
      data := data + block;
    }
    assert blocks[..|sub|] == blocks;
    data := Resize(data, filesize);
  }

  /** Of each block's listed shards at least DecodeBlocks() can be read. */
  ghost predicate EnoughReadable(lib: Library, st: StorageType, blocks: seq<Bytes>, nodes: seq<string>,
                                 digest: Bytes -> string, ends: seq<Progress>, replies: (nat, nat) -> Option<Bytes>)
    requires nodes != []
  {
    && |ends| == |blocks|
    && forall i {:trigger ends[i]} :: 0 <= i < |blocks| ==>
      && |ends[i].placed| <= |Encode(lib, st, blocks[i])|
      && var list := Listed(ends[i].placed, Encode(lib, st, blocks[i]), nodes, digest);
        |Readable(list, (j: nat) => replies(i, j), digest)| >= st.DecodeBlocks()
  }

  lemma BlockReadBack(lib: Library, st: StorageType, blocks: seq<Bytes>, sub: seq<string>, nodes: seq<string>,
                      digest: Bytes -> string, ends: seq<Progress>, replies: (nat, nat) -> Option<Bytes>, i: nat)
    requires Sound(lib, st) && CanonicalNodes(nodes) && CleanDigests(digest) && Injective(digest)
    requires AreTexts(sub, lib, st, blocks, nodes, digest, ends) && i < |blocks|
    requires EnoughReadable(lib, st, blocks, nodes, digest, ends, replies)
    ensures DecodedShards(lib, st, ParseShards(sub[i]), (j: nat) => replies(i, j), digest) == blocks[i]
  {
    assert IsText(sub[i], lib, st, blocks[i], nodes, digest, ends[i]);
    assert |ends[i].placed| <= |Encode(lib, st, blocks[i])|;
    BlockDurable(lib, st, blocks[i], ends[i].placed, nodes, digest, (j: nat) => replies(i, j));
  }

  lemma BlocksReadBack(lib: Library, st: StorageType, blocks: seq<Bytes>, sub: seq<string>, nodes: seq<string>,
                       digest: Bytes -> string, ends: seq<Progress>, replies: (nat, nat) -> Option<Bytes>)
    requires Sound(lib, st) && CanonicalNodes(nodes) && CleanDigests(digest) && Injective(digest)
    requires AreTexts(sub, lib, st, blocks, nodes, digest, ends)
    requires EnoughReadable(lib, st, blocks, nodes, digest, ends, replies)
    ensures DecodedBlocks(lib, st, sub, replies, digest) == blocks
  {
    assert st.DecodeBlocks() >= 1;
    hide DecodedShards, AreTexts, EnoughReadable, Sound;
    assert |sub| == |blocks| by { TextsMatch(sub, lib, st, blocks, nodes, digest, ends); }
    forall i | 0 <= i < |blocks| ensures DecodedBlocks(lib, st, sub, replies, digest)[i] == blocks[i] {
      BlockReadBack(lib, st, blocks, sub, nodes, digest, ends, replies, i);
    }
  }

  /** Put, then get, is the identity for every file length, whichever reads fail within the code's tolerance. */
  lemma PutGetIdentity(lib: Library, st: StorageType, content: Bytes, b: nat, sub: seq<string>, nodes: seq<string>,
                       digest: Bytes -> string, ends: seq<Progress>, replies: (nat, nat) -> Option<Bytes>)
    requires Sound(lib, st) && b > 0
    requires CanonicalNodes(nodes) && CleanDigests(digest) && Injective(digest)
    requires AreTexts(sub, lib, st, SplitBlocks(content, b), nodes, digest, ends)
    requires EnoughReadable(lib, st, SplitBlocks(content, b), nodes, digest, ends, replies)
    ensures Resize(Concat(DecodedBlocks(lib, st, sub, replies, digest)), |content|) == content
  {
    BlocksReadBack(lib, st, SplitBlocks(content, b), sub, nodes, digest, ends, replies);
    SplitRoundTrip(content, b);
  }

  lemma TextsMatch(sub: seq<string>, lib: Library, st: StorageType, blocks: seq<Bytes>, nodes: seq<string>,
                   digest: Bytes -> string, ends: seq<Progress>)
    requires nodes != [] && AreTexts(sub, lib, st, blocks, nodes, digest, ends)
    ensures |sub| == |blocks| == |ends|
  {
  }
}
