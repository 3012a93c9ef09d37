/**
 Ranged reads of a file whose blocks were cut by one storage type and are read by another of the same code
 but, perhaps, another block size.
 */
module RetypedReads {
  import opened Division
  import opened StorageTypes
  import opened WholeFile
  import opened BlockReads

  /** What a ranged read answers, all blocks being had. */
  function RetypedAnswer(content: Bytes, st: StorageType, st': StorageType, offset: nat, size: nat): (r: Answer)
    requires st.BlockSize() > 0 && st'.BlockSize() > 0 && |content| < TWO_TO_THE_31
  {
    AnswerFrom(SplitBlocks(content, st.BlockSize()), FileInode(|content|, st', []), offset, size)
  }

  /** The answer, given the blocks that hold the two ends of the range. */
  lemma AnswerIs(had: seq<Bytes>, L: nat, st: StorageType, b: nat, offset: nat, size: nat, first: nat, last: nat)
    requires b == st.BlockSize() > 0 && offset <= L < TWO_TO_THE_31 && first <= last
    requires b * first <= offset < b * first + b && b * last <= Min(offset + size, L) < b * last + b
    ensures var s, base, end := HadRange(had, b, first, last + 1), b * first, Min(offset + size, L);
      AnswerFrom(had, FileInode(L, st, []), offset, size) ==
        if |s| < end - base then PastTheEnd else Data(s[offset - base..end - base])
  {
    hide HadRange, GetIndexs, IndexsOf;
    var inode := FileInode(L, st, []);
    assert inode.BlockSize() == b;
    hide FileInode.BlockSize, StorageType.BlockSize;
    TheIndexs(inode, b, offset, size, first, last);
  }

  // The same block size.

  function Names(n: nat): (sub: seq<string>)
    ensures |sub| == n && forall i :: 0 <= i < n ==> |sub[i]| == i
  {
    seq(n, i requires 0 <= i < n => seq(i, _ => 'x'))
  }

  function BlockNamed(blocks: seq<Bytes>): (f: string -> Bytes) {
    (s: string) => if |s| < |blocks| then blocks[|s|] else []
  }

  lemma NamedBlocks(content: Bytes, st: StorageType, b: nat)
    requires b == st.BlockSize() > 0
    ensures var blocks := SplitBlocks(content, b);
      var inode, blockOf := FileInode(|content|, st, Names(|blocks|)), BlockNamed(blocks);
      && WellFormed(blockOf, inode) && inode.filesize <= |BlockRange(blockOf, inode, {}, 0, |inode.sub|)|
      && Content(blockOf, inode) == content
  {
    var blocks := SplitBlocks(content, b);
    var inode := FileInode(|content|, st, Names(|blocks|));
    assert inode.BlockSize() == b;
    hide StorageType.BlockSize, FileInode.BlockSize, SplitBlocks, BlockRange, WellFormed;
    ContentIsPut(BlockNamed(blocks), content, inode);
  }

  lemma NamedRange(blocks: seq<Bytes>, L: nat, st: StorageType, offset: nat, size: nat)
    requires st.BlockSize() > 0 && L < TWO_TO_THE_31
    ensures var inode, blockOf := FileInode(L, st, Names(|blocks|)), BlockNamed(blocks);
      AnswerFrom(blocks, inode, offset, size) == ReadAnswer(blockOf, inode, {}, offset, size)
  {
    var inode, blockOf := FileInode(L, st, Names(|blocks|)), BlockNamed(blocks);
    assert inode.BlockSize() > 0;
    hide StorageType.BlockSize, FileInode.BlockSize, HadRange, BlockRange, GetIndexs, IndexsOf;
    if offset <= L {
      var (first, second) := IndexsOf(inode, offset, size);
      assert HadBut(blockOf, inode, {}, blocks, first, second);
      HadIsRange(blockOf, inode, {}, blocks, first, second);
    }
  }

  lemma SameSizeRight(content: Bytes, st: StorageType, st': StorageType, offset: nat, size: nat)
    requires st.BlockSize() == st'.BlockSize() > 0 && |content| < TWO_TO_THE_31
    ensures RetypedAnswer(content, st, st', offset, size) == Wanted(content, offset, size)
  {
    hide StorageType.BlockSize, FileInode.BlockSize, SplitBlocks, AnswerFrom, ReadAnswer, WellFormed, BlockRange,
      Names, BlockNamed;
    var blocks := SplitBlocks(content, st.BlockSize());
    var inode := FileInode(|content|, st', Names(|blocks|));
    NamedBlocks(content, st', st'.BlockSize());
    FullRead(BlockNamed(blocks), inode, offset, size);
    NamedRange(blocks, |content|, st', offset, size);
    SubsDoNotMatter(blocks, |content|, st', Names(|blocks|), offset, size);
  }

  lemma SubsDoNotMatter(had: seq<Bytes>, L: nat, st: StorageType, sub: seq<string>, offset: nat, size: nat)
    requires st.BlockSize() > 0 && L < TWO_TO_THE_31
    ensures AnswerFrom(had, FileInode(L, st, []), offset, size) == AnswerFrom(had, FileInode(L, st, sub), offset, size)
  {
    hide HadRange, GetIndexs;
  }

  // A file that fits into one block of either size.

  lemma {:induction false} HadFirst(had: seq<Bytes>, b: nat, hi: nat)
    requires had != [] && hi >= 1
    ensures had[0] <= HadRange(had, b, 0, hi)
    decreases hi
  {
    if hi == 1 {
      assert HadRange(had, b, 0, 1) == HadRange(had, b, 0, 0) + had[0];
    } else {
      HadFirst(had, b, hi - 1);
    }
  }

  lemma OnlyBlock(content: Bytes, b: nat)
    requires 0 < |content| <= b
    ensures var blocks := SplitBlocks(content, b); |blocks| == 1 && |blocks[0]| == b && content <= blocks[0]
  {
    AlignUpIs(|content|, b);
    if |content| == b {
      RemainderIsUnique(b, b, 1, 0);
      FullBlockAt(content, b, 0);
      assert content[0 * b..0 * b + b] == content;
    } else {
      RemainderIsUnique(|content|, b, 0, |content|);
      LastBlockAt(content, b);
      assert content[0 * b..0 * b + |content|] == content;
    }
  }

  /** A read that starts within the first block, of which the file is the front. */
  lemma FrontAnswer(had: seq<Bytes>, content: Bytes, st: StorageType, offset: nat, size: nat)
    requires offset < st.BlockSize() && offset <= |content| <= st.BlockSize() && |content| < TWO_TO_THE_31
    requires had != [] && content <= had[0]
    ensures AnswerFrom(had, FileInode(|content|, st, []), offset, size) ==
      Data(content[offset..Min(offset + size, |content|)])
  {
    hide HadRange, AnswerFrom, StorageType.BlockSize;
    var b, end := st.BlockSize(), Min(offset + size, |content|);
    var last := if end == b then 1 else 0;
    AnswerIs(had, |content|, st, b, offset, size, 0, last);
    HadFirst(had, b, last + 1);
    CutOfPrefix(content, HadRange(had, b, 0, last + 1), offset, end);
  }

  /** A read that starts at the end of a file that ends at a block boundary. */
  lemma EdgeAnswer(had: seq<Bytes>, L: nat, st: StorageType, size: nat, first: nat)
    requires 0 < st.BlockSize() && L == st.BlockSize() * first < TWO_TO_THE_31
    ensures AnswerFrom(had, FileInode(L, st, []), L, size) == Data([])
  {
    hide HadRange, AnswerFrom, StorageType.BlockSize;
    AnswerIs(had, L, st, st.BlockSize(), L, size, first, first);
  }

  lemma OneBlockRight(content: Bytes, st: StorageType, st': StorageType, offset: nat, size: nat)
    requires st.BlockSize() > 0 && st'.BlockSize() > 0 && |content| < TWO_TO_THE_31
    requires |content| <= st.BlockSize() && |content| <= st'.BlockSize()
    ensures RetypedAnswer(content, st, st', offset, size) == Wanted(content, offset, size)
  {
    hide SplitBlocks, HadRange, StorageType.BlockSize, IndexsOf;
    var L, blocks := |content|, SplitBlocks(content, st.BlockSize());
    if offset <= L {
      hide AnswerFrom;
      if L == 0 {
        EdgeAnswer(blocks, L, st', size, 0);
      } else if offset == st'.BlockSize() {
        EdgeAnswer(blocks, L, st', size, 1);
      } else {
        OnlyBlock(content, st.BlockSize());
        FrontAnswer(blocks, content, st', offset, size);
      }
    }
  }

  lemma CutOfPrefix(p: Bytes, s: Bytes, i: nat, j: nat)
    requires p <= s && i <= j <= |p|
    ensures s[i..j] == p[i..j]
  {
  }

  // Otherwise some read of some file of that length goes wrong.

  lemma SizesApart(st: StorageType, st': StorageType)
    requires st.BlockSize() > 0
    ensures st.BlockSize() >= 2 && (st.BlockSize() < st'.BlockSize() ==> st.BlockSize() + 1 < st'.BlockSize())
  {
  }

  /** A file that reaches past its first block, read by a larger block size: the end of that size is not at hand. */
  lemma ReadsShort(content: Bytes, st: StorageType, st': StorageType)
    requires 0 < st.BlockSize() < |content| <= st'.BlockSize() && |content| < TWO_TO_THE_31
    ensures RetypedAnswer(content, st, st', 0, st.BlockSize() + 1) == PastTheEnd
  {
    hide SplitBlocks, AnswerFrom, HadRange;
    var b, b' := st.BlockSize(), st'.BlockSize();
    SizesApart(st, st');
    hide StorageType.BlockSize;
    var blocks := SplitBlocks(content, b);
    StartOfBlock(content, b);
    AnswerIs(blocks, |content|, st', b', 0, b + 1, 0, 0);
    HadOne(blocks, b', 0);
  }

  lemma HadOne(had: seq<Bytes>, b: nat, i: nat)
    ensures HadRange(had, b, i, i + 1) == if i < |had| then had[i] else Zeros(b)
  {
    assert HadRange(had, b, i, i + 1) == HadRange(had, b, i, i) + if i < |had| then had[i] else Zeros(b);
  }

  function OneAt(L: nat, i: nat): (content: Bytes)
    ensures |content| == L && forall j :: 0 <= j < L ==> content[j] == if j == i then 1 else 0
  {
    seq(L, j => if j == i then 1 else 0)
  }

  lemma StartOfBlock(content: Bytes, b: nat)
    requires 0 < b
    ensures var blocks := SplitBlocks(content, b);
      (|blocks| > 1 <==> |content| > b) && (|content| > b ==> blocks[1][0] == content[b])
  {
    var L := |content|;
    AlignUpIs(L, b);
    Decompose(L, b);
    if L > b {
      RemainderIsUnique(b, b, 1, 0);
      QuotientMono(b, L, b);
      if L / b > 1 {
        FullBlockAt(content, b, 1);
      } else {
        LastBlockAt(content, b);
      }
    } else if L == b {
      RemainderIsUnique(b, b, 1, 0);
    } else {
      RemainderIsUnique(L, b, 0, L);
    }
  }

  /** A read at the new block size returns what lies at the old one. */
  lemma ReadsShifted(content: Bytes, st: StorageType, st': StorageType)
    requires st.BlockSize() > 0 && 0 < st'.BlockSize() < |content| < TWO_TO_THE_31
    ensures var b, b' := st.BlockSize(), st'.BlockSize();
      RetypedAnswer(content, st, st', b', 1) == Data([if b < |content| then content[b] else 0])
  {
    hide SplitBlocks, AnswerFrom, HadRange, StorageType.BlockSize;
    var b, b' := st.BlockSize(), st'.BlockSize();
    SizesApart(st', st);
    var blocks := SplitBlocks(content, b);
    StartOfBlock(content, b);
    OneByteAnswer(blocks, |content|, st', b');
  }

  lemma OneByteAnswer(had: seq<Bytes>, L: nat, st: StorageType, b: nat)
    requires 2 <= b == st.BlockSize() < L < TWO_TO_THE_31 && (|had| > 1 ==> had[1] != [])
    ensures AnswerFrom(had, FileInode(L, st, []), b, 1) == Data([if 1 < |had| then had[1][0] else 0])
  {
    hide AnswerFrom, HadRange, StorageType.BlockSize;
    AnswerIs(had, L, st, b, b, 1, 1, 1);
    HadOne(had, b, 1);
    var s := HadRange(had, b, 1, 2);
    assert |s| >= 1 && s[0..1] == [s[0]];
  }

  /**
   Every ranged read of every file of length L stays right exactly when the block size stays the same or the
   file fits into one block of either size.
   */
  lemma RetypedReadsExactly(L: nat, st: StorageType, st': StorageType)
    requires st.BlockSize() > 0 && st'.BlockSize() > 0 && L < TWO_TO_THE_31
    ensures (forall content: Bytes, offset: nat, size: nat :: |content| == L ==>
        RetypedAnswer(content, st, st', offset, size) == Wanted(content, offset, size)) <==>
      (st.BlockSize() == st'.BlockSize() || (L <= st.BlockSize() && L <= st'.BlockSize()))
  {
    var b, b' := st.BlockSize(), st'.BlockSize();
    hide StorageType.BlockSize, RetypedAnswer;
    if b == b' {
      forall content: Bytes, offset: nat, size: nat | |content| == L
        ensures RetypedAnswer(content, st, st', offset, size) == Wanted(content, offset, size)
      {
        SameSizeRight(content, st, st', offset, size);
      }
    } else if L <= b && L <= b' {
      forall content: Bytes, offset: nat, size: nat | |content| == L
        ensures RetypedAnswer(content, st, st', offset, size) == Wanted(content, offset, size)
      {
        OneBlockRight(content, st, st', offset, size);
      }
    } else if L > b' {
      var content := OneAt(L, b');
      ReadsShifted(content, st, st');
      assert content[b'..b' + 1][0] == 1;
      assert RetypedAnswer(content, st, st', b', 1) != Wanted(content, b', 1);
    } else {
      var content := OneAt(L, 0);
      ReadsShort(content, st, st');
      assert RetypedAnswer(content, st, st', 0, b + 1) != Wanted(content, 0, b + 1);
    }
  }
}
