/**
 Byte ranges of a file against its blocks: which blocks a read touches, and what cutting the range out
 of them yields, also when some of the blocks could not be read and are missing from the bytes at hand.
 */
module BlockReads {
  import opened Division
  import opened StorageTypes
  import opened WholeFile

  /** The part of an inode that reads use. */
  datatype FileInode = FileInode(filesize: nat, storageType: StorageType, sub: seq<string>) {
    function BlockSize(): (b: nat) {
      storageType.BlockSize()
    }
  }

  const TWO_TO_THE_31: int := 0x8000_0000

  /** Conversion of an unsigned 64-bit value to a 32-bit int. */
  function ToInt(n: nat): (r: int)
    ensures -TWO_TO_THE_31 <= r < TWO_TO_THE_31
  {
    var low := n % (2 * TWO_TO_THE_31);
    if low < TWO_TO_THE_31 then low else low - 2 * TWO_TO_THE_31
  }

  /** Integer division that rounds toward zero. */
  function Quotient(n: int, d: nat): (q: int)
    requires d > 0
  {
    if n >= 0 then n / d else -(-n / d)
  }

  /** get_indexs: the half-open range of block indices for a byte range, one more at a block boundary. */
  function GetIndexs(blockSize: nat, offset: nat, size: nat): (r: (int, int))
    requires blockSize > 0
  {
    (Quotient(ToInt(offset), blockSize), Quotient(ToInt(offset + size), blockSize) + 1)
  }

  lemma IndexsAre(b: nat, offset: nat, size: nat)
    requires b > 0 && offset + size < TWO_TO_THE_31
    ensures GetIndexs(b, offset, size) == (offset / b, (offset + size) / b + 1)
    ensures 0 <= offset / b <= (offset + size) / b
    ensures offset / b * b <= offset && offset + size < ((offset + size) / b + 1) * b
  {
    assert ToInt(offset) == offset && ToInt(offset + size) == offset + size;
    QuotientBounds(offset, b);
    QuotientBounds(offset + size, b);
    QuotientMono(offset, offset + size, b);
  }

  /** The blocks from first to second - 1 hold every byte of the range. */
  ghost predicate Covers(b: nat, indexs: (int, int), offset: nat, size: nat) {
    indexs.0 * b <= offset && offset + size <= indexs.1 * b
  }

  /** The index arithmetic is right exactly for ranges that end below 2^31: beyond, the int conversion wraps. */
  lemma CoversExactly(b: nat, offset: nat, size: nat)
    requires 0 < b < TWO_TO_THE_31
    ensures Covers(b, GetIndexs(b, offset, size), offset, size) <==> offset + size < TWO_TO_THE_31
  {
    var n := offset + size;
    if n < TWO_TO_THE_31 {
      IndexsAre(b, offset, size);
    } else {
      var low := ToInt(n);
      Decompose(n, 2 * TWO_TO_THE_31);
      if low >= 0 {
        assert n >= low + 2 * TWO_TO_THE_31;
        QuotientBounds(low, b);
        MulNext(b, low / b);
      } else {
        QuotientBounds(-low, b);
        MulMono(b, Quotient(low, b) + 1, 1);
      }
    }
  }

  lemma QuotientBounds(n: nat, b: nat)
    requires b > 0
    ensures 0 <= n / b && n / b * b <= n < (n / b + 1) * b && n / b * b + n % b == n
  {
    Decompose(n, b);
    MulNext(b, n / b);
  }

  lemma QuotientMono(m: nat, n: nat, b: nat)
    requires b > 0 && m <= n
    ensures m / b <= n / b
  {
    Decompose(m, b);
    Decompose(n, b);
    if n / b < m / b {
      MulMono(b, n / b + 1, m / b);
      MulNext(b, n / b);
    }
  }

  function Zeros(n: nat): (r: Bytes)
    ensures |r| == n
  {
    seq(n, _ => 0)
  }

  /** Block i of a file; past the last one, zeros. */
  function BlockOrZeros(blockOf: string -> Bytes, inode: FileInode, i: nat): (r: Bytes) {
    if i < |inode.sub| then blockOf(inode.sub[i]) else Zeros(inode.BlockSize())
  }

  /** Blocks lo, ..., hi - 1 one after the other, without the lost ones. */
  ghost function BlockRange(blockOf: string -> Bytes, inode: FileInode, lost: set<nat>, lo: nat, hi: nat): (r: Bytes)
    requires lo <= hi
    decreases hi
  {
    if lo == hi then []
    else if hi - 1 in lost then BlockRange(blockOf, inode, lost, lo, hi - 1)
    else BlockRange(blockOf, inode, lost, lo, hi - 1) + BlockOrZeros(blockOf, inode, hi - 1)
  }

  /** Files as put leaves them: full blocks, enough of them for the file size. */
  ghost predicate WellFormed(blockOf: string -> Bytes, inode: FileInode) {
    && inode.BlockSize() > 0 && AlignUp(inode.filesize, inode.BlockSize()) <= |inode.sub|
    && forall i :: 0 <= i < |inode.sub| ==> |blockOf(inode.sub[i])| == inode.BlockSize()
  }

  /** The bytes of a file. */
  ghost function Content(blockOf: string -> Bytes, inode: FileInode): (r: Bytes)
    requires inode.filesize <= |BlockRange(blockOf, inode, {}, 0, |inode.sub|)|
  {
    BlockRange(blockOf, inode, {}, 0, |inode.sub|)[..inode.filesize]
  }

  ghost function LostIn(lost: set<nat>, lo: nat, hi: nat): (r: set<nat>) {
    set i | i in lost && lo <= i < hi
  }

  lemma BlockFull(blockOf: string -> Bytes, inode: FileInode, i: nat)
    requires WellFormed(blockOf, inode)
    ensures |BlockOrZeros(blockOf, inode, i)| == inode.BlockSize() > 0
  {
  }

  lemma LostStep(lost: set<nat>, lo: nat, hi: nat)
    requires lo < hi
    ensures |LostIn(lost, lo, hi)| == |LostIn(lost, lo, hi - 1)| + (if hi - 1 in lost then 1 else 0)
  {
    if hi - 1 in lost {
      assert LostIn(lost, lo, hi) == LostIn(lost, lo, hi - 1) + {hi - 1};
    } else {
      assert LostIn(lost, lo, hi) == LostIn(lost, lo, hi - 1);
    }
  }

  /** The size of `n` blocks. */
  function Span(n: int, b: nat): (size: int)
    ensures n >= 0 ==> size >= 0
  {
    n * b
  }

  lemma SpanNext(n: int, b: nat)
    ensures Span(n + 1, b) == Span(n, b) + b && Span(0, b) == 0
  {
    MulNext(b, n);
  }

  lemma {:induction false} RangeSpan(blockOf: string -> Bytes, inode: FileInode, lost: set<nat>, lo: nat, hi: nat)
    requires WellFormed(blockOf, inode) && lo <= hi
    ensures |BlockRange(blockOf, inode, lost, lo, hi)| == Span(hi - lo - |LostIn(lost, lo, hi)|, inode.BlockSize())
    decreases hi
  {
    hide WellFormed, BlockOrZeros, FileInode.BlockSize, Span;
    if lo == hi {
      assert LostIn(lost, lo, hi) == {};
      SpanNext(0, inode.BlockSize());
    } else {
      hide LostIn;
      RangeSpan(blockOf, inode, lost, lo, hi - 1);
      LostStep(lost, lo, hi);
      BlockFull(blockOf, inode, hi - 1);
      SpanNext(hi - 1 - lo - |LostIn(lost, lo, hi - 1)|, inode.BlockSize());
    }
  }

  lemma RangeSize(blockOf: string -> Bytes, inode: FileInode, lost: set<nat>, lo: nat, hi: nat)
    requires WellFormed(blockOf, inode) && lo <= hi
    ensures |BlockRange(blockOf, inode, lost, lo, hi)| == (hi - lo - |LostIn(lost, lo, hi)|) * inode.BlockSize()
  {
    hide WellFormed, BlockRange, LostIn, FileInode.BlockSize;
    RangeSpan(blockOf, inode, lost, lo, hi);
  }

  lemma WholeRangeSize(blockOf: string -> Bytes, inode: FileInode, lo: nat, hi: nat)
    requires WellFormed(blockOf, inode) && lo <= hi
    ensures |BlockRange(blockOf, inode, {}, lo, hi)| == (hi - lo) * inode.BlockSize()
  {
    RangeSize(blockOf, inode, {}, lo, hi);
    assert LostIn({}, lo, hi) == {};
  }

  lemma {:induction false} RangeSplit(blockOf: string -> Bytes, inode: FileInode, lost: set<nat>, lo: nat, mid: nat,
                                      hi: nat)
    requires lo <= mid <= hi
    ensures BlockRange(blockOf, inode, lost, lo, hi) ==
      BlockRange(blockOf, inode, lost, lo, mid) + BlockRange(blockOf, inode, lost, mid, hi)
    decreases hi
  {
    if mid < hi {
      RangeSplit(blockOf, inode, lost, lo, mid, hi - 1);
    }
  }

  lemma {:induction false} NothingLost(blockOf: string -> Bytes, inode: FileInode, lost: set<nat>, lo: nat, hi: nat)
    requires lo <= hi && forall i :: lo <= i < hi ==> i !in lost
    ensures BlockRange(blockOf, inode, lost, lo, hi) == BlockRange(blockOf, inode, {}, lo, hi)
    decreases hi
  {
    if lo < hi {
      NothingLost(blockOf, inode, lost, lo, hi - 1);
    }
  }

  /** One lost block is cut out, and the later blocks move up. */
  lemma OneLost(blockOf: string -> Bytes, inode: FileInode, i: nat, lo: nat, hi: nat)
    requires lo <= i < hi
    ensures BlockRange(blockOf, inode, {i}, lo, hi) ==
      BlockRange(blockOf, inode, {}, lo, i) + BlockRange(blockOf, inode, {}, i + 1, hi)
  {
    RangeSplit(blockOf, inode, {i}, lo, i + 1, hi);
    assert BlockRange(blockOf, inode, {i}, lo, i + 1) == BlockRange(blockOf, inode, {i}, lo, i);
    NothingLost(blockOf, inode, {i}, lo, i);
    NothingLost(blockOf, inode, {i}, i + 1, hi);
  }

  lemma ContentFits(blockOf: string -> Bytes, inode: FileInode)
    requires WellFormed(blockOf, inode)
    ensures inode.filesize <= |BlockRange(blockOf, inode, {}, 0, |inode.sub|)|
  {
    var b, n := inode.BlockSize(), |inode.sub|;
    WholeRangeSize(blockOf, inode, 0, n);
    AlignUpIs(inode.filesize, b);
    assert AlignUp(inode.filesize, b) <= n;
    hide WellFormed, BlockRange, AlignUp;
    MulNext(b, inode.filesize / b);
    MulMono(b, AlignUp(inode.filesize, b), n);
  }

  /** For a file as put left it, the bytes are the original content. */
  lemma ContentIsPut(blockOf: string -> Bytes, content: Bytes, inode: FileInode)
    requires inode.BlockSize() > 0 && inode.filesize == |content|
    requires |inode.sub| == |SplitBlocks(content, inode.BlockSize())|
    requires forall i :: 0 <= i < |inode.sub| ==> blockOf(inode.sub[i]) == SplitBlocks(content, inode.BlockSize())[i]
    ensures WellFormed(blockOf, inode) && inode.filesize <= |BlockRange(blockOf, inode, {}, 0, |inode.sub|)|
    ensures Content(blockOf, inode) == content
  {
    var blocks := SplitBlocks(content, inode.BlockSize());
    SplitRoundTrip(content, inode.BlockSize());
    ContentFits(blockOf, inode);
    RangeIsConcat(blockOf, inode, blocks, |blocks|);
    assert blocks[..|blocks|] == blocks;
  }

  lemma {:induction false} RangeIsConcat(blockOf: string -> Bytes, inode: FileInode, blocks: seq<Bytes>, n: nat)
    requires n <= |blocks| == |inode.sub|
    requires forall i :: 0 <= i < |blocks| ==> blockOf(inode.sub[i]) == blocks[i]
    ensures BlockRange(blockOf, inode, {}, 0, n) == Concat(blocks[..n])
  {
    if n > 0 {
      RangeIsConcat(blockOf, inode, blocks, n - 1);
      assert blocks[..n][..n - 1] == blocks[..n - 1];
    }
  }

  lemma SameBytes(all: Bytes, whole: Bytes, before: Bytes, s: Bytes, size: nat, offset: nat, end: nat)
    requires whole <= all && before + s <= all && end <= size <= |whole|
    requires |before| <= offset <= end <= |before| + |s|
    ensures s[offset - |before|..end - |before|] == whole[..size][offset..end]
  {
    var base := |before|;
    forall i | offset <= i < end ensures s[i - base] == whole[i] {
      assert s[i - base] == (before + s)[i] == all[i];
    }
  }

  /** Cutting the wanted bytes out of the blocks that cover them. */
  lemma CutOut(blockOf: string -> Bytes, inode: FileInode, lo: nat, hi: nat, offset: nat, end: nat)
    requires WellFormed(blockOf, inode) && lo <= hi && offset <= end <= inode.filesize
    requires lo * inode.BlockSize() <= offset && end <= hi * inode.BlockSize()
    ensures inode.filesize <= |BlockRange(blockOf, inode, {}, 0, |inode.sub|)|
    ensures var s, base := BlockRange(blockOf, inode, {}, lo, hi), lo * inode.BlockSize();
      end - base <= |s| && s[offset - base..end - base] == Content(blockOf, inode)[offset..end]
  {
    ContentFits(blockOf, inode);
    var n, top := |inode.sub|, Max(|inode.sub|, hi);
    var all, whole := BlockRange(blockOf, inode, {}, 0, top), BlockRange(blockOf, inode, {}, 0, n);
    var before, s := BlockRange(blockOf, inode, {}, 0, lo), BlockRange(blockOf, inode, {}, lo, hi);
    WholeRangeSize(blockOf, inode, 0, hi);
    WholeRangeSize(blockOf, inode, 0, lo);
    RangeSplit(blockOf, inode, {}, 0, n, top);
    RangeSplit(blockOf, inode, {}, 0, hi, top);
    RangeSplit(blockOf, inode, {}, 0, lo, hi);
    hide BlockRange, WellFormed;
    SameBytes(all, whole, before, s, inode.filesize, offset, end);
  }

  lemma ZerosAdd(m: nat, n: nat)
    ensures Zeros(m) + Zeros(n) == Zeros(m + n)
  {
  }

  // What a read answers.

  /** The iterators of read_data may run past the bytes at hand, which C++ leaves undefined. */
  datatype Answer = NotOpen | PastTheEnd | Data(bytes: Bytes)

  /** What a ranged read of a file should answer. */
  function Wanted(data: Bytes, offset: nat, size: nat): (r: Answer) {
    Data(if |data| < offset then [] else data[offset..Min(offset + size, |data|)])
  }

  function EndOf(inode: FileInode, offset: nat, size: nat): (end: int) {
    Min(offset + size, inode.filesize)
  }

  /** The range of block indices of a read. */
  function IndexsOf(inode: FileInode, offset: nat, size: nat): (r: (nat, nat))
    requires inode.BlockSize() > 0 && offset <= inode.filesize && EndOf(inode, offset, size) < TWO_TO_THE_31
    ensures r == GetIndexs(inode.BlockSize(), offset, EndOf(inode, offset, size) - offset)
    ensures r.0 <= r.1 && r.0 * inode.BlockSize() <= offset
  {
    var wanted := EndOf(inode, offset, size) - offset;
    IndexsAre(inode.BlockSize(), offset, wanted);
    GetIndexs(inode.BlockSize(), offset, wanted)
  }

  lemma TheIndexs(inode: FileInode, b: nat, offset: nat, size: nat, first: nat, last: nat)
    requires b == inode.BlockSize() > 0 && offset <= inode.filesize && first <= last
    requires EndOf(inode, offset, size) < TWO_TO_THE_31
    requires b * first <= offset < b * first + b && b * last <= EndOf(inode, offset, size) < b * last + b
    ensures IndexsOf(inode, offset, size) == (first, last + 1) && first * inode.BlockSize() == b * first
  {
    hide FileInode.BlockSize, GetIndexs;
    var end := EndOf(inode, offset, size);
    IndexsAre(b, offset, end - offset);
    RemainderIsUnique(offset, b, first, offset - b * first);
    RemainderIsUnique(end, b, last, end - b * last);
  }

  /** Blocks lo, ..., hi - 1 as they were had, one after the other; past the last one, zeros. */
  function HadRange(had: seq<Bytes>, b: nat, lo: nat, hi: nat): (r: Bytes)
    requires lo <= hi
    decreases hi
  {
    if lo == hi then []
    else HadRange(had, b, lo, hi - 1) + (if hi - 1 < |had| then had[hi - 1] else Zeros(b))
  }

  /** The blocks past the end of a file, all at once. */
  lemma {:induction false} HadZeros(had: seq<Bytes>, b: nat, lo: nat, mid: nat, hi: nat)
    requires lo <= mid <= hi && |had| <= mid
    ensures HadRange(had, b, lo, hi) == HadRange(had, b, lo, mid) + Zeros(Span(hi - mid, b))
    decreases hi
  {
    if mid < hi {
      hide Zeros, Span;
      HadZeros(had, b, lo, mid, hi - 1);
      SpanNext(hi - 1 - mid, b);
      ZerosAdd(Span(hi - 1 - mid, b), b);
    } else {
      SpanNext(0, b);
      assert Zeros(0) == [];
    }
  }

  /** read_data on a byte range of an open file, from the blocks as they were had. */
  function AnswerFrom(had: seq<Bytes>, inode: FileInode, offset: nat, size: nat): (r: Answer)
    requires inode.BlockSize() > 0 && EndOf(inode, offset, size) < TWO_TO_THE_31
  {
    if inode.filesize < offset then Data([])
    else
      var (first, second) := IndexsOf(inode, offset, size);
      var s, base := HadRange(had, inode.BlockSize(), first, second), first * inode.BlockSize();
      var end := EndOf(inode, offset, size);
      if |s| < end - base then PastTheEnd else Data(s[offset - base..end - base])
  }

  /** The blocks had are those that the shard lists stand for, but for the lost ones. */
  ghost predicate HadBut(blockOf: string -> Bytes, inode: FileInode, lost: set<nat>, had: seq<Bytes>, lo: nat,
                         hi: nat)
  {
    && |had| == |inode.sub|
    && (forall i :: lo <= i < hi && i < |had| ==> had[i] == if i in lost then [] else blockOf(inode.sub[i]))
    && (forall i :: i in lost ==> i < |had|)
  }

  lemma {:induction false} HadIsRange(blockOf: string -> Bytes, inode: FileInode, lost: set<nat>, had: seq<Bytes>,
                                      lo: nat, hi: nat)
    requires lo <= hi && HadBut(blockOf, inode, lost, had, lo, hi)
    ensures HadRange(had, inode.BlockSize(), lo, hi) == BlockRange(blockOf, inode, lost, lo, hi)
    decreases hi
  {
    hide FileInode.BlockSize, Zeros;
    if lo < hi {
      HadIsRange(blockOf, inode, lost, had, lo, hi - 1);
    }
  }

  /** read_data on a byte range of an open file, when the blocks `lost` could not be had. */
  ghost function ReadAnswer(blockOf: string -> Bytes, inode: FileInode, lost: set<nat>, offset: nat, size: nat)
    : (r: Answer)
    requires inode.BlockSize() > 0 && EndOf(inode, offset, size) < TWO_TO_THE_31
  {
    if inode.filesize < offset then Data([])
    else
      var (first, second) := IndexsOf(inode, offset, size);
      var s, base := BlockRange(blockOf, inode, lost, first, second), first * inode.BlockSize();
      var end := EndOf(inode, offset, size);
      if |s| < end - base then PastTheEnd else Data(s[offset - base..end - base])
  }

  /** A read that gets all its blocks returns the bytes from `offset` to `offset + size`, or to the end of the file. */
  lemma FullRead(blockOf: string -> Bytes, inode: FileInode, offset: nat, size: nat)
    requires WellFormed(blockOf, inode) && EndOf(inode, offset, size) < TWO_TO_THE_31
    ensures inode.filesize <= |BlockRange(blockOf, inode, {}, 0, |inode.sub|)|
    ensures ReadAnswer(blockOf, inode, {}, offset, size) ==
      Data(if inode.filesize < offset then [] else Content(blockOf, inode)[offset..EndOf(inode, offset, size)])
  {
    ContentFits(blockOf, inode);
    if offset <= inode.filesize {
      var (first, second) := IndexsOf(inode, offset, size);
      var end := EndOf(inode, offset, size);
      IndexsAre(inode.BlockSize(), offset, end - offset);
      CutOut(blockOf, inode, first, second, offset, end);
    }
  }

  lemma FillsBlocks(b: nat, end: nat, first: nat, have: nat)
    requires b > 0 && first <= end / b
    ensures end - first * b <= have * b <==> end / b - first + (if end % b == 0 then 0 else 1) <= have
  {
    Decompose(end, b);
    var k, r := end / b - first, end % b;
    assert end == b * (first + k) + r;
    assert b * (first + k) == b * first + b * k;
    hide *;
    if k + 1 <= have {
      MulMono(b, k + 1, have);
      MulNext(b, k);
    } else if have < k {
      MulMono(b, have + 1, k);
      MulNext(b, have);
    }
  }

  /** How many blocks the bytes before the end of a read fill: all that it touches, or one less at a block boundary. */
  lemma BlocksNeeded(inode: FileInode, offset: nat, size: nat, have: nat)
    requires inode.BlockSize() > 0 && offset <= inode.filesize && EndOf(inode, offset, size) < TWO_TO_THE_31
    ensures var (first, second) := IndexsOf(inode, offset, size);
      var b, end := inode.BlockSize(), EndOf(inode, offset, size);
      && first < second
      && (end - first * b <= have * b <==> second - first - (if end % b == 0 then 1 else 0) <= have)
  {
    var (first, second) := IndexsOf(inode, offset, size);
    var b, end := inode.BlockSize(), EndOf(inode, offset, size);
    IndexsAre(b, offset, end - offset);
    hide FileInode.BlockSize;
    FillsBlocks(b, end, first, have);
  }

  /** The blocks a read touches all lie in its range of indices. */
  ghost predicate LostInRange(inode: FileInode, lost: set<nat>, offset: nat, size: nat)
    requires inode.BlockSize() > 0 && offset <= inode.filesize && EndOf(inode, offset, size) < TWO_TO_THE_31
  {
    var (first, second) := IndexsOf(inode, offset, size);
    forall i :: i in lost ==> first <= i < second
  }

  /** A read runs past the bytes at hand unless no block is lost, or one and the read ends at a block boundary. */
  lemma InBoundsExactly(blockOf: string -> Bytes, inode: FileInode, lost: set<nat>, offset: nat, size: nat)
    requires WellFormed(blockOf, inode) && offset <= inode.filesize && EndOf(inode, offset, size) < TWO_TO_THE_31
    requires LostInRange(inode, lost, offset, size)
    ensures ReadAnswer(blockOf, inode, lost, offset, size).Data? <==>
      |lost| <= if EndOf(inode, offset, size) % inode.BlockSize() == 0 then 1 else 0
  {
    hide BlockRange, FileInode.BlockSize, AlignUp;
    var (first, second) := IndexsOf(inode, offset, size);
    assert LostIn(lost, first, second) == lost;
    RangeSize(blockOf, inode, lost, first, second);
    LostBound(lost, first, second);
    hide WellFormed;
    BlocksNeeded(inode, offset, size, second - first - |lost|);
  }

  /** The answer when one block is lost and the read ends at a block boundary. */
  lemma OneLostAnswer(blockOf: string -> Bytes, inode: FileInode, i: nat, offset: nat, size: nat)
    requires WellFormed(blockOf, inode) && offset <= inode.filesize && EndOf(inode, offset, size) < TWO_TO_THE_31
    requires LostInRange(inode, {i}, offset, size) && EndOf(inode, offset, size) % inode.BlockSize() == 0
    ensures var (first, second) := IndexsOf(inode, offset, size);
      var s := BlockRange(blockOf, inode, {}, first, i) + BlockRange(blockOf, inode, {}, i + 1, second);
      var base, end := first * inode.BlockSize(), EndOf(inode, offset, size);
      end - base <= |s| && ReadAnswer(blockOf, inode, {i}, offset, size) == Data(s[offset - base..end - base])
  {
    hide BlockRange, FileInode.BlockSize, WellFormed;
    BlockFull(blockOf, inode, 0);
    var (first, second) := IndexsOf(inode, offset, size);
    InBoundsExactly(blockOf, inode, {i}, offset, size);
    OneLost(blockOf, inode, i, first, second);
  }

  /** The block after a block boundary is touched without need. */
  lemma LastLostAnswer(blockOf: string -> Bytes, inode: FileInode, offset: nat, size: nat)
    requires WellFormed(blockOf, inode) && offset <= inode.filesize && EndOf(inode, offset, size) < TWO_TO_THE_31
    requires EndOf(inode, offset, size) % inode.BlockSize() == 0
    ensures var last := IndexsOf(inode, offset, size).1 - 1;
      last >= 0 && ReadAnswer(blockOf, inode, {last}, offset, size) == ReadAnswer(blockOf, inode, {}, offset, size)
  {
    hide BlockRange, FileInode.BlockSize, WellFormed;
    BlockFull(blockOf, inode, 0);
    var (first, second) := IndexsOf(inode, offset, size);
    var end := EndOf(inode, offset, size);
    BlocksNeeded(inode, offset, size, 0);
    BlocksNeeded(inode, offset, size, second - first - 1);
    InBoundsExactly(blockOf, inode, {second - 1}, offset, size);
    FullRead(blockOf, inode, offset, size);
    WholeRangeSize(blockOf, inode, first, second - 1);
    LastLost(blockOf, inode, first, second, offset, end);
  }

  /**
   Every read of an open file, whatever could not be fetched: right when all blocks were had, or all but
   the one that a read ending at a block boundary touches without need; past the end when two are lost,
   or one and the read ends inside a block; and else the wrong bytes, the later blocks having moved up.
   */
  lemma ReadOutcome(blockOf: string -> Bytes, inode: FileInode, lost: set<nat>, offset: nat, size: nat)
    requires WellFormed(blockOf, inode) && offset <= inode.filesize && EndOf(inode, offset, size) < TWO_TO_THE_31
    requires LostInRange(inode, lost, offset, size)
    ensures inode.filesize <= |BlockRange(blockOf, inode, {}, 0, |inode.sub|)|
    ensures var (first, second) := IndexsOf(inode, offset, size);
      var b, end := inode.BlockSize(), EndOf(inode, offset, size);
      var base, answer := first * b, ReadAnswer(blockOf, inode, lost, offset, size);
      if lost == {} || (lost == {second - 1} && end % b == 0) then
        answer == Data(Content(blockOf, inode)[offset..end])
      else if |lost| == 1 && end % b == 0 then
        exists i: nat :: first <= i < second - 1 && lost == {i} &&
          var s := BlockRange(blockOf, inode, {}, first, i) + BlockRange(blockOf, inode, {}, i + 1, second);
          end - base <= |s| && answer == Data(s[offset - base..end - base])
      else answer == PastTheEnd
  {
    hide BlockRange, FileInode.BlockSize, WellFormed, EndOf;
    BlockFull(blockOf, inode, 0);
    var (first, second) := IndexsOf(inode, offset, size);
    FullRead(blockOf, inode, offset, size);
    InBoundsExactly(blockOf, inode, lost, offset, size);
    if |lost| == 1 && EndOf(inode, offset, size) % inode.BlockSize() == 0 {
      var i :| i in lost;
      OnlyOne(lost, i);
      LastLostAnswer(blockOf, inode, offset, size);
      OneLostAnswer(blockOf, inode, i, offset, size);
      hide ReadAnswer;
    } else {
      assert lost != {} ==> |lost| >= 1;
    }
  }

  lemma OnlyOne(lost: set<nat>, i: nat)
    requires i in lost && |lost| == 1
    ensures lost == {i}
  {
    assert |lost - {i}| == 0;
  }

  lemma {:induction false} LostBound(lost: set<nat>, lo: nat, hi: nat)
    requires lo <= hi && forall i :: i in lost ==> lo <= i < hi
    ensures |lost| <= hi - lo
    decreases hi
  {
    if lo == hi {
      assert lost == {};
    } else {
      LostBound(lost - {hi - 1}, lo, hi - 1);
    }
  }

  /** The last block of a range is not needed for bytes that end before it. */
  lemma LastLost(blockOf: string -> Bytes, inode: FileInode, lo: nat, hi: nat, offset: nat, end: nat)
    requires lo < hi && lo * inode.BlockSize() <= offset <= end
    requires end - lo * inode.BlockSize() <= |BlockRange(blockOf, inode, {}, lo, hi - 1)|
    ensures var s, t := BlockRange(blockOf, inode, {hi - 1}, lo, hi), BlockRange(blockOf, inode, {}, lo, hi);
      var base := lo * inode.BlockSize();
      end - base <= |s| && end - base <= |t| && s[offset - base..end - base] == t[offset - base..end - base]
  {
    NothingLost(blockOf, inode, {hi - 1}, lo, hi - 1);
  }

  /** A block that cannot be fetched is answered by its successor: a read of the first block of a larger file. */
  lemma WrongBlock(blockOf: string -> Bytes, inode: FileInode)
    requires WellFormed(blockOf, inode) && |inode.sub| >= 2
    requires inode.BlockSize() <= inode.filesize && inode.BlockSize() < TWO_TO_THE_31
    ensures inode.filesize <= |BlockRange(blockOf, inode, {}, 0, |inode.sub|)|
    ensures Content(blockOf, inode)[..inode.BlockSize()] == blockOf(inode.sub[0])
    ensures ReadAnswer(blockOf, inode, {0}, 0, inode.BlockSize()) == Data(blockOf(inode.sub[1]))
  {
    hide *;
    ContentFits(blockOf, inode);
    ContentStarts(blockOf, inode);
    SecondAnswers(blockOf, inode);
  }

  lemma ContentStarts(blockOf: string -> Bytes, inode: FileInode)
    requires WellFormed(blockOf, inode) && |inode.sub| >= 2 && inode.BlockSize() <= inode.filesize
    requires inode.filesize <= |BlockRange(blockOf, inode, {}, 0, |inode.sub|)|
    ensures Content(blockOf, inode)[..inode.BlockSize()] == blockOf(inode.sub[0])
  {
    hide BlockRange, FileInode.BlockSize;
    FirstBlocks(blockOf, inode);
    RangeSplit(blockOf, inode, {}, 0, 1, |inode.sub|);
    var rest := BlockRange(blockOf, inode, {}, 1, |inode.sub|);
    assert |blockOf(inode.sub[0])| == inode.BlockSize();
    hide WellFormed;
    FrontOfSum(blockOf(inode.sub[0]), rest, inode.filesize, inode.BlockSize());
  }

  lemma SecondAnswers(blockOf: string -> Bytes, inode: FileInode)
    requires WellFormed(blockOf, inode) && |inode.sub| >= 2
    requires inode.BlockSize() <= inode.filesize && inode.BlockSize() < TWO_TO_THE_31
    ensures ReadAnswer(blockOf, inode, {0}, 0, inode.BlockSize()) == Data(blockOf(inode.sub[1]))
  {
    hide BlockRange, FileInode.BlockSize, GetIndexs, IndexsOf;
    BlockFull(blockOf, inode, 1);
    FirstBlocks(blockOf, inode);
    hide WellFormed;
    TheIndexs(inode, inode.BlockSize(), 0, inode.BlockSize(), 0, 1);
    var second := blockOf(inode.sub[1]);
    assert second[0..|second|] == second;
  }

  lemma FrontOfSum(x: Bytes, y: Bytes, n: nat, m: nat)
    requires m == |x| <= n <= |x| + |y|
    ensures (x + y)[..n][..m] == x
  {
  }

  lemma FirstBlocks(blockOf: string -> Bytes, inode: FileInode)
    requires |inode.sub| >= 2
    ensures BlockRange(blockOf, inode, {}, 0, 1) == blockOf(inode.sub[0])
    ensures BlockRange(blockOf, inode, {0}, 0, 2) == blockOf(inode.sub[1])
  {
    assert BlockRange(blockOf, inode, {}, 0, 1) == BlockRange(blockOf, inode, {}, 0, 0) + blockOf(inode.sub[0]);
    assert BlockRange(blockOf, inode, {0}, 0, 1) == [];
    assert BlockRange(blockOf, inode, {0}, 0, 2) == [] + blockOf(inode.sub[1]);
  }
}
