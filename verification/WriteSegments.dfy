/** How a write is cut into per-block segments. */
module WriteSegments {
  import opened Division
  import opened StorageTypes
  import opened BlockReads

  /** Bytes left, ..., right - 1 of block `index` become `piece`. */
  datatype Segment = Segment(index: nat, left: nat, right: nat, piece: Bytes)

  /** The position in the file of byte `k` of a block. */
  function At(index: nat, b: nat, k: nat): (n: int) {
    index * b + k
  }

  /** The position in the file where the segment starts. */
  function From(seg: Segment, b: nat): (n: int) {
    At(seg.index, b, seg.left)
  }

  function To(seg: Segment, b: nat): (n: int) {
    At(seg.index, b, seg.right)
  }

  lemma SegmentLength(seg: Segment, b: nat)
    ensures To(seg, b) - From(seg, b) == seg.right - seg.left
  {
  }

  /**
   The segments cover [from, to) in order: each lies inside its block, carries as many bytes as it
   covers, starts where the one before it ended, and is in the next block.
   */
  ghost predicate Tiles(segs: seq<Segment>, b: nat, from: int, to: int) {
    if segs == [] then from == to else
      var n := |segs| - 1;
      var seg := segs[n];
      && seg.left <= seg.right <= b && |seg.piece| == seg.right - seg.left
      && To(seg, b) == to
      && (n > 0 ==> seg.index == segs[n - 1].index + 1)
      && Tiles(segs[..n], b, from, From(seg, b))
  }

  function Pieces(segs: seq<Segment>): (r: Bytes) {
    if segs == [] then [] else Pieces(segs[..|segs| - 1]) + segs[|segs| - 1].piece
  }

  lemma TilesSnoc(segs: seq<Segment>, seg: Segment, b: nat, from: int, to: int)
    requires Tiles(segs, b, from, From(seg, b)) && To(seg, b) == to
    requires seg.left <= seg.right <= b && |seg.piece| == seg.right - seg.left
    requires segs != [] ==> seg.index == segs[|segs| - 1].index + 1
    ensures Tiles(segs + [seg], b, from, to) && Pieces(segs + [seg]) == Pieces(segs) + seg.piece
  {
    assert (segs + [seg])[..|segs|] == segs;
  }

  /** The two conditional expressions of the loop. */
  function LeftOf(index: int, first: int, offset: nat, b: nat): (left: nat)
    requires b > 0
  {
    if index == first then offset % b else 0
  }

  function RightOf(index: int, second: int, end: nat, b: nat): (right: nat)
    requires b > 0
  {
    if index == second - 1 then end % b else b
  }

  /** Where the part of block `index` starts: at the offset, or at the block's start. */
  ghost function StartOf(index: nat, first: nat, offset: nat, b: nat): (n: int) {
    if index == first then offset else At(index, b, 0)
  }

  /** The part of block `index` lies within the block and the range, and ends where the next part starts. */
  lemma PartBounds(b: nat, offset: nat, end: nat, index: nat)
    requires b > 0 && offset <= end && offset / b <= index <= end / b
    ensures var left, right := LeftOf(index, offset / b, offset, b), RightOf(index, end / b + 1, end, b);
      && left <= right <= b
      && At(index, b, left) == StartOf(index, offset / b, offset, b)
      && At(index, b, right) - At(index, b, left) == right - left
      && At(index, b, right) == (if index == end / b then end else StartOf(index + 1, offset / b, offset, b)) <= end
  {
    QuotientBounds(offset, b);
    QuotientBounds(end, b);
    var first, last := offset / b, end / b;
    assert offset % b < b && end % b < b;
    MulNext(b, index);
    if index < last {
      MulMono(b, index + 1, last);
    }
  }

  /** Where the part after block `index` starts, or the range ends. */
  ghost function NextStart(index: nat, b: nat, offset: nat, end: nat): (n: int)
    requires b > 0
  {
    if index == end / b then end else StartOf(index + 1, offset / b, offset, b)
  }

  /** The body of the loop: the part of block `index`, from the input's byte `iter` on. */
  method CutSegment(blockSize: nat, offset: nat, s: Bytes, indexs: (int, int), index: nat, iter: nat)
    returns (seg: Segment)
    requires blockSize > 0 && offset / blockSize <= index <= (offset + |s|) / blockSize
    requires indexs == (offset / blockSize, (offset + |s|) / blockSize + 1)
    requires offset + iter == StartOf(index, offset / blockSize, offset, blockSize)
    ensures seg.index == index && seg.left <= seg.right <= blockSize && iter + seg.right - seg.left <= |s|
    ensures seg.piece == s[iter..iter + seg.right - seg.left]
    ensures From(seg, blockSize) == offset + iter
    ensures To(seg, blockSize) == offset + iter + seg.right - seg.left
    ensures To(seg, blockSize) == NextStart(index, blockSize, offset, offset + |s|)
  {
    PartBounds(blockSize, offset, offset + |s|, index);
    var left := LeftOf(index, indexs.0, offset, blockSize);
    var right := RightOf(index, indexs.1, offset + |s|, blockSize);
    hide At, StartOf;
    var localSize := right - left;
    seg := Segment(index, left, right, s[iter..iter + localSize]);
  }

  /** The loop of write_data: which bytes of which block each piece of the input goes to. */
  method Segments(blockSize: nat, offset: nat, s: Bytes) returns (segs: seq<Segment>)
    requires blockSize > 0 && offset + |s| < TWO_TO_THE_31
    ensures Tiles(segs, blockSize, offset, offset + |s|) && Pieces(segs) == s
    ensures |segs| == (offset + |s|) / blockSize - offset / blockSize + 1 && segs[0].index == offset / blockSize
  {
    ghost var end := offset + |s|;
    IndexsAre(blockSize, offset, |s|);
    var indexs := GetIndexs(blockSize, offset, |s|);
    segs := [];
    var iter: nat := 0;
    TilesNothing(blockSize, offset);
    assert s[..0] == [];
    hide GetIndexs, Tiles, From, To;
    for index := indexs.0 to indexs.1
      invariant |segs| == index - indexs.0
      invariant segs != [] ==> segs[|segs| - 1].index == index - 1 && segs[0].index == indexs.0
      invariant iter <= |s| && Pieces(segs) == s[..iter]
      invariant offset + iter == if index == indexs.1 then end else StartOf(index, indexs.0, offset, blockSize)
      invariant Tiles(segs, blockSize, offset, offset + iter)
    {
      var seg := CutSegment(blockSize, offset, s, indexs, index, iter);
      hide StartOf, Pieces;
      TilesSnoc(segs, seg, blockSize, offset, To(seg, blockSize));
      assert s[..iter] + seg.piece == s[..iter + seg.right - seg.left];
      segs := segs + [seg];
      iter := iter + seg.right - seg.left;
    }
    assert s[..|s|] == s;
  }

  lemma SliceOfSum(x: Bytes, y: Bytes, lo: nat, hi: nat)
    requires lo <= hi <= |x|
    ensures (x + y)[lo..hi] == x[lo..hi] && (x + y)[|x|..|x| + |y|] == y
  {
  }

  lemma {:induction false} PiecesSize(segs: seq<Segment>, b: nat, from: int, to: int)
    requires Tiles(segs, b, from, to)
    ensures |Pieces(segs)| == to - from
  {
    if segs != [] {
      var n := |segs| - 1;
      SegmentLength(segs[n], b);
      PiecesSize(segs[..n], b, from, From(segs[n], b));
      hide From, To;
    }
  }

  /** Every byte goes to its own place: a segment's piece is the input at the segment's position. */
  lemma {:induction false} PieceIs(segs: seq<Segment>, b: nat, from: int, to: int, i: nat)
    requires Tiles(segs, b, from, to) && i < |segs|
    ensures |Pieces(segs)| == to - from
    ensures from <= From(segs[i], b) <= To(segs[i], b) <= to
    ensures segs[i].piece == Pieces(segs)[From(segs[i], b) - from..To(segs[i], b) - from]
  {
    var n := |segs| - 1;
    var init, seg := segs[..n], segs[n];
    SegmentLength(seg, b);
    PiecesSize(segs, b, from, to);
    PiecesSize(init, b, from, From(seg, b));
    assert Pieces(segs) == Pieces(init) + seg.piece;
    if i < n {
      PieceIs(init, b, from, From(seg, b), i);
      assert init[i] == segs[i];
      hide Tiles, From, To, Pieces;
      SliceOfSum(Pieces(init), seg.piece, From(segs[i], b) - from, To(segs[i], b) - from);
    } else {
      hide From, To, Pieces;
      SliceOfSum(Pieces(init), seg.piece, 0, 0);
    }
  }

  lemma TilesNothing(b: nat, n: nat)
    ensures Tiles([], b, n, n)
  {
  }
}
