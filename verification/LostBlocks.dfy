/**
 get on a plain file of which some blocks cannot be decoded. Nothing is written for such a block and the
 local file is then resized, so get yields a file of the right length whatever was lost.
 */
module LostBlocks {
  import opened Options
  import opened Division
  import opened StorageTypes
  import opened Placement
  import opened Recovery
  import opened WholeFile
  import opened BlockReads
  import opened Gets

  /** Enough of the shards listed for block i can be read. */
  ghost predicate Decodable(lib: Library, st: StorageType, blocks: seq<Bytes>, nodes: seq<string>,
                            digest: Bytes -> string, ends: seq<Progress>, replies: (nat, nat) -> Option<Bytes>, i: nat)
    requires nodes != [] && i < |blocks| == |ends|
  {
    |ends[i].placed| <= |Encode(lib, st, blocks[i])| &&
    var list := Listed(ends[i].placed, Encode(lib, st, blocks[i]), nodes, digest);
    |Readable(list, (j: nat) => replies(i, j), digest)| >= st.DecodeBlocks()
  }

  ghost function Undecodable(lib: Library, st: StorageType, blocks: seq<Bytes>, nodes: seq<string>,
                             digest: Bytes -> string, ends: seq<Progress>, replies: (nat, nat) -> Option<Bytes>)
    : (lost: set<nat>)
    requires nodes != [] && |blocks| == |ends|
  {
    set i: nat | i < |blocks| && !Decodable(lib, st, blocks, nodes, digest, ends, replies, i)
  }

  /** The blocks one after the other, without the lost ones. */
  ghost function Without(blocks: seq<Bytes>, lost: set<nat>): (r: Bytes) {
    if blocks == [] then []
    else
      var n := |blocks| - 1;
      if n in lost then Without(blocks[..n], lost) else Without(blocks[..n], lost) + blocks[n]
  }

  lemma {:induction false} ConcatIsWithout(got: seq<Bytes>, blocks: seq<Bytes>, lost: set<nat>)
    requires |got| == |blocks|
    requires forall i :: 0 <= i < |blocks| ==> got[i] == if i in lost then [] else blocks[i]
    ensures Concat(got) == Without(blocks, lost)
  {
    if blocks != [] {
      var n := |blocks| - 1;
      ConcatIsWithout(got[..n], blocks[..n], lost);
    }
  }

  lemma DecodedIsBlock(lib: Library, st: StorageType, blocks: seq<Bytes>, sub: seq<string>, nodes: seq<string>,
                       digest: Bytes -> string, ends: seq<Progress>, replies: (nat, nat) -> Option<Bytes>, i: nat)
    requires Sound(lib, st) && CanonicalNodes(nodes) && CleanDigests(digest) && Injective(digest)
    requires AreTexts(sub, lib, st, blocks, nodes, digest, ends) && i < |blocks|
    ensures DecodedBlocks(lib, st, sub, replies, digest)[i] ==
      if Decodable(lib, st, blocks, nodes, digest, ends, replies, i) then blocks[i] else []
  {
    hide DecodedShards, Readable, Listed, Sound, Encode;
    assert IsText(sub[i], lib, st, blocks[i], nodes, digest, ends[i]);
    BlockDurable(lib, st, blocks[i], ends[i].placed, nodes, digest, (j: nat) => replies(i, j));
  }

  /** get without a mark, for every pattern of failing reads. */
  lemma GetOutcome(lib: Library, st: StorageType, blocks: seq<Bytes>, filesize: nat, sub: seq<string>,
                   nodes: seq<string>, digest: Bytes -> string, ends: seq<Progress>,
                   replies: (nat, nat) -> Option<Bytes>)
    requires Sound(lib, st) && CanonicalNodes(nodes) && CleanDigests(digest) && Injective(digest)
    requires AreTexts(sub, lib, st, blocks, nodes, digest, ends)
    ensures |blocks| == |ends|
    ensures Gotten(lib, st, sub, filesize, "", replies, digest) ==
      Some(Resize(Without(blocks, Undecodable(lib, st, blocks, nodes, digest, ends, replies)), filesize))
  {
    TextsMatch(sub, lib, st, blocks, nodes, digest, ends);
    hide AreTexts, Decodable, DecodedShards, Without;
    var got := DecodedBlocks(lib, st, sub, replies, digest);
    var lost := Undecodable(lib, st, blocks, nodes, digest, ends, replies);
    forall i | 0 <= i < |blocks| ensures got[i] == if i in lost then [] else blocks[i] {
      DecodedIsBlock(lib, st, blocks, sub, nodes, digest, ends, replies, i);
    }
    ConcatIsWithout(got, blocks, lost);
  }

  lemma {:induction false} WithoutSpan(blocks: seq<Bytes>, lost: set<nat>, b: nat)
    requires forall i :: 0 <= i < |blocks| ==> |blocks[i]| == b
    ensures |Without(blocks, lost)| == Span(|blocks| - |LostIn(lost, 0, |blocks|)|, b)
  {
    hide LostIn, Span;
    if blocks == [] {
      NothingIn(lost);
      SpanNext(0, b);
    } else {
      var n := |blocks| - 1;
      WithoutSpan(blocks[..n], lost, b);
      LostStep(lost, 0, |blocks|);
      SpanNext(n - |LostIn(lost, 0, n)|, b);
    }
  }

  lemma NothingIn(lost: set<nat>)
    ensures LostIn(lost, 0, 0) == {}
  {
  }

  lemma {:induction false} WithoutPrefix(blocks: seq<Bytes>, lost: set<nat>, m: nat)
    requires m <= |blocks| && forall i :: i in lost ==> m <= i
    ensures Concat(blocks[..m]) <= Without(blocks, lost)
  {
    if blocks != [] {
      var n := |blocks| - 1;
      if m == |blocks| {
        WithoutPrefix(blocks[..n], lost, n);
        assert blocks[..m][..n] == blocks[..n] == blocks[..n][..n];
        WithoutAll(blocks, lost);
        assert blocks[..m] == blocks;
      } else {
        WithoutPrefix(blocks[..n], lost, m);
        assert blocks[..n][..m] == blocks[..m];
      }
    }
  }

  lemma {:induction false} WithoutAll(blocks: seq<Bytes>, lost: set<nat>)
    requires forall i :: i in lost ==> |blocks| <= i
    ensures Without(blocks, lost) == Concat(blocks)
  {
    if blocks != [] {
      WithoutAll(blocks[..|blocks| - 1], lost);
    }
  }

  /** Up to the first lost block the file is right; once the blocks had are used up, zeros follow. */
  lemma LostFile(content: Bytes, b: nat, lost: set<nat>, m: nat, i: nat)
    requires b > 0 && m <= |content| / b && m <= |SplitBlocks(content, b)|
    requires forall j :: j in lost ==> m <= j < |SplitBlocks(content, b)|
    ensures Concat(SplitBlocks(content, b)[..m]) == content[..Min(Span(m, b), |content|)]
    ensures Concat(SplitBlocks(content, b)[..m]) <= Resize(Without(SplitBlocks(content, b), lost), |content|)
    ensures Span(|SplitBlocks(content, b)| - |lost|, b) <= i < |content| ==>
      Resize(Without(SplitBlocks(content, b), lost), |content|)[i] == 0
  {
    hide SplitBlocks, AlignUp, BlockAt, Span, Concat, Without;
    var blocks := SplitBlocks(content, b);
    WithoutPrefix(blocks, lost, m);
    WithoutSpan(blocks, lost, b);
    assert LostIn(lost, 0, |blocks|) == lost;
    hide LostIn;
    FullSpan(content, b, m);
    CutPrefix(Without(blocks, lost), Concat(blocks[..m]), |content|);
  }

  lemma FullSpan(content: Bytes, b: nat, m: nat)
    requires b > 0 && m <= |content| / b && m <= |SplitBlocks(content, b)|
    ensures Span(m, b) <= |content| && Concat(SplitBlocks(content, b)[..m]) == content[..Span(m, b)]
  {
    hide SplitBlocks, AlignUp, BlockAt, Concat;
    FullBlocks(content, b, m);
  }

  lemma CutPrefix(s: Bytes, p: Bytes, n: nat)
    requires p <= s && |p| <= n
    ensures p <= Resize(s, n)
  {
  }

  lemma LastIsShort(content: Bytes, b: nat, lost: nat)
    requires b > 0 && content != [] && lost > 0
    ensures Span(|SplitBlocks(content, b)| - lost, b) < |content|
  {
    var n := |SplitBlocks(content, b)|;
    AlignUpIs(|content|, b);
    hide SplitBlocks, AlignUp, BlockAt;
    MulMono(b, n - lost, n - 1);
    assert n - 1 <= |content| / b && ((n - 1 == |content| / b) ==> |content| % b > 0);
    MulMono(b, n - 1, |content| / b);
    MulNext(b, n - 1);
  }

  /**
   A plain file whose last byte is not zero is given back exactly when every block can be decoded, and get
   never says otherwise: it yields a file of that length in any case.
   */
  lemma GivenBackExactly(lib: Library, st: StorageType, content: Bytes, b: nat, sub: seq<string>, nodes: seq<string>,
                         digest: Bytes -> string, ends: seq<Progress>, replies: (nat, nat) -> Option<Bytes>)
    requires Sound(lib, st) && b > 0 && content != [] && content[|content| - 1] != 0
    requires CanonicalNodes(nodes) && CleanDigests(digest) && Injective(digest)
    requires AreTexts(sub, lib, st, SplitBlocks(content, b), nodes, digest, ends)
    ensures |ends| == |SplitBlocks(content, b)|
    ensures var r := Gotten(lib, st, sub, |content|, "", replies, digest);
      && r.Some? && |r.value| == |content|
      && (r == Some(content) <==>
        forall i: nat :: i < |ends| ==>
          Decodable(lib, st, SplitBlocks(content, b), nodes, digest, ends, replies, i))
  {
    hide SplitBlocks, AreTexts, Decodable, Gotten, Span, Without, Concat, Sound, Resize;
    var blocks := SplitBlocks(content, b);
    GetOutcome(lib, st, blocks, |content|, sub, nodes, digest, ends, replies);
    var lost := Undecodable(lib, st, blocks, nodes, digest, ends, replies);
    if lost == {} {
      WithoutAll(blocks, lost);
      SplitRoundTrip(content, b);
      forall i: nat | i < |ends| ensures Decodable(lib, st, blocks, nodes, digest, ends, replies, i) {
        assert i !in lost;
      }
    } else {
      var m :| m in lost;
      assert !Decodable(lib, st, blocks, nodes, digest, ends, replies, m);
      LastIsShort(content, b, |lost|);
      LostFile(content, b, lost, 0, |content| - 1);
    }
  }
}
