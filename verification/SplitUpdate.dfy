/** Spreading an update of a large value over its splits. */
module SplitUpdate {
  import opened Buffers
  import opened LargeObjects

  /** `size` bytes of the new data, from `source` on, go to `offset` in a split. */
  datatype Piece = Piece(splitIndex: nat, offset: nat, size: nat, source: nat)

  /** The piece is what the update and the split have in common. */
  ghost predicate IsOverlap(piece: Piece, updateOffset: nat, updateSize: nat, ss: nat) {
    var start := Offset(piece.splitIndex, ss);
    && (updateSize > 0 ==> piece.size > 0)
    && start + piece.offset == updateOffset + piece.source
    && start + piece.offset == (if updateOffset > start then updateOffset else start)
    && start + piece.offset + piece.size
       == (if updateOffset + updateSize < start + ss then updateOffset + updateSize else start + ss)
  }

  /** The update reaches from somewhere before the end of the split to somewhere behind its start. */
  ghost predicate Touches(updateOffset: nat, updateSize: nat, splitIndex: nat, ss: nat) {
    var start := Offset(splitIndex, ss);
    && start <= updateOffset + updateSize && updateOffset <= start + ss
    && (updateSize > 0 ==> start < updateOffset + updateSize && updateOffset < start + ss)
  }

  lemma SplitsTouched(updateOffset: nat, updateSize: nat, ss: nat)
    requires ss > 0 && updateOffset + updateSize > 0
    ensures var first, last := updateOffset / ss, (updateOffset + updateSize - 1) / ss;
            && 0 <= first <= last + 1 && (first == last + 1 <==> updateSize == 0 && updateOffset % ss == 0)
            && forall i: nat :: first <= i <= last ==> Touches(updateOffset, updateSize, i, ss)
  {
    var first, last := updateOffset / ss, (updateOffset + updateSize - 1) / ss;
    hide Offset;
    DivBounds(updateOffset, ss);
    if first > 0 {
      SideOf(updateOffset + updateSize - 1, ss, first - 1);
    }
    SideOf(updateOffset + updateSize - 1, ss, first);
    forall i: nat | first <= i <= last
      ensures Touches(updateOffset, updateSize, i, ss)
    {
      SideOf(updateOffset, ss, i);
      SideOf(updateOffset + updateSize - 1, ss, i);
    }
    if first > 0 {
      OffsetCompare(first - 1, first, ss);
    }
    assert Offset(first, ss) <= updateOffset;
  }

  lemma WholeTouched(updateOffset: nat, updateSize: nat)
    ensures Touches(updateOffset, updateSize, 0, updateOffset + updateSize)
    ensures forall piece: Piece {:trigger IsOverlap(piece, updateOffset, updateSize, updateOffset + updateSize)} ::
              piece.splitIndex == 0 && IsOverlap(piece, updateOffset, updateSize, updateOffset + updateSize)
              ==> piece == Piece(0, updateOffset, updateSize, 0)
  {
  }

  /** The part of the update that falls into one split. */
  method PieceAt(updateOffset: nat, updateSize: nat, splitIndex: nat, splitSize: nat) returns (piece: Piece)
    requires Touches(updateOffset, updateSize, splitIndex, splitSize)
    ensures piece.splitIndex == splitIndex && IsOverlap(piece, updateOffset, updateSize, splitSize)
  {
    OffsetIsProduct(splitIndex, splitSize);
    var offset := 0;
    if updateOffset > splitIndex * splitSize {
      offset := updateOffset - splitIndex * splitSize;
    }
    var size := updateOffset + updateSize - splitIndex * splitSize - offset;
    if offset + size > splitSize {
      size := splitSize - offset;
    }
    if size > splitSize {
      size := splitSize;
    }
    piece := Piece(splitIndex, offset, size, offset + splitIndex * splitSize - updateOffset);
  }

  /** One piece for every split the update reaches; for an update not classified as large, the update itself. */
  ghost predicate ArePieces(pieces: seq<Piece>, chunkSize: nat, keySize: nat, updateOffset: nat, updateSize: nat)
    requires HasRoom(chunkSize, keySize, updateOffset + updateSize)
  {
    if IsLarge(chunkSize, keySize, updateOffset + updateSize)
    then
      var ss := SplitSize(chunkSize, keySize, updateOffset + updateSize);
      && |pieces| == (updateOffset + updateSize - 1) / ss - updateOffset / ss + 1
      && forall x :: 0 <= x < |pieces| ==>
           pieces[x].splitIndex == updateOffset / ss + x && IsOverlap(pieces[x], updateOffset, updateSize, ss)
    else pieces == [Piece(0, updateOffset, updateSize, 0)]
  }

  /** Only an empty update at the start of a split of a large object has no piece. */
  lemma NoPiecesIff(pieces: seq<Piece>, chunkSize: nat, keySize: nat, updateOffset: nat, updateSize: nat)
    requires HasRoom(chunkSize, keySize, updateOffset + updateSize)
    requires ArePieces(pieces, chunkSize, keySize, updateOffset, updateSize)
    ensures pieces == []
            <==> && updateSize == 0 && IsLarge(chunkSize, keySize, updateOffset)
                 && updateOffset % SplitSize(chunkSize, keySize, updateOffset) == 0
  {
    if IsLarge(chunkSize, keySize, updateOffset + updateSize) {
      hide Touches;
      SplitsTouched(updateOffset, updateSize, SplitSize(chunkSize, keySize, updateOffset + updateSize));
    }
  }

  /**
   * The pieces of an update. An empty one has a single empty piece, or none at the start of a split of a large
   * object.
   */
  method UpdatePieces(chunkSize: nat, keySize: nat, updateOffset: nat, updateSize: nat)
    returns (pieces: seq<Piece>, remaining: nat)
    requires HasRoom(chunkSize, keySize, updateOffset + updateSize)
    ensures remaining == |pieces| && ArePieces(pieces, chunkSize, keySize, updateOffset, updateSize)
  {
    hide Offset;
    var isLarge := IsLarge(chunkSize, keySize, updateOffset + updateSize);
    var splitSize := SplitSize(chunkSize, keySize, updateOffset + updateSize);
    var splitStartIndex, splitEndIndex := 0, 0;
    if isLarge {
      SplitsTouched(updateOffset, updateSize, splitSize);
      splitStartIndex := GetSplitIndex(chunkSize, keySize, 0, updateOffset).0;
      splitEndIndex := GetSplitIndex(chunkSize, keySize, 0, updateOffset + updateSize - 1).0;
    }
    WholeTouched(updateOffset, updateSize);
    remaining := splitEndIndex - splitStartIndex + 1;
    pieces := [];
    var splitIndex: nat := splitStartIndex;
    while splitIndex <= splitEndIndex
      invariant splitStartIndex <= splitIndex <= splitEndIndex + 1 && |pieces| == splitIndex - splitStartIndex
      invariant forall x :: 0 <= x < |pieces| ==>
        pieces[x].splitIndex == splitStartIndex + x && IsOverlap(pieces[x], updateOffset, updateSize, splitSize)
    {
      var piece := PieceAt(updateOffset, updateSize, splitIndex, splitSize);
      pieces := pieces + [piece];
      splitIndex := splitIndex + 1;
    }
  }

  /** Split i of a value. */
  ghost function SplitOf(value: seq<byte>, ss: nat, i: nat): (split: seq<byte>)
    requires Offset(i, ss) <= |value|
  {
    value[Offset(i, ss)..Offset(i, ss) + SplitLength(ss, |value|, Offset(i, ss))]
  }

  /** The splits make up the value: byte v is byte v % ss of split v / ss, and every split but the last is full. */
  lemma ByteInSplit(value: seq<byte>, ss: nat, v: nat)
    requires ss > 0 && v < |value|
    ensures Offset(v / ss, ss) <= |value| && v % ss < |SplitOf(value, ss, v / ss)| <= ss
    ensures SplitOf(value, ss, v / ss)[v % ss] == value[v]
    ensures |SplitOf(value, ss, v / ss)| < ss ==> |value| - v <= ss
  {
    DivBounds(v, ss);
  }

  /** A slice of an overwritten sequence is the slice overwritten by what falls into it. */
  lemma OverwriteSlice(value: seq<byte>, at: nat, data: seq<byte>, lo: nat, hi: nat,
                       offset: nat, source: nat, size: nat)
    requires at + |data| <= |value| && lo <= hi <= |value| && lo + offset == at + source
    requires lo + offset + size <= hi && source + size <= |data|
    requires (source == 0 || offset == 0) && (source + size == |data| || lo + offset + size == hi)
    ensures Overwrite(value, at, data)[lo..hi] == Overwrite(value[lo..hi], offset, data[source..source + size])
  {
    var now, was := Overwrite(value, at, data), value[lo..hi];
    var piece := Overwrite(was, offset, data[source..source + size]);
    forall j | 0 <= j < hi - lo
      ensures now[lo + j] == piece[j]
    {
      if offset <= j < offset + size {
        assert now[lo + j] == data[lo + j - at];
      } else {
        assert now[lo + j] == value[lo + j] == was[j];
      }
    }
  }

  /** A piece lies inside its split; written there, it has the effect of the whole update on the split. */
  lemma PieceUpdatesSplit(value: seq<byte>, updateOffset: nat, newData: seq<byte>, ss: nat, piece: Piece)
    requires updateOffset + |newData| <= |value| && IsOverlap(piece, updateOffset, |newData|, ss)
    ensures Offset(piece.splitIndex, ss) <= |value|
    ensures |newData| > 0 ==> Offset(piece.splitIndex, ss) < |value|
    ensures piece.offset + piece.size <= |SplitOf(value, ss, piece.splitIndex)|
            && piece.source + piece.size <= |newData|
    ensures SplitOf(Overwrite(value, updateOffset, newData), ss, piece.splitIndex)
            == Overwrite(SplitOf(value, ss, piece.splitIndex), piece.offset,
                         newData[piece.source..piece.source + piece.size])
  {
    hide Offset, Overwrite;
    var start := Offset(piece.splitIndex, ss);
    var end := start + SplitLength(ss, |value|, start);
    OverwriteSlice(value, updateOffset, newData, start, end, piece.offset, piece.source, piece.size);
  }

  lemma RegionKept(value: seq<byte>, at: nat, data: seq<byte>, lo: nat, hi: nat)
    requires at + |data| <= |value| && lo <= hi <= |value| && (hi <= at || at + |data| <= lo)
    ensures Overwrite(value, at, data)[lo..hi] == value[lo..hi]
  {
  }

  /** A split without a piece is left alone by the whole update as well. */
  lemma OtherSplitKept(value: seq<byte>, updateOffset: nat, newData: seq<byte>, ss: nat, i: nat)
    requires updateOffset + |newData| <= |value| && |newData| > 0 && ss > 0 && Offset(i, ss) <= |value|
    requires i < updateOffset / ss || (updateOffset + |newData| - 1) / ss < i
    ensures SplitOf(Overwrite(value, updateOffset, newData), ss, i) == SplitOf(value, ss, i)
  {
    SideOf(updateOffset, ss, i);
    SideOf(updateOffset + |newData| - 1, ss, i);
    hide Offset, Overwrite;
    var start := Offset(i, ss);
    RegionKept(value, updateOffset, newData, start, start + SplitLength(ss, |value|, start));
  }

  /**
   * Updating the splits piece by piece is updating the value: every split of the updated value is the old split
   * with its piece written over it, if it has one.
   */
  lemma PiecewiseIsWhole(value: seq<byte>, updateOffset: nat, newData: seq<byte>, ss: nat, pieces: seq<Piece>, i: nat)
    requires updateOffset + |newData| <= |value| && |newData| > 0 && ss > 0 && Offset(i, ss) < |value|
    requires |pieces| == (updateOffset + |newData| - 1) / ss - updateOffset / ss + 1
    requires forall x :: 0 <= x < |pieces| ==>
               pieces[x].splitIndex == updateOffset / ss + x && IsOverlap(pieces[x], updateOffset, |newData|, ss)
    ensures var now, was := SplitOf(Overwrite(value, updateOffset, newData), ss, i), SplitOf(value, ss, i);
            var x := i - updateOffset / ss;
            if 0 <= x < |pieces|
            then
              && pieces[x].offset + pieces[x].size <= |was| && pieces[x].source + pieces[x].size <= |newData|
              && now == Overwrite(was, pieces[x].offset, newData[pieces[x].source..pieces[x].source + pieces[x].size])
            else now == was
  {
    hide Overwrite, SplitOf, Offset, IsOverlap;
    var x := i - updateOffset / ss;
    if 0 <= x < |pieces| {
      PieceUpdatesSplit(value, updateOffset, newData, ss, pieces[x]);
    } else {
      OtherSplitKept(value, updateOffset, newData, ss, i);
    }
  }

  /**
   * An update is classified by where it ends, not by the size of the object. For a large object the single piece of
   * an update classified as small is what the update and split 0 have in common, unless the update ends one to
   * SPLIT_OFFSET_SIZE bytes behind that split: then the piece runs over its end and split 1 gets nothing.
   */
  lemma ClassificationIsRightIff(chunkSize: nat, keySize: nat, valueSize: nat, updateOffset: nat, updateSize: nat)
    requires HasRoom(chunkSize, keySize, valueSize) && IsLarge(chunkSize, keySize, valueSize)
    requires updateSize > 0 && updateOffset + updateSize <= valueSize
    ensures var ss := SplitSize(chunkSize, keySize, valueSize);
            (IsLarge(chunkSize, keySize, updateOffset + updateSize)
             || IsOverlap(Piece(0, updateOffset, updateSize, 0), updateOffset, updateSize, ss))
            <==> !(ss < updateOffset + updateSize <= ss + SPLIT_OFFSET_SIZE)
  {
    assert Offset(0, SplitSize(chunkSize, keySize, valueSize)) == 0;
  }

  /** With chunks of 100 bytes and a key of 13, bytes 79 to 80 of a 200-byte value straddle splits 0 and 1. */
  lemma StraddlingUpdateMissed()
    ensures SplitSize(100, 13, 200) == 80 && !IsLarge(100, 13, 79 + 2)
    ensures !IsOverlap(Piece(0, 79, 2, 0), 79, 2, 80)
    ensures GetSplitIndex(100, 13, 200, 79) == (0, true) && GetSplitIndex(100, 13, 200, 80) == (1, true)
  {
    assert Offset(0, 80) == 0;
  }
}
