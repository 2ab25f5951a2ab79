/** Splitting a value that does not fit into a chunk. */
module LargeObjects {
  import opened Buffers

  const KEY_VALUE_METADATA_SIZE: nat := 4
  const SPLIT_OFFSET_SIZE: nat := 3

  predicate IsLarge(chunkSize: nat, keySize: nat, valueSize: nat) {
    chunkSize < KEY_VALUE_METADATA_SIZE + keySize + valueSize
  }

  /** A value is split only if it does not fit behind one byte of key size, three of value size and the key. */
  lemma LargeIffTooLong(chunkSize: nat, keySize: nat, valueSize: nat)
    ensures IsLarge(chunkSize, keySize, valueSize) <==> !(1 + 3 + keySize + valueSize <= chunkSize)
    ensures HasRoom(chunkSize, keySize, valueSize)
            <==> 1 + 3 + keySize + valueSize <= chunkSize || 1 + 3 + keySize + 3 < chunkSize
  {
  }

  /** If the value must be split, a chunk has room for a part of it; otherwise the code's split size wraps around. */
  predicate HasRoom(chunkSize: nat, keySize: nat, valueSize: nat) {
    IsLarge(chunkSize, keySize, valueSize) ==> chunkSize > KEY_VALUE_METADATA_SIZE + keySize + SPLIT_OFFSET_SIZE
  }

  /** How much of a large value fits into a chunk; the whole of a value that is not large. */
  function SplitSize(chunkSize: nat, keySize: nat, valueSize: nat): nat
    requires HasRoom(chunkSize, keySize, valueSize)
  {
    if IsLarge(chunkSize, keySize, valueSize)
    then chunkSize - KEY_VALUE_METADATA_SIZE - keySize - SPLIT_OFFSET_SIZE
    else valueSize
  }

  function NumOfSplit(chunkSize: nat, keySize: nat, valueSize: nat): nat
    requires HasRoom(chunkSize, keySize, valueSize)
  {
    if IsLarge(chunkSize, keySize, valueSize) then
      var splitSize := SplitSize(chunkSize, keySize, valueSize);
      valueSize / splitSize + if valueSize % splitSize != 0 then 1 else 0
    else
      1
  }

  function GetValueOffsetAtSplit(chunkSize: nat, keySize: nat, valueSize: nat, index: nat): nat
    requires HasRoom(chunkSize, keySize, valueSize)
  {
    if IsLarge(chunkSize, keySize, valueSize) then index * SplitSize(chunkSize, keySize, valueSize) else 0
  }

  /** A zero valueSize stands for "known to be large". */
  function GetSplitIndex(chunkSize: nat, keySize: nat, valueSize: nat, offset: nat): (r: (nat, bool))
    requires HasRoom(chunkSize, keySize, if valueSize == 0 then chunkSize + offset else valueSize)
  {
    var valueSize' := if valueSize == 0 then chunkSize + offset else valueSize;
    if IsLarge(chunkSize, keySize, valueSize')
    then (offset / SplitSize(chunkSize, keySize, valueSize'), true)
    else (0, false)
  }

  /** The size of a split: the last one may be shorter. */
  function SplitLength(splitSize: nat, valueSize: nat, splitOffset: nat): nat
    requires splitOffset <= valueSize
  {
    if splitOffset + splitSize > valueSize then valueSize - splitOffset else splitSize
  }

  lemma OffsetCompare(a: nat, b: nat, ss: nat)
    ensures a < b ==> Offset(a, ss) + ss <= Offset(b, ss)
    ensures b < a ==> Offset(b, ss) + ss <= Offset(a, ss)
  {
    if a < b {
      OffsetOrder(a, b, ss);
    } else if b < a {
      OffsetOrder(b, a, ss);
    }
  }

  lemma DivBounds(v: nat, ss: nat)
    requires ss > 0
    ensures Offset(v / ss, ss) + v % ss == v
  {
    OffsetIsProduct(v / ss, ss);
  }

  /** Where v lies relative to split i. */
  lemma SideOf(v: nat, ss: nat, i: nat)
    requires ss > 0
    ensures i < v / ss <==> Offset(i, ss) + ss <= v
    ensures v / ss < i <==> v < Offset(i, ss)
  {
    DivBounds(v, ss);
    OffsetCompare(i, v / ss, ss);
  }

  /** Splits follow each other at the distance of a full one; a value that is not large has split 0 only, all of it. */
  lemma SplitsFollow(chunkSize: nat, keySize: nat, valueSize: nat, i: nat)
    requires HasRoom(chunkSize, keySize, valueSize)
    ensures GetValueOffsetAtSplit(chunkSize, keySize, valueSize, 0) == 0
    ensures if IsLarge(chunkSize, keySize, valueSize)
            then GetValueOffsetAtSplit(chunkSize, keySize, valueSize, i + 1)
                 == GetValueOffsetAtSplit(chunkSize, keySize, valueSize, i) + (chunkSize - 4 - keySize - 3)
            else NumOfSplit(chunkSize, keySize, valueSize) == 1 && SplitSize(chunkSize, keySize, valueSize) == valueSize
  {
    if IsLarge(chunkSize, keySize, valueSize) {
      OffsetIsProduct(i, SplitSize(chunkSize, keySize, valueSize));
      OffsetIsProduct(i + 1, SplitSize(chunkSize, keySize, valueSize));
    }
  }

  /** The splits of a large value: each starts inside it and none is empty; together they make it up. */
  lemma SplitsTile(chunkSize: nat, keySize: nat, valueSize: nat, i: nat)
    requires HasRoom(chunkSize, keySize, valueSize) && IsLarge(chunkSize, keySize, valueSize)
    ensures var ss, num := SplitSize(chunkSize, keySize, valueSize), NumOfSplit(chunkSize, keySize, valueSize);
            && (i < num <==> Offset(i, ss) < valueSize)
            && (i < num ==> SplitLength(ss, valueSize, Offset(i, ss)) > 0)
            && (i + 1 < num ==> Offset(i, ss) + SplitLength(ss, valueSize, Offset(i, ss)) == Offset(i + 1, ss))
            && (i + 1 == num ==> Offset(i, ss) + SplitLength(ss, valueSize, Offset(i, ss)) == valueSize)
            && num >= 2
  {
    var ss := SplitSize(chunkSize, keySize, valueSize);
    DivBounds(valueSize, ss);
    OffsetCompare(i, valueSize / ss, ss);
    OffsetCompare(i + 1, valueSize / ss, ss);
    OffsetCompare(1, valueSize / ss, ss);
    assert Offset(1, ss) == ss;
  }

  /** The byte at `offset` belongs to the split that getSplitIndex names. */
  lemma SplitIndexInverts(chunkSize: nat, keySize: nat, valueSize: nat, i: nat, offset: nat)
    requires HasRoom(chunkSize, keySize, valueSize) && IsLarge(chunkSize, keySize, valueSize)
    requires offset < valueSize
    ensures var ss := SplitSize(chunkSize, keySize, valueSize);
            var start := GetValueOffsetAtSplit(chunkSize, keySize, valueSize, i);
            (i < NumOfSplit(chunkSize, keySize, valueSize)
             && start <= offset < start + SplitLength(ss, valueSize, start))
            <==> GetSplitIndex(chunkSize, keySize, valueSize, offset) == (i, true)
  {
    var ss := SplitSize(chunkSize, keySize, valueSize);
    OffsetIsProduct(i, ss);
    SplitsTile(chunkSize, keySize, valueSize, i);
    DivBounds(offset, ss);
    OffsetCompare(i, offset / ss, ss);
  }

  /** A split fits into a chunk with its headers, and one other than the last fills it. */
  lemma FullSplitFillsChunk(chunkSize: nat, keySize: nat, valueSize: nat, i: nat, start: nat)
    requires HasRoom(chunkSize, keySize, valueSize) && IsLarge(chunkSize, keySize, valueSize)
    requires start == GetValueOffsetAtSplit(chunkSize, keySize, valueSize, i) && start < valueSize
    ensures var length := SplitLength(SplitSize(chunkSize, keySize, valueSize), valueSize, start);
            var size := KEY_VALUE_METADATA_SIZE + keySize + SPLIT_OFFSET_SIZE + length;
            size <= chunkSize && (i + 1 < NumOfSplit(chunkSize, keySize, valueSize) ==> size == chunkSize)
  {
    var ss := SplitSize(chunkSize, keySize, valueSize);
    OffsetIsProduct(i, ss);
    SplitsTile(chunkSize, keySize, valueSize, i);
    SplitsTile(chunkSize, keySize, valueSize, i + 1);
  }
}
