/** Scanning the objects of a data chunk. */
module ChunkScan {
  import opened Buffers
  import opened LargeObjects
  import opened KeyValues

  /** Where object i starts when the objects are stored back to back. */
  ghost function Start(objs: seq<Object>, i: nat, chunkSize: nat): nat
    requires i <= |objs|
  {
    if i == 0 then 0 else Start(objs, i - 1, chunkSize) + |Image(objs[i - 1], chunkSize)|
  }

  /** A chunk that holds these objects and zeros. */
  ghost predicate Packed(data: seq<octet>, objs: seq<Object>, chunkSize: nat) {
    && |data| == chunkSize
    && (forall x :: 0 <= x < |objs| ==> Storable(objs[x], chunkSize))
    && Start(objs, |objs|, chunkSize) <= chunkSize
    && (forall x :: 0 <= x < |objs| ==> Holds(data, Start(objs, x, chunkSize), objs[x], chunkSize))
    && (forall j :: Start(objs, |objs|, chunkSize) <= j < chunkSize ==> data[j] == 0)
  }

  lemma {:induction false} StartOrder(objs: seq<Object>, i: nat, j: nat, chunkSize: nat)
    requires i < j <= |objs|
    ensures Start(objs, i, chunkSize) + |Image(objs[i], chunkSize)| <= Start(objs, j, chunkSize)
  {
    hide Image;
    if i < j - 1 {
      StartOrder(objs, i, j - 1, chunkSize);
    }
  }

  lemma {:induction false} StartOfPrefix(objs: seq<Object>, o: Object, i: nat, chunkSize: nat)
    requires i <= |objs|
    ensures Start(objs + [o], i, chunkSize) == Start(objs, i, chunkSize)
  {
    hide Image;
    if i > 0 {
      StartOfPrefix(objs, o, i - 1, chunkSize);
    }
  }

  lemma EmptyIsPacked(data: seq<octet>, chunkSize: nat)
    requires |data| == chunkSize && forall j :: 0 <= j < chunkSize ==> data[j] == 0
    ensures Packed(data, [], chunkSize)
  {
  }

  lemma HoldsKept(data: seq<octet>, at: nat, o: Object, place: nat, bytes: seq<octet>, chunkSize: nat)
    requires Holds(data, at, o, chunkSize) && at + |Image(o, chunkSize)| <= place && place + |bytes| <= |data|
    ensures Holds(Overwrite(data, place, bytes), at, o, chunkSize)
  {
    hide Image;
    var b := Image(o, chunkSize);
    assert Overwrite(data, place, bytes)[at..at + |b|] == data[at..at + |b|];
  }

  lemma HoldsWritten(data: seq<octet>, at: nat, o: Object, chunkSize: nat)
    requires at + |Image(o, chunkSize)| <= |data|
    ensures Holds(Overwrite(data, at, Image(o, chunkSize)), at, o, chunkSize)
  {
    hide Image, Overwrite;
    WrittenAt(data, at, Image(o, chunkSize));
  }

  lemma ObjectKept(data: seq<octet>, objs: seq<Object>, o: Object, x: nat, chunkSize: nat)
    requires Packed(data, objs, chunkSize) && Start(objs, |objs|, chunkSize) + |Image(o, chunkSize)| <= chunkSize
    requires x <= |objs|
    ensures Holds(Overwrite(data, Start(objs, |objs|, chunkSize), Image(o, chunkSize)), Start(objs + [o], x, chunkSize),
                  (objs + [o])[x], chunkSize)
  {
    hide Image, Overwrite, Start, Storable, Holds;
    var place := Start(objs, |objs|, chunkSize);
    StartOfPrefix(objs, o, x, chunkSize);
    if x < |objs| {
      StartOrder(objs, x, |objs|, chunkSize);
      HoldsKept(data, Start(objs, x, chunkSize), objs[x], place, Image(o, chunkSize), chunkSize);
    } else {
      HoldsWritten(data, place, o, chunkSize);
    }
  }

  lemma StartNext(objs: seq<Object>, i: nat, chunkSize: nat)
    requires i < |objs|
    ensures Start(objs, i + 1, chunkSize) == Start(objs, i, chunkSize) + |Image(objs[i], chunkSize)|
  {
    hide Image;
  }

  /** Serialising one more object behind the others keeps the chunk packed. */
  lemma SerializedIsPacked(data: seq<octet>, objs: seq<Object>, o: Object, chunkSize: nat)
    requires Packed(data, objs, chunkSize) && Storable(o, chunkSize)
    requires Start(objs, |objs|, chunkSize) + |Image(o, chunkSize)| <= chunkSize
    ensures Packed(Overwrite(data, Start(objs, |objs|, chunkSize), Image(o, chunkSize)), objs + [o], chunkSize)
  {
    hide Image, Overwrite, Storable, Holds, Start;
    StartOfPrefix(objs, o, |objs|, chunkSize);
    StartNext(objs + [o], |objs|, chunkSize);
    WrittenAt(data, Start(objs, |objs|, chunkSize), Image(o, chunkSize));
    forall x: nat | x <= |objs|
      ensures Holds(Overwrite(data, Start(objs, |objs|, chunkSize), Image(o, chunkSize)),
                    Start(objs + [o], x, chunkSize), (objs + [o])[x], chunkSize)
    {
      ObjectKept(data, objs, o, x, chunkSize);
    }
  }

  /** Serialising objects back to back into a zeroed chunk packs it. */
  method PackAll(chunk: array<octet>, objs: seq<Object>, chunkSize: nat)
    requires chunk.Length == chunkSize && forall j :: 0 <= j < chunkSize ==> chunk[j] == 0
    requires forall x :: 0 <= x < |objs| ==> Storable(objs[x], chunkSize)
    requires Start(objs, |objs|, chunkSize) <= chunkSize
    modifies chunk
    ensures Packed(chunk[..], objs, chunkSize)
  {
    hide Packed, Image, Overwrite, StoredLength;
    EmptyIsPacked(chunk[..], chunkSize);
    assert objs[..0] == [];
    var ptr := 0;
    var i := 0;
    while i < |objs|
      invariant 0 <= i <= |objs| && ptr == Start(objs[..i], i, chunkSize) && Packed(chunk[..], objs[..i], chunkSize)
    {
      var o := objs[i];
      assert objs[..i + 1] == objs[..i] + [o];
      StartOfPrefix(objs[..i], o, i, chunkSize);
      PrefixFits(objs, i, chunkSize);
      SerializedIsPacked(chunk[..], objs[..i], o, chunkSize);
      Serialize(chunk, ptr, Some(o.key), |o.key|, Some(o.part), o.valueSize, o.splitOffset, chunkSize, o);
      ptr := ptr + |Image(o, chunkSize)|;
      i := i + 1;
    }
    assert objs[..i] == objs;
  }

  lemma {:induction false} StartOfTake(objs: seq<Object>, i: nat, n: nat, chunkSize: nat)
    requires i <= n <= |objs|
    ensures Start(objs[..n], i, chunkSize) == Start(objs, i, chunkSize)
  {
    hide Image;
    if i > 0 {
      StartOfTake(objs, i - 1, n, chunkSize);
    }
  }

  lemma PrefixFits(objs: seq<Object>, i: nat, chunkSize: nat)
    requires i < |objs|
    ensures Start(objs[..i], i, chunkSize) + |Image(objs[i], chunkSize)| <= Start(objs, |objs|, chunkSize)
  {
    hide Image;
    StartOfTake(objs, i, i, chunkSize);
    StartOrder(objs, i, |objs|, chunkSize);
  }

  /** And then every object is read back from where it starts. */
  lemma PackedIsReadBack(data: seq<octet>, objs: seq<Object>, i: nat, chunkSize: nat)
    requires Packed(data, objs, chunkSize) && i < |objs|
    ensures var o, at := objs[i], Start(objs, i, chunkSize);
            var keyAt := at + KEY_VALUE_METADATA_SIZE;
            var partAt := keyAt + |o.key| + |SplitField(o, chunkSize)|;
            && partAt + |o.part| <= |data|
            && data[at] == |o.key| && Number24(data, at + 1) == o.valueSize && data[keyAt..keyAt + |o.key|] == o.key
            && (IsLarge(chunkSize, |o.key|, o.valueSize) ==> Number24(data, keyAt + |o.key|) == o.splitOffset)
            && data[partAt..partAt + |o.part|] == o.part
  {
    hide Start, Bytes24, Number24, StoredLength;
    ImageInverts(data, Start(objs, i, chunkSize), objs[i], chunkSize);
  }

  /** What a packed chunk says about object i, or about the place behind the last one. */
  lemma ObjectAt(data: seq<octet>, objs: seq<Object>, i: nat, chunkSize: nat)
    requires Packed(data, objs, chunkSize) && i <= |objs|
    ensures |data| == chunkSize
    ensures i < |objs| ==>
              && Storable(objs[i], chunkSize) && Holds(data, Start(objs, i, chunkSize), objs[i], chunkSize)
              && Start(objs, i, chunkSize) + KEY_VALUE_METADATA_SIZE < chunkSize
              && Start(objs, i + 1, chunkSize) == Start(objs, i, chunkSize) + |Image(objs[i], chunkSize)| <= chunkSize
    ensures i == |objs| ==> forall j :: Start(objs, i, chunkSize) <= j < chunkSize ==> data[j] == 0
  {
    if i < |objs| {
      StartOrder(objs, i, |objs|, chunkSize);
    }
  }

  /** The sizes in the header at `offset`, and the bytes the object there takes. */
  method Measure(chunk: array<octet>, offset: nat, chunkSize: nat, ghost objs: seq<Object>, ghost i: nat)
    returns (keyAt: nat, keySize: nat, isLarge: bool, empty: bool, size: nat)
    requires Packed(chunk[..], objs, chunkSize)
    requires i <= |objs| && offset == Start(objs, i, chunkSize) && offset + KEY_VALUE_METADATA_SIZE < chunkSize
    ensures empty == (i == |objs|) == (keySize == 0)
    ensures i < |objs| ==> offset + size == Start(objs, i + 1, chunkSize) && keyAt + keySize <= chunk.Length
                           && chunk[keyAt..keyAt + keySize] == objs[i].key
                           && isLarge == IsLarge(chunkSize, |objs[i].key|, objs[i].valueSize)
  {
    hide Packed, Image, Start, Bytes24;
    ObjectAt(chunk[..], objs, i, chunkSize);
    if i < |objs| {
      ImageInverts(chunk[..], offset, objs[i], chunkSize);
    }
    var valueAt, valueSize, splitOffset;
    keyAt, keySize, valueAt, valueSize, splitOffset := Deserialize(chunk, offset, chunkSize);
    empty := keySize == 0 && valueSize == 0;
    isLarge := IsLarge(chunkSize, keySize, valueSize);
    if isLarge {
      var splitSize := SplitSize(chunkSize, keySize, valueSize);
      if splitOffset + splitSize > valueSize {
        splitSize := valueSize - splitOffset;
      }
      size := KEY_VALUE_METADATA_SIZE + SPLIT_OFFSET_SIZE + keySize + splitSize;
    } else {
      size := KEY_VALUE_METADATA_SIZE + keySize + valueSize;
    }
  }

  /** The bytes in use: all of a parity chunk, the objects of a data chunk. */
  method GetSize(chunk: array<octet>, isParity: bool, chunkSize: nat, ghost objs: seq<Object>) returns (size: nat)
    requires chunk.Length == chunkSize
    requires !isParity ==> Packed(chunk[..], objs, chunkSize)
    ensures isParity ==> size == chunkSize
    ensures !isParity ==> size == Start(objs, |objs|, chunkSize)
  {
    hide Packed, Image, IsLarge;
    if isParity {
      return chunkSize;
    }
    var ptr := 0;
    size := 0;
    ghost var i: nat := 0;
    while ptr + KEY_VALUE_METADATA_SIZE < chunkSize
      invariant i <= |objs| && ptr == size == Start(objs, i, chunkSize)
      decreases |objs| - i
    {
      var keyAt, keySize, isLarge, empty, step := Measure(chunk, ptr, chunkSize, objs, i);
      if empty {
        break;
      }
      ptr := ptr + step;
      size := size + step;
      i := i + 1;
    }
    ObjectAt(chunk[..], objs, i, chunkSize);
  }

  /** The number of objects. */
  method GetCount(chunk: array<octet>, isParity: bool, chunkSize: nat, ghost objs: seq<Object>) returns (count: nat)
    requires chunk.Length == chunkSize
    requires !isParity ==> Packed(chunk[..], objs, chunkSize)
    ensures isParity ==> count == 0
    ensures !isParity ==> count == |objs|
  {
    hide Packed, Image, IsLarge;
    count := 0;
    if isParity {
      return;
    }
    var ptr := 0;
    while ptr + KEY_VALUE_METADATA_SIZE < chunkSize
      invariant count <= |objs| && ptr == Start(objs, count, chunkSize)
      decreases |objs| - count
    {
      var keyAt, keySize, isLarge, empty, step := Measure(chunk, ptr, chunkSize, objs, count);
      if empty {
        break;
      }
      ptr := ptr + step;
      count := count + 1;
    }
    ObjectAt(chunk[..], objs, count, chunkSize);
  }

  /** Steps from the start of object i to the start of the next one; -1 behind the last. */
  method Next(chunk: array<octet>, offset: nat, chunkSize: nat, ghost objs: seq<Object>, ghost i: nat)
    returns (next: int, keyAt: nat, keySize: nat, isLarge: bool)
    requires chunk.Length == chunkSize
    requires Packed(chunk[..], objs, chunkSize) && i <= |objs| && offset == Start(objs, i, chunkSize)
    ensures i == |objs| ==> next == -1
    ensures i < |objs| ==> next == Start(objs, i + 1, chunkSize) && keyAt + keySize <= chunkSize
                           && chunk[keyAt..keyAt + keySize] == objs[i].key
                           && isLarge == IsLarge(chunkSize, |objs[i].key|, objs[i].valueSize)
  {
    hide Packed, Image, IsLarge, Start;
    ObjectAt(chunk[..], objs, i, chunkSize);
    next, keyAt, keySize, isLarge := -1, 0, 0, false;
    if offset + KEY_VALUE_METADATA_SIZE < chunkSize {
      var empty, size;
      keyAt, keySize, isLarge, empty, size := Measure(chunk, offset, chunkSize, objs, i);
      if keySize != 0 {
        next := offset + size;
      } else {
        keyAt := 0;
      }
    }
  }
}
