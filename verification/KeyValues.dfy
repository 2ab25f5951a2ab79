/** The layout of an object in a chunk: key size, value size, key, split offset of a large object, stored value. */
module KeyValues {
  import opened Buffers
  import opened LargeObjects

  type octet = x: int | 0 <= x < 0x100

  function Low(v: nat): octet {
    v % 0x100
  }

  /** A number written in three bytes, most significant first; higher bytes are lost. */
  function Bytes24(v: nat): (b: seq<octet>)
    ensures |b| == SPLIT_OFFSET_SIZE
  {
    [Low(v / 0x1_0000), Low(v / 0x100), Low(v)]
  }

  function Number24(data: seq<octet>, at: nat): nat
    requires at + 3 <= |data|
  {
    var hi: nat, mid: nat, low: nat := data[at], data[at + 1], data[at + 2];
    hi * 0x1_0000 + mid * 0x100 + low
  }

  /** Reading back gives the number written exactly when it has at most 24 bits. */
  lemma Number24Inverts(v: nat, data: seq<octet>, at: nat)
    requires at + 3 <= |data| && data[at..at + 3] == Bytes24(v)
    ensures Number24(data, at) == v <==> v < 0x100_0000
  {
    var b := data[at..at + 3];
    assert data[at] == b[0] && data[at + 1] == b[1] && data[at + 2] == b[2];
    ThreeBytes(v);
  }

  lemma ThreeBytes(v: nat)
    ensures Low(v / 0x1_0000) * 0x1_0000 + Low(v / 0x100) * 0x100 + Low(v) == v <==> v < 0x100_0000
  {
    var mid := v / 0x100;
    var hi := v / 0x1_0000;
    assert v == mid * 0x100 + Low(v);
    assert hi == mid / 0x100;
    assert mid == hi * 0x100 + Low(mid);
    if v < 0x100_0000 {
      assert hi < 0x100;
    } else {
      assert hi >= 0x100 && Low(hi) < hi;
    }
  }

  /** An argument that may be a null pointer. */
  datatype Option<T> = None | Some(value: T)

  /** An object as a server stores it: the whole value, or the split at splitOffset of a large one. */
  datatype Object = Object(key: seq<octet>, valueSize: nat, splitOffset: nat, part: seq<octet>)

  /** How many bytes of the value are stored. */
  function StoredLength(chunkSize: nat, keySize: nat, valueSize: nat, splitOffset: nat): nat
    requires HasRoom(chunkSize, keySize, valueSize)
    requires IsLarge(chunkSize, keySize, valueSize) ==> splitOffset <= valueSize
  {
    if IsLarge(chunkSize, keySize, valueSize)
    then SplitLength(SplitSize(chunkSize, keySize, valueSize), valueSize, splitOffset)
    else valueSize
  }

  /** The stored part has the length the sizes call for. */
  ghost predicate LaidOut(o: Object, chunkSize: nat) {
    && |o.key| < 0x100 && HasRoom(chunkSize, |o.key|, o.valueSize)
    && (IsLarge(chunkSize, |o.key|, o.valueSize) ==> o.splitOffset <= o.valueSize)
    && |o.part| == StoredLength(chunkSize, |o.key|, o.valueSize, o.splitOffset)
  }

  /** And it can be read back: its key is not empty, its size has 24 bits, only a large object is split. */
  ghost predicate Storable(o: Object, chunkSize: nat) {
    && LaidOut(o, chunkSize) && 0 < |o.key| && o.valueSize < 0x100_0000
    && (!IsLarge(chunkSize, |o.key|, o.valueSize) ==> o.splitOffset == 0)
  }

  /** Which objects can be stored, and how much of their value: all of it, or what a chunk has room for. */
  lemma StorableIff(o: Object, chunkSize: nat)
    ensures Storable(o, chunkSize)
            <==> && 0 < |o.key| < 0x100 && o.valueSize < 0x100_0000
                 && (if 4 + |o.key| + o.valueSize <= chunkSize
                     then o.splitOffset == 0 && |o.part| == o.valueSize
                     else
                       var room := chunkSize - 4 - |o.key| - 3;
                       && room > 0 && o.splitOffset <= o.valueSize
                       && |o.part| == if o.splitOffset + room <= o.valueSize then room
                                      else o.valueSize - o.splitOffset)
  {
  }

  function SplitField(o: Object, chunkSize: nat): seq<octet> {
    if IsLarge(chunkSize, |o.key|, o.valueSize) then Bytes24(o.splitOffset) else []
  }

  /** The bytes of an object. */
  function Image(o: Object, chunkSize: nat): (b: seq<octet>)
    ensures |b| == KEY_VALUE_METADATA_SIZE + |o.key| + |SplitField(o, chunkSize)| + |o.part|
  {
    [Low(|o.key|)] + Bytes24(o.valueSize) + o.key + SplitField(o, chunkSize) + o.part
  }

  ghost predicate Holds(data: seq<octet>, at: nat, o: Object, chunkSize: nat) {
    at + |Image(o, chunkSize)| <= |data| && data[at..at + |Image(o, chunkSize)|] == Image(o, chunkSize)
  }

  lemma WrittenAt(data: seq<octet>, at: nat, bytes: seq<octet>)
    requires at + |bytes| <= |data|
    ensures Overwrite(data, at, bytes)[at..at + |bytes|] == bytes
    ensures forall j :: at + |bytes| <= j < |data| ==> Overwrite(data, at, bytes)[j] == data[j]
  {
  }

  lemma WrittenTwice(data: seq<octet>, at: nat, a: seq<octet>, b: seq<octet>)
    requires at + |a| + |b| <= |data|
    ensures Overwrite(Overwrite(data, at, a), at + |a|, b) == Overwrite(data, at, a + b)
  {
    assert Overwrite(data, at, a)[..at + |a|] == data[..at] + a;
    assert Overwrite(data, at, a)[at + |a| + |b|..] == data[at + |a| + |b|..];
  }

  /** memcpy. */
  method Copy(data: array<octet>, at: nat, bytes: seq<octet>)
    requires at + |bytes| <= data.Length
    modifies data
    ensures data[..] == Overwrite(old(data[..]), at, bytes)
  {
    var i := 0;
    while i < |bytes|
      invariant 0 <= i <= |bytes|
      invariant forall j :: 0 <= j < data.Length ==>
        data[j] == if at <= j < at + i then bytes[j - at] else old(data[j])
    {
      data[at + i] := bytes[i];
      i := i + 1;
    }
  }

  /** memcpy behind what has been written since `was`, from `at` on. */
  method Append(data: array<octet>, next: nat, bytes: seq<octet>, ghost was: seq<octet>, ghost at: nat,
                ghost written: seq<octet>)
    requires |was| == data.Length && next == at + |written| && next + |bytes| <= data.Length
    requires data[..] == Overwrite(was, at, written)
    modifies data
    ensures data[..] == Overwrite(was, at, written + bytes)
  {
    Copy(data, next, bytes);
    WrittenTwice(was, at, written, bytes);
  }

  /** Leaving the bytes behind what has been written is writing them again. */
  lemma KeptIsWritten(was: seq<octet>, at: nat, written: seq<octet>, len: nat)
    requires at + |written| + len <= |was|
    ensures Overwrite(was, at, written)
            == Overwrite(was, at, written + was[at + |written|..at + |written| + len])
  {
  }

  /** The same for an argument that may be null: then `len` bytes are skipped. */
  method AppendOrSkip(data: array<octet>, next: nat, bytes: Option<seq<octet>>, ghost len: nat, ghost was: seq<octet>,
                      ghost at: nat, ghost written: seq<octet>)
    requires |was| == data.Length && next == at + |written| && next + len <= data.Length
    requires data[..] == Overwrite(was, at, written) && (bytes.Some? ==> |bytes.value| == len)
    modifies data
    ensures data[..] == Overwrite(was, at, written + if bytes.Some? then bytes.value else was[next..next + len])
  {
    if bytes.Some? {
      Append(data, next, bytes.value, was, at, written);
    } else {
      KeptIsWritten(was, at, written, len);
    }
  }

  lemma TakenFrom(was: seq<octet>, from: nat, len: nat)
    requires from + len <= |was|
    ensures was[from..][..len] == was[from..from + len]
  {
  }

  /**
   * Writes the object o; `value` starts with the part to store. Where the key or the value is null, o has what the
   * chunk held at its place.
   */
  method Serialize(data: array<octet>, at: nat, key: Option<seq<octet>>, keySize: nat, value: Option<seq<octet>>,
                   valueSize: nat, splitOffset: nat, chunkSize: nat, ghost o: Object)
    requires LaidOut(o, chunkSize) && at + |Image(o, chunkSize)| <= data.Length
    requires |o.key| == keySize && o.valueSize == valueSize && o.splitOffset == splitOffset
    requires o.key == if key.Some? then key.value else data[at + KEY_VALUE_METADATA_SIZE..][..keySize]
    requires value.Some? ==> |o.part| <= |value.value|
    requires o.part == if value.Some? then value.value[..|o.part|]
                       else data[at + KEY_VALUE_METADATA_SIZE + keySize + |SplitField(o, chunkSize)|..][..|o.part|]
    modifies data
    ensures data[..] == Overwrite(old(data[..]), at, Image(o, chunkSize))
  {
    hide Overwrite, Bytes24;
    ghost var was, written: seq<octet> := data[..], [keySize];
    Copy(data, at, [keySize]);
    Append(data, at + 1, Bytes24(valueSize), was, at, written);
    written := written + Bytes24(valueSize);
    var next := at + KEY_VALUE_METADATA_SIZE;
    TakenFrom(was, next, keySize);
    AppendOrSkip(data, next, key, keySize, was, at, written);
    written := written + o.key;
    next := next + keySize;
    var splitSize := SplitSize(chunkSize, keySize, valueSize);
    if IsLarge(chunkSize, keySize, valueSize) {
      Append(data, next, Bytes24(splitOffset), was, at, written);
      next := next + SPLIT_OFFSET_SIZE;
      if splitOffset + splitSize > valueSize {
        splitSize := valueSize - splitOffset;
      }
    }
    assert written == written + [];
    written := written + SplitField(o, chunkSize);
    TakenFrom(was, next, splitSize);
    AppendOrSkip(data, next, if value.Some? then Some(value.value[..splitSize]) else None, splitSize, was, at, written);
  }

  /** Reads an object's header: where its key and stored value are, and its sizes. */
  method Deserialize(data: array<octet>, at: nat, chunkSize: nat)
    returns (keyAt: nat, keySize: nat, valueAt: nat, valueSize: nat, splitOffset: nat)
    requires at + KEY_VALUE_METADATA_SIZE <= data.Length
    requires IsLarge(chunkSize, data[at], Number24(data[..], at + 1)) ==>
               at + KEY_VALUE_METADATA_SIZE + data[at] + SPLIT_OFFSET_SIZE <= data.Length
    ensures keyAt == at + KEY_VALUE_METADATA_SIZE && keySize == data[at] && valueSize == Number24(data[..], at + 1)
    ensures if IsLarge(chunkSize, keySize, valueSize)
            then splitOffset == Number24(data[..], keyAt + keySize) && valueAt == keyAt + keySize + SPLIT_OFFSET_SIZE
            else splitOffset == 0 && valueAt == keyAt + keySize
  {
    keySize := data[at];
    valueSize := Number24(data[at + 1..at + 4], 0);
    keyAt := at + KEY_VALUE_METADATA_SIZE;
    var next := keyAt + keySize;
    splitOffset := 0;
    if IsLarge(chunkSize, keySize, valueSize) {
      splitOffset := Number24(data[next..next + 3], 0);
      next := next + SPLIT_OFFSET_SIZE;
    }
    valueAt := next;
  }

  lemma SubSlice(data: seq<octet>, at: nat, b: seq<octet>, i: nat, j: nat)
    requires at + |b| <= |data| && data[at..at + |b|] == b && i <= j <= |b|
    ensures data[at + i..at + j] == b[i..j]
  {
    forall x | 0 <= x < j - i ensures data[at + i..at + j][x] == b[i..j][x] {
      assert data[at..at + |b|][i + x] == b[i + x];
    }
  }

  lemma ImageFields(o: Object, chunkSize: nat)
    ensures var b := Image(o, chunkSize);
            var partAt := KEY_VALUE_METADATA_SIZE + |o.key| + |SplitField(o, chunkSize)|;
            && b[0] == Low(|o.key|) && b[1..4] == Bytes24(o.valueSize) && b[4..4 + |o.key|] == o.key
            && b[4 + |o.key|..partAt] == SplitField(o, chunkSize) && b[partAt..] == o.part
  {
  }

  /** Reading an object back gives its key, sizes, split offset and stored value. */
  lemma ImageInverts(data: seq<octet>, at: nat, o: Object, chunkSize: nat)
    requires Storable(o, chunkSize) && Holds(data, at, o, chunkSize)
    ensures data[at] == |o.key| && Number24(data, at + 1) == o.valueSize
    ensures data[at + 4..at + 4 + |o.key|] == o.key
    ensures IsLarge(chunkSize, |o.key|, o.valueSize) ==> Number24(data, at + 4 + |o.key|) == o.splitOffset
    ensures var valueAt := at + 4 + |o.key| + |SplitField(o, chunkSize)|; data[valueAt..valueAt + |o.part|] == o.part
  {
    hide Image, StoredLength, Number24, Bytes24;
    var b := Image(o, chunkSize);
    var keyEnd := 4 + |o.key|;
    var partAt := keyEnd + |SplitField(o, chunkSize)|;
    ImageFields(o, chunkSize);
    assert data[at..at + |b|][0] == data[at];
    SubSlice(data, at, b, 1, 4);
    SubSlice(data, at, b, 4, keyEnd);
    SubSlice(data, at, b, keyEnd, partAt);
    SubSlice(data, at, b, partAt, |b|);
    Number24Inverts(o.valueSize, data, at + 1);
    if IsLarge(chunkSize, |o.key|, o.valueSize) {
      Number24Inverts(o.splitOffset, data, at + keyEnd);
    }
  }
}
