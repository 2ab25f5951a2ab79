/** What the cuckoo table hashes: the key it is given on insertion, and memory around a stored key on displacement. */
module CuckooKeys {
  import opened LargeObjects
  import opened KeyValues
  import opened CuckooIndex

  /** The offset of a split as it stands behind a key. */
  type OffsetBytes = b: seq<octet> | |b| == SPLIT_OFFSET_SIZE witness [0, 0, 0]

  /** A key to look up; that of a large object is followed by the offset of a split. */
  datatype Key = SmallKey(bytes: seq<octet>) | SplitKey(bytes: seq<octet>, splitOffset: OffsetBytes)

  /** What stands at an address: with a fixed key size the bare key comes first, otherwise an object is laid out. */
  datatype Content = Plain(key: seq<octet>) | Stored(obj: Object)

  /** Everything that belongs to the key. */
  function WholeKey(key: Key): seq<octet> {
    if key.SplitKey? then key.bytes + key.splitOffset else key.bytes
  }

  predicate IsFirstSplit(key: Key) {
    key.SplitKey? && forall i :: 0 <= i < |key.splitOffset| ==> key.splitOffset[i] == 0
  }

  /** The bytes hashed by insert, find and del. */
  function HashedBytes(key: Key): seq<octet> {
    if IsFirstSplit(key) then key.bytes else WholeKey(key)
  }

  /** What is hashed: the key, behind it the split offset of a large object unless this is zero. */
  lemma HashedBytesAre(bytes: seq<octet>, splitOffset: OffsetBytes)
    ensures HashedBytes(SmallKey(bytes)) == bytes
    ensures HashedBytes(SplitKey(bytes, splitOffset))
            == if splitOffset == [0, 0, 0] then bytes else bytes + splitOffset
  {
    assert IsFirstSplit(SplitKey(bytes, splitOffset)) <==> splitOffset == [0, 0, 0];
  }

  predicate IsLargeObject(c: Content, chunkSize: nat) {
    c.Stored? && IsLarge(chunkSize, |c.obj.key|, c.obj.valueSize)
  }

  /** The key of what stands at an address. */
  function KeyAt(c: Content, chunkSize: nat): Key {
    match c
    case Plain(key) => SmallKey(key)
    case Stored(o) => if IsLarge(chunkSize, |o.key|, o.valueSize) then SplitKey(o.key, Bytes24(o.splitOffset))
                      else SmallKey(o.key)
  }

  /** The key of a stored object, as its header and the bytes behind its key have it. */
  lemma KeyInMemory(data: seq<octet>, at: nat, o: Object, chunkSize: nat)
    requires Storable(o, chunkSize) && Holds(data, at, o, chunkSize)
    ensures var key, keyAt := KeyAt(Stored(o), chunkSize), at + 4;
            && key.bytes == data[keyAt..keyAt + data[at]] && (key.SplitKey? <==> IsLargeObject(Stored(o), chunkSize))
            && (key.SplitKey? ==> key.splitOffset == data[keyAt + data[at]..keyAt + data[at] + 3])
    ensures forall bytes: seq<octet> :: KeyAt(Plain(bytes), chunkSize) == SmallKey(bytes)
  {
    hide Image, StoredLength, Number24, Bytes24, IsLarge;
    ImageInverts(data, at, o, chunkSize);
    ImageFields(o, chunkSize);
    SubSlice(data, at, Image(o, chunkSize), 4 + |o.key|, 4 + |o.key| + |SplitField(o, chunkSize)|);
  }

  /** The range hashed by cpSearch: for a large object it starts three bytes before the key. */
  function BeforeKey(data: seq<octet>, at: nat, keySize: nat, isLarge: bool): seq<octet>
    requires at + KEY_VALUE_METADATA_SIZE + keySize <= |data|
  {
    var keyAt := at + KEY_VALUE_METADATA_SIZE;
    data[keyAt - (if isLarge then SPLIT_OFFSET_SIZE else 0)..keyAt + keySize]
  }

  function KickedBytes(c: Content, chunkSize: nat): seq<octet> {
    match c
    case Plain(key) => key
    case Stored(o) => BeforeKey(Image(o, chunkSize), 0, |o.key|, IsLarge(chunkSize, |o.key|, o.valueSize))
  }

  /** In a chunk that holds the object, cpSearch hashes the same bytes. */
  lemma KickedInMemory(data: seq<octet>, at: nat, o: Object, chunkSize: nat)
    requires Holds(data, at, o, chunkSize)
    ensures BeforeKey(data, at, |o.key|, IsLarge(chunkSize, |o.key|, o.valueSize)) == KickedBytes(Stored(o), chunkSize)
  {
    hide Image, IsLarge;
    SubSlice(data, at, Image(o, chunkSize), if IsLarge(chunkSize, |o.key|, o.valueSize) then 1 else 4, 4 + |o.key|);
  }

  /** What these bytes are: the low bytes of the value size precede the key. */
  lemma KickedBytesAre(o: Object, chunkSize: nat)
    ensures KickedBytes(Stored(o), chunkSize)
            == (if IsLarge(chunkSize, |o.key|, o.valueSize) then Bytes24(o.valueSize) else []) + o.key
  {
    hide Image, Bytes24, IsLarge;
    ImageFields(o, chunkSize);
    var b := Image(o, chunkSize);
    assert b[1..4 + |o.key|] == b[1..4] + b[4..4 + |o.key|];
  }

  /** With a fixed key size, and for objects that are not large, displacement hashes what insertion hashed. */
  lemma SmallHashedAlike(c: Content, chunkSize: nat)
    requires !IsLargeObject(c, chunkSize)
    ensures KickedBytes(c, chunkSize) == HashedBytes(KeyAt(c, chunkSize))
  {
    if c.Stored? {
      KickedBytesAre(c.obj, chunkSize);
      assert [] + c.obj.key == c.obj.key;
    }
  }

  lemma FirstSplitIff(o: Object, chunkSize: nat)
    requires IsLarge(chunkSize, |o.key|, o.valueSize) && o.splitOffset < 0x100_0000
    ensures IsFirstSplit(KeyAt(Stored(o), chunkSize)) <==> o.splitOffset == 0
  {
    ThreeBytes(o.splitOffset);
    var field := Bytes24(o.splitOffset);
    assert field[0] == Low(o.splitOffset / 0x1_0000) && field[1] == Low(o.splitOffset / 0x100)
           && field[2] == Low(o.splitOffset);
  }

  /** The guard under which displacement hashes the bytes that insertion hashed. */
  ghost predicate HashedAlike(o: Object, chunkSize: nat) {
    || !IsLarge(chunkSize, |o.key|, o.valueSize)
    || (o.splitOffset != 0 && Bytes24(o.valueSize) + o.key == o.key + Bytes24(o.splitOffset))
  }

  /** Objects that are not large always meet it; the first split of a large object never does. */
  lemma HashedAlikeIff(o: Object, chunkSize: nat)
    requires o.splitOffset < 0x100_0000
    ensures KickedBytes(Stored(o), chunkSize) == HashedBytes(KeyAt(Stored(o), chunkSize)) <==> HashedAlike(o, chunkSize)
  {
    KickedBytesAre(o, chunkSize);
    hide KickedBytes, Bytes24;
    if IsLarge(chunkSize, |o.key|, o.valueSize) {
      FirstSplitIff(o, chunkSize);
    }
  }

  /** With this hash function, displacing the object from either candidate bucket of its key leads to the other. */
  ghost predicate StaysFindable(c: Content, chunkSize: nat, power: nat, hashFunc: seq<octet> -> uint32)
    requires power <= 32
  {
    var h, kick := hashFunc(HashedBytes(KeyAt(c, chunkSize))), hashFunc(KickedBytes(c, chunkSize));
    forall bucket: nat :: IsCandidate(bucket, h, power) ==>
      IsCandidate(AltIndex(bucket, TagHash(kick), power), h, power)
  }

  lemma StaysFindableIff(c: Content, chunkSize: nat, power: nat, hashFunc: seq<octet> -> uint32)
    requires 8 <= power <= 32
    ensures StaysFindable(c, chunkSize, power, hashFunc)
            <==> TagHash(hashFunc(KickedBytes(c, chunkSize))) == TagHash(hashFunc(HashedBytes(KeyAt(c, chunkSize))))
  {
    hide AltIndex, IndexHash, TagHash, IsCandidate, KickedBytes, HashedBytes, KeyAt;
    var h, kick := hashFunc(HashedBytes(KeyAt(c, chunkSize))), hashFunc(KickedBytes(c, chunkSize));
    forall bucket: nat | IsCandidate(bucket, h, power)
      ensures IsCandidate(AltIndex(bucket, TagHash(kick), power), h, power) <==> TagHash(kick) == TagHash(h)
    {
      OtherCandidateIff(bucket, h, kick, power);
    }
    HasCandidate(h, power);
    if TagHash(kick) == TagHash(h) {
      assert StaysFindable(c, chunkSize, power, hashFunc);
    } else {
      assert !IsCandidate(AltIndex(IndexHash(h, power), TagHash(kick), power), h, power);
    }
  }

  /**
   * An object stays findable under displacement whatever the hash function exactly when the two byte strings agree:
   * when it is not large, or in the rare case that the bytes before its key continue it like its split offset.
   */
  lemma DisplacementIsSafeIff(o: Object, chunkSize: nat, power: nat)
    requires 8 <= power <= 32 && o.splitOffset < 0x100_0000
    ensures (forall hashFunc: seq<octet> -> uint32 :: StaysFindable(Stored(o), chunkSize, power, hashFunc))
            <==> HashedAlike(o, chunkSize)
  {
    HashedAlikeIff(o, chunkSize);
    hide HashedAlike, StaysFindable, KickedBytes, HashedBytes, KeyAt;
    var inserted, kicked := HashedBytes(KeyAt(Stored(o), chunkSize)), KickedBytes(Stored(o), chunkSize);
    forall hashFunc: seq<octet> -> uint32
      ensures inserted == kicked ==> StaysFindable(Stored(o), chunkSize, power, hashFunc)
    {
      StaysFindableIff(Stored(o), chunkSize, power, hashFunc);
    }
    if inserted != kicked {
      var hashFunc: seq<octet> -> uint32 := b => if b == inserted then 1 else 2;
      StaysFindableIff(Stored(o), chunkSize, power, hashFunc);
      assert !StaysFindable(Stored(o), chunkSize, power, hashFunc);
    }
  }

  /** So the first split of every large object can be lost. */
  lemma DisplacedCanBeLost(o: Object, chunkSize: nat, power: nat) returns (hashFunc: seq<octet> -> uint32)
    requires 8 <= power <= 32 && IsLarge(chunkSize, |o.key|, o.valueSize) && o.splitOffset == 0
    ensures !StaysFindable(Stored(o), chunkSize, power, hashFunc)
  {
    hide StaysFindable;
    DisplacementIsSafeIff(o, chunkSize, power);
    hashFunc :| !StaysFindable(Stored(o), chunkSize, power, hashFunc);
  }
}
