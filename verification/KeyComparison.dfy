/** How the cuckoo table compares a stored key with the one it looks for, and which keys it takes for one another. */
module KeyComparison {
  import opened LargeObjects
  import opened KeyValues
  import opened CuckooKeys

  /** strncmp of two buffers, with their length as its bound, is zero: it stops behind a common zero byte. */
  predicate SameString(a: seq<octet>, b: seq<octet>)
    requires |a| == |b|
  {
    a == [] || (a[0] == b[0] && (a[0] == 0 || SameString(a[1..], b[1..])))
  }

  /** Key::equal. */
  predicate KeysEqual(a: Key, b: Key) {
    && |a.bytes| == |b.bytes| && a.SplitKey? == b.SplitKey?
    && SameString(WholeKey(a), WholeKey(b))
  }

  /** The test of find and tryDel: memcmp with a fixed key size, otherwise Key::equal on the key read from memory. */
  predicate IsKey(c: Content, key: Key, chunkSize: nat) {
    match c
    case Plain(bytes) => bytes == key.bytes
    case Stored(_) => KeysEqual(KeyAt(c, chunkSize), key)
  }

  ghost predicate AgreeThroughZero(a: seq<octet>, b: seq<octet>) {
    exists i :: 0 <= i < |a| && i < |b| && a[i] == 0 && a[..i + 1] == b[..i + 1]
  }

  lemma AgreeFromSecond(a: seq<octet>, b: seq<octet>)
    requires a != [] && b != [] && a[0] == b[0]
    ensures AgreeThroughZero(a, b) <==> a[0] == 0 || AgreeThroughZero(a[1..], b[1..])
  {
    if a[0] == 0 {
      assert a[..0 + 1] == b[..0 + 1];
    }
    if AgreeThroughZero(a, b) && a[0] != 0 {
      var i :| 0 <= i < |a| && i < |b| && a[i] == 0 && a[..i + 1] == b[..i + 1];
      assert a[1..][..i - 1 + 1] == a[..i + 1][1..] && b[1..][..i - 1 + 1] == b[..i + 1][1..];
      assert a[1..][i - 1] == 0;
    }
    if AgreeThroughZero(a[1..], b[1..]) {
      var i :| 0 <= i < |a[1..]| && i < |b[1..]| && a[1..][i] == 0 && a[1..][..i + 1] == b[1..][..i + 1];
      assert a[..i + 1 + 1] == [a[0]] + a[1..][..i + 1] && b[..i + 1 + 1] == [b[0]] + b[1..][..i + 1];
      assert a[i + 1] == 0;
    }
  }

  lemma {:induction false} SameStringIff(a: seq<octet>, b: seq<octet>)
    requires |a| == |b|
    ensures SameString(a, b) <==> a == b || AgreeThroughZero(a, b)
  {
    hide AgreeThroughZero;
    if a != [] && a[0] == b[0] {
      AgreeFromSecond(a, b);
      SameStringIff(a[1..], b[1..]);
      assert a == [a[0]] + a[1..] && b == [b[0]] + b[1..];
    } else if AgreeThroughZero(a, b) {
      DifferentFirst(a, b);
    }
  }

  lemma DifferentFirst(a: seq<octet>, b: seq<octet>)
    requires AgreeThroughZero(a, b)
    ensures a != [] && b != [] && a[0] == b[0]
  {
    var i :| 0 <= i < |a| && i < |b| && a[i] == 0 && a[..i + 1] == b[..i + 1];
    assert a[..i + 1][0] == a[0] && b[..i + 1][0] == b[0];
  }

  lemma SameWhole(a: Key, b: Key)
    requires |a.bytes| == |b.bytes| && a.SplitKey? == b.SplitKey?
    ensures |WholeKey(a)| == |WholeKey(b)| && (WholeKey(a) == WholeKey(b) <==> a == b)
  {
    if a.SplitKey? {
      assert WholeKey(a)[..|a.bytes|] == a.bytes && WholeKey(b)[..|b.bytes|] == b.bytes;
      assert WholeKey(a)[|a.bytes|..] == a.splitOffset && WholeKey(b)[|b.bytes|..] == b.splitOffset;
    }
  }

  /** Keys of one size and kind are taken for the same exactly when they are, or agree through a common zero byte. */
  lemma KeysEqualIff(a: Key, b: Key)
    ensures KeysEqual(a, b)
            <==> a == b || (|a.bytes| == |b.bytes| && a.SplitKey? == b.SplitKey?
                            && AgreeThroughZero(WholeKey(a), WholeKey(b)))
  {
    if |a.bytes| == |b.bytes| && a.SplitKey? == b.SplitKey? {
      SameWhole(a, b);
      SameStringIff(WholeKey(a), WholeKey(b));
    }
  }

  /** An object answers to its own key. */
  lemma AnswersToOwnKey(c: Content, chunkSize: nat)
    ensures IsKey(c, KeyAt(c, chunkSize), chunkSize)
  {
    hide WholeKey, SameString;
    KeysEqualIff(KeyAt(c, chunkSize), KeyAt(c, chunkSize));
  }

  /** With a fixed key size nothing is mistaken. */
  lemma PlainKey(c: Content, key: Key, chunkSize: nat)
    requires c.Plain? && key.SmallKey?
    ensures IsKey(c, key, chunkSize) <==> KeyAt(c, chunkSize) == key
  {
  }

  /** A key in which no byte is zero, the split offset included, is told apart from every other. */
  lemma ToldApartWithoutZero(c: Content, key: Key, chunkSize: nat)
    requires 0 !in WholeKey(key) && c.Stored?
    ensures IsKey(c, key, chunkSize) <==> KeyAt(c, chunkSize) == key
  {
    var own := KeyAt(c, chunkSize);
    KeysEqualIff(own, key);
    forall i | 0 <= i < |WholeKey(own)| && i < |WholeKey(key)| && WholeKey(own)[i] == 0
      ensures WholeKey(own)[..i + 1] != WholeKey(key)[..i + 1]
    {
      assert WholeKey(own)[..i + 1][i] == 0 && WholeKey(key)[..i + 1][i] in WholeKey(key);
    }
  }

  lemma {:induction false} SameStringBehind(k: seq<octet>, a: seq<octet>, b: seq<octet>)
    requires |a| == |b|
    ensures SameString(k + a, k + b) <==> 0 in k || SameString(a, b)
  {
    if k == [] {
      assert k + a == a && k + b == b;
    } else {
      assert (k + a)[1..] == k[1..] + a && (k + b)[1..] == k[1..] + b;
      SameStringBehind(k[1..], a, b);
      assert k == [k[0]] + k[1..];
    }
  }

  lemma SameThree(a: seq<octet>, b: seq<octet>)
    requires |a| == |b| == 3
    ensures SameString(a, b)
            <==> a[0] == b[0] && (a[0] == 0 || (a[1] == b[1] && (a[1] == 0 || a[2] == b[2])))
  {
    assert a[1..][1..] == [a[2]] && b[1..][1..] == [b[2]];
    assert SameString([a[2]], [b[2]]) <==> a[2] == b[2];
    assert SameString(a[1..], b[1..]) <==> a[1] == b[1] && (a[1] == 0 || a[2] == b[2]);
  }

  lemma ThreeBytesOf(s: nat)
    requires s < 0x100_0000
    ensures var hi: nat, mid: nat, low: nat := Bytes24(s)[0], Bytes24(s)[1], Bytes24(s)[2];
            && hi == s / 0x1_0000 && mid == s / 0x100 % 0x100
            && s / 0x100 == hi * 0x100 + mid && s == hi * 0x1_0000 + mid * 0x100 + low
  {
    ThreeBytes(s);
    assert s / 0x1_0000 == s / 0x100 / 0x100;
    assert s / 0x100 == s / 0x1_0000 * 0x100 + Low(s / 0x100);
  }

  lemma SameThreeBytes(s: nat, t: nat)
    requires s < 0x100_0000 && t < 0x100_0000
    ensures SameString(Bytes24(s), Bytes24(t))
            <==> s == t || (s < 0x1_0000 && t < 0x1_0000) || (s / 0x100 == t / 0x100 && s / 0x100 % 0x100 == 0)
    ensures Bytes24(s) == Bytes24(t) <==> s == t
  {
    hide Bytes24, SameString;
    ThreeBytesOf(s);
    ThreeBytesOf(t);
    SameThree(Bytes24(s), Bytes24(t));
  }

  /**
   * Two splits of one large object are taken for the same exactly when the key holds a zero byte, or both offsets
   * are below 2^16, or they differ in the last byte only and the byte before is zero.
   */
  lemma SplitsMistakenIff(o: Object, other: Object, chunkSize: nat)
    requires o.key == other.key && o.valueSize == other.valueSize && IsLarge(chunkSize, |o.key|, o.valueSize)
    requires o.splitOffset < 0x100_0000 && other.splitOffset < 0x100_0000 && o.splitOffset != other.splitOffset
    ensures KeyAt(Stored(o), chunkSize) != KeyAt(Stored(other), chunkSize)
    ensures IsKey(Stored(o), KeyAt(Stored(other), chunkSize), chunkSize)
            <==> || 0 in o.key
                 || (o.splitOffset < 0x1_0000 && other.splitOffset < 0x1_0000)
                 || (o.splitOffset / 0x100 == other.splitOffset / 0x100 && o.splitOffset / 0x100 % 0x100 == 0)
  {
    hide Bytes24, SameString;
    SameThreeBytes(o.splitOffset, other.splitOffset);
    SameStringBehind(o.key, Bytes24(o.splitOffset), Bytes24(other.splitOffset));
  }
}
