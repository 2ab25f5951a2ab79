/** The bucket arithmetic of the cuckoo hash table. */
module CuckooIndex {
  type uint32 = x: int | 0 <= x < 0x1_0000_0000

  const TAG_MULTIPLIER: nat := 0x5bd1e995

  function Pow2(n: nat): (r: nat)
    ensures r > 0
  {
    if n == 0 then 1 else 2 * Pow2(n - 1)
  }

  lemma Pow2Width()
    ensures Pow2(8) == 0x100 && Pow2(32) == 0x1_0000_0000
  {
    assert Pow2(8) == 0x100;
    assert Pow2(16) == 0x1_0000;
    assert Pow2(24) == 0x100_0000;
  }

  /** h >> n. */
  function ShiftRight(h: nat, n: nat): nat {
    if n == 0 then h else ShiftRight(h / 2, n - 1)
  }

  /** The exclusive or of the low n bits of x and y, that is (x ^ y) & (2^n - 1). */
  function XorMasked(x: nat, y: nat, n: nat): nat {
    if n == 0 then 0 else (if x % 2 == y % 2 then 0 else 1) + 2 * XorMasked(x / 2, y / 2, n - 1)
  }

  /** A one-byte summary of the hash value, never zero. */
  function TagHash(hashValue: uint32): (tag: nat) {
    var r := hashValue % 0x100;
    if r == 0 then 1 else r
  }

  function IndexHash(hashValue: uint32, power: nat): nat
    requires power <= 32
  {
    ShiftRight(hashValue, 32 - power)
  }

  /** The other candidate bucket; the product wraps around at 32 bits. */
  function AltIndex(index: nat, tag: nat, power: nat): nat {
    XorMasked(index, (tag * TAG_MULTIPLIER) % 0x1_0000_0000, power)
  }

  lemma {:induction false} ShiftRightBound(h: nat, n: nat, m: nat)
    requires h < Pow2(n + m)
    ensures ShiftRight(h, n) < Pow2(m)
  {
    if n > 0 {
      ShiftRightBound(h / 2, n - 1, m);
    }
  }

  /** Shifting is dividing by a power of two. */
  lemma {:induction false} ShiftRightIsQuotient(h: nat, n: nat)
    ensures ShiftRight(h, n) * Pow2(n) <= h < (ShiftRight(h, n) + 1) * Pow2(n)
  {
    if n > 0 {
      ShiftRightIsQuotient(h / 2, n - 1);
      hide Pow2, ShiftRight;
      DoubleProducts(ShiftRight(h / 2, n - 1), n);
    }
  }

  lemma DoubleProducts(q: nat, n: nat)
    requires n > 0
    ensures q * Pow2(n) == 2 * (q * Pow2(n - 1)) && (q + 1) * Pow2(n) == 2 * ((q + 1) * Pow2(n - 1))
  {
    var half := Pow2(n - 1);
    assert q * (2 * half) == 2 * (q * half) && (q + 1) * (2 * half) == 2 * ((q + 1) * half);
  }

  /** The first bucket of a key is given by the top bits of its hash value. */
  lemma IndexHashIsTop(h: uint32, power: nat)
    requires power <= 32
    ensures IndexHash(h, power) * Pow2(32 - power) <= h < (IndexHash(h, power) + 1) * Pow2(32 - power)
  {
    ShiftRightIsQuotient(h, 32 - power);
  }

  /** The tag is the low byte of the hash value, with 1 in place of 0. */
  lemma TagHashIs(h: uint32)
    ensures 1 <= TagHash(h) <= 0xff && TagHash(h) == if h % 0x100 == 0 then 1 else h % 0x100
  {
  }

  /** Bit i of a number. */
  predicate BitOf(x: nat, i: nat) {
    ShiftRight(x, i) % 2 == 1
  }

  lemma {:induction false} XorMaskedBit(x: nat, y: nat, n: nat, i: nat)
    ensures BitOf(XorMasked(x, y, n), i) <==> i < n && BitOf(x, i) != BitOf(y, i)
  {
    if n == 0 {
      ShiftZero(i);
    } else if i > 0 {
      assert XorMasked(x, y, n) / 2 == XorMasked(x / 2, y / 2, n - 1);
      XorMaskedBit(x / 2, y / 2, n - 1, i - 1);
    }
  }

  lemma {:induction false} ShiftZero(i: nat)
    ensures ShiftRight(0, i) == 0
  {
    if i > 0 {
      ShiftZero(i - 1);
    }
  }

  /** Below the table size, the other bucket has the bits of the index inverted where the 32-bit product has a one. */
  lemma AltIndexBit(index: nat, tag: nat, power: nat, i: nat)
    ensures BitOf(AltIndex(index, tag, power), i)
            <==> i < power && BitOf(index, i) != BitOf((tag * 0x5bd1e995) % 0x1_0000_0000, i)
  {
    XorMaskedBit(index, (tag * TAG_MULTIPLIER) % 0x1_0000_0000, power, i);
  }

  lemma {:induction false} XorMaskedBound(x: nat, y: nat, n: nat)
    ensures XorMasked(x, y, n) < Pow2(n)
  {
    if n > 0 {
      XorMaskedBound(x / 2, y / 2, n - 1);
    }
  }

  lemma {:induction false} XorMaskedTwice(x: nat, y: nat, n: nat)
    requires x < Pow2(n)
    ensures XorMasked(XorMasked(x, y, n), y, n) == x
  {
    if n > 0 {
      var once := XorMasked(x, y, n);
      assert once / 2 == XorMasked(x / 2, y / 2, n - 1);
      XorMaskedTwice(x / 2, y / 2, n - 1);
    }
  }

  /** Both candidate buckets of a hash value exist. */
  lemma CandidatesInRange(hashValue: uint32, index: nat, tag: nat, power: nat)
    requires power <= 32
    ensures IndexHash(hashValue, power) < Pow2(power)
    ensures AltIndex(index, tag, power) < Pow2(power)
  {
    Pow2Width();
    ShiftRightBound(hashValue, 32 - power, power);
    XorMaskedBound(index, (tag * TAG_MULTIPLIER) % 0x1_0000_0000, power);
  }

  /** From either candidate bucket, the tag leads to the other one. */
  lemma AltIndexTwice(index: nat, tag: nat, power: nat)
    requires index < Pow2(power)
    ensures AltIndex(AltIndex(index, tag, power), tag, power) == index
  {
    XorMaskedTwice(index, (tag * TAG_MULTIPLIER) % 0x1_0000_0000, power);
  }

  /** x and y agree in their low n bits. */
  predicate SameLowBits(x: nat, y: nat, n: nat) {
    n == 0 || (x % 2 == y % 2 && SameLowBits(x / 2, y / 2, n - 1))
  }

  lemma {:induction false} XorSameIff(x: nat, y: nat, z: nat, n: nat)
    ensures XorMasked(x, y, n) == XorMasked(x, z, n) <==> SameLowBits(y, z, n)
  {
    if n > 0 {
      XorSameIff(x / 2, y / 2, z / 2, n - 1);
    }
  }

  lemma {:induction false} SmallSameLowBits(x: nat, y: nat, n: nat)
    requires x < Pow2(n) && y < Pow2(n)
    ensures SameLowBits(x, y, n) <==> x == y
  {
    if n > 0 {
      SmallSameLowBits(x / 2, y / 2, n - 1);
    }
  }

  lemma DoubledProduct(u: nat, m: nat)
    ensures (2 * u) * m == 2 * (u * m) && (2 * u + 1) * m == 2 * (u * m) + m
  {
  }

  function Scaled(t: nat, c: nat, e: nat): nat {
    t * c + e
  }

  /** What is left to add once the lowest bit of t * c + e is taken off. */
  function Carry(t: nat, c: nat, e: nat): nat {
    ((if t % 2 == 1 then c else 0) + e) / 2
  }

  lemma ScaledHalf(t: nat, c: nat, e: nat)
    requires c % 2 == 1
    ensures Scaled(t, c, e) % 2 == (if e % 2 == 0 then t % 2 else 1 - t % 2)
    ensures Scaled(t, c, e) / 2 == Scaled(t / 2, c, Carry(t, c, e))
  {
    var u := t / 2;
    DoubledProduct(u, c);
    var product, half := t * c, u * c;
    if t % 2 == 0 {
      assert t == 2 * u;
      assert product == 2 * half;
    } else {
      assert t == 2 * u + 1;
      assert product == 2 * half + c;
    }
  }

  /** Multiplying by an odd constant, cut off at m bits, is injective on the low bits. */
  lemma {:induction false} ScaledSameIff(t: nat, u: nat, c: nat, e: nat, m: nat, n: nat)
    requires n <= m && c % 2 == 1
    ensures SameLowBits(Scaled(t, c, e) % Pow2(m), Scaled(u, c, e) % Pow2(m), n) <==> SameLowBits(t, u, n)
  {
    hide Scaled;
    hide Pow2;
    if n > 0 {
      ScaledHalf(t, c, e);
      ScaledHalf(u, c, e);
      ModHalf(Scaled(t, c, e), m);
      ModHalf(Scaled(u, c, e), m);
      if t % 2 == u % 2 {
        ScaledSameIff(t / 2, u / 2, c, Carry(t, c, e), m - 1, n - 1);
      }
    }
  }

  lemma ModHalf(x: nat, m: nat)
    requires m > 0
    ensures x % Pow2(m) % 2 == x % 2 && x % Pow2(m) / 2 == x / 2 % Pow2(m - 1)
  {
    var b := Pow2(m - 1);
    var q, r := x / 2 / b, x / 2 % b;
    assert x == 2 * (q * b + r) + x % 2;
    assert x == q * (2 * b) + (2 * r + x % 2);
    DivModUnique(x, 2 * b, q, 2 * r + x % 2);
  }

  lemma DivModUnique(x: nat, b: nat, q: nat, r: nat)
    requires r < b && x == q * b + r
    ensures x % b == r
  {
    var q' := x / b;
    var d := q - q';
    assert d * b == x % b - r by {
      assert x == q' * b + x % b;
      assert (q - q') * b == q * b - q' * b;
    }
    if d > 0 {
      ProductAtLeast(d, b);
    } else if d < 0 {
      ProductAtLeast(-d, b);
    }
  }

  lemma ProductAtLeast(d: int, b: nat)
    requires d > 0
    ensures d * b >= b
  {
  }

  /** Two tags lead from a bucket to the same alternative exactly when they agree modulo the table size. */
  lemma AltIndexSameIff(index: nat, tag: nat, tag': nat, power: nat)
    requires power <= 32
    ensures AltIndex(index, tag, power) == AltIndex(index, tag', power) <==> SameLowBits(tag, tag', power)
  {
    Pow2Width();
    ScaledSameIff(tag, tag', TAG_MULTIPLIER, 0, 32, power);
    XorSameIff(index, (tag * TAG_MULTIPLIER) % 0x1_0000_0000, (tag' * TAG_MULTIPLIER) % 0x1_0000_0000, power);
  }

  lemma {:induction false} XorZero(x: nat, n: nat)
    requires x < Pow2(n)
    ensures XorMasked(x, 0, n) == x
  {
    if n > 0 {
      XorZero(x / 2, n - 1);
    }
  }

  lemma {:induction false} Pow2Monotone(m: nat, n: nat)
    requires m <= n
    ensures Pow2(m) <= Pow2(n)
  {
    if m < n {
      Pow2Monotone(m, n - 1);
    }
  }

  /** With at least 256 buckets, tags of hash values are told apart by the alternatives they lead to. */
  lemma TagsToldApart(index: nat, h: uint32, h': uint32, power: nat)
    requires 8 <= power <= 32
    ensures AltIndex(index, TagHash(h), power) == AltIndex(index, TagHash(h'), power) <==> TagHash(h) == TagHash(h')
  {
    Pow2Width();
    Pow2Monotone(8, power);
    AltIndexSameIff(index, TagHash(h), TagHash(h'), power);
    SmallSameLowBits(TagHash(h), TagHash(h'), power);
  }

  /** And every key has two different candidate buckets: this is why a zero tag becomes 1. */
  lemma CandidatesDiffer(index: nat, h: uint32, power: nat)
    requires 8 <= power <= 32 && index < Pow2(power)
    ensures AltIndex(index, TagHash(h), power) != index
  {
    Pow2Width();
    Pow2Monotone(8, power);
    hide Pow2, SameLowBits, XorMasked;
    AltIndexSameIff(index, TagHash(h), 0, power);
    SmallSameLowBits(TagHash(h), 0, power);
    XorZero(index, power);
  }

  /** The bucket is one of the two that a key with this hash value may be in. */
  ghost predicate IsCandidate(bucket: nat, h: uint32, power: nat)
    requires power <= 32
  {
    bucket == IndexHash(h, power) || bucket == AltIndex(IndexHash(h, power), TagHash(h), power)
  }

  lemma HasCandidate(h: uint32, power: nat)
    requires power <= 32
    ensures IsCandidate(IndexHash(h, power), h, power)
  {
  }

  /** From either candidate bucket a tag leads to the other one exactly when it is the tag of the hash value. */
  lemma OtherCandidateIff(bucket: nat, h: uint32, kick: uint32, power: nat)
    requires 8 <= power <= 32 && IsCandidate(bucket, h, power)
    ensures IsCandidate(AltIndex(bucket, TagHash(kick), power), h, power) <==> TagHash(kick) == TagHash(h)
  {
    CandidatesInRange(h, IndexHash(h, power), TagHash(h), power);
    AltIndexTwice(IndexHash(h, power), TagHash(h), power);
    CandidatesDiffer(bucket, kick, power);
    TagsToldApart(bucket, h, kick, power);
  }
}
