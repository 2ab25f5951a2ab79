/** Packed bit matrix: `count` entries of `size` bits each, stored back to back in 64-bit words. */
module Bitmasks {

  /** A uint64_t as its 64 bits, least significant first; `w[n := true]` is w | (1l << n). */
  type Word = w: seq<bool> | |w| == 64 witness seq(64, _ => false)

  const ZERO: Word := seq(64, _ => false)

  /** Position entry * size + bit of a bit in the packed words (summed up row by row). */
  ghost function At(entry: nat, bit: nat, size: nat): nat {
    if entry == 0 then bit else size + At(entry - 1, bit, size)
  }

  lemma {:induction false} AtIsIndex(entry: nat, bit: nat, size: nat)
    ensures At(entry, bit, size) == entry * size + bit
  {
    if entry > 0 {
      AtIsIndex(entry - 1, bit, size);
      assert entry * size == (entry - 1) * size + size;
    }
  }

  lemma {:induction false} AtOrder(e: nat, b: nat, e': nat, b': nat, size: nat)
    requires e < e' && b < size
    ensures At(e, b, size) < At(e', b', size)
    ensures At(e, size, size) <= At(e', 0, size)
    decreases e'
  {
    if e > 0 {
      AtOrder(e - 1, b, e' - 1, b', size);
    }
  }

  lemma {:induction false} AtOffset(entry: nat, bit: nat, size: nat)
    ensures At(entry, bit, size) == At(entry, 0, size) + bit
  {
    if entry > 0 {
      AtOffset(entry - 1, bit, size);
    }
  }

  lemma AtInjective(e: nat, b: nat, e': nat, b': nat, size: nat)
    requires b < size && b' < size
    ensures At(e, b, size) == At(e', b', size) <==> e == e' && b == b'
  {
    if e < e' {
      AtOrder(e, b, e', b', size);
    } else if e' < e {
      AtOrder(e', b', e, b, size);
    } else {
      AtOffset(e, b, size);
      AtOffset(e, b', size);
    }
  }

  lemma AtInRange(entry: nat, bit: nat, size: nat, count: nat)
    requires entry < count && bit < size
    ensures At(entry, bit, size) < At(count, 0, size)
  {
    AtOrder(entry, bit, count, 0, size);
  }

  /** Bit `i` of a packed word sequence. */
  ghost predicate Lit(words: seq<Word>, i: nat) {
    i / 64 < |words| && words[i / 64][i % 64]
  }

  /** Writing one bit of the packed words writes one entry of the matrix. */
  lemma PutEntry(words: seq<Word>, now: seq<Word>, entry: nat, bit: nat, size: nat, v: bool)
    requires bit < size && At(entry, bit, size) / 64 < |words|
    requires var index := At(entry, bit, size);
             now == words[index / 64 := words[index / 64][index % 64 := v]]
    ensures forall e: nat, b: nat :: b < size ==>
              (Lit(now, At(e, b, size)) <==> if e == entry && b == bit then v else Lit(words, At(e, b, size)))
  {
    var index := At(entry, bit, size);
    forall e: nat, b: nat | b < size
      ensures Lit(now, At(e, b, size)) <==> if e == entry && b == bit then v else Lit(words, At(e, b, size))
    {
      AtInjective(entry, bit, e, b, size);
    }
  }

  /** Zeroing an aligned word turns off its 64 bits only. */
  lemma ZeroWord(words: seq<Word>, now: seq<Word>, index: nat)
    requires index % 64 == 0 && index / 64 < |words| && now == words[index / 64 := ZERO]
    ensures forall i: nat :: Lit(now, i) <==> Lit(words, i) && !(index <= i < index + 64)
  {
  }

  lemma ZeroBit(words: seq<Word>, now: seq<Word>, index: nat)
    requires index / 64 < |words| && now == words[index / 64 := words[index / 64][index % 64 := false]]
    ensures forall i: nat :: Lit(now, i) <==> Lit(words, i) && i != index
  {
  }

  /** Clearing the range of one entry clears that entry. */
  lemma ClearedEntry(words: seq<Word>, now: seq<Word>, entry: nat, size: nat, e: nat, b: nat)
    requires b < size
    requires forall i: nat :: Lit(now, i) <==> Lit(words, i) && !(At(entry, 0, size) <= i < At(entry, 0, size) + size)
    ensures Lit(now, At(e, b, size)) <==> e != entry && Lit(words, At(e, b, size))
  {
    if e < entry {
      AtOrder(e, b, entry, 0, size);
    } else if entry < e {
      AtOrder(entry, size - 1, e, b, size);
      AtOffset(entry, size - 1, size);
    } else {
      AtOffset(e, b, size);
    }
  }

  class BitmaskArray {
    const size: nat
    const count: nat
    const total: nat
    const bitmasks: array<Word>

    ghost predicate Valid()
      reads this
    {
      bitmasks.Length == total && At(count, 0, size) <= 64 * total
    }

    ghost predicate IsSet(entry: nat, bit: nat)
      reads this, bitmasks
    {
      Lit(bitmasks[..], At(entry, bit, size))
    }

    constructor (size: nat, count: nat)
      ensures Valid() && fresh(bitmasks) && this.size == size && this.count == count
      ensures forall e: nat, b: nat :: !IsSet(e, b)
    {
      this.size := size;
      this.count := count;
      var bits := size * count;
      var words := if bits % 64 != 0 then bits / 64 + 1 else bits / 64;
      total := words;
      AtIsIndex(count, 0, size);
      assert size * count == count * size;
      bitmasks := new Word[words](_ => ZERO);
    }

    method Set(entry: nat, bit: nat)
      requires Valid() && entry < count && bit < size
      modifies bitmasks
      ensures forall e: nat, b: nat :: b < size ==> (IsSet(e, b) <==> (e == entry && b == bit) || old(IsSet(e, b)))
    {
      AtInRange(entry, bit, size, count);
      AtIsIndex(entry, bit, size);
      var index := entry * size + bit;
      ghost var was := bitmasks[..];
      bitmasks[index / 64] := bitmasks[index / 64][index % 64 := true];
      PutEntry(was, bitmasks[..], entry, bit, size, true);
    }

    method Unset(entry: nat, bit: nat)
      requires Valid() && entry < count && bit < size
      modifies bitmasks
      ensures forall e: nat, b: nat :: b < size ==> (IsSet(e, b) <==> !(e == entry && b == bit) && old(IsSet(e, b)))
    {
      AtInRange(entry, bit, size, count);
      AtIsIndex(entry, bit, size);
      var index := entry * size + bit;
      ghost var was := bitmasks[..];
      bitmasks[index / 64] := bitmasks[index / 64][index % 64 := false];
      PutEntry(was, bitmasks[..], entry, bit, size, false);
    }

    method Check(entry: nat, bit: nat) returns (r: bool)
      requires Valid() && entry < count && bit < size
      ensures r <==> IsSet(entry, bit)
    {
      AtInRange(entry, bit, size, count);
      AtIsIndex(entry, bit, size);
      var index := entry * size + bit;
      r := bitmasks[index / 64][index % 64];
    }

    method CheckAllSet(entry: nat) returns (ret: bool)
      requires Valid() && entry < count
      ensures ret <==> forall b: nat :: b < size ==> IsSet(entry, b)
    {
      ret := true;
      var i := 0;
      while i < size
        invariant 0 <= i <= size
        invariant forall b: nat :: b < i ==> IsSet(entry, b)
      {
        ret := Check(entry, i);
        if !ret {
          return;
        }
        i := i + 1;
      }
      ret := true;
    }

    /** Resets one entry; whole words inside it are cleared at once. */
    method Clear(entry: nat)
      requires Valid() && entry < count
      modifies bitmasks
      ensures forall e: nat, b: nat :: b < size ==> (IsSet(e, b) <==> e != entry && old(IsSet(e, b)))
    {
      ghost var was := bitmasks[..];
      var base := entry * size;
      AtIsIndex(entry, 0, size);
      var bit := 0;
      if size > 0 {
        AtInRange(entry, size - 1, size, count);
        AtOffset(entry, size - 1, size);
      }
      while bit < size
        invariant 0 <= bit <= size && |was| == total
        invariant forall i: nat :: Lit(bitmasks[..], i) <==> Lit(was, i) && !(base <= i < base + bit)
      {
        var index := base + bit;
        ghost var now := bitmasks[..];
        if index % 64 == 0 && bit + 64 <= size {
          bitmasks[index / 64] := ZERO;
          ZeroWord(now, bitmasks[..], index);
          bit := bit + 63;
        } else {
          bitmasks[index / 64] := bitmasks[index / 64][index % 64 := false];
          ZeroBit(now, bitmasks[..], index);
        }
        bit := bit + 1;
      }
      forall e: nat, b: nat | b < size
        ensures IsSet(e, b) <==> e != entry && old(IsSet(e, b))
      {
        ClearedEntry(was, bitmasks[..], entry, size, e, b);
      }
    }
  }
}
