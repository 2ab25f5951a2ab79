/** Chunk buffers: bytewise XOR of ranges, and the split of a chunk into symbols. */
module Buffers {

  type byte = bv8

  const NUL: byte := 0

  function Xor(x: byte, y: byte): byte {
    x ^ y
  }

  /** A byte with one bit set. */
  predicate IsBit(m: byte) {
    m == 1 || m == 2 || m == 4 || m == 8 || m == 16 || m == 32 || m == 64 || m == 128
  }

  /** Every bit of z is clear exactly when x and y have the same bit. */
  ghost predicate BitsDiffer(z: byte, x: byte, y: byte) {
    forall m: byte :: IsBit(m) ==> (z & m == 0 <==> x & m == y & m)
  }

  lemma XorBits(x: byte, y: byte)
    ensures forall m: byte :: IsBit(m) ==> (Xor(x, y) & m == 0 <==> x & m == y & m)
    ensures BitsDiffer(Xor(x, y), x, y)
  {
  }

  // ----- bitwiseXOR: a loop over 64-bit words, then over the remaining bytes -----

  /** Operand range is the destination range itself or does not overlap it. */
  predicate Compatible(dst: array<byte>, dOff: nat, src: array<byte>, sOff: nat, len: nat) {
    src != dst || sOff == dOff || sOff + len <= dOff || dOff + len <= sOff
  }

  /** One 64-bit step of the loop below: both words are read before the result is written. */
  method XorWord(dst: array<byte>, dOff: nat, a: array<byte>, aOff: nat, b: array<byte>, bOff: nat)
    requires dOff + 8 <= dst.Length && aOff + 8 <= a.Length && bOff + 8 <= b.Length
    modifies dst
    ensures forall j :: dOff <= j < dOff + 8 ==> dst[j] == Xor(old(a[j - dOff + aOff]), old(b[j - dOff + bOff]))
    ensures forall j :: 0 <= j < dst.Length && !(dOff <= j < dOff + 8) ==> dst[j] == old(dst[j])
  {
    hide Xor;
    var x, y := a[aOff..aOff + 8], b[bOff..bOff + 8];
    forall j | dOff <= j < dOff + 8 {
      dst[j] := Xor(x[j - dOff], y[j - dOff]);
    }
  }

  /** dst[dOff..][..len] := a[aOff..][..len] XOR b[bOff..][..len]. */
  method BitwiseXor(dst: array<byte>, dOff: nat, a: array<byte>, aOff: nat, b: array<byte>, bOff: nat, len: nat)
    requires dOff + len <= dst.Length && aOff + len <= a.Length && bOff + len <= b.Length
    requires Compatible(dst, dOff, a, aOff, len) && Compatible(dst, dOff, b, bOff, len)
    modifies dst
    ensures forall j :: dOff <= j < dOff + len ==> dst[j] == Xor(old(a[j - dOff + aOff]), old(b[j - dOff + bOff]))
    ensures forall j :: 0 <= j < dst.Length && !(dOff <= j < dOff + len) ==> dst[j] == old(dst[j])
    ensures forall j :: dOff <= j < dOff + len ==>
              BitsDiffer(dst[j], old(a[j - dOff + aOff]), old(b[j - dOff + bOff]))
  {
    hide Xor, BitsDiffer;
    var xor64Count := len / 8;
    var i := 0;
    while i < xor64Count
      invariant 0 <= i <= xor64Count
      invariant forall j :: dOff <= j < dOff + 8 * i ==> dst[j] == Xor(old(a[j - dOff + aOff]), old(b[j - dOff + bOff]))
      invariant forall j :: 0 <= j < dst.Length && !(dOff <= j < dOff + 8 * i) ==> dst[j] == old(dst[j])
    {
      XorWord(dst, dOff + 8 * i, a, aOff + 8 * i, b, bOff + 8 * i);
      i := i + 1;
    }
    i := xor64Count * 8;
    while i < len
      invariant 0 <= i <= len
      invariant forall j :: dOff <= j < dOff + i ==> dst[j] == Xor(old(a[j - dOff + aOff]), old(b[j - dOff + bOff]))
      invariant forall j :: 0 <= j < dst.Length && !(dOff <= j < dOff + i) ==> dst[j] == old(dst[j])
    {
      dst[dOff + i] := Xor(a[aOff + i], b[bOff + i]);
      i := i + 1;
    }
    forall j | dOff <= j < dOff + len
      ensures BitsDiffer(dst[j], old(a[j - dOff + aOff]), old(b[j - dOff + bOff]))
    {
      XorBits(old(a[j - dOff + aOff]), old(b[j - dOff + bOff]));
    }
  }

  // ----- symbols: a chunk is p - 1 consecutive blocks of symbolSize bytes -----

  /** Start s * ss of symbol s (summed up symbol by symbol). */
  ghost function Offset(s: nat, ss: nat): nat {
    if s == 0 then 0 else Offset(s - 1, ss) + ss
  }

  lemma {:induction false} OffsetIsProduct(s: nat, ss: nat)
    ensures Offset(s, ss) == s * ss
  {
    hide Xor;
    if s > 0 {
      OffsetIsProduct(s - 1, ss);
      assert s * ss == (s - 1) * ss + ss;
    }
  }

  lemma {:induction false} OffsetOrder(s: nat, t: nat, ss: nat)
    requires s < t
    ensures Offset(s, ss) + ss <= Offset(t, ss)
    decreases t
  {
    hide Xor;
    if s < t - 1 {
      OffsetOrder(s, t - 1, ss);
    }
  }

  /** Byte b of symbol s; symbols past the end of the chunk read as zero. */
  ghost function Cell(chunk: seq<byte>, ss: nat, s: nat, b: nat): byte {
    if Offset(s, ss) + b < |chunk| then chunk[Offset(s, ss) + b] else NUL
  }

  /** Symbols are consecutive blocks of the chunk. */
  lemma CellIsByte(chunk: seq<byte>, ss: nat, s: nat, b: nat)
    requires s * ss + b < |chunk|
    ensures Cell(chunk, ss, s, b) == chunk[s * ss + b]
  {
    OffsetIsProduct(s, ss);
  }

  /** A chunk is determined by the cells of its symbols. */
  lemma CellsDetermine(x: seq<byte>, y: seq<byte>, ss: nat, n: nat)
    requires |x| == |y| == Offset(n, ss)
    requires forall s: nat, b: nat :: s < n && b < ss ==> Cell(x, ss, s, b) == Cell(y, ss, s, b)
    ensures x == y
  {
    hide Xor;
    forall i | 0 <= i < |x| ensures x[i] == y[i] {
      var s, b := SymbolOf(i, n, ss);
      assert Cell(x, ss, s, b) == Cell(y, ss, s, b);
    }
  }

  lemma {:induction false} SymbolOf(i: nat, n: nat, ss: nat) returns (s: nat, b: nat)
    requires i < Offset(n, ss)
    ensures s < n && b < ss && i == Offset(s, ss) + b
  {
    hide Xor;
    if i >= Offset(n - 1, ss) {
      s, b := n - 1, i - Offset(n - 1, ss);
    } else {
      s, b := SymbolOf(i, n - 1, ss);
    }
  }

  /** now is was, with src[sOff..][..len] XORed into was[dOff..][..len]. */
  ghost predicate RangeXored(was: seq<byte>, now: seq<byte>, dOff: nat, src: seq<byte>, sOff: nat, len: nat) {
    && |now| == |was| && dOff + len <= |was| && sOff + len <= |src|
    && (forall j :: dOff <= j < dOff + len ==> now[j] == Xor(src[j - dOff + sOff], was[j]))
    && (forall j :: 0 <= j < |was| && !(dOff <= j < dOff + len) ==> now[j] == was[j])
  }

  /** Symbol di of now has bytes off..off+len of src's symbol si XORed in; every other cell is that of was. */
  ghost predicate SymbolXored(was: seq<byte>, now: seq<byte>, di: nat, src: seq<byte>, si: nat, off: nat, len: nat,
                              ss: nat) {
    forall s: nat, b: nat :: b < ss ==>
      Cell(now, ss, s, b) == if s == di && off <= b < off + len then Xor(Cell(was, ss, s, b), Cell(src, ss, si, b))
                             else Cell(was, ss, s, b)
  }

  /** An XOR inside one symbol misses the cells of another, */
  lemma XorRangeMisses(was: seq<byte>, now: seq<byte>, di: nat, src: seq<byte>, sOff: nat, off: nat, len: nat, ss: nat,
                       s: nat, b: nat)
    requires off + len <= ss && b < ss && s != di && RangeXored(was, now, Offset(di, ss) + off, src, sOff, len)
    ensures Cell(now, ss, s, b) == Cell(was, ss, s, b)
  {
    hide Xor;
    if s < di {
      OffsetOrder(s, di, ss);
    } else {
      OffsetOrder(di, s, ss);
    }
  }

  /** and changes the cells of its own inside the range only. */
  lemma XorRangeHits(was: seq<byte>, now: seq<byte>, di: nat, src: seq<byte>, si: nat, off: nat, len: nat, ss: nat,
                     b: nat)
    requires off + len <= ss && b < ss && RangeXored(was, now, Offset(di, ss) + off, src, Offset(si, ss) + off, len)
    ensures Cell(now, ss, di, b) == if off <= b < off + len then Xor(Cell(was, ss, di, b), Cell(src, ss, si, b))
                                    else Cell(was, ss, di, b)
  {
    hide Xor, Offset;
    if off <= b < off + len {
      var j := Offset(di, ss) + b;
      assert j - (Offset(di, ss) + off) + (Offset(si, ss) + off) == Offset(si, ss) + b;
      XorCommutes(src[Offset(si, ss) + b], was[j]);
    }
  }

  lemma XorRangeIsSymbol(was: seq<byte>, now: seq<byte>, di: nat, src: seq<byte>, si: nat, off: nat, len: nat, ss: nat)
    requires off + len <= ss && RangeXored(was, now, Offset(di, ss) + off, src, Offset(si, ss) + off, len)
    ensures SymbolXored(was, now, di, src, si, off, len, ss)
  {
    hide Xor, Offset, Cell, RangeXored;
    forall s: nat, b: nat | b < ss
      ensures Cell(now, ss, s, b) == if s == di && off <= b < off + len
              then Xor(Cell(was, ss, s, b), Cell(src, ss, si, b))
                                     else Cell(was, ss, s, b)
    {
      if s == di {
        XorRangeHits(was, now, di, src, si, off, len, ss, b);
      } else {
        XorRangeMisses(was, now, di, src, Offset(si, ss) + off, off, len, ss, s, b);
      }
    }
  }

  lemma XorCommutes(x: byte, y: byte)
    ensures Xor(x, y) == Xor(y, x)
  {
  }

  /** dst symbol di XORed with src symbol si, on bytes off..off+len of the symbol. */
  method XorSymbol(dst: array<byte>, di: nat, src: array<byte>, si: nat, off: nat, len: nat, ss: nat)
    requires dst != src && off + len <= ss
    requires Offset(di, ss) + off + len <= dst.Length && Offset(si, ss) + off + len <= src.Length
    modifies dst
    ensures SymbolXored(old(dst[..]), dst[..], di, src[..], si, off, len, ss)
  {
    hide Xor, Offset, Cell, SymbolXored;
    OffsetIsProduct(di, ss);
    OffsetIsProduct(si, ss);
    ghost var was := dst[..];
    BitwiseXor(dst, di * ss + off, src, si * ss + off, dst, di * ss + off, len);
    XorRangeIsSymbol(was, dst[..], di, src[..], si, off, len, ss);
  }

  /** s with the data written over it from `at` on. */
  ghost function Overwrite<T>(s: seq<T>, at: nat, data: seq<T>): (r: seq<T>)
    requires at + |data| <= |s|
    ensures |r| == |s|
  {
    s[..at] + data + s[at + |data|..]
  }

  // ----- computing and applying a delta -----

  /** Bytewise XOR of two buffers of the same size. */
  ghost function XorSeq(x: seq<byte>, y: seq<byte>): (z: seq<byte>)
    requires |x| == |y|
    ensures |z| == |x| && forall i :: 0 <= i < |x| ==> z[i] == Xor(x[i], y[i])
  {
    seq(|x|, i requires 0 <= i < |x| => Xor(x[i], y[i]))
  }

  /** A chunk of the given size that is zero except for `part` at `offset`. */
  ghost function Placed(part: seq<byte>, offset: nat, size: nat): (chunk: seq<byte>)
    ensures |chunk| == size
  {
    seq(size, (i: nat) => if offset <= i < offset + |part| then part[i - offset] else NUL)
  }

  /**
   * delta := old data XOR new data on the updated range; with `applyUpdate` the chunk then receives
   * the delta, which leaves it with the new data.
   */
  method ComputeDelta(chunk: array<byte>, delta: array<byte>, newData: array<byte>, offset: nat, length: nat,
                      applyUpdate: bool)
    requires offset + length <= chunk.Length && length == delta.Length <= newData.Length
    requires chunk != delta && chunk != newData && delta != newData
    modifies chunk, delta
    ensures forall j :: offset <= j < offset + length ==> delta[j - offset] == Xor(old(chunk[j]), newData[j - offset])
    ensures !applyUpdate ==> chunk[..] == old(chunk[..])
    ensures applyUpdate ==> forall j :: 0 <= j < chunk.Length ==>
              chunk[j] == if offset <= j < offset + length then newData[j - offset] else old(chunk[j])
  {
    hide Xor;
    BitwiseXor(delta, 0, chunk, offset, newData, 0, length);
    forall j | offset <= j < offset + length
      ensures delta[j - offset] == Xor(old(chunk[j]), newData[j - offset])
    {
      var i := j - offset;
      assert delta[i] == Xor(old(chunk[i - 0 + offset]), newData[i - 0 + 0]);
    }
    if applyUpdate {
      ApplyDelta(chunk, delta, offset, length);
      forall j | offset <= j < offset + length ensures chunk[j] == newData[j - offset] {
        XorTwice(old(chunk[j]), newData[j - offset]);
      }
    }
  }

  /** XORs the delta into the range of the chunk. */
  method ApplyDelta(chunk: array<byte>, delta: array<byte>, offset: nat, length: nat)
    requires offset + length <= chunk.Length && length == delta.Length && chunk != delta
    modifies chunk
    ensures forall j :: 0 <= j < chunk.Length ==>
              chunk[j] == if offset <= j < offset + length then Xor(old(chunk[j]), delta[j - offset]) else old(chunk[j])
  {
    hide Xor;
    BitwiseXor(chunk, offset, chunk, offset, delta, 0, length);
  }

  /** The updated chunk is the old one XORed with the delta, placed at its offset. */
  lemma UpdateIsXor(was: seq<byte>, now: seq<byte>, delta: seq<byte>, newData: seq<byte>, offset: nat)
    requires |now| == |was| && |delta| == |newData| && offset + |delta| <= |was|
    requires forall j :: offset <= j < offset + |delta| ==> delta[j - offset] == Xor(was[j], newData[j - offset])
    requires forall j :: 0 <= j < |was| ==>
               now[j] == if offset <= j < offset + |delta| then newData[j - offset] else was[j]
    ensures now == XorSeq(was, Placed(delta, offset, |was|))
  {
    hide Xor;
    forall j | 0 <= j < |was| ensures now[j] == Xor(was[j], Placed(delta, offset, |was|)[j]) {
      XorTwice(was[j], if offset <= j < offset + |delta| then newData[j - offset] else NUL);
    }
  }

  lemma XorTwice(x: byte, y: byte)
    ensures Xor(x, Xor(x, y)) == y && Xor(x, NUL) == x
  {
  }
}
