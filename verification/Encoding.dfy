/** The part of `encode` that RDP and EVENODD share: one data symbol onto its diagonal. */
module Encoding {
  import opened Buffers
  import opened ArrayCode

  /** Bytes of a symbol to process: all of them, or those inside startOff..endOff. */
  datatype Part = Skip | Take(offset: nat, len: nat) {
    predicate Covers(b: nat) {
      Take? && offset <= b < offset + len
    }
  }

  function PartOf(limited: bool, startOff: nat, endOff: nat, symbolOff: nat, ss: nat): (r: Part)
    requires limited ==> startOff <= endOff
    ensures r.Take? ==> r.offset + r.len <= ss
    ensures forall b: nat :: b < ss ==> (r.Covers(b) <==> (limited ==> startOff <= symbolOff + b < endOff))
  {
    if limited && (symbolOff + ss < startOff || symbolOff > endOff) then Skip
    else
      var offset := if limited && startOff > symbolOff then startOff - symbolOff else 0;
      var len := if limited then endOff - (symbolOff + offset) else ss;
      Take(offset, if len + offset > ss then ss - offset else len)
  }

  /** The stripe columns seen by an encode limited to startOff..endOff: data outside reads as zero. */
  ghost function Visible(cols: seq<seq<byte>>, k: nat, p: nat, ss: nat, b: nat,
                         limited: bool, startOff: nat, endOff: nat): Grid
    requires p > 0
  {
    (c, s) =>
      if 0 <= c < k && 0 <= s && limited && !(startOff <= Offset(c, Offset(p - 1, ss)) + Offset(s, ss) + b < endOff)
      then NUL else GridOf(cols, ss, b)(c, s)
  }

  /** With byte positions of the whole data: data chunk c starts at c times the chunk size. */
  lemma VisibleByte(cols: seq<seq<byte>>, c: nat, s: nat, k: nat, p: nat, ss: nat, b: nat,
                    limited: bool, startOff: nat, endOff: nat)
    requires 0 < p && c < |cols| && s * ss + b < |cols[c]|
    ensures Visible(cols, k, p, ss, b, limited, startOff, endOff)(c, s)
            == var at := c * ((p - 1) * ss) + s * ss + b;
               if c < k && limited && !(startOff <= at < endOff) then NUL else cols[c][s * ss + b]
  {
    hide Xor, Cell;
    OffsetIsProduct(p - 1, ss);
    OffsetIsProduct(c, Offset(p - 1, ss));
    OffsetIsProduct(s, ss);
    CellIsByte(cols[c], ss, s, b);
    hide Offset;
    var g := Visible(cols, k, p, ss, b, limited, startOff, endOff);
    assert GridOf(cols, ss, b)(c, s) == cols[c][s * ss + b];
    assert Offset(c, Offset(p - 1, ss)) + Offset(s, ss) + b == c * ((p - 1) * ss) + s * ss + b;
    assert g(c, s) == if c < k && limited && !(startOff <= c * ((p - 1) * ss) + s * ss + b < endOff) then NUL
                      else GridOf(cols, ss, b)(c, s);
  }

  lemma VisibleCell(cols: seq<seq<byte>>, c: nat, s: nat, k: nat, p: nat, ss: nat, b: nat,
                    limited: bool, startOff: nat, endOff: nat, part: Part)
    requires p > 0 && b < ss && c < |cols| && (limited ==> startOff <= endOff)
    requires part == PartOf(limited && c < k, startOff, endOff, Offset(c, Offset(p - 1, ss)) + Offset(s, ss), ss)
    ensures Visible(cols, k, p, ss, b, limited, startOff, endOff)(c, s)
            == if part.Covers(b) then Cell(cols[c], ss, s, b) else NUL
  {
    hide Xor;
    var symbolOff := Offset(c, Offset(p - 1, ss)) + Offset(s, ss);
    assert part.Covers(b) <==> (limited && c < k ==> startOff <= symbolOff + b < endOff);
    var g := Visible(cols, k, p, ss, b, limited, startOff, endOff);
    assert g(c, s) == if limited && c < k && !part.Covers(b) then NUL else GridOf(cols, ss, b)(c, s);
  }

  /** Row p - 1 of a column is empty. */
  lemma VisibleMissingRow(cols: seq<seq<byte>>, c: nat, k: nat, p: nat, ss: nat, b: nat,
                          limited: bool, startOff: nat, endOff: nat)
    requires p > 0 && c < |cols| && |cols[c]| == Offset(p - 1, ss)
    ensures Visible(cols, k, p, ss, b, limited, startOff, endOff)(c, p - 1) == NUL
  {
    hide Xor;
    assert GridOf(cols, ss, b)(c, p - 1) == Cell(cols[c], ss, p - 1, b);
  }

  /** XORs symbol sidx of column cidx, as far as it is visible, onto row di of dst. */
  method XorVisible(dst: array<byte>, di: nat, src: array<byte>, cidx: nat, sidx: nat, k: nat, p: nat, ss: nat,
                    limited: bool, startOff: nat, endOff: nat, ghost cols: seq<seq<byte>>)
    requires dst != src && p > 0 && sidx < p - 1 && (limited ==> startOff <= endOff)
    requires src.Length == Offset(p - 1, ss) && Offset(di, ss) + ss <= dst.Length
    requires cidx < |cols| && src[..] == cols[cidx]
    modifies dst
    ensures forall s: nat, b: nat :: b < ss ==>
              Cell(dst[..], ss, s, b) ==
              if s == di
              then Xor(old(Cell(dst[..], ss, s, b)),
                       Visible(cols, k, p, ss, b, limited, startOff, endOff)(cidx, sidx))
              else old(Cell(dst[..], ss, s, b))
  {
    hide Xor;
    OffsetOrder(sidx, p - 1, ss);
    ghost var was := dst[..];
    ghost var chunkSize := Offset(p - 1, ss);
    var symbolOff := cidx * src.Length + sidx * ss;
    OffsetIsProduct(cidx, src.Length);
    OffsetIsProduct(sidx, ss);
    var part := PartOf(limited && cidx < k, startOff, endOff, symbolOff, ss);
    if part.Take? {
      XorSymbol(dst, di, src, sidx, part.offset, part.len, ss);
    }
    forall b: nat | b < ss
      ensures Cell(dst[..], ss, di, b)
              == Xor(Cell(was, ss, di, b), Visible(cols, k, p, ss, b, limited, startOff, endOff)(cidx, sidx))
    {
      VisibleCell(cols, cidx, sidx, k, p, ss, b, limited, startOff, endOff, part);
      AddCancel(Cell(was, ss, di, b), NUL);
    }
  }

  /** Data bytes of the stripe outside startOff..endOff are zero. */
  ghost predicate ZeroOutside(data: seq<seq<byte>>, k: nat, size: nat, startOff: nat, endOff: nat)
    requires k <= |data|
  {
    forall c, i :: 0 <= c < k && 0 <= i < |data[c]| && !(startOff <= Offset(c, size) + i < endOff) ==> data[c][i] == NUL
  }

  /** Restricting the encode to the range loses nothing when the data outside is zero. */
  lemma VisibleIsAll(cols: seq<seq<byte>>, k: nat, p: nat, ss: nat, b: nat, limited: bool, startOff: nat, endOff: nat,
                     c: int, s: int)
    requires p > 0 && k <= |cols| && (limited ==> ZeroOutside(cols, k, Offset(p - 1, ss), startOff, endOff))
    ensures Visible(cols, k, p, ss, b, limited, startOff, endOff)(c, s) == GridOf(cols, ss, b)(c, s)
  {
    hide Xor;
    var g := GridOf(cols, ss, b);
    if 0 <= c < k && 0 <= s {
      assert g(c, s) == Cell(cols[c], ss, s, b);
    }
  }

  /** Chunk by chunk XOR of two stripes. */
  ghost function XorStripe(a: seq<seq<byte>>, b: seq<seq<byte>>): (r: seq<seq<byte>>)
    requires |a| == |b| && forall c :: 0 <= c < |a| ==> |a[c]| == |b[c]|
    ensures |r| == |a| && forall c :: 0 <= c < |r| ==> r[c] == XorSeq(a[c], b[c])
  {
    seq(|a|, c requires 0 <= c < |a| => XorSeq(a[c], b[c]))
  }

  lemma CellOfXor(x: seq<byte>, y: seq<byte>, ss: nat, s: nat, b: nat)
    requires |x| == |y|
    ensures Cell(XorSeq(x, y), ss, s, b) == Xor(Cell(x, ss, s, b), Cell(y, ss, s, b))
  {
    hide Xor;
    AddCancel(NUL, NUL);
  }

  /** The grid of a XOR is the XOR of the grids. */
  lemma GridOfXor(x: seq<seq<byte>>, y: seq<seq<byte>>, ss: nat, b: nat, c: int, s: int)
    requires |x| == |y| && forall c :: 0 <= c < |x| ==> |x[c]| == |y[c]|
    ensures GridOf(XorStripe(x, y), ss, b)(c, s) == Xor(GridOf(x, ss, b)(c, s), GridOf(y, ss, b)(c, s))
  {
    hide Xor;
    if 0 <= c < |x| && 0 <= s {
      CellOfXor(x[c], y[c], ss, s, b);
    } else {
      AddCancel(NUL, NUL);
    }
  }

  ghost function DeltaChunk(delta: seq<byte>, c: nat, offset: nat, i: nat, size: nat): (chunk: seq<byte>)
    ensures |chunk| == size
  {
    if i == c then Placed(delta, offset, size) else Placed([], 0, size)
  }

  /** The stripe to encode when `delta` was computed at `offset` of chunk c: zero everywhere else. */
  ghost function DeltaStripe(delta: seq<byte>, c: nat, offset: nat, k: nat, size: nat): (r: seq<seq<byte>>)
    ensures |r| == k && forall i :: 0 <= i < k ==> r[i] == DeltaChunk(delta, c, offset, i, size)
  {
    seq(k, i requires 0 <= i < k => DeltaChunk(delta, c, offset, i, size))
  }

  lemma DeltaStripeZeroOutside(delta: seq<byte>, c: nat, offset: nat, k: nat, size: nat)
    ensures ZeroOutside(DeltaStripe(delta, c, offset, k, size), k, size,
                        Offset(c, size) + offset, Offset(c, size) + offset + |delta|)
  {
    hide Xor;
  }

  /** Adding that stripe replaces chunk c by what computeDelta left in it. */
  lemma OneChunkUpdated(data: seq<seq<byte>>, c: nat, now: seq<byte>, delta: seq<byte>, newData: seq<byte>,
                        offset: nat, size: nat)
    requires c < |data| && (forall i :: 0 <= i < |data| ==> |data[i]| == size) && |now| == size
    requires |delta| == |newData| && offset + |delta| <= size
    requires forall j :: offset <= j < offset + |delta| ==> delta[j - offset] == Xor(data[c][j], newData[j - offset])
    requires forall j :: 0 <= j < size ==>
               now[j] == if offset <= j < offset + |delta| then newData[j - offset] else data[c][j]
    ensures XorStripe(data, DeltaStripe(delta, c, offset, |data|, size)) == data[c := now]
  {
    hide Xor;
    UpdateIsXor(data[c], now, delta, newData, offset);
    var sum := XorStripe(data, DeltaStripe(delta, c, offset, |data|, size));
    forall i | 0 <= i < |data| ensures sum[i] == data[c := now][i] {
      if i != c {
        forall j | 0 <= j < size ensures Xor(data[i][j], NUL) == data[i][j] {
          XorTwice(data[i][j], NUL);
        }
        assert sum[i] == data[i];
      }
    }
  }
}
