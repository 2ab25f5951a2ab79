/** What the stripes are, bit by bit and in terms of byte positions only. */
module PlainStripes {
  import opened ModPrime
  import opened Buffers
  import opened RepairSchedule
  import opened ArrayCode
  import opened EvenOddCode

  predicate HasBit(x: byte, m: byte) {
    x & m != 0
  }

  /** Bit m of byte b of symbol s of a chunk. */
  predicate BitAt(chunk: seq<byte>, ss: nat, s: nat, b: nat, m: byte) {
    s * ss + b < |chunk| && HasBit(chunk[s * ss + b], m)
  }

  /** The columns before n with bit m of byte b set in row s. */
  ghost function InRow(st: seq<seq<byte>>, ss: nat, n: nat, s: nat, b: nat, m: byte): set<int> {
    set c: int | 0 <= c < n && c < |st| && BitAt(st[c], ss, s, b, m)
  }

  /** The same on diagonal d: the rows s with (c + s) % p == d. */
  ghost function OnDiagonal(st: seq<seq<byte>>, p: nat, ss: nat, n: nat, d: nat, b: nat, m: byte): set<int>
    requires p > 0
  {
    set c: int | 0 <= c < n && c < |st| && c <= d + p && BitAt(st[c], ss, (d + p - c) % p, b, m)
  }

  lemma BitOfXor(x: byte, y: byte, m: byte)
    requires IsBit(m)
    ensures HasBit(Xor(x, y), m) <==> HasBit(x, m) != HasBit(y, m)
  {
  }

  lemma NoBit(m: byte)
    ensures !HasBit(NUL, m)
  {
  }

  lemma SameBits(x: byte, y: byte)
    requires forall m: byte :: IsBit(m) ==> (HasBit(x, m) <==> HasBit(y, m))
    ensures x == y
  {
    assert IsBit(1) && IsBit(2) && IsBit(4) && IsBit(8) && IsBit(16) && IsBit(32) && IsBit(64) && IsBit(128);
    assert forall m: byte :: IsBit(m) ==> (x & m != 0 <==> y & m != 0);
  }

  lemma CellBit(chunk: seq<byte>, ss: nat, s: nat, b: nat, m: byte)
    ensures HasBit(Cell(chunk, ss, s, b), m) <==> BitAt(chunk, ss, s, b, m)
  {
    hide Xor, HasBit;
    OffsetIsProduct(s, ss);
    NoBit(m);
  }

  /** One column more. */
  lemma OneMore(few: set<int>, many: set<int>, c: int, isIn: bool)
    requires c !in few && many == if isIn then few + {c} else few
    ensures |many| % 2 == 1 <==> (|few| % 2 == 1) != isIn
  {
  }

  lemma RowWithOneMore(st: seq<seq<byte>>, ss: nat, n: nat, s: nat, b: nat, m: byte)
    requires n < |st|
    ensures |InRow(st, ss, n + 1, s, b, m)| % 2 == 1
            <==> (|InRow(st, ss, n, s, b, m)| % 2 == 1) != BitAt(st[n], ss, s, b, m)
  {
    hide BitAt;
    OneMore(InRow(st, ss, n, s, b, m), InRow(st, ss, n + 1, s, b, m), n, BitAt(st[n], ss, s, b, m));
  }

  lemma {:induction false} RowSumBit(st: seq<seq<byte>>, ss: nat, n: nat, s: nat, b: nat, m: byte)
    requires IsBit(m) && n <= |st|
    ensures HasBit(RowSum(GridOf(st, ss, b), s, n), m) <==> |InRow(st, ss, n, s, b, m)| % 2 == 1
  {
    hide Xor, IsBit, BitAt, HasBit, InRow, Cell;
    if n == 0 {
      NoBit(m);
      EmptySets(st, 1, ss, s, 0, b, m);
    } else {
      RowSumBit(st, ss, n - 1, s, b, m);
      BitOfXor(RowSum(GridOf(st, ss, b), s, n - 1), Cell(st[n - 1], ss, s, b), m);
      CellBit(st[n - 1], ss, s, b, m);
      RowWithOneMore(st, ss, n - 1, s, b, m);
    }
  }

  lemma EmptySets(st: seq<seq<byte>>, p: nat, ss: nat, s: nat, d: nat, b: nat, m: byte)
    requires p > 0
    ensures |InRow(st, ss, 0, s, b, m)| == |OnDiagonal(st, p, ss, 0, d, b, m)| == 0
  {
    hide BitAt;
    assert InRow(st, ss, 0, s, b, m) == {} && OnDiagonal(st, p, ss, 0, d, b, m) == {};
  }

  /** RowOn for all p: the row where column c meets diagonal d. */
  lemma RowIs(d: nat, c: nat, p: nat)
    requires d < p && c < p
    ensures RowOn(d, c, p) == (d + p - c) % p
  {
    WrapIsMod(d - c, p);
    ModShift(d - c, 1, p);
  }

  lemma DiagonalWithOneMore(st: seq<seq<byte>>, p: nat, ss: nat, n: nat, d: nat, b: nat, m: byte)
    requires n < |st| && n <= p && d < p
    ensures n < p ==> RowOn(d, n, p) == (d + p - n) % p
    ensures |OnDiagonal(st, p, ss, n + 1, d, b, m)| % 2 == 1
            <==> (|OnDiagonal(st, p, ss, n, d, b, m)| % 2 == 1) != BitAt(st[n], ss, (d + p - n) % p, b, m)
  {
    hide BitAt;
    if n < p {
      RowIs(d, n, p);
    }
    OneMore(OnDiagonal(st, p, ss, n, d, b, m), OnDiagonal(st, p, ss, n + 1, d, b, m), n,
            BitAt(st[n], ss, (d + p - n) % p, b, m));
  }

  lemma {:induction false} DiagSumBit(st: seq<seq<byte>>, p: nat, ss: nat, n: nat, d: nat, b: nat, m: byte)
    requires IsBit(m) && d < p && n <= p && n <= |st|
    ensures HasBit(DiagSum(GridOf(st, ss, b), d, n, p), m) <==> |OnDiagonal(st, p, ss, n, d, b, m)| % 2 == 1
  {
    hide Xor, IsBit, BitAt, HasBit, OnDiagonal, Cell, RowOn;
    if n == 0 {
      NoBit(m);
      EmptySets(st, p, ss, 0, d, b, m);
    } else {
      DiagSumBit(st, p, ss, n - 1, d, b, m);
      var r := RowOn(d, n - 1, p);
      BitOfXor(DiagSum(GridOf(st, ss, b), d, n - 1, p), Cell(st[n - 1], ss, r, b), m);
      CellBit(st[n - 1], ss, r, b, m);
      DiagonalWithOneMore(st, p, ss, n - 1, d, b, m);
    }
  }

  /** Every bit of the row parity chunk says whether its row has an odd number of set bits in the data chunks. */
  ghost predicate RowBits(st: seq<seq<byte>>, k: nat, p: nat, ss: nat)
    requires k < |st|
  {
    forall s: nat, b: nat :: s < p - 1 && b < ss ==> RowBitsAt(st, k, ss, s, b)
  }

  ghost predicate RowBitsAt(st: seq<seq<byte>>, k: nat, ss: nat, s: nat, b: nat)
    requires k < |st|
  {
    forall m: byte :: IsBit(m) ==> (BitAt(st[k], ss, s, b, m) <==> |InRow(st, ss, k, s, b, m)| % 2 == 1)
  }

  /** And every bit of chunk `col` the same of its diagonal in the chunks before n. */
  ghost predicate DiagonalBits(st: seq<seq<byte>>, col: nat, n: nat, p: nat, ss: nat)
    requires p > 0 && col < |st|
  {
    forall d: nat, b: nat :: d < p - 1 && b < ss ==> DiagonalBitsAt(st, col, n, p, ss, d, b)
  }

  ghost predicate DiagonalBitsAt(st: seq<seq<byte>>, col: nat, n: nat, p: nat, ss: nat, d: nat, b: nat)
    requires p > 0 && col < |st|
  {
    forall m: byte :: IsBit(m) ==> (BitAt(st[col], ss, d, b, m) <==> |OnDiagonal(st, p, ss, n, d, b, m)| % 2 == 1)
  }

  lemma RowParityIffBits(st: seq<seq<byte>>, k: nat, p: nat, ss: nat)
    requires 0 < p && k < |st|
    ensures RowParity(st, k, p, ss) <==> RowBits(st, k, p, ss)
  {
    hide Xor, RowBitsAt, RowSum, Cell;
    forall s: nat, b: nat | s < p - 1 && b < ss
      ensures Cell(st[k], ss, s, b) == RowSum(GridOf(st, ss, b), s, k) <==> RowBitsAt(st, k, ss, s, b)
    {
      RowByteIffBits(st, k, ss, s, b);
    }
  }

  lemma RowByteIffBits(st: seq<seq<byte>>, k: nat, ss: nat, s: nat, b: nat)
    requires k < |st|
    ensures Cell(st[k], ss, s, b) == RowSum(GridOf(st, ss, b), s, k) <==> RowBitsAt(st, k, ss, s, b)
  {
    hide Xor, IsBit, BitAt, HasBit, InRow, Cell, RowSum;
    var x, y := Cell(st[k], ss, s, b), RowSum(GridOf(st, ss, b), s, k);
    forall m: byte | IsBit(m)
      ensures HasBit(x, m) <==> BitAt(st[k], ss, s, b, m)
      ensures HasBit(y, m) <==> |InRow(st, ss, k, s, b, m)| % 2 == 1
    {
      CellBit(st[k], ss, s, b, m);
      RowSumBit(st, ss, k, s, b, m);
    }
    if RowBitsAt(st, k, ss, s, b) {
      SameBits(x, y);
    }
  }

  lemma DiagParityIffBits(st: seq<seq<byte>>, col: nat, n: nat, p: nat, ss: nat)
    requires 0 < p && n <= p && n <= |st| && col < |st|
    ensures DiagParity(st, col, n, p, ss) <==> DiagonalBits(st, col, n, p, ss)
  {
    hide Xor, DiagonalBitsAt, DiagSum, Cell;
    forall d: nat, b: nat | d < p - 1 && b < ss
      ensures Cell(st[col], ss, d, b) == DiagSum(GridOf(st, ss, b), d, n, p)
              <==> DiagonalBitsAt(st, col, n, p, ss, d, b)
    {
      DiagonalByteIffBits(st, col, n, p, ss, d, b);
    }
  }

  lemma DiagonalByteIffBits(st: seq<seq<byte>>, col: nat, n: nat, p: nat, ss: nat, d: nat, b: nat)
    requires 0 < p && n <= p && n <= |st| && col < |st| && d < p
    ensures Cell(st[col], ss, d, b) == DiagSum(GridOf(st, ss, b), d, n, p)
            <==> DiagonalBitsAt(st, col, n, p, ss, d, b)
  {
    hide Xor, IsBit, BitAt, HasBit, OnDiagonal, Cell, DiagSum;
    var x, y := Cell(st[col], ss, d, b), DiagSum(GridOf(st, ss, b), d, n, p);
    forall m: byte | IsBit(m)
      ensures HasBit(x, m) <==> BitAt(st[col], ss, d, b, m)
      ensures HasBit(y, m) <==> |OnDiagonal(st, p, ss, n, d, b, m)| % 2 == 1
    {
      CellBit(st[col], ss, d, b, m);
      DiagSumBit(st, p, ss, n, d, b, m);
    }
    if DiagonalBitsAt(st, col, n, p, ss, d, b) {
      SameBits(x, y);
    }
  }

  /** An RDP stripe, bit by bit: row parity of the data, diagonal parity of data and row parity. */
  lemma RdpStripeIffBits(st: seq<seq<byte>>, k: nat, p: nat, ss: nat)
    requires k + 1 <= p
    ensures RdpStripe(st, k, p, ss)
            <==> && |st| == k + 2 && (forall c :: 0 <= c < k + 2 ==> |st[c]| == (p - 1) * ss)
                 && RowBits(st, k, p, ss) && DiagonalBits(st, k + 1, k + 1, p, ss)
  {
    hide Xor, RowParity, DiagParity, RowBits, DiagonalBits, Offset;
    OffsetIsProduct(p - 1, ss);
    if |st| == k + 2 {
      RowParityIffBits(st, k, p, ss);
      DiagParityIffBits(st, k + 1, k + 1, p, ss);
    }
  }

  /** The bits of EVENODD's second parity chunk: those of the diagonals, inverted where diagonal p - 1 has a one. */
  ghost predicate AdjustedBits(st: seq<seq<byte>>, k: nat, p: nat, ss: nat)
    requires p > 0 && k + 1 < |st|
  {
    forall d: nat, b: nat :: d < p - 1 && b < ss ==> AdjustedBitsAt(st, k, p, ss, d, b)
  }

  ghost predicate AdjustedBitsAt(st: seq<seq<byte>>, k: nat, p: nat, ss: nat, d: nat, b: nat)
    requires p > 0 && k + 1 < |st|
  {
    forall m: byte :: IsBit(m) ==>
      (BitAt(st[k + 1], ss, d, b, m)
       <==> (|OnDiagonal(st, p, ss, k, d, b, m)| + |OnDiagonal(st, p, ss, k, p - 1, b, m)|) % 2 == 1)
  }

  lemma AdjustedParityIffBits(st: seq<seq<byte>>, k: nat, p: nat, ss: nat)
    requires 0 < p && k <= p && |st| == k + 2
    ensures AdjustedParity(st, k + 1, k, p, ss) <==> AdjustedBits(st, k, p, ss)
  {
    hide Xor, AdjustedBitsAt, DiagSum, Cell, Adjuster;
    forall d: nat, b: nat | d < p - 1 && b < ss
      ensures Cell(st[k + 1], ss, d, b)
              == Xor(DiagSum(GridOf(st, ss, b), d, k, p), Adjuster(GridOf(st, ss, b), k, p))
              <==> AdjustedBitsAt(st, k, p, ss, d, b)
    {
      AdjustedByteIffBits(st, k, p, ss, d, b);
    }
  }

  lemma AdjustedByteIffBits(st: seq<seq<byte>>, k: nat, p: nat, ss: nat, d: nat, b: nat)
    requires 0 < p && k <= p && |st| == k + 2 && d < p
    ensures Cell(st[k + 1], ss, d, b)
            == Xor(DiagSum(GridOf(st, ss, b), d, k, p), Adjuster(GridOf(st, ss, b), k, p))
            <==> AdjustedBitsAt(st, k, p, ss, d, b)
  {
    hide Xor, IsBit, BitAt, HasBit, OnDiagonal, Cell, DiagSum;
    var x, y, z := Cell(st[k + 1], ss, d, b), DiagSum(GridOf(st, ss, b), d, k, p), Adjuster(GridOf(st, ss, b), k, p);
    forall m: byte | IsBit(m)
      ensures HasBit(x, m) <==> BitAt(st[k + 1], ss, d, b, m)
      ensures HasBit(Xor(y, z), m)
              <==> (|OnDiagonal(st, p, ss, k, d, b, m)| + |OnDiagonal(st, p, ss, k, p - 1, b, m)|) % 2 == 1
    {
      CellBit(st[k + 1], ss, d, b, m);
      DiagSumBit(st, p, ss, k, d, b, m);
      DiagSumBit(st, p, ss, k, p - 1, b, m);
      BitOfXor(y, z, m);
      OddSum(|OnDiagonal(st, p, ss, k, d, b, m)|, |OnDiagonal(st, p, ss, k, p - 1, b, m)|);
    }
    if AdjustedBitsAt(st, k, p, ss, d, b) {
      SameBits(x, Xor(y, z));
    }
  }

  lemma OddSum(a: nat, b: nat)
    ensures (a + b) % 2 == 1 <==> (a % 2 == 1) != (b % 2 == 1)
  {
  }

  /** An EVENODD stripe, bit by bit. */
  lemma EvenOddStripeIffBits(st: seq<seq<byte>>, k: nat, p: nat, ss: nat)
    requires 0 < p && k <= p
    ensures EvenOddStripe(st, k, p, ss)
            <==> && |st| == k + 2 && (forall c :: 0 <= c < k + 2 ==> |st[c]| == (p - 1) * ss)
                 && RowBits(st, k, p, ss) && AdjustedBits(st, k, p, ss)
  {
    hide Xor, RowParity, AdjustedParity, RowBits, AdjustedBits, Offset;
    OffsetIsProduct(p - 1, ss);
    if |st| == k + 2 {
      RowParityIffBits(st, k, p, ss);
      AdjustedParityIffBits(st, k, p, ss);
    }
  }
}
