/** What EVENODD computes, and why the adjuster S can be recovered from the two parity chunks. */
module EvenOddCode {
  import opened Buffers
  import opened RepairSchedule
  import opened ArrayCode

  /** The sum S of the missing diagonal. */
  ghost function Adjuster(g: Grid, k: nat, p: nat): byte
    requires 0 < p && k <= p
  {
    DiagSum(g, p - 1, k, p)
  }

  /** Column `col` holds every diagonal of the k data columns plus S. */
  ghost predicate AdjustedParity(st: seq<seq<byte>>, col: nat, k: nat, p: nat, ss: nat)
    requires 0 < p && k <= p && col < |st|
  {
    forall d: nat, b: nat :: d < p - 1 && b < ss ==>
      Cell(st[col], ss, d, b) == Xor(DiagSum(GridOf(st, ss, b), d, k, p), Adjuster(GridOf(st, ss, b), k, p))
  }

  ghost predicate EvenOddStripe(st: seq<seq<byte>>, k: nat, p: nat, ss: nat)
    requires 0 < p && k <= p
  {
    IsStripe(st, k + 2, p, ss) && RowParity(st, k, p, ss) && AdjustedParity(st, k + 1, k, p, ss)
  }

  // ----- summing all symbols by rows or by diagonals -----

  /** XOR of rows lo..hi of one column. */
  ghost function Range(g: Grid, c: int, lo: int, hi: int): byte
    decreases hi - lo
  {
    if hi <= lo then NUL else Xor(Range(g, c, lo, hi - 1), g(c, hi - 1))
  }

  /** XOR of the symbols of column c on diagonals 0..m. */
  ghost function DiagonalsOf(g: Grid, c: nat, m: nat, p: nat): byte
    requires c < p && m <= p
  {
    if m == 0 then NUL else Xor(DiagonalsOf(g, c, m - 1, p), g(c, RowOn(m - 1, c, p)))
  }

  /** Diagonals 0..c enter column c at its last rows, the others at its first rows. */
  lemma {:induction false} DiagonalsRotate(g: Grid, c: nat, m: nat, p: nat)
    requires c < p && m <= p
    ensures DiagonalsOf(g, c, m, p) ==
            if m <= c then Range(g, c, p - c, p - c + m) else Xor(Range(g, c, p - c, p), Range(g, c, 0, m - c))
  {
    hide Xor;
    if m > 0 {
      DiagonalsRotate(g, c, m - 1, p);
      if m == c + 1 {
        AddCancel(Range(g, c, p - c, p), NUL);
        assert Range(g, c, 0, 1) == Xor(Range(g, c, 0, 0), g(c, 0));
        ZeroPlus(g(c, 0));
      } else if m > c {
        Assoc(Range(g, c, p - c, p), Range(g, c, 0, m - 1 - c), g(c, m - 1 - c));
      }
    }
  }

  lemma {:induction false} RangeSplit(g: Grid, c: int, lo: int, mid: int, hi: int)
    requires lo <= mid <= hi
    ensures Range(g, c, lo, hi) == Xor(Range(g, c, lo, mid), Range(g, c, mid, hi))
    decreases hi - mid
  {
    hide Xor;
    if mid == hi {
      AddCancel(Range(g, c, lo, mid), NUL);
    } else {
      RangeSplit(g, c, lo, mid, hi - 1);
      Assoc(Range(g, c, lo, mid), Range(g, c, mid, hi - 1), g(c, hi - 1));
    }
  }

  lemma DiagonalsCoverColumn(g: Grid, c: nat, p: nat)
    requires c < p
    ensures DiagonalsOf(g, c, p, p) == Range(g, c, 0, p)
  {
    hide Xor;
    DiagonalsRotate(g, c, p, p);
    RangeSplit(g, c, 0, p - c, p);
    XorCommutes(Range(g, c, p - c, p), Range(g, c, 0, p - c));
  }

  ghost function AllDiagonals(g: Grid, n: nat, m: nat, p: nat): byte
    requires m <= p && n <= p
  {
    if m == 0 then NUL else Xor(AllDiagonals(g, n, m - 1, p), DiagSum(g, m - 1, n, p))
  }

  ghost function AllRows(g: Grid, n: nat, m: nat): byte {
    if m == 0 then NUL else Xor(AllRows(g, n, m - 1), RowSum(g, m - 1, n))
  }

  lemma {:induction false} AllDiagonalsColumn(g: Grid, n: nat, m: nat, p: nat)
    requires 0 < n <= p && m <= p
    ensures AllDiagonals(g, n, m, p) == Xor(AllDiagonals(g, n - 1, m, p), DiagonalsOf(g, n - 1, m, p))
  {
    hide Xor;
    if m == 0 {
      AddCancel(NUL, NUL);
    } else {
      AllDiagonalsColumn(g, n, m - 1, p);
      Interchange(AllDiagonals(g, n - 1, m - 1, p), DiagonalsOf(g, n - 1, m - 1, p),
                  DiagSum(g, m - 1, n - 1, p), g(n - 1, RowOn(m - 1, n - 1, p)));
    }
  }

  lemma {:induction false} AllRowsColumn(g: Grid, n: nat, m: nat)
    requires 0 < n
    ensures AllRows(g, n, m) == Xor(AllRows(g, n - 1, m), Range(g, n - 1, 0, m))
  {
    hide Xor;
    if m == 0 {
      AddCancel(NUL, NUL);
    } else {
      AllRowsColumn(g, n, m - 1);
      Interchange(AllRows(g, n - 1, m - 1), Range(g, n - 1, 0, m - 1), RowSum(g, m - 1, n - 1), g(n - 1, m - 1));
    }
  }

  /** The p diagonals and the p rows contain the same symbols. */
  lemma {:induction false} DiagonalsAreRows(g: Grid, n: nat, p: nat)
    requires n <= p
    ensures AllDiagonals(g, n, p, p) == AllRows(g, n, p)
  {
    hide Xor;
    if n == 0 {
      NoColumns(g, p, p);
    } else {
      DiagonalsAreRows(g, n - 1, p);
      AllDiagonalsColumn(g, n, p, p);
      AllRowsColumn(g, n, p);
      DiagonalsCoverColumn(g, n - 1, p);
    }
  }

  lemma {:induction false} NoColumns(g: Grid, m: nat, p: nat)
    requires m <= p
    ensures AllDiagonals(g, 0, m, p) == AllRows(g, 0, m) == NUL
  {
    hide Xor;
    if m > 0 {
      NoColumns(g, m - 1, p);
      AddCancel(NUL, NUL);
    }
  }

  // ----- the adjuster -----

  /** XOR of the first n symbols of a chunk. */
  ghost function ColumnSum(chunk: seq<byte>, ss: nat, b: nat, n: nat): byte {
    if n == 0 then NUL else Xor(ColumnSum(chunk, ss, b, n - 1), Cell(chunk, ss, n - 1, b))
  }

  lemma {:induction false} RowParitySum(st: seq<seq<byte>>, k: nat, p: nat, ss: nat, b: nat, n: nat)
    requires 0 < p && k < |st| && RowParity(st, k, p, ss) && b < ss && n <= p - 1
    ensures ColumnSum(st[k], ss, b, n) == AllRows(GridOf(st, ss, b), k, n)
  {
    hide Xor;
    if n > 0 {
      RowParitySum(st, k, p, ss, b, n - 1);
    }
  }

  /** n copies of s. */
  ghost function Copies(s: byte, n: nat): byte {
    if n == 0 then NUL else Xor(Copies(s, n - 1), s)
  }

  lemma {:induction false} EvenCopiesCancel(s: byte, n: nat)
    requires n % 2 == 0
    ensures Copies(s, n) == NUL
  {
    hide Xor;
    if n > 0 {
      EvenCopiesCancel(s, n - 2);
      assert Copies(s, n - 1) == Xor(Copies(s, n - 2), s);
      Cancel(s);
    }
  }

  lemma Cancel(s: byte)
    ensures Xor(Xor(NUL, s), s) == NUL
  {
  }

  /** S enters the sum of the diagonal parities once per symbol. */
  lemma {:induction false} DiagonalParitySum(st: seq<seq<byte>>, k: nat, p: nat, ss: nat, b: nat, n: nat)
    requires 0 < p && k <= p && k + 1 < |st| && AdjustedParity(st, k + 1, k, p, ss) && b < ss && n <= p - 1
    ensures var g := GridOf(st, ss, b);
            ColumnSum(st[k + 1], ss, b, n) == Xor(AllDiagonals(g, k, n, p), Copies(Adjuster(g, k, p), n))
  {
    hide Xor;
    var g := GridOf(st, ss, b);
    if n == 0 {
      AddCancel(NUL, NUL);
    } else {
      DiagonalParitySum(st, k, p, ss, b, n - 1);
      Interchange(AllDiagonals(g, k, n - 1, p), Copies(Adjuster(g, k, p), n - 1), DiagSum(g, n - 1, k, p),
                  Adjuster(g, k, p));
    }
  }

  /** For odd p the XOR of all symbols of both parity chunks is S. */
  lemma AdjusterFromParities(st: seq<seq<byte>>, k: nat, p: nat, ss: nat, b: nat)
    requires p % 2 == 1 && k <= p && EvenOddStripe(st, k, p, ss) && b < ss
    ensures Xor(ColumnSum(st[k], ss, b, p - 1), ColumnSum(st[k + 1], ss, b, p - 1)) == Adjuster(GridOf(st, ss, b), k, p)
  {
    hide Xor;
    var g := GridOf(st, ss, b);
    RowParitySum(st, k, p, ss, b, p - 1);
    DiagonalParitySum(st, k, p, ss, b, p - 1);
    EvenCopiesCancel(Adjuster(g, k, p), p - 1);
    MissingRowIsZero(st, k, p, ss, b, k);
    RowsMeetDiagonals(g, k, p);
  }

  lemma RowsMeetDiagonals(g: Grid, k: nat, p: nat)
    requires 0 < p && k <= p && RowSum(g, p - 1, k) == NUL
    ensures Xor(AllRows(g, k, p - 1), Xor(AllDiagonals(g, k, p - 1, p), NUL)) == Adjuster(g, k, p)
  {
    hide Xor;
    DiagonalsAreRows(g, k, p);
    var total, rows, diagonals := AllRows(g, k, p), AllRows(g, k, p - 1), AllDiagonals(g, k, p - 1, p);
    var s := Adjuster(g, k, p);
    assert total == Xor(rows, NUL) && total == Xor(diagonals, s) by { LastRowAndDiagonal(g, k, p); }
    Isolate(total, rows, diagonals, s);
  }

  lemma LastRowAndDiagonal(g: Grid, k: nat, p: nat)
    requires 0 < p && k <= p && RowSum(g, p - 1, k) == NUL
    ensures AllRows(g, k, p) == Xor(AllRows(g, k, p - 1), NUL)
    ensures AllDiagonals(g, k, p, p) == Xor(AllDiagonals(g, k, p - 1, p), Adjuster(g, k, p))
  {
    hide Xor;
  }

  lemma {:induction false} MissingRowIsZero(st: seq<seq<byte>>, k: nat, p: nat, ss: nat, b: nat, n: nat)
    requires 0 < p && IsStripe(st, k + 2, p, ss) && n <= k
    ensures RowSum(GridOf(st, ss, b), p - 1, n) == NUL
  {
    hide Xor;
    if n > 0 {
      MissingRowIsZero(st, k, p, ss, b, n - 1);
      AddCancel(NUL, NUL);
    }
  }

  lemma Isolate(total: byte, rows: byte, diagonals: byte, s: byte)
    requires total == Xor(rows, NUL) && total == Xor(diagonals, s)
    ensures Xor(rows, Xor(diagonals, NUL)) == s
  {
  }

  /** A data symbol from its diagonal, the diagonal parity and S. */
  lemma SymbolFromDiagonal(st: seq<seq<byte>>, k: nat, p: nat, ss: nat, c: nat, d: nat, b: nat)
    requires 0 < p && k <= p && EvenOddStripe(st, k, p, ss) && b < ss && c < k && d < p
    ensures var g := GridOf(st, ss, b);
            Xor(Xor(DiagSumBut(g, d, k, p, c), if d == p - 1 then NUL else Cell(st[k + 1], ss, d, b)),
                Adjuster(g, k, p))
            == Cell(st[c], ss, RowOn(d, c, p), b)
  {
    hide Xor;
    var g := GridOf(st, ss, b);
    DiagSumSolved(g, d, k, p, c);
    Drop(DiagSumBut(g, d, k, p, c), DiagSum(g, d, k, p), Adjuster(g, k, p));
  }

  lemma Drop(part: byte, all: byte, s: byte)
    ensures Xor(Xor(part, Xor(all, s)), s) == Xor(part, all)
    ensures Xor(Xor(part, NUL), s) == Xor(part, s)
  {
  }

  /** S from the diagonal that misses data column c. */
  lemma AdjusterFromDiagonal(st: seq<seq<byte>>, k: nat, p: nat, ss: nat, c: nat, d: nat, b: nat)
    requires 0 < p && k <= p && EvenOddStripe(st, k, p, ss) && b < ss && c < k && d < p && RowOn(d, c, p) == p - 1
    ensures var g := GridOf(st, ss, b);
            Xor(DiagSumBut(g, d, k, p, c), if d == p - 1 then NUL else Cell(st[k + 1], ss, d, b)) == Adjuster(g, k, p)
  {
    hide Xor;
    var g := GridOf(st, ss, b);
    SymbolFromDiagonal(st, k, p, ss, c, d, b);
    var part := Xor(DiagSumBut(g, d, k, p, c), if d == p - 1 then NUL else Cell(st[k + 1], ss, d, b));
    EqualIfCancels(part, Adjuster(g, k, p));
  }

  lemma EqualIfCancels(x: byte, y: byte)
    requires Xor(x, y) == NUL
    ensures x == y
  {
  }

  /** A data or row parity symbol from its row. */
  lemma SymbolFromRow(st: seq<seq<byte>>, k: nat, p: nat, ss: nat, c: nat, s: nat, b: nat)
    requires 0 < p && k < |st| && RowParity(st, k, p, ss) && b < ss && c <= k && s < p - 1
    ensures RowSumBut(GridOf(st, ss, b), s, k + 1, c, -1) == Cell(st[c], ss, s, b)
  {
    hide Xor;
    var g := GridOf(st, ss, b);
    RowSumsToZero(st, k, p, ss, s, b);
    RowSumSolved(g, s, k + 1, c, -1);
    SolveByteZero(RowSumBut(g, s, k + 1, c, -1), g(c, s));
  }

  lemma SolveByteZero(x: byte, y: byte)
    requires Xor(x, y) == Xor(NUL, NUL)
    ensures x == y
  {
  }
}
