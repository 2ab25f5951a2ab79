/** The repair of lost data chunks in EVENODD. */
module EvenOddRepair {
  import opened Buffers
  import opened RepairSchedule
  import opened ArrayCode
  import opened RdpRepair
  import opened EvenOddCode

  /** s holds S. */
  ghost predicate HoldsAdjuster(s: seq<byte>, st: seq<seq<byte>>, k: nat, p: nat, ss: nat)
    requires 0 < p && k <= p
  {
    |s| == ss && forall b: nat :: b < ss ==> Cell(s, ss, 0, b) == Adjuster(GridOf(st, ss, b), k, p)
  }

  // ----- S -----

  /** A data chunk and the row parity are lost: S from the diagonal that misses the lost chunk. */
  method RecoverAdjuster(chunks: seq<array<byte>>, f: nat, k: nat, p: nat, ss: nat, ghost st: seq<seq<byte>>)
    returns (s: array<byte>)
    requires k <= p <= 0x8000_0000 && f < k && EvenOddStripe(st, k, p, ss) && Separate(chunks, k + 2, Offset(p - 1, ss))
    requires forall c :: 0 <= c < k + 2 && c != f && c != k ==> chunks[c][..] == st[c]
    ensures fresh(s) && HoldsAdjuster(s[..], st, k, p, ss)
  {
    hide Xor, DiagonalSummed, Adjuster;
    var pidx := (f - 1 + p) % p;
    WrapIsMod(f - 1 + p, p);
    s := new byte[ss](_ => NUL);
    NothingSummed(s[..], st, pidx, p, f, ss);
    var cidx := 0;
    while cidx < k
      invariant 0 <= cidx <= k && DiagonalSummed(s[..], st, pidx, cidx, p, f, ss)
    {
      if cidx != f {
        AddOnDiagonal(s, chunks[cidx], pidx, cidx, f, p, ss, st);
      } else {
        SkipLost(s[..], st, pidx, p, f, ss);
      }
      cidx := cidx + 1;
    }
    ghost var before := s[..];
    if pidx != p - 1 {
      OffsetOrder(pidx, p - 1, ss);
      XorSymbol(s, 0, chunks[k + 1], pidx, 0, ss, ss);
    }
    DiagonalIsAdjuster(before, s[..], st, k, p, ss, f, pidx);
  }

  /** s holds what the first n columns but f have on diagonal pidx. */
  ghost predicate DiagonalSummed(s: seq<byte>, st: seq<seq<byte>>, pidx: nat, n: nat, p: nat, f: nat, ss: nat)
    requires pidx < p && n <= p
  {
    forall b: nat :: b < ss ==> Cell(s, ss, 0, b) == DiagSumBut(GridOf(st, ss, b), pidx, n, p, f)
  }

  lemma NothingSummed(s: seq<byte>, st: seq<seq<byte>>, pidx: nat, p: nat, f: nat, ss: nat)
    requires pidx < p && |s| == ss && forall j :: 0 <= j < ss ==> s[j] == NUL
    ensures DiagonalSummed(s, st, pidx, 0, p, f, ss)
  {
  }

  lemma SkipLost(s: seq<byte>, st: seq<seq<byte>>, pidx: nat, p: nat, f: nat, ss: nat)
    requires pidx < p && f < p && DiagonalSummed(s, st, pidx, f, p, f, ss)
    ensures DiagonalSummed(s, st, pidx, f + 1, p, f, ss)
  {
    hide Xor;
  }

  /** Adds the symbol of column cidx that lies on diagonal pidx; only the lost column misses that diagonal. */
  method AddOnDiagonal(s: array<byte>, src: array<byte>, pidx: nat, cidx: nat, f: nat, p: nat, ss: nat,
                       ghost st: seq<seq<byte>>)
    requires f < p <= 0x8000_0000 && s != src && s.Length == ss && src.Length == Offset(p - 1, ss)
    requires pidx == (f - 1 + p) % p < p && cidx < p && cidx != f && cidx < |st| && src[..] == st[cidx]
    requires DiagonalSummed(s[..], st, pidx, cidx, p, f, ss)
    modifies s
    ensures DiagonalSummed(s[..], st, pidx, cidx + 1, p, f, ss)
  {
    hide Xor;
    WrapIsMod(f - 1 + p, p);
    var sidx := (pidx + p - cidx) % p;
    RowOnIsModular(pidx, cidx, p);
    OffsetOrder(sidx, p - 1, ss);
    XorSymbol(s, 0, src, sidx, 0, ss, ss);
  }

  /** With the parity symbol of the diagonal added, the adjuster is left. */
  lemma DiagonalIsAdjuster(before: seq<byte>, s: seq<byte>, st: seq<seq<byte>>, k: nat, p: nat, ss: nat, f: nat,
                           pidx: nat)
    requires k <= p <= 0x8000_0000 && f < k && EvenOddStripe(st, k, p, ss) && |s| == ss && pidx < p
    requires pidx == (f - 1 + p) % p && DiagonalSummed(before, st, pidx, k, p, f, ss)
    requires forall b: nat :: b < ss ==>
               Cell(s, ss, 0, b) == (if pidx != p - 1 then Xor(Cell(before, ss, 0, b), Cell(st[k + 1], ss, pidx, b))
                                     else Cell(before, ss, 0, b))
    ensures HoldsAdjuster(s, st, k, p, ss)
  {
    hide Xor;
    WrapIsMod(f - 1 + p, p);
    forall b: nat | b < ss ensures Cell(s, ss, 0, b) == Adjuster(GridOf(st, ss, b), k, p) {
      AddCancel(DiagSumBut(GridOf(st, ss, b), pidx, k, p, f), NUL);
      AdjusterFromDiagonal(st, k, p, ss, f, pidx, b);
    }
  }

  /** Two data chunks are lost: S as the XOR of all symbols of both parity chunks. */
  method AdjusterOfParities(chunks: seq<array<byte>>, k: nat, p: nat, ss: nat, ghost st: seq<seq<byte>>)
    returns (s: array<byte>)
    requires p % 2 == 1 && 3 <= p && k <= p && EvenOddStripe(st, k, p, ss) && Separate(chunks, k + 2, Offset(p - 1, ss))
    requires chunks[k][..] == st[k] && chunks[k + 1][..] == st[k + 1]
    ensures fresh(s) && HoldsAdjuster(s[..], st, k, p, ss)
  {
    hide Xor, ParitiesSummed, Adjuster, ColumnSum;
    OffsetOrder(0, p - 1, ss);
    s := new byte[ss](i requires 0 <= i < ss reads chunks[k] => chunks[k][i]);
    XorSymbol(s, 0, chunks[k + 1], 0, 0, ss, ss);
    FirstSymbols(s[..], st, k, p, ss);
    var sidx := 1;
    while sidx < p - 1
      invariant 1 <= sidx <= p - 1
      invariant ParitiesSummed(s[..], st[k], st[k + 1], ss, sidx)
    {
      AddParitySymbols(s, chunks[k], chunks[k + 1], sidx, p, ss);
      sidx := sidx + 1;
    }
    SummedIsAdjuster(s[..], st, k, p, ss);
  }

  /** s holds the sum of the first n symbols of both parity chunks. */
  ghost predicate ParitiesSummed(s: seq<byte>, rowP: seq<byte>, diagP: seq<byte>, ss: nat, n: nat) {
    forall b: nat :: b < ss ==> Cell(s, ss, 0, b) == Xor(ColumnSum(rowP, ss, b, n), ColumnSum(diagP, ss, b, n))
  }

  lemma SummedIsAdjuster(s: seq<byte>, st: seq<seq<byte>>, k: nat, p: nat, ss: nat)
    requires p % 2 == 1 && 3 <= p && k <= p && EvenOddStripe(st, k, p, ss) && |s| == ss
    requires ParitiesSummed(s, st[k], st[k + 1], ss, p - 1)
    ensures HoldsAdjuster(s, st, k, p, ss)
  {
    hide Xor;
    forall b: nat | b < ss ensures Cell(s, ss, 0, b) == Adjuster(GridOf(st, ss, b), k, p) {
      AdjusterFromParities(st, k, p, ss, b);
    }
  }

  method AddParitySymbols(s: array<byte>, rowP: array<byte>, diagP: array<byte>, sidx: nat, p: nat, ss: nat)
    requires sidx < p - 1 && s != rowP && s != diagP && s.Length == ss
             && rowP.Length == diagP.Length == Offset(p - 1, ss)
    requires ParitiesSummed(s[..], rowP[..], diagP[..], ss, sidx)
    modifies s
    ensures ParitiesSummed(s[..], rowP[..], diagP[..], ss, sidx + 1)
  {
    hide Xor;
    ghost var before, P, Q := s[..], rowP[..], diagP[..];
    OffsetOrder(sidx, p - 1, ss);
    XorSymbol(s, 0, rowP, sidx, 0, ss, ss);
    XorSymbol(s, 0, diagP, sidx, 0, ss, ss);
    forall b: nat | b < ss
      ensures Cell(s[..], ss, 0, b) == Xor(ColumnSum(P, ss, b, sidx + 1), ColumnSum(Q, ss, b, sidx + 1))
    {
      Assoc(Cell(before, ss, 0, b), Cell(P, ss, sidx, b), Cell(Q, ss, sidx, b));
      Interchange(ColumnSum(P, ss, b, sidx), ColumnSum(Q, ss, b, sidx), Cell(P, ss, sidx, b), Cell(Q, ss, sidx, b));
    }
  }

  lemma FirstSymbols(s: seq<byte>, st: seq<seq<byte>>, k: nat, p: nat, ss: nat)
    requires k + 1 < |st|
    requires forall b: nat :: b < ss ==> Cell(s, ss, 0, b) == Xor(Cell(st[k], ss, 0, b), Cell(st[k + 1], ss, 0, b))
    ensures ParitiesSummed(s, st[k], st[k + 1], ss, 1)
  {
    hide Xor;
    forall c, b: nat | 0 <= c < |st| ensures ColumnSum(st[c], ss, b, 1) == Cell(st[c], ss, 0, b) {
      assert ColumnSum(st[c], ss, b, 1) == Xor(ColumnSum(st[c], ss, b, 0), Cell(st[c], ss, 0, b));
      ZeroPlus(Cell(st[c], ss, 0, b));
    }
  }

  // ----- single symbols -----

  /**
   * Data symbol (f, sidxToRepair) from diagonal pidx. The zig-zag also tests for the row under repair,
   * a test that no other column meets.
   */
  method RepairOnDiagonal(chunks: seq<array<byte>>, f: nat, sidxToRepair: nat, pidx: nat, s: array<byte>, zigzag: bool,
                          k: nat, p: nat, ss: nat, ghost st: seq<seq<byte>>)
    requires k <= p <= 0x8000_0000 && f < k && EvenOddStripe(st, k, p, ss) && Separate(chunks, k + 2, Offset(p - 1, ss))
    requires pidx < p && sidxToRepair < p - 1 && sidxToRepair == RowOn(pidx, f, p)
    requires HoldsAdjuster(s[..], st, k, p, ss) && forall c :: 0 <= c < k + 2 ==> chunks[c] != s
    requires forall b: nat :: b < ss ==> Cell(chunks[f][..], ss, sidxToRepair, b) == NUL
    requires forall c: nat, b: nat :: c < k && c != f && b < ss ==>
      Cell(chunks[c][..], ss, RowOn(pidx, c, p), b) == Cell(st[c], ss, RowOn(pidx, c, p), b)
    requires pidx != p - 1 ==> chunks[k + 1][..] == st[k + 1]
    modifies chunks[f]
    ensures OnlySymbol(old(chunks[f][..]), chunks[f][..], ss, sidxToRepair)
    ensures forall b: nat :: b < ss ==> Cell(chunks[f][..], ss, sidxToRepair, b) == Cell(st[f], ss, sidxToRepair, b)
  {
    hide Xor;
    var dst := chunks[f];
    ghost var was := dst[..];
    OffsetOrder(sidxToRepair, p - 1, ss);
    var cidx := 0;
    while cidx < k
      invariant 0 <= cidx <= k && OnlySymbol(was, dst[..], ss, sidxToRepair)
      invariant forall b: nat :: b < ss ==>
        Cell(dst[..], ss, sidxToRepair, b) == DiagSumBut(GridOf(st, ss, b), pidx, cidx, p, f)
    {
      if cidx != f {
        AddDiagonalSymbol(dst, chunks[cidx], cidx, f, sidxToRepair, pidx, zigzag, k, p, ss, st);
      }
      cidx := cidx + 1;
    }
    FinishDiagonalSymbol(dst, chunks[k + 1], s, f, sidxToRepair, pidx, k, p, ss, st);
  }

  method AddDiagonalSymbol(dst: array<byte>, src: array<byte>, cidx: nat, f: nat, sidxToRepair: nat, pidx: nat,
                           zigzag: bool, k: nat, p: nat, ss: nat, ghost st: seq<seq<byte>>)
    requires 0 < p && dst != src && dst.Length == src.Length == Offset(p - 1, ss)
    requires pidx < p <= 0x8000_0000 && sidxToRepair < p - 1 && cidx < k <= p && cidx < |st| && f < p && cidx != f
    requires sidxToRepair == RowOn(pidx, f, p)
    requires forall b: nat :: b < ss ==>
      Cell(src[..], ss, RowOn(pidx, cidx, p), b) == Cell(st[cidx], ss, RowOn(pidx, cidx, p), b)
    requires forall b: nat :: b < ss ==>
      Cell(dst[..], ss, sidxToRepair, b) == DiagSumBut(GridOf(st, ss, b), pidx, cidx, p, f)
    modifies dst
    ensures OnlySymbol(old(dst[..]), dst[..], ss, sidxToRepair)
    ensures forall b: nat :: b < ss ==>
      Cell(dst[..], ss, sidxToRepair, b) == DiagSumBut(GridOf(st, ss, b), pidx, cidx + 1, p, f)
  {
    hide Xor;
    RowOnIsModular(pidx, cidx, p);
    OffsetOrder(sidxToRepair, p - 1, ss);
    var sidx: nat := (pidx + p - cidx) % p;
    if !(zigzag && sidx == sidxToRepair) && sidx != p - 1 {
      OffsetOrder(sidx, p - 1, ss);
      XorSymbol(dst, sidxToRepair, src, sidx, 0, ss, ss);
    } else {
      forall b: nat | b < ss
        ensures Xor(Cell(dst[..], ss, sidxToRepair, b), NUL) == Cell(dst[..], ss, sidxToRepair, b)
      {
        AddCancel(Cell(dst[..], ss, sidxToRepair, b), NUL);
      }
      assert forall b: nat :: b < ss ==> Cell(src[..], ss, sidx, b) == NUL;
    }
  }

  method FinishDiagonalSymbol(dst: array<byte>, parity: array<byte>, s: array<byte>, f: nat, sidxToRepair: nat,
                              pidx: nat, k: nat, p: nat, ss: nat, ghost st: seq<seq<byte>>)
    requires k <= p && f < k && EvenOddStripe(st, k, p, ss) && dst != parity && dst != s
    requires dst.Length == parity.Length == Offset(p - 1, ss)
    requires pidx < p && sidxToRepair < p - 1 && sidxToRepair == RowOn(pidx, f, p)
    requires HoldsAdjuster(s[..], st, k, p, ss) && (pidx != p - 1 ==> parity[..] == st[k + 1])
    requires forall b: nat :: b < ss ==>
      Cell(dst[..], ss, sidxToRepair, b) == DiagSumBut(GridOf(st, ss, b), pidx, k, p, f)
    modifies dst
    ensures OnlySymbol(old(dst[..]), dst[..], ss, sidxToRepair)
    ensures forall b: nat :: b < ss ==> Cell(dst[..], ss, sidxToRepair, b) == Cell(st[f], ss, sidxToRepair, b)
  {
    hide Xor;
    OffsetOrder(sidxToRepair, p - 1, ss);
    if pidx != p - 1 {
      OffsetOrder(pidx, p - 1, ss);
      XorSymbol(dst, sidxToRepair, parity, pidx, 0, ss, ss);
    }
    XorSymbol(dst, sidxToRepair, s, 0, 0, ss, ss);
    forall b: nat | b < ss ensures Cell(dst[..], ss, sidxToRepair, b) == Cell(st[f], ss, sidxToRepair, b) {
      AddCancel(DiagSumBut(GridOf(st, ss, b), pidx, k, p, f), NUL);
      EvenOddCode.SymbolFromDiagonal(st, k, p, ss, f, pidx, b);
    }
  }

  /** Data symbol (f, sidxToRepair) from its row. */
  method RepairOnRow(chunks: seq<array<byte>>, f: nat, sidxToRepair: nat, k: nat, p: nat, ss: nat,
                     ghost st: seq<seq<byte>>)
    requires 0 < p && k <= p && f < k && EvenOddStripe(st, k, p, ss) && Separate(chunks, k + 2, Offset(p - 1, ss))
    requires sidxToRepair < p - 1
    requires forall b: nat :: b < ss ==> Cell(chunks[f][..], ss, sidxToRepair, b) == NUL
    requires forall c: nat, b: nat :: c < k + 1 && c != f && b < ss ==>
      Cell(chunks[c][..], ss, sidxToRepair, b) == Cell(st[c], ss, sidxToRepair, b)
    modifies chunks[f]
    ensures OnlySymbol(old(chunks[f][..]), chunks[f][..], ss, sidxToRepair)
    ensures forall b: nat :: b < ss ==> Cell(chunks[f][..], ss, sidxToRepair, b) == Cell(st[f], ss, sidxToRepair, b)
  {
    hide Xor;
    var dst := chunks[f];
    ghost var was := dst[..];
    OffsetOrder(sidxToRepair, p - 1, ss);
    var cidx := 0;
    while cidx < k + 1
      invariant 0 <= cidx <= k + 1 && OnlySymbol(was, dst[..], ss, sidxToRepair)
      invariant forall b: nat :: b < ss ==>
        Cell(dst[..], ss, sidxToRepair, b) == RowSumBut(GridOf(st, ss, b), sidxToRepair, cidx, f, -1)
    {
      if cidx != f {
        XorSymbol(dst, sidxToRepair, chunks[cidx], sidxToRepair, 0, ss, ss);
      }
      cidx := cidx + 1;
    }
    forall b: nat | b < ss ensures Cell(dst[..], ss, sidxToRepair, b) == Cell(st[f], ss, sidxToRepair, b) {
      EvenOddCode.SymbolFromRow(st, k, p, ss, f, sidxToRepair, b);
    }
  }

  // ----- whole chunks -----

  /** All symbols of lost data chunk f along their diagonals, the row parity being lost as well. */
  method RepairDataChunk(chunks: seq<array<byte>>, f: nat, k: nat, p: nat, ss: nat, ghost st: seq<seq<byte>>)
    requires 0 < p && k <= p <= 0x8000_0000 && f < k && EvenOddStripe(st, k, p, ss)
             && Separate(chunks, k + 2, Offset(p - 1, ss))
    requires forall c :: 0 <= c < k + 2 && c != f && c != k ==> chunks[c][..] == st[c]
    requires forall j :: 0 <= j < chunks[f].Length ==> chunks[f][j] == NUL
    modifies chunks[f]
    ensures chunks[f][..] == st[f]
  {
    hide Xor;
    // the adjuster must be known before any diagonal is used
    var s := RecoverAdjuster(chunks, f, k, p, ss, st);
    assert forall c :: 0 <= c < k + 2 ==> chunks[c] != s;
    NothingRepaired(chunks[f][..], st[f], p, ss);
    // then each diagonal yields the symbol it has in the lost column
    ghost var rows: set<nat> := {};
    var sidxToRepair: nat := 0;
    while sidxToRepair < p - 1
      invariant 0 <= sidxToRepair <= p - 1 && HoldsAdjuster(s[..], st, k, p, ss)
      invariant forall t: nat :: t in rows <==> t < sidxToRepair
      invariant forall c :: 0 <= c < k + 2 && c != f && c != k ==> chunks[c][..] == st[c]
      invariant Repaired(chunks[f][..], st[f], rows, p, ss)
    {
      ghost var was := chunks[f][..];
      var pidx := (f + sidxToRepair) % p;
      DiagonalOf(f, sidxToRepair, p);
      RepairOnDiagonal(chunks, f, sidxToRepair, pidx, s, false, k, p, ss, st);
      RepairedStep(was, chunks[f][..], st[f], rows, sidxToRepair, p, ss);
      rows := rows + {sidxToRepair};
      sidxToRepair := sidxToRepair + 1;
    }
    AllRepaired(chunks[f][..], st[f], rows, p, ss);
  }

  /** The zig-zag: data chunks f0 and f1 are lost and cleared. */
  method RepairTwoChunks(chunks: seq<array<byte>>, f0: nat, f1: nat, k: nat, p: nat, ss: nat, ghost st: seq<seq<byte>>)
    requires TwoLost(f0, f1, p) && p % 2 == 1 && f1 < k <= p && EvenOddStripe(st, k, p, ss)
    requires Separate(chunks, k + 2, Offset(p - 1, ss))
    requires forall c :: 0 <= c < k + 2 && c != f0 && c != f1 ==> chunks[c][..] == st[c]
    requires forall j :: 0 <= j < chunks[f0].Length ==> chunks[f0][j] == NUL
    requires forall j :: 0 <= j < chunks[f1].Length ==> chunks[f1][j] == NUL
    modifies chunks[f0], chunks[f1]
    ensures chunks[f0][..] == st[f0] && chunks[f1][..] == st[f1]
  {
    hide Xor, EvenOddAt, RowParity, AdjustedParity, HoldsAdjuster, Repaired;
    var s := AdjusterOfParities(chunks, k, p, ss, st);
    assert forall c :: 0 <= c < k + 2 ==> chunks[c] != s;
    EvenOddFirst(f0, f1, p);
    var pidx: nat := (f0 - 1 + p) % p;
    var sidxToRepair: nat := (pidx + p - f1) % p;
    NothingRepaired(chunks[f0][..], st[f0], p, ss);
    NothingRepaired(chunks[f1][..], st[f1], p, ss);
    ghost var t := 0;
    var recoveredSymbolCount := 0;
    while recoveredSymbolCount < (p - 1) * 2
      invariant recoveredSymbolCount == 2 * t && t <= p - 1 && HoldsAdjuster(s[..], st, k, p, ss)
      invariant Cursor(f0, f1, pidx, sidxToRepair) == EvenOddAt(t, f0, f1, p)
      invariant forall c :: 0 <= c < k + 2 && c != f0 && c != f1 ==> chunks[c][..] == st[c]
      invariant Repaired(chunks[f0][..], st[f0], EvenOddRows(t, f0, f1, p), p, ss)
      invariant Repaired(chunks[f1][..], st[f1], EvenOddRows(t, f0, f1, p), p, ss)
    {
      ZigZag(chunks, f0, f1, t, pidx, sidxToRepair, s, k, p, ss, st);
      EvenOddNext(t, f0, f1, p);
      pidx := (f0 + sidxToRepair) % p;
      sidxToRepair := (pidx + p - f1) % p;
      t := t + 1;
      recoveredSymbolCount := recoveredSymbolCount + 2;
    }
    ghost var rows := EvenOddRows(t, f0, f1, p);
    forall r: nat | r < p - 1 ensures r in rows {
      EvenOddReachesEveryRow(r, f0, f1, p);
    }
    AllRepaired(chunks[f0][..], st[f0], rows, p, ss);
    AllRepaired(chunks[f1][..], st[f1], rows, p, ss);
  }

  lemma EvenOddFirst(f0: nat, f1: nat, p: nat)
    requires 0 < p && f1 <= p
    ensures EvenOddAt(0, f0, f1, p) == Cursor(f0, f1, (f0 - 1 + p) % p, ((f0 - 1 + p) % p + p - f1) % p)
  {
  }

  lemma EvenOddNext(t: nat, f0: nat, f1: nat, p: nat)
    requires 0 < p && f1 <= p
    ensures var c := EvenOddAt(t, f0, f1, p);
            var pidx := (f0 + c.sidx) % p;
            EvenOddAt(t + 1, f0, f1, p) == Cursor(f0, f1, pidx, (pidx + p - f1) % p)
  {
  }

  /** One iteration: chunk f1 along diagonal pidx, then chunk f0 along the same row. */
  method ZigZag(chunks: seq<array<byte>>, f0: nat, f1: nat, ghost t: nat, pidx: nat, sidxToRepair: nat, s: array<byte>,
                k: nat, p: nat, ss: nat, ghost st: seq<seq<byte>>)
    requires TwoLost(f0, f1, p) && f1 < k <= p && t < p - 1 && EvenOddStripe(st, k, p, ss)
    requires Separate(chunks, k + 2, Offset(p - 1, ss))
    requires Cursor(f0, f1, pidx, sidxToRepair) == EvenOddAt(t, f0, f1, p)
    requires HoldsAdjuster(s[..], st, k, p, ss) && forall c :: 0 <= c < k + 2 ==> chunks[c] != s
    requires forall c :: 0 <= c < k + 2 && c != f0 && c != f1 ==> chunks[c][..] == st[c]
    requires Repaired(chunks[f0][..], st[f0], EvenOddRows(t, f0, f1, p), p, ss)
    requires Repaired(chunks[f1][..], st[f1], EvenOddRows(t, f0, f1, p), p, ss)
    modifies chunks[f0], chunks[f1]
    ensures Repaired(chunks[f0][..], st[f0], EvenOddRows(t + 1, f0, f1, p), p, ss)
    ensures Repaired(chunks[f1][..], st[f1], EvenOddRows(t + 1, f0, f1, p), p, ss)
  {
    hide Xor, EvenOddAt;
    ghost var was0, was1, rows := chunks[f0][..], chunks[f1][..], EvenOddRows(t, f0, f1, p);
    EvenOddReadsRepaired(t, f0, f1, p);
    EvenOddRowIsNew(t, f0, f1, p);
    Readable(was0, st[f0], rows, RowOn(pidx, f0, p), p, ss);
    RepairOnDiagonal(chunks, f1, sidxToRepair, pidx, s, true, k, p, ss, st);
    RepairOnRow(chunks, f0, sidxToRepair, k, p, ss, st);
    RepairedStep(was0, chunks[f0][..], st[f0], rows, sidxToRepair, p, ss);
    RepairedStep(was1, chunks[f1][..], st[f1], rows, sidxToRepair, p, ss);
  }
}
