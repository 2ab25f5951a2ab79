/** The two-erasure repair step of RDP. */
module RdpRepair {
  import opened Buffers
  import opened RepairSchedule
  import opened ArrayCode

  /** XORs the symbol that column cidx has on diagonal didx; row p - 1 holds nothing. */
  method XorOnDiagonal(dst: array<byte>, di: nat, src: array<byte>, cidx: nat, didx: nat, p: nat, ss: nat)
    requires dst != src && didx < p <= 0x8000_0000 && cidx < p
    requires Offset(di, ss) + ss <= dst.Length && src.Length == Offset(p - 1, ss)
    modifies dst
    ensures forall s: nat, b: nat :: b < ss ==>
              Cell(dst[..], ss, s, b) ==
              (if s == di then Xor(old(Cell(dst[..], ss, s, b)), Cell(src[..], ss, RowOn(didx, cidx, p), b))
               else old(Cell(dst[..], ss, s, b)))
  {
    hide Xor;
    RowOnIsModular(didx, cidx, p);
    var sidx := (didx + p - cidx) % p;
    if sidx != p - 1 {
      OffsetOrder(sidx, p - 1, ss);
      XorSymbol(dst, di, src, sidx, 0, ss, ss);
    } else {
      forall b: nat | b < ss ensures Xor(Cell(dst[..], ss, di, b), NUL) == Cell(dst[..], ss, di, b) {
        AddCancel(Cell(dst[..], ss, di, b), NUL);
      }
    }
  }

  /** The two symbols under repair hold the sums over the columns before cidx. */
  ghost predicate Partial(D: seq<byte>, R: seq<byte>, cidx: nat, st: seq<seq<byte>>, cur: Cursor, p: nat, ss: nat)
    requires cur.didx < p && cidx <= p
  {
    forall b: nat :: b < ss ==>
      && Cell(D, ss, cur.sidx, b) == DiagSumBut(GridOf(st, ss, b), cur.didx, cidx, p, cur.diagCol)
      && Cell(R, ss, cur.sidx, b) == RowSumBut(GridOf(st, ss, b), cur.sidx, cidx, cur.diagCol, cur.rowCol)
  }

  /** One column more. */
  lemma PartialStep(D: seq<byte>, R: seq<byte>, D': seq<byte>, R': seq<byte>, cidx: nat,
                    st: seq<seq<byte>>, cur: Cursor, p: nat, ss: nat)
    requires cur.didx < p && cidx < p && cidx < |st| && Partial(D, R, cidx, st, cur, p, ss)
    requires forall b: nat :: b < ss ==>
      Cell(D', ss, cur.sidx, b) ==
      if cidx == cur.diagCol then Cell(D, ss, cur.sidx, b)
      else Xor(Cell(D, ss, cur.sidx, b), Cell(st[cidx], ss, RowOn(cur.didx, cidx, p), b))
    requires forall b: nat :: b < ss ==>
      Cell(R', ss, cur.sidx, b) ==
      if cidx == cur.diagCol || cidx == cur.rowCol then Cell(R, ss, cur.sidx, b)
      else Xor(Cell(R, ss, cur.sidx, b), Cell(st[cidx], ss, cur.sidx, b))
    ensures Partial(D', R', cidx + 1, st, cur, p, ss)
  {
    hide Xor;
  }

  /** A symbol of the stripe is what its diagonal leaves when the other columns are summed. */
  lemma SymbolFromDiagonal(st: seq<seq<byte>>, k: nat, p: nat, ss: nat, c: nat, d: nat, b: nat)
    requires k + 1 <= p && RdpStripe(st, k, p, ss) && b < ss && c <= k && d < p - 1
    ensures Xor(DiagSumBut(GridOf(st, ss, b), d, k + 1, p, c), Cell(st[k + 1], ss, d, b))
            == Cell(st[c], ss, RowOn(d, c, p), b)
  {
    hide Xor;
    DiagSumSolved(GridOf(st, ss, b), d, k + 1, p, c);
  }

  /** And what its row leaves, once the other lost column is known. */
  lemma SymbolFromRow(st: seq<seq<byte>>, k: nat, p: nat, ss: nat, c: nat, other: nat, s: nat, b: nat)
    requires 0 < p && IsStripe(st, k + 2, p, ss) && RowParity(st, k, p, ss) && b < ss
    requires c <= k && other <= k && c != other && s < p - 1
    ensures Xor(RowSumBut(GridOf(st, ss, b), s, k + 1, other, c), Cell(st[other], ss, s, b)) == Cell(st[c], ss, s, b)
  {
    hide Xor;
    RowSumsToZero(st, k, p, ss, s, b);
    RowSumSolved(GridOf(st, ss, b), s, k + 1, other, c);
    ZeroPlus(Cell(st[c], ss, s, b));
  }

  /** Only symbol s of a chunk changed. */
  ghost predicate OnlySymbol(was: seq<byte>, now: seq<byte>, ss: nat, s: nat) {
    |now| == |was| && forall t: nat, b: nat :: t != s && b < ss ==> Cell(now, ss, t, b) == Cell(was, ss, t, b)
  }

  /** The body of the inner loop: adds column cidx to both symbols under repair. */
  method XorColumn(D: array<byte>, R: array<byte>, src: array<byte>, cidx: nat, cur: Cursor, p: nat, ss: nat,
                   ghost st: seq<seq<byte>>)
    requires D != R && cidx < p <= 0x8000_0000 && cidx < |st| && cur.didx < p - 1 && cur.sidx < p - 1
    requires D.Length == R.Length == src.Length == Offset(p - 1, ss)
    requires cur.rowCol != cur.diagCol
    requires (cidx == cur.diagCol <==> src == D) && (cidx == cur.rowCol <==> src == R)
    requires cidx != cur.diagCol ==> forall b: nat :: b < ss ==>
      Cell(src[..], ss, RowOn(cur.didx, cidx, p), b) == Cell(st[cidx], ss, RowOn(cur.didx, cidx, p), b)
    requires cidx != cur.diagCol && cidx != cur.rowCol ==> src[..] == st[cidx]
    requires Partial(D[..], R[..], cidx, st, cur, p, ss)
    modifies D, R
    ensures Partial(D[..], R[..], cidx + 1, st, cur, p, ss)
    ensures OnlySymbol(old(D[..]), D[..], ss, cur.sidx) && OnlySymbol(old(R[..]), R[..], ss, cur.sidx)
  {
    hide Xor;
    OffsetOrder(cur.sidx, p - 1, ss);
    if cidx != cur.diagCol {
      XorOnDiagonal(D, cur.sidx, src, cidx, cur.didx, p, ss);
      if cidx != cur.rowCol {
        XorSymbol(R, cur.sidx, src, cur.sidx, 0, ss, ss);
      }
    }
    PartialStep(old(D[..]), old(R[..]), D[..], R[..], cidx, st, cur, p, ss);
  }

  /** One iteration of the two-erasure repair: a symbol along a diagonal, then one along its row. */
  method RepairPair(chunks: seq<array<byte>>, k: nat, p: nat, ss: nat, cur: Cursor, ghost st: seq<seq<byte>>)
    requires k + 1 <= p <= 0x8000_0000 && RdpStripe(st, k, p, ss) && Separate(chunks, k + 2, Offset(p - 1, ss))
    requires cur.rowCol <= k && cur.diagCol <= k && cur.rowCol != cur.diagCol
    requires cur.didx < p - 1 && cur.sidx < p - 1 && cur.sidx == RowOn(cur.didx, cur.diagCol, p)
    requires forall c :: 0 <= c < k + 2 && c != cur.rowCol && c != cur.diagCol ==> chunks[c][..] == st[c]
    requires forall b: nat :: b < ss ==>
               Cell(chunks[cur.rowCol][..], ss, RowOn(cur.didx, cur.rowCol, p), b)
               == Cell(st[cur.rowCol], ss, RowOn(cur.didx, cur.rowCol, p), b)
    requires forall b: nat :: b < ss ==>
               Cell(chunks[cur.rowCol][..], ss, cur.sidx, b) == NUL
               && Cell(chunks[cur.diagCol][..], ss, cur.sidx, b) == NUL
    modifies chunks[cur.rowCol], chunks[cur.diagCol]
    ensures OnlySymbol(old(chunks[cur.rowCol][..]), chunks[cur.rowCol][..], ss, cur.sidx)
    ensures OnlySymbol(old(chunks[cur.diagCol][..]), chunks[cur.diagCol][..], ss, cur.sidx)
    ensures forall b: nat :: b < ss ==>
              && Cell(chunks[cur.rowCol][..], ss, cur.sidx, b) == Cell(st[cur.rowCol], ss, cur.sidx, b)
              && Cell(chunks[cur.diagCol][..], ss, cur.sidx, b) == Cell(st[cur.diagCol], ss, cur.sidx, b)
  {
    hide Xor;
    var R, D := chunks[cur.rowCol], chunks[cur.diagCol];
    ghost var rowCells, diagCells := R[..], D[..];
    assert RowOn(cur.didx, cur.rowCol, p) != cur.sidx;
    var cidx := 0;
    while cidx < k + 1
      invariant 0 <= cidx <= k + 1
      invariant forall c :: 0 <= c < k + 2 && c != cur.rowCol && c != cur.diagCol ==> chunks[c][..] == st[c]
      invariant OnlySymbol(rowCells, R[..], ss, cur.sidx) && OnlySymbol(diagCells, D[..], ss, cur.sidx)
      invariant Partial(D[..], R[..], cidx, st, cur, p, ss)
    {
      XorColumn(D, R, chunks[cidx], cidx, cur, p, ss, st);
      cidx := cidx + 1;
    }
    AddParity(D, R, chunks[k + 1], k, cur, p, ss, st);
  }

  /** The two XORs after the inner loop. */
  method AddParity(D: array<byte>, R: array<byte>, parity: array<byte>, k: nat, cur: Cursor, p: nat, ss: nat,
                   ghost st: seq<seq<byte>>)
    requires k + 1 <= p && RdpStripe(st, k, p, ss) && D != R && D != parity && R != parity
    requires cur.rowCol <= k && cur.diagCol <= k && cur.rowCol != cur.diagCol
    requires cur.didx < p - 1 && cur.sidx < p - 1 && cur.sidx == RowOn(cur.didx, cur.diagCol, p)
    requires D.Length == R.Length == Offset(p - 1, ss) && parity[..] == st[k + 1]
    requires Partial(D[..], R[..], k + 1, st, cur, p, ss)
    modifies D, R
    ensures OnlySymbol(old(D[..]), D[..], ss, cur.sidx) && OnlySymbol(old(R[..]), R[..], ss, cur.sidx)
    ensures forall b: nat :: b < ss ==>
              && Cell(R[..], ss, cur.sidx, b) == Cell(st[cur.rowCol], ss, cur.sidx, b)
              && Cell(D[..], ss, cur.sidx, b) == Cell(st[cur.diagCol], ss, cur.sidx, b)
  {
    hide Xor;
    OffsetOrder(cur.didx, p - 1, ss);
    OffsetOrder(cur.sidx, p - 1, ss);
    XorSymbol(D, cur.sidx, parity, cur.didx, 0, ss, ss);
    XorSymbol(R, cur.sidx, D, cur.sidx, 0, ss, ss);
    forall b: nat | b < ss
      ensures Cell(R[..], ss, cur.sidx, b) == Cell(st[cur.rowCol], ss, cur.sidx, b)
      ensures Cell(D[..], ss, cur.sidx, b) == Cell(st[cur.diagCol], ss, cur.sidx, b)
    {
      SymbolFromDiagonal(st, k, p, ss, cur.diagCol, cur.didx, b);
      SymbolFromRow(st, k, p, ss, cur.rowCol, cur.diagCol, cur.sidx, b);
    }
  }

  // ----- progress of the whole repair -----

  /** The repaired rows of a lost chunk are right, the others still clear. */
  ghost predicate Repaired(now: seq<byte>, want: seq<byte>, rows: set<nat>, p: nat, ss: nat)
    requires 0 < p
  {
    |now| == |want| == Offset(p - 1, ss) && forall s: nat, b: nat :: s < p - 1 && b < ss ==>
      Cell(now, ss, s, b) == if s in rows then Cell(want, ss, s, b) else NUL
  }

  lemma RepairedStep(was: seq<byte>, now: seq<byte>, want: seq<byte>, rows: set<nat>, row: nat, p: nat, ss: nat)
    requires 0 < p && Repaired(was, want, rows, p, ss) && OnlySymbol(was, now, ss, row)
    requires forall b: nat :: b < ss ==> Cell(now, ss, row, b) == Cell(want, ss, row, b)
    ensures Repaired(now, want, rows + {row}, p, ss)
  {
  }

  /** Symbols of repaired rows and of the missing row p - 1 can be read. */
  lemma Readable(now: seq<byte>, want: seq<byte>, rows: set<nat>, row: nat, p: nat, ss: nat)
    requires 0 < p && Repaired(now, want, rows, p, ss) && (row == p - 1 || (row in rows && row < p))
    ensures forall b: nat :: b < ss ==> Cell(now, ss, row, b) == Cell(want, ss, row, b)
  {
  }

  lemma AllRepaired(now: seq<byte>, want: seq<byte>, rows: set<nat>, p: nat, ss: nat)
    requires 0 < p && Repaired(now, want, rows, p, ss) && forall s: nat :: s < p - 1 ==> s in rows
    ensures now == want
  {
    CellsDetermine(now, want, ss, p - 1);
  }

  lemma NothingRepaired(now: seq<byte>, want: seq<byte>, p: nat, ss: nat)
    requires 0 < p && |now| == |want| == Offset(p - 1, ss) && forall j :: 0 <= j < |now| ==> now[j] == NUL
    ensures Repaired(now, want, {}, p, ss)
  {
  }

  method Clear(chunk: array<byte>)
    modifies chunk
    ensures forall j :: 0 <= j < chunk.Length ==> chunk[j] == NUL
  {
    hide Xor;
    forall j | 0 <= j < chunk.Length {
      chunk[j] := NUL;
    }
  }

  method RepairIteration(chunks: seq<array<byte>>, f0: nat, f1: nat, ghost t: nat, cur: Cursor, k: nat, p: nat, ss: nat,
                         ghost st: seq<seq<byte>>)
    requires TwoLost(f0, f1, p) && f1 <= k && k + 1 <= p && t < p - 1 && cur == RdpAt(t, f0, f1, p)
    requires RdpStripe(st, k, p, ss) && Separate(chunks, k + 2, Offset(p - 1, ss))
    requires forall c :: 0 <= c < k + 2 && c != f0 && c != f1 ==> chunks[c][..] == st[c]
    requires Repaired(chunks[f0][..], st[f0], RdpRows(t, f0, f1, p), p, ss)
    requires Repaired(chunks[f1][..], st[f1], RdpRows(t, f0, f1, p), p, ss)
    modifies chunks[f0], chunks[f1]
    ensures Repaired(chunks[f0][..], st[f0], RdpRows(t + 1, f0, f1, p), p, ss)
    ensures Repaired(chunks[f1][..], st[f1], RdpRows(t + 1, f0, f1, p), p, ss)
  {
    hide Xor;
    ghost var was0, was1, rows := chunks[f0][..], chunks[f1][..], RdpRows(t, f0, f1, p);
    RdpReadsRepaired(t, f0, f1, p);
    RdpRowIsNew(t, f0, f1, p);
    Readable(chunks[cur.rowCol][..], st[cur.rowCol], rows, RowOn(cur.didx, cur.rowCol, p), p, ss);
    RepairPair(chunks, k, p, ss, cur, st);
    RepairedStep(was0, chunks[f0][..], st[f0], rows, cur.sidx, p, ss);
    RepairedStep(was1, chunks[f1][..], st[f1], rows, cur.sidx, p, ss);
  }

  /** The search for the next symbol, in uint32 arithmetic. */
  method NextSymbol(rowCol: nat, diagCol: nat, sidx: nat, p: nat, ghost didx: nat)
    returns (chunkToRRepair: nat, chunkToDRepair: nat, didxToRepair: nat, sidxToRepair: nat)
    requires 0 < p
    ensures Cursor(chunkToRRepair, chunkToDRepair, didxToRepair, sidxToRepair)
            == RdpNext(Cursor(rowCol, diagCol, didx, sidx), p)
  {
    hide Xor;
    chunkToRRepair, chunkToDRepair := rowCol, diagCol;
    didxToRepair := (chunkToRRepair + sidx) % p;
    sidxToRepair := ((didxToRepair + p - chunkToDRepair) % U32) % p;
    // no symbol of the last diagonal is stored, so change columns
    if didxToRepair == p - 1 {
      chunkToRRepair, chunkToDRepair := chunkToDRepair, chunkToRRepair;
      didxToRepair := (chunkToRRepair - 1) % U32;
      sidxToRepair := ((didxToRepair + p - chunkToDRepair) % U32) % p;
    }
  }

  /** The two-erasure branch of decode: f0 and f1 are data or row parity chunks. */
  method RepairBoth(chunks: seq<array<byte>>, f0: nat, f1: nat, k: nat, p: nat, ss: nat, ghost st: seq<seq<byte>>)
    requires TwoLost(f0, f1, p) && f1 <= k && k + 1 <= p
    requires RdpStripe(st, k, p, ss) && Separate(chunks, k + 2, Offset(p - 1, ss))
    requires forall c :: 0 <= c < k + 2 && c != f0 && c != f1 ==> chunks[c][..] == st[c]
    modifies chunks[f0], chunks[f1]
    ensures forall c :: 0 <= c < k + 2 ==> chunks[c][..] == st[c]
  {
    hide Xor;
    Clear(chunks[f0]);
    Clear(chunks[f1]);
    var chunkToRRepair: nat, chunkToDRepair: nat := f0, f1;
    // likewise at the start
    if f0 == 0 {
      chunkToDRepair, chunkToRRepair := f0, f1;
    }
    var didxToRepair: nat := (chunkToRRepair - 1) % U32;
    var sidxToRepair: nat := ((didxToRepair + p - chunkToDRepair) % U32) % p;
    NothingRepaired(chunks[f0][..], st[f0], p, ss);
    NothingRepaired(chunks[f1][..], st[f1], p, ss);
    ghost var t := 0;
    var recoveredSymbolCount := 0;
    while recoveredSymbolCount < (p - 1) * 2
      invariant recoveredSymbolCount == 2 * t && t <= p - 1
      invariant Cursor(chunkToRRepair, chunkToDRepair, didxToRepair, sidxToRepair) == RdpAt(t, f0, f1, p)
      invariant forall c :: 0 <= c < k + 2 && c != f0 && c != f1 ==> chunks[c][..] == st[c]
      invariant Repaired(chunks[f0][..], st[f0], RdpRows(t, f0, f1, p), p, ss)
      invariant Repaired(chunks[f1][..], st[f1], RdpRows(t, f0, f1, p), p, ss)
    {
      RepairIteration(chunks, f0, f1, t, Cursor(chunkToRRepair, chunkToDRepair, didxToRepair, sidxToRepair), k, p, ss,
                      st);
      chunkToRRepair, chunkToDRepair, didxToRepair, sidxToRepair :=
        NextSymbol(chunkToRRepair, chunkToDRepair, sidxToRepair, p, didxToRepair);
      t := t + 1;
      recoveredSymbolCount := recoveredSymbolCount + 2;
    }
    ghost var rows := RdpRows(t, f0, f1, p);
    forall s: nat | s < p - 1 ensures s in rows {
      RdpReachesEveryRow(s, f0, f1, p);
    }
    AllRepaired(chunks[f0][..], st[f0], rows, p, ss);
    AllRepaired(chunks[f1][..], st[f1], rows, p, ss);
  }
}
