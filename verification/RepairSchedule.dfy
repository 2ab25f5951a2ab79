/**
 * The order in which the two-erasure repair of RDP and EVENODD visits rows and diagonals.
 * A cursor names the column repaired along a row, the column repaired along a diagonal,
 * the current diagonal and the current row.
 */
module RepairSchedule {
  import opened ModPrime

  const U32: int := 0x1_0000_0000

  datatype Cursor = Cursor(rowCol: nat, diagCol: nat, didx: nat, sidx: nat)

  /** Remainder modulo p of a number less than one period away from the residues. */
  function Wrap(x: int, p: nat): (r: int)
    requires 0 <= x + p && x < 2 * p
    ensures 0 <= r < p
  {
    if x < 0 then x + p else if x < p then x else x - p
  }

  lemma WrapIsMod(x: int, p: nat)
    requires 0 <= x + p && x < 2 * p
    ensures Wrap(x, p) == x % p
  {
    ModUnique(x, if x < 0 then -1 else if x < p then 0 else 1, Wrap(x, p), p);
  }

  /** Row met by diagonal `d` in column `c`. */
  function RowOn(d: nat, c: nat, p: nat): (s: nat)
    requires d < p && c < p
    ensures s < p
  {
    Wrap(d - c, p)
  }

  /** RowOn is the (d + p - c) % p of the code, also in uint32 arithmetic. */
  lemma RowOnIsModular(d: nat, c: nat, p: nat)
    requires d < p && c < p <= 0x8000_0000
    ensures RowOn(d, c, p) == (d + p - c) % p == ((d + p - c) % U32) % p
  {
    WrapIsMod(d - c, p);
    ModShift(d - c, 1, p);
    ModUnique(d + p - c, 0, d + p - c, U32);
  }

  /** The encoder's (c + s) % p is the one diagonal that meets column c in row s. */
  lemma DiagonalOf(c: nat, s: nat, p: nat)
    requires c < p && s < p
    ensures var d := (c + s) % p; 0 <= d < p && RowOn(d, c, p) == s
    ensures forall d: nat :: d < p && RowOn(d, c, p) == s ==> d == (c + s) % p
  {
    WrapIsMod(c + s, p);
  }

  /** uint32 arithmetic of the code; the first subtraction wraps when the column is 0. */
  function Restart(rowCol: nat, diagCol: nat, p: nat): Cursor
    requires 0 < p
  {
    var didx := (rowCol - 1) % U32;
    Cursor(rowCol, diagCol, didx, ((didx + p - diagCol) % U32) % p)
  }

  function RdpStart(f0: nat, f1: nat, p: nat): Cursor
    requires 0 < p
  {
    if f0 == 0 then Restart(f1, f0, p) else Restart(f0, f1, p)
  }

  function RdpNext(c: Cursor, p: nat): Cursor
    requires 0 < p
  {
    var didx := (c.rowCol + c.sidx) % p;
    if didx == p - 1 then
      Restart(c.diagCol, c.rowCol, p)
    else
      Cursor(c.rowCol, c.diagCol, didx, ((didx + p - c.diagCol) % U32) % p)
  }

  /** Cursor of the t-th iteration of RDP. */
  ghost function RdpAt(t: nat, f0: nat, f1: nat, p: nat): Cursor
    requires 0 < p
  {
    if t == 0 then RdpStart(f0, f1, p) else RdpNext(RdpAt(t - 1, f0, f1, p), p)
  }

  // ----- walking the rows in steps of delta -----

  /** The row reached from row p - 1 after m steps of width delta. */
  ghost function RowAfter(m: nat, delta: int, p: nat): (r: int)
    requires 0 < p && 0 < delta + p && delta < p
    ensures 0 <= r < p
  {
    if m == 0 then p - 1 else Wrap(RowAfter(m - 1, delta, p) + delta, p)
  }

  lemma {:induction false} RowAfterIsMultiple(m: nat, delta: int, p: nat)
    requires 0 < p && 0 < delta + p && delta < p
    ensures RowAfter(m, delta, p) == (-1 + m * delta) % p
  {
    if m == 0 {
      ModUnique(-1, -1, p - 1, p);
    } else {
      RowAfterIsMultiple(m - 1, delta, p);
      WrapIsMod(RowAfter(m - 1, delta, p) + delta, p);
      ModOfMod(-1 + (m - 1) * delta, delta, p);
      assert -1 + (m - 1) * delta + delta == -1 + m * delta;
    }
  }

  /** p being prime, the walk returns to a row only after p steps. */
  lemma RowsDiffer(i: nat, j: nat, delta: int, p: nat)
    requires IsPrime(p) && (i < j < i + p || j < i < j + p) && 0 < delta + p && delta < p && delta != 0
    ensures RowAfter(i, delta, p) != RowAfter(j, delta, p)
  {
    RowAfterIsMultiple(i, delta, p);
    RowAfterIsMultiple(j, delta, p);
    if i < j {
      MultiplesDiffer(i, j, delta, -1, p);
    } else {
      MultiplesDiffer(j, i, delta, -1, p);
    }
  }

  lemma FullCircle(delta: int, p: nat)
    requires 0 < p && 0 < delta + p && delta < p
    ensures RowAfter(p, delta, p) == p - 1
  {
    RowAfterIsMultiple(p, delta, p);
    assert -1 + p * delta == -1 + delta * p;
    ModShift(-1, delta, p);
    ModUnique(-1, -1, p - 1, p);
  }

  // ----- closed form of the RDP walk -----

  ghost predicate TwoLost(f0: nat, f1: nat, p: nat) {
    IsPrime(p) && p <= 0x8000_0000 && f0 < f1 < p
  }

  /** First n for which step n + 1 enters the row that lies on the missing diagonal (p - 1: never). */
  ghost function FirstMiss(n: nat, diagCol: nat, delta: int, p: nat): (r: nat)
    requires 0 < p && n <= p - 1 && 0 < delta + p && delta < p
    ensures n <= r <= p - 1
    ensures r < p - 1 ==> RowAfter(r + 1, delta, p) == p - 1 - diagCol
    ensures forall i :: n < i <= r ==> RowAfter(i, delta, p) != p - 1 - diagCol
    decreases p - n
  {
    if n == p - 1 || RowAfter(n + 1, delta, p) == p - 1 - diagCol then n else FirstMiss(n + 1, diagCol, delta, p)
  }

  ghost predicate IsSwapTime(swap: nat, d: nat, delta: int, p: nat)
    requires 0 < delta + p && delta < p
  {
    && 0 < swap <= p - 1
    && (swap < p - 1 ==> RowAfter(swap + 1, delta, p) == p - 1 - d)
    && forall i :: 0 < i <= swap ==> RowAfter(i, delta, p) != p - 1 - d
  }

  /** Number of steps at the t-th iteration: counting up before the swap, down from p - 1 after it. */
  ghost function Multiplier(t: nat, swap: nat, p: nat): int {
    if t < swap then t + 1 else p - 1 - (t - swap)
  }

  ghost function Closed(t: nat, r: nat, d: nat, swap: nat, p: nat): Cursor
    requires t < p - 1 && swap <= p - 1 && r < p && d < p
  {
    var s := RowAfter(Multiplier(t, swap, p), r - d, p);
    if t < swap then Cursor(r, d, Wrap(d + s, p), s) else Cursor(d, r, Wrap(r + s, p), s)
  }

  lemma RestartCursor(rowCol: nat, diagCol: nat, p: nat)
    requires 0 < rowCol < p <= 0x8000_0000 && diagCol < p
    ensures Restart(rowCol, diagCol, p) == Cursor(rowCol, diagCol, rowCol - 1, RowOn(rowCol - 1, diagCol, p))
  {
    ModUnique(rowCol - 1, 0, rowCol - 1, U32);
    RowOnIsModular(rowCol - 1, diagCol, p);
  }

  /** RdpNext on residues, where no subtraction wraps. */
  ghost function LinearNext(c: Cursor, p: nat): Cursor
    requires c.rowCol < p && c.diagCol < p && c.sidx < p
  {
    var didx := Wrap(c.rowCol + c.sidx, p);
    if didx < p - 1 then Cursor(c.rowCol, c.diagCol, didx, RowOn(didx, c.diagCol, p))
    else if c.diagCol > 0 then
      Cursor(c.diagCol, c.rowCol, c.diagCol - 1, RowOn(c.diagCol - 1, c.rowCol, p))
    else c
  }

  lemma NextCursor(c: Cursor, p: nat)
    requires c.rowCol < p && c.diagCol < p && c.sidx < p <= 0x8000_0000
    requires c.diagCol == 0 ==> Wrap(c.rowCol + c.sidx, p) != p - 1
    ensures RdpNext(c, p) == LinearNext(c, p)
  {
    var didx := Wrap(c.rowCol + c.sidx, p);
    WrapIsMod(c.rowCol + c.sidx, p);
    if didx == p - 1 {
      RestartCursor(c.diagCol, c.rowCol, p);
    } else {
      RowOnIsModular(didx, c.diagCol, p);
    }
  }

  /** Counting up: the walk goes on until the next row would lie on the missing diagonal. */
  lemma StepUp(m: nat, r: nat, d: nat, p: nat)
    requires r < p && d < p && 0 < m
    ensures var s, next := RowAfter(m, r - d, p), RowAfter(m + 1, r - d, p);
            && Wrap(r + s, p) == Wrap(d + next, p)
            && RowOn(Wrap(d + next, p), d, p) == next
            && RowOn(Wrap(d + next, p), r, p) == s
            && (Wrap(d + next, p) == p - 1 <==> next == p - 1 - d)
  {
    assert RowAfter(m + 1, r - d, p) == Wrap(RowAfter(m, r - d, p) + (r - d), p);
  }

  /** Counting down, with the columns exchanged. */
  lemma StepDown(m: nat, r: nat, d: nat, p: nat)
    requires r < p && d < p
    ensures var s, next := RowAfter(m + 1, r - d, p), RowAfter(m, r - d, p);
            && Wrap(d + s, p) == Wrap(r + next, p)
            && RowOn(Wrap(r + next, p), r, p) == next
            && RowOn(Wrap(r + next, p), d, p) == s
            && (Wrap(d + s, p) == p - 1 <==> s == p - 1 - d)
  {
    assert RowAfter(m + 1, r - d, p) == Wrap(RowAfter(m, r - d, p) + (r - d), p);
  }

  lemma ClosedStep(t: nat, r: nat, d: nat, swap: nat, p: nat)
    requires IsPrime(p) && 0 < t < p - 1
    requires 0 < r < p && d < p && r != d && IsSwapTime(swap, d, r - d, p)
    ensures var c := Closed(t - 1, r, d, swap, p);
            && (c.diagCol == 0 ==> Wrap(c.rowCol + c.sidx, p) != p - 1)
            && LinearNext(c, p) == Closed(t, r, d, swap, p)
  {
    if t < swap {
      StepUp(t, r, d, p);
    } else if t == swap {
      RowsDiffer(0, swap + 1, r - d, p);
      SwapStep(r, d, swap, p);
    } else {
      RowsDiffer(swap + 1, p - (t - swap), r - d, p);
      ClosedStepDown(t, r, d, swap, p);
    }
  }

  lemma ClosedStepDown(t: nat, r: nat, d: nat, swap: nat, p: nat)
    requires 0 < swap < t < p - 1 && r < p && d < p
    requires RowAfter(p - (t - swap), r - d, p) != p - 1 - d
    ensures var c := Closed(t - 1, r, d, swap, p);
            && Wrap(c.rowCol + c.sidx, p) != p - 1
            && LinearNext(c, p) == Closed(t, r, d, swap, p)
  {
    StepDown(p - 1 - (t - swap), r, d, p);
  }

  lemma SwapStep(r: nat, d: nat, swap: nat, p: nat)
    requires 0 < swap < p - 1 && r < p && 0 < d < p && RowAfter(swap + 1, r - d, p) == p - 1 - d
    ensures LinearNext(Closed(swap - 1, r, d, swap, p), p) == Closed(swap, r, d, swap, p)
  {
    StepUp(swap, r, d, p);
    RestartAtTop(r, d, p);
  }

  /** Where the walk starts again after the swap. */
  lemma RestartAtTop(r: nat, d: nat, p: nat)
    requires r < p && 0 < d < p
    ensures var s := RowAfter(p - 1, r - d, p);
            d - 1 == Wrap(r + s, p) && RowOn(d - 1, r, p) == s
  {
    FullCircle(r - d, p);
    StepDown(p - 1, r, d, p);
  }

  /** Columns of the first iteration: column 0, which cannot be a restart row column, goes second. */
  ghost function RdpColumns(f0: nat, f1: nat): (nat, nat) {
    if f0 == 0 then (f1, f0) else (f0, f1)
  }

  ghost function SwapTime(f0: nat, f1: nat, p: nat): nat
    requires f0 < f1 < p
  {
    var (r, d) := RdpColumns(f0, f1);
    FirstMiss(0, d, r - d, p)
  }

  ghost function RdpClosed(t: nat, f0: nat, f1: nat, p: nat): Cursor
    requires f0 < f1 < p && t < p - 1
  {
    var (r, d) := RdpColumns(f0, f1);
    Closed(t, r, d, SwapTime(f0, f1, p), p)
  }

  lemma {:induction false} RdpAtClosed(t: nat, f0: nat, f1: nat, p: nat)
    requires TwoLost(f0, f1, p) && t < p - 1
    ensures RdpAt(t, f0, f1, p) == RdpClosed(t, f0, f1, p)
  {
    SwapTimePositive(f0, f1, p);
    if t == 0 {
      var (r, d) := RdpColumns(f0, f1);
      RestartCursor(r, d, p);
    } else {
      RdpAtClosed(t - 1, f0, f1, p);
      RdpClosedStep(t, f0, f1, p);
      NextCursor(RdpClosed(t - 1, f0, f1, p), p);
    }
  }

  lemma SwapTimePositive(f0: nat, f1: nat, p: nat)
    requires f0 < f1 < p && 2 <= p
    ensures var (r, d) := RdpColumns(f0, f1);
            IsSwapTime(SwapTime(f0, f1, p), d, r - d, p) &&
            RdpClosed(0, f0, f1, p) == Cursor(r, d, r - 1, RowOn(r - 1, d, p))
  {
    var (r, d) := RdpColumns(f0, f1);
    assert RowAfter(1, r - d, p) == Wrap(RowAfter(0, r - d, p) + (r - d), p);
  }

  lemma RdpClosedStep(t: nat, f0: nat, f1: nat, p: nat)
    requires IsPrime(p) && 0 < t < p - 1 && f0 < f1 < p
    ensures var c := RdpClosed(t - 1, f0, f1, p);
            && (c.diagCol == 0 ==> Wrap(c.rowCol + c.sidx, p) != p - 1)
            && LinearNext(c, p) == RdpClosed(t, f0, f1, p)
  {
    var (r, d) := RdpColumns(f0, f1);
    SwapTimePositive(f0, f1, p);
    ClosedStep(t, r, d, SwapTime(f0, f1, p), p);
  }

  // ----- what the RDP walk guarantees -----

  /**
   * Every iteration stays off the missing diagonal and off row p - 1, and the other unknown
   * symbol on its diagonal is absent (row p - 1) or was repaired by the previous iteration.
   */
  lemma RdpReadsRepaired(t: nat, f0: nat, f1: nat, p: nat)
    requires TwoLost(f0, f1, p) && t < p - 1
    ensures var c := RdpAt(t, f0, f1, p);
            && ((c.rowCol == f0 && c.diagCol == f1) || (c.rowCol == f1 && c.diagCol == f0))
            && c.didx < p - 1 && c.sidx < p - 1
            && c.sidx == RowOn(c.didx, c.diagCol, p)
            && (RowOn(c.didx, c.rowCol, p) == p - 1
                || (t > 0 && RowOn(c.didx, c.rowCol, p) == RdpAt(t - 1, f0, f1, p).sidx))
  {
    RdpAtClosed(t, f0, f1, p);
    if t > 0 {
      RdpAtClosed(t - 1, f0, f1, p);
    }
    ClosedReadsRepaired(t, f0, f1, p);
  }

  lemma ClosedReadsRepaired(t: nat, f0: nat, f1: nat, p: nat)
    requires TwoLost(f0, f1, p) && t < p - 1
    ensures var c := RdpClosed(t, f0, f1, p);
            && c.didx < p - 1 && c.sidx < p - 1
            && c.sidx == RowOn(c.didx, c.diagCol, p)
            && (RowOn(c.didx, c.rowCol, p) == p - 1
                || (t > 0 && RowOn(c.didx, c.rowCol, p) == RdpClosed(t - 1, f0, f1, p).sidx))
  {
    var (r, d) := RdpColumns(f0, f1);
    SwapTimePositive(f0, f1, p);
    RowsDiffer(0, Multiplier(t, SwapTime(f0, f1, p), p), r - d, p);
    if t > 0 {
      WalkReadsRepaired(t, r, d, SwapTime(f0, f1, p), p);
    }
  }

  lemma WalkReadsRepaired(t: nat, r: nat, d: nat, swap: nat, p: nat)
    requires IsPrime(p) && 0 < t < p - 1
    requires 0 < r < p && d < p && r != d && IsSwapTime(swap, d, r - d, p)
    ensures var c := Closed(t, r, d, swap, p);
            && c.didx < p - 1
            && c.sidx == RowOn(c.didx, c.diagCol, p)
            && (RowOn(c.didx, c.rowCol, p) == p - 1
                || RowOn(c.didx, c.rowCol, p) == Closed(t - 1, r, d, swap, p).sidx)
  {
    if t < swap {
      StepUp(t, r, d, p);
    } else {
      RowsDiffer(swap + 1, if t == swap then 0 else p - (t - swap), r - d, p);
      if t == swap {
        ReadsAfterSwap(r, d, swap, p);
      } else {
        ReadsRepairedDown(t, r, d, swap, p);
      }
    }
  }

  lemma ReadsAfterSwap(r: nat, d: nat, swap: nat, p: nat)
    requires 0 < swap < p - 1 && r < p && 0 < d < p
    ensures var c := Closed(swap, r, d, swap, p);
            && c.didx < p - 1
            && c.sidx == RowOn(c.didx, c.diagCol, p)
            && RowOn(c.didx, c.rowCol, p) == p - 1
  {
    FullCircle(r - d, p);
    StepDown(p - 1, r, d, p);
  }

  lemma ReadsRepairedDown(t: nat, r: nat, d: nat, swap: nat, p: nat)
    requires 0 < swap < t < p - 1 && r < p && d < p
    requires RowAfter(p - (t - swap), r - d, p) != p - 1 - d
    ensures var c := Closed(t, r, d, swap, p);
            && c.didx < p - 1
            && c.sidx == RowOn(c.didx, c.diagCol, p)
            && RowOn(c.didx, c.rowCol, p) == Closed(t - 1, r, d, swap, p).sidx
  {
    StepDown(p - 1 - (t - swap), r, d, p);
  }

  lemma RdpRowsDiffer(i: nat, j: nat, f0: nat, f1: nat, p: nat)
    requires TwoLost(f0, f1, p) && i < j < p - 1
    ensures RdpAt(i, f0, f1, p).sidx != RdpAt(j, f0, f1, p).sidx
  {
    RdpAtClosed(i, f0, f1, p);
    RdpAtClosed(j, f0, f1, p);
    ClosedRowsDiffer(i, j, f0, f1, p);
  }

  lemma ClosedRowsDiffer(i: nat, j: nat, f0: nat, f1: nat, p: nat)
    requires TwoLost(f0, f1, p) && i < j < p - 1
    ensures RdpClosed(i, f0, f1, p).sidx != RdpClosed(j, f0, f1, p).sidx
  {
    var (r, d) := RdpColumns(f0, f1);
    var swap := SwapTime(f0, f1, p);
    var mi, mj := Multiplier(i, swap, p), Multiplier(j, swap, p);
    RowsDiffer(mi, mj, r - d, p);
  }

  /** The rows of the first t iterations. */
  ghost function RdpRows(t: nat, f0: nat, f1: nat, p: nat): set<nat>
    requires 0 < p
  {
    if t == 0 then {} else RdpRows(t - 1, f0, f1, p) + {RdpAt(t - 1, f0, f1, p).sidx}
  }

  lemma {:induction false} RdpRowsContain(i: nat, t: nat, f0: nat, f1: nat, p: nat)
    requires 0 < p && i < t
    ensures RdpAt(i, f0, f1, p).sidx in RdpRows(t, f0, f1, p)
    decreases t
  {
    hide RdpAt;
    if i < t - 1 {
      RdpRowsContain(i, t - 1, f0, f1, p);
    }
  }

  lemma {:induction false} RdpRowsOnly(s: nat, t: nat, f0: nat, f1: nat, p: nat) returns (i: nat)
    requires 0 < p && s in RdpRows(t, f0, f1, p)
    ensures i < t && RdpAt(i, f0, f1, p).sidx == s
  {
    hide RdpAt;
    if RdpAt(t - 1, f0, f1, p).sidx == s {
      i := t - 1;
    } else {
      i := RdpRowsOnly(s, t - 1, f0, f1, p);
    }
  }

  /** Each iteration repairs a row that no earlier one has repaired. */
  lemma RdpRowIsNew(t: nat, f0: nat, f1: nat, p: nat)
    requires TwoLost(f0, f1, p) && t < p - 1
    ensures RdpAt(t, f0, f1, p).sidx !in RdpRows(t, f0, f1, p)
  {
    hide RdpAt;
    var s := RdpAt(t, f0, f1, p).sidx;
    if s in RdpRows(t, f0, f1, p) {
      var i := RdpRowsOnly(s, t, f0, f1, p);
      RdpRowsDiffer(i, t, f0, f1, p);
    }
  }

  /** The p - 1 iterations reach every row. */
  lemma RdpReachesEveryRow(s: nat, f0: nat, f1: nat, p: nat)
    requires TwoLost(f0, f1, p) && s < p - 1
    ensures s in RdpRows(p - 1, f0, f1, p)
  {
    hide RdpAt;
    var rows := seq(p - 1, (t: nat) => RdpAt(t, f0, f1, p).sidx);
    forall i, j | 0 <= i < j < |rows| ensures rows[i] != rows[j] { RdpRowsDiffer(i, j, f0, f1, p); }
    forall i | 0 <= i < |rows| ensures 0 <= rows[i] < |rows| { RdpReadsRepaired(i, f0, f1, p); }
    Pigeonhole(rows, s);
    var t: nat :| t < |rows| && rows[t] == s;
    RdpRowsContain(t, p - 1, f0, f1, p);
  }

  // ----- EVENODD: the same walk without a swap -----

  /** Cursor of the t-th iteration of EVENODD: f0 is repaired along rows, f1 along diagonals. */
  ghost function EvenOddAt(t: nat, f0: nat, f1: nat, p: nat): Cursor
    requires 0 < p && f1 <= p
  {
    var didx := if t == 0 then (f0 - 1 + p) % p else (f0 + EvenOddAt(t - 1, f0, f1, p).sidx) % p;
    Cursor(f0, f1, didx, (didx + p - f1) % p)
  }

  lemma {:induction false} EvenOddAtClosed(t: nat, f0: nat, f1: nat, p: nat)
    requires TwoLost(f0, f1, p) && t < p - 1
    ensures EvenOddAt(t, f0, f1, p) == EvenOddClosed(t, f0, f1, p)
  {
    EvenOddClosedStep(t, f0, f1, p);
    if t == 0 {
      WrapIsMod(f0 - 1 + p, p);
    } else {
      EvenOddAtClosed(t - 1, f0, f1, p);
      WrapIsMod(f0 + EvenOddClosed(t - 1, f0, f1, p).sidx, p);
    }
    RowOnIsModular(EvenOddClosed(t, f0, f1, p).didx, f1, p);
  }

  ghost function EvenOddClosed(t: nat, f0: nat, f1: nat, p: nat): Cursor
    requires f0 < f1 < p
  {
    var s := RowAfter(t + 1, f0 - f1, p);
    Cursor(f0, f1, Wrap(f1 + s, p), s)
  }

  lemma EvenOddClosedStep(t: nat, f0: nat, f1: nat, p: nat)
    requires f0 < f1 < p
    ensures var c := EvenOddClosed(t, f0, f1, p);
            && c.didx == Wrap(f0 + (if t == 0 then p - 1 else EvenOddClosed(t - 1, f0, f1, p).sidx), p)
            && c.sidx == RowOn(c.didx, f1, p)
  {
    assert RowAfter(t + 1, f0 - f1, p) == Wrap(RowAfter(t, f0 - f1, p) + (f0 - f1), p);
  }

  lemma EvenOddReadsRepaired(t: nat, f0: nat, f1: nat, p: nat)
    requires TwoLost(f0, f1, p) && t < p - 1
    ensures var c := EvenOddAt(t, f0, f1, p);
            && c.rowCol == f0 && c.diagCol == f1
            && c.didx < p && c.sidx < p - 1
            && c.sidx == RowOn(c.didx, f1, p)
            && RowOn(c.didx, f0, p) == (if t == 0 then p - 1 else EvenOddAt(t - 1, f0, f1, p).sidx)
  {
    EvenOddAtClosed(t, f0, f1, p);
    EvenOddClosedStep(t, f0, f1, p);
    RowsDiffer(0, t + 1, f0 - f1, p);
    if t > 0 {
      EvenOddAtClosed(t - 1, f0, f1, p);
    }
  }

  lemma EvenOddRowsDiffer(i: nat, j: nat, f0: nat, f1: nat, p: nat)
    requires TwoLost(f0, f1, p) && i < j < p - 1
    ensures EvenOddAt(i, f0, f1, p).sidx != EvenOddAt(j, f0, f1, p).sidx
  {
    EvenOddAtClosed(i, f0, f1, p);
    EvenOddAtClosed(j, f0, f1, p);
    RowsDiffer(i + 1, j + 1, f0 - f1, p);
  }

  ghost function EvenOddRows(t: nat, f0: nat, f1: nat, p: nat): set<nat>
    requires 0 < p && f1 <= p
  {
    if t == 0 then {} else EvenOddRows(t - 1, f0, f1, p) + {EvenOddAt(t - 1, f0, f1, p).sidx}
  }

  lemma {:induction false} EvenOddRowsContain(i: nat, t: nat, f0: nat, f1: nat, p: nat)
    requires 0 < p && f1 <= p && i < t
    ensures EvenOddAt(i, f0, f1, p).sidx in EvenOddRows(t, f0, f1, p)
    decreases t
  {
    hide EvenOddAt;
    if i < t - 1 {
      EvenOddRowsContain(i, t - 1, f0, f1, p);
    }
  }

  lemma {:induction false} EvenOddRowsOnly(s: nat, t: nat, f0: nat, f1: nat, p: nat) returns (i: nat)
    requires 0 < p && f1 <= p && s in EvenOddRows(t, f0, f1, p)
    ensures i < t && EvenOddAt(i, f0, f1, p).sidx == s
  {
    hide EvenOddAt;
    if EvenOddAt(t - 1, f0, f1, p).sidx == s {
      i := t - 1;
    } else {
      i := EvenOddRowsOnly(s, t - 1, f0, f1, p);
    }
  }

  lemma EvenOddRowIsNew(t: nat, f0: nat, f1: nat, p: nat)
    requires TwoLost(f0, f1, p) && t < p - 1
    ensures EvenOddAt(t, f0, f1, p).sidx !in EvenOddRows(t, f0, f1, p)
  {
    hide EvenOddAt;
    var s := EvenOddAt(t, f0, f1, p).sidx;
    if s in EvenOddRows(t, f0, f1, p) {
      var i := EvenOddRowsOnly(s, t, f0, f1, p);
      EvenOddRowsDiffer(i, t, f0, f1, p);
    }
  }

  lemma EvenOddReachesEveryRow(s: nat, f0: nat, f1: nat, p: nat)
    requires TwoLost(f0, f1, p) && s < p - 1
    ensures s in EvenOddRows(p - 1, f0, f1, p)
  {
    hide EvenOddAt;
    var rows := seq(p - 1, (t: nat) => EvenOddAt(t, f0, f1, p).sidx);
    forall i, j | 0 <= i < j < |rows| ensures rows[i] != rows[j] { EvenOddRowsDiffer(i, j, f0, f1, p); }
    forall i | 0 <= i < |rows| ensures 0 <= rows[i] < |rows| { EvenOddReadsRepaired(i, f0, f1, p); }
    Pigeonhole(rows, s);
    var t: nat :| t < |rows| && rows[t] == s;
    EvenOddRowsContain(t, p - 1, f0, f1, p);
  }
}
