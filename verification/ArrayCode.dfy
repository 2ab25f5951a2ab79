/**
 * What the XOR array codes compute. A stripe is a sequence of chunks; a grid gives, for one
 * byte position, the byte of every column and row. RDP and EVENODD sum grids by rows and diagonals.
 */
module ArrayCode {
  import opened Buffers
  import opened RepairSchedule

  type Grid = (int, int) -> byte

  /** Byte b of every symbol of the stripe; row p - 1 and missing columns read as zero. */
  ghost function GridOf(st: seq<seq<byte>>, ss: nat, b: nat): Grid {
    (c, s) => if 0 <= c < |st| && 0 <= s then Cell(st[c], ss, s, b) else NUL
  }

  /** XOR of row s over columns 0..n. */
  ghost function RowSum(g: Grid, s: int, n: nat): byte {
    if n == 0 then NUL else Xor(RowSum(g, s, n - 1), g(n - 1, s))
  }

  /** XOR of diagonal d over columns 0..n. */
  ghost function DiagSum(g: Grid, d: nat, n: nat, p: nat): byte
    requires d < p && n <= p
  {
    if n == 0 then NUL else Xor(DiagSum(g, d, n - 1, p), g(n - 1, RowOn(d, n - 1, p)))
  }

  /** The same sums, leaving some columns out. */
  ghost function RowSumBut(g: Grid, s: int, n: nat, out1: int, out2: int): byte {
    if n == 0 then NUL
    else if n - 1 == out1 || n - 1 == out2 then RowSumBut(g, s, n - 1, out1, out2)
    else Xor(RowSumBut(g, s, n - 1, out1, out2), g(n - 1, s))
  }

  ghost function DiagSumBut(g: Grid, d: nat, n: nat, p: nat, out: int): byte
    requires d < p && n <= p
  {
    if n == 0 then NUL
    else if n - 1 == out then DiagSumBut(g, d, n - 1, p, out)
    else Xor(DiagSumBut(g, d, n - 1, p, out), g(n - 1, RowOn(d, n - 1, p)))
  }

  /** A sum without column c and the full sum differ by the symbol of column c. */
  lemma {:induction false} DiagSumSolved(g: Grid, d: nat, n: nat, p: nat, c: nat)
    requires d < p && n <= p && c < p
    ensures c < n ==> Xor(DiagSumBut(g, d, n, p, c), DiagSum(g, d, n, p)) == g(c, RowOn(d, c, p))
    ensures c >= n ==> DiagSumBut(g, d, n, p, c) == DiagSum(g, d, n, p)
  {
    hide Xor;
    if n > 0 {
      DiagSumSolved(g, d, n - 1, p, c);
      if n - 1 != c {
        SameAdded(DiagSumBut(g, d, n - 1, p, c), DiagSum(g, d, n - 1, p), g(n - 1, RowOn(d, n - 1, p)));
      } else {
        AddCancel(DiagSum(g, d, n - 1, p), g(c, RowOn(d, c, p)));
      }
    }
  }

  ghost function Lost(g: Grid, s: int, n: nat, c: int): byte {
    if 0 <= c < n then g(c, s) else NUL
  }

  /** Without columns c1 and c2, a row that sums to `total` over all columns. */
  lemma {:induction false} RowSumSolved(g: Grid, s: int, n: nat, c1: int, c2: int)
    requires c1 != c2
    ensures Xor(RowSumBut(g, s, n, c1, c2), Lost(g, s, n, c1)) == Xor(RowSum(g, s, n), Lost(g, s, n, c2))
  {
    hide Xor;
    if n > 0 {
      RowSumSolved(g, s, n - 1, c1, c2);
      RowSumSolvedStep(g, s, n, c1, c2, RowSumBut(g, s, n - 1, c1, c2), RowSum(g, s, n - 1),
                       Lost(g, s, n - 1, c1), Lost(g, s, n - 1, c2), g(n - 1, s));
    }
  }

  lemma RowSumSolvedStep(g: Grid, s: int, n: nat, c1: int, c2: int,
                         part: byte, all: byte, l1: byte, l2: byte, x: byte)
    requires c1 != c2 && n > 0 && part == RowSumBut(g, s, n - 1, c1, c2) && all == RowSum(g, s, n - 1)
    requires l1 == Lost(g, s, n - 1, c1) && l2 == Lost(g, s, n - 1, c2) && x == g(n - 1, s)
    requires Xor(part, l1) == Xor(all, l2)
    ensures Xor(RowSumBut(g, s, n, c1, c2), Lost(g, s, n, c1)) == Xor(RowSum(g, s, n), Lost(g, s, n, c2))
  {
    hide Xor;
    var part', all', l1', l2' := RowSumBut(g, s, n, c1, c2), RowSum(g, s, n), Lost(g, s, n, c1), Lost(g, s, n, c2);
    assert all' == Xor(all, x);
    if n - 1 == c1 {
      assert part' == part && l1 == NUL && l1' == x && l2' == l2;
      AddLast(part, all, x, l2);
    } else if n - 1 == c2 {
      assert part' == part && l1' == l1 && l2 == NUL && l2' == x;
      AddTwice(Xor(part, l1), all, x);
    } else {
      assert part' == Xor(part, x) && l1' == l1 && l2' == l2;
      AddBoth(part, l1, all, l2, x);
    }
  }

  lemma ZeroPlus(x: byte)
    ensures Xor(NUL, x) == x
  {
  }

  lemma AddLast(part: byte, all: byte, x: byte, y: byte)
    requires Xor(part, NUL) == Xor(all, y)
    ensures Xor(part, x) == Xor(Xor(all, x), y)
  {
  }

  lemma AddTwice(l: byte, all: byte, x: byte)
    requires l == Xor(all, NUL)
    ensures l == Xor(Xor(all, x), x)
  {
  }

  lemma AddBoth(x: byte, y: byte, z: byte, w: byte, v: byte)
    requires Xor(x, y) == Xor(z, w)
    ensures Xor(Xor(x, v), y) == Xor(Xor(z, v), w)
  {
  }

  /** Sums are linear: the grid of a XOR is summed by XORing the sums. */
  lemma {:induction false} DiagSumLinear(f: Grid, g: Grid, h: Grid, d: nat, n: nat, p: nat)
    requires d < p && n <= p
    requires forall c, s :: 0 <= c < n && 0 <= s < p ==> h(c, s) == Xor(f(c, s), g(c, s))
    ensures DiagSum(h, d, n, p) == Xor(DiagSum(f, d, n, p), DiagSum(g, d, n, p))
  {
    hide Xor;
    if n == 0 {
      AddCancel(NUL, NUL);
    } else {
      DiagSumLinear(f, g, h, d, n - 1, p);
      var s := RowOn(d, n - 1, p);
      Interchange(DiagSum(f, d, n - 1, p), DiagSum(g, d, n - 1, p), f(n - 1, s), g(n - 1, s));
    }
  }

  lemma {:induction false} RowSumLinear(f: Grid, g: Grid, h: Grid, s: int, n: nat)
    requires forall c :: 0 <= c < n ==> h(c, s) == Xor(f(c, s), g(c, s))
    ensures RowSum(h, s, n) == Xor(RowSum(f, s, n), RowSum(g, s, n))
  {
    hide Xor;
    if n == 0 {
      AddCancel(NUL, NUL);
    } else {
      RowSumLinear(f, g, h, s, n - 1);
      Interchange(RowSum(f, s, n - 1), RowSum(g, s, n - 1), f(n - 1, s), g(n - 1, s));
    }
  }

  lemma Interchange(x: byte, y: byte, z: byte, w: byte)
    ensures Xor(Xor(x, y), Xor(z, w)) == Xor(Xor(x, z), Xor(y, w))
  {
    hide Xor;
    Assoc(Xor(x, y), z, w);
    Assoc(x, y, z);
    XorCommutes(y, z);
    Assoc(x, z, y);
    Assoc(Xor(x, z), y, w);
  }

  lemma {:induction false} DiagSumCongruence(f: Grid, g: Grid, d: nat, n: nat, p: nat)
    requires d < p && n <= p
    requires forall c, s :: 0 <= c < n && 0 <= s < p ==> f(c, s) == g(c, s)
    ensures DiagSum(f, d, n, p) == DiagSum(g, d, n, p)
  {
    hide Xor;
    if n > 0 {
      DiagSumCongruence(f, g, d, n - 1, p);
    }
  }

  lemma {:induction false} RowSumCongruence(f: Grid, g: Grid, s: int, n: nat)
    requires forall c :: 0 <= c < n ==> f(c, s) == g(c, s)
    ensures RowSum(f, s, n) == RowSum(g, s, n)
  {
    hide Xor;
    if n > 0 {
      RowSumCongruence(f, g, s, n - 1);
    }
  }

  lemma {:induction false} RowSumButCongruence(f: Grid, g: Grid, s: int, n: nat, out: int)
    requires forall c :: 0 <= c < n && c != out ==> f(c, s) == g(c, s)
    ensures RowSumBut(f, s, n, out, -1) == RowSumBut(g, s, n, out, -1)
  {
    hide Xor;
    if n > 0 {
      RowSumButCongruence(f, g, s, n - 1, out);
    }
  }

  lemma Assoc(x: byte, y: byte, z: byte)
    ensures Xor(Xor(x, y), z) == Xor(x, Xor(y, z))
  {
  }

  lemma SameAdded(x: byte, y: byte, z: byte)
    ensures Xor(Xor(x, z), Xor(y, z)) == Xor(x, y)
  {
  }

  lemma AddCancel(x: byte, z: byte)
    ensures Xor(x, Xor(x, z)) == z && Xor(x, x) == NUL && Xor(x, NUL) == x
  {
  }

  ghost predicate IsStripe(st: seq<seq<byte>>, n: nat, p: nat, ss: nat)
    requires p > 0
  {
    |st| == n && forall c :: 0 <= c < n ==> |st[c]| == Offset(p - 1, ss)
  }

  ghost predicate RowParity(st: seq<seq<byte>>, k: nat, p: nat, ss: nat)
    requires 0 < p && k < |st|
  {
    forall s: nat, b: nat :: s < p - 1 && b < ss ==>
      Cell(st[k], ss, s, b) == RowSum(GridOf(st, ss, b), s, k)
  }

  /** Column `col` holds the sums of the first p - 1 diagonals of the columns before n. */
  ghost predicate DiagParity(st: seq<seq<byte>>, col: nat, n: nat, p: nat, ss: nat)
    requires n <= p && col < |st|
  {
    forall d: nat, b: nat :: d < p - 1 && b < ss ==>
      Cell(st[col], ss, d, b) == DiagSum(GridOf(st, ss, b), d, n, p)
  }

  /** RDP: row parity over the data, diagonal parity over the data and the row parity. */
  ghost predicate RdpStripe(st: seq<seq<byte>>, k: nat, p: nat, ss: nat)
    requires k + 1 <= p
  {
    IsStripe(st, k + 2, p, ss) && RowParity(st, k, p, ss) && DiagParity(st, k + 1, k + 1, p, ss)
  }

  /** Over the data and the row parity every row sums to zero. */
  lemma RowSumsToZero(st: seq<seq<byte>>, k: nat, p: nat, ss: nat, s: nat, b: nat)
    requires 0 < p && k < |st| && RowParity(st, k, p, ss) && s < p - 1 && b < ss
    ensures RowSum(GridOf(st, ss, b), s, k + 1) == NUL
  {
    hide Xor;
    AddCancel(Cell(st[k], ss, s, b), NUL);
  }

  /** n different buffers of the same size. */
  ghost predicate Separate(chunks: seq<array<byte>>, n: nat, size: nat) {
    && |chunks| == n
    && (forall c :: 0 <= c < n ==> chunks[c].Length == size)
    && (forall i, j :: 0 <= i < j < n ==> chunks[i] != chunks[j])
  }

  ghost function Contents(chunks: seq<array<byte>>): (st: seq<seq<byte>>)
    reads chunks
    ensures |st| == |chunks| && forall i :: 0 <= i < |st| ==> st[i] == chunks[i][..]
  {
    seq(|chunks|, i requires 0 <= i < |chunks| reads chunks => chunks[i][..])
  }

  /** The byte at position j of every chunk, as a grid of one row. */
  ghost function ByteGrid(st: seq<seq<byte>>, j: nat): Grid {
    (c, s) => if 0 <= c < |st| && s == 0 && j < |st[c]| then st[c][j] else NUL
  }

  /** Row sums do not depend on how chunks are cut into symbols. */
  lemma {:induction false} RowSumByBytes(st: seq<seq<byte>>, ss: nat, s: nat, b: nat, n: nat)
    ensures RowSum(GridOf(st, ss, b), s, n) == RowSum(ByteGrid(st, Offset(s, ss) + b), 0, n)
  {
    hide Xor;
    if n > 0 {
      RowSumByBytes(st, ss, s, b, n - 1);
    }
  }
}
