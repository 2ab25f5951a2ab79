/** What follows when the prime found is too small: two columns then lie on the same diagonals. */
module SmallPrime {
  import opened ModPrime
  import opened Buffers
  import opened RepairSchedule
  import opened ArrayCode
  import opened EvenOddCode
  import opened Encoding
  import opened Raid5

  /** c % p. */
  ghost function Residue(c: nat, p: nat): (r: nat)
    requires 0 < p
    ensures r < p && r == c % p
  {
    if c < p then ModUnique(c, 0, c, p); c else ModShift(c - p, 1, p); Residue(c - p, p)
  }

  /** The sum that the encoding loops make of diagonal d, for any number of columns. */
  ghost function WideDiagSum(g: Grid, d: nat, n: nat, p: nat): byte
    requires d < p
  {
    if n == 0 then NUL else Xor(WideDiagSum(g, d, n - 1, p), g(n - 1, RowOn(d, Residue(n - 1, p), p)))
  }

  lemma {:induction false} WideIsDiagSum(g: Grid, d: nat, n: nat, p: nat)
    requires d < p && n <= p
    ensures WideDiagSum(g, d, n, p) == DiagSum(g, d, n, p)
  {
    hide Xor;
    if n > 0 {
      WideIsDiagSum(g, d, n - 1, p);
    }
  }

  ghost predicate WideDiagParity(st: seq<seq<byte>>, col: nat, n: nat, p: nat, ss: nat)
    requires 0 < p && col < |st|
  {
    forall d: nat, b: nat :: d < p - 1 && b < ss ==>
      Cell(st[col], ss, d, b) == WideDiagSum(GridOf(st, ss, b), d, n, p)
  }

  ghost predicate WideRdpStripe(st: seq<seq<byte>>, k: nat, p: nat, ss: nat)
    requires 0 < p
  {
    IsStripe(st, k + 2, p, ss) && RowParity(st, k, p, ss) && WideDiagParity(st, k + 1, k + 1, p, ss)
  }

  ghost predicate WideEvenOddStripe(st: seq<seq<byte>>, k: nat, p: nat, ss: nat)
    requires 0 < p
  {
    && IsStripe(st, k + 2, p, ss) && RowParity(st, k, p, ss)
    && forall d: nat, b: nat :: d < p - 1 && b < ss ==>
         Cell(st[k + 1], ss, d, b)
         == Xor(WideDiagSum(GridOf(st, ss, b), d, k, p), WideDiagSum(GridOf(st, ss, b), p - 1, k, p))
  }

  /** When the prime is large enough these are the stripes that can be decoded. */
  lemma WideIsStripe(st: seq<seq<byte>>, k: nat, p: nat, ss: nat)
    requires 0 < p
    ensures k + 1 <= p ==> (WideRdpStripe(st, k, p, ss) <==> RdpStripe(st, k, p, ss))
    ensures k <= p ==> (WideEvenOddStripe(st, k, p, ss) <==> EvenOddStripe(st, k, p, ss))
  {
    hide Xor;
    forall d: nat, b: nat, n: nat | d < p && n <= p
      ensures WideDiagSum(GridOf(st, ss, b), d, n, p) == DiagSum(GridOf(st, ss, b), d, n, p)
    {
      WideIsDiagSum(GridOf(st, ss, b), d, n, p);
    }
  }

  /** Columns c and e of f are those of g with the same column x added. */
  ghost predicate PairAdded(f: Grid, g: Grid, c: nat, e: nat, x: int -> byte) {
    forall col, s :: f(col, s) == if col == c || col == e then Xor(g(col, s), x(s)) else g(col, s)
  }

  lemma Behind(r: byte, y: byte, x: byte)
    ensures Xor(r, Xor(y, x)) == Xor(Xor(r, y), x)
  {
  }

  lemma Past(r: byte, y: byte, x: byte)
    ensures Xor(Xor(r, x), y) == Xor(Xor(r, y), x)
  {
  }

  lemma {:induction false} PairInRow(f: Grid, g: Grid, c: nat, e: nat, x: int -> byte, s: int, n: nat)
    requires c < e && PairAdded(f, g, c, e, x)
    ensures RowSum(f, s, n) == if c < n <= e then Xor(RowSum(g, s, n), x(s)) else RowSum(g, s, n)
  {
    hide Xor;
    if n > 0 {
      PairInRow(f, g, c, e, x, s, n - 1);
      var r, y := RowSum(g, s, n - 1), g(n - 1, s);
      Behind(r, y, x(s));
      Past(r, y, x(s));
      SameAdded(r, y, x(s));
    }
  }

  /** One period apart the two columns meet a diagonal in the same row. */
  lemma {:induction false} PairOnDiagonal(f: Grid, g: Grid, c: nat, p: nat, x: int -> byte, d: nat, n: nat)
    requires d < p && PairAdded(f, g, c, c + p, x)
    ensures WideDiagSum(f, d, n, p)
            == if c < n <= c + p then Xor(WideDiagSum(g, d, n, p), x(RowOn(d, Residue(c, p), p)))
               else WideDiagSum(g, d, n, p)
  {
    hide Xor;
    if n > 0 {
      PairOnDiagonal(f, g, c, p, x, d, n - 1);
      assert Residue(c + p, p) == Residue(c, p);
      var r, y := WideDiagSum(g, d, n - 1, p), g(n - 1, RowOn(d, Residue(n - 1, p), p));
      Behind(r, y, x(RowOn(d, Residue(c, p), p)));
      Past(r, y, x(RowOn(d, Residue(c, p), p)));
      SameAdded(r, y, x(RowOn(d, Residue(c, p), p)));
    }
  }

  /** The stripe with the same chunk added to two of its chunks. */
  ghost function Changed(st: seq<seq<byte>>, c: nat, e: nat, x: seq<byte>): seq<seq<byte>>
    requires c < |st| && e < |st| && c != e && |st[c]| == |st[e]| == |x|
  {
    st[c := XorSeq(st[c], x)][e := XorSeq(st[e], x)]
  }

  lemma ChangedGrid(st: seq<seq<byte>>, c: nat, e: nat, x: seq<byte>, ss: nat, b: nat)
    requires c < |st| && e < |st| && c != e && |st[c]| == |st[e]| == |x|
    ensures PairAdded(GridOf(Changed(st, c, e, x), ss, b), GridOf(st, ss, b), c, e, s => if s < 0 then NUL
                      else Cell(x, ss, s, b))
  {
    hide Xor;
    forall col, s
      ensures GridOf(Changed(st, c, e, x), ss, b)(col, s)
              == if col == c || col == e
                 then Xor(GridOf(st, ss, b)(col, s), if s < 0 then NUL else Cell(x, ss, s, b))
                 else GridOf(st, ss, b)(col, s)
    {
      AddCancel(NUL, NUL);
      if (col == c || col == e) && s >= 0 {
        CellOfXor(st[col], x, ss, s, b);
      }
    }
  }

  /** A changed stripe differs from the old one unless nothing was added. */
  lemma ChangedDiffers(st: seq<seq<byte>>, c: nat, e: nat, x: seq<byte>)
    requires c < |st| && e < |st| && c != e && |st[c]| == |st[e]| == |x|
    ensures Changed(st, c, e, x) == st <==> AllZero(x)
    ensures forall i :: 0 <= i < |st| && i != c && i != e ==> Changed(st, c, e, x)[i] == st[i]
  {
    hide Xor;
    forall j | 0 <= j < |x|
      ensures Xor(st[c][j], x[j]) == st[c][j] <==> x[j] == NUL
      ensures Xor(st[e][j], x[j]) == st[e][j] <==> x[j] == NUL
    {
      OnlyZeroKeeps(st[c][j], x[j]);
      OnlyZeroKeeps(st[e][j], x[j]);
    }
    if AllZero(x) {
      assert XorSeq(st[c], x) == st[c] && XorSeq(st[e], x) == st[e];
      assert Changed(st, c, e, x) == st;
    } else {
      var j :| 0 <= j < |x| && x[j] != NUL;
      assert Changed(st, c, e, x)[c][j] != st[c][j];
    }
  }

  lemma OnlyZeroKeeps(y: byte, x: byte)
    ensures Xor(y, x) == y <==> x == NUL
  {
  }

  /**
   * RDP with p <= k: for any stripe there is another one for every chunk x, which differs only in columns c and
   * c + p. So once both are lost they cannot be recovered from the others.
   */
  lemma RdpPairUndetermined(st: seq<seq<byte>>, k: nat, p: nat, ss: nat, c: nat, x: seq<byte>)
    requires 0 < p && WideRdpStripe(st, k, p, ss) && c + p <= k && |x| == Offset(p - 1, ss)
    ensures WideRdpStripe(Changed(st, c, c + p, x), k, p, ss)
    ensures Changed(st, c, c + p, x) == st <==> AllZero(x)
    ensures forall i :: 0 <= i < k + 2 && i != c && i != c + p ==> Changed(st, c, c + p, x)[i] == st[i]
  {
    hide Xor, Offset;
    var e, now, n := c + p, Changed(st, c, c + p, x), k + 1;
    ChangedDiffers(st, c, e, x);
    forall b: nat | b < ss
      ensures forall s: nat :: s < p - 1 ==> Cell(now[k], ss, s, b) == RowSum(GridOf(now, ss, b), s, k)
      ensures forall d: nat :: d < p - 1 ==> Cell(now[n], ss, d, b) == WideDiagSum(GridOf(now, ss, b), d, n, p)
    {
      var col: int -> byte := s => if s < 0 then NUL else Cell(x, ss, s, b);
      ChangedGrid(st, c, e, x, ss, b);
      forall s: nat | s < p - 1
        ensures Cell(now[k], ss, s, b) == RowSum(GridOf(now, ss, b), s, k)
      {
        PairInRow(GridOf(now, ss, b), GridOf(st, ss, b), c, e, col, s, k);
        CellOfXor(st[k], x, ss, s, b);
      }
      forall d: nat | d < p - 1
        ensures Cell(now[n], ss, d, b) == WideDiagSum(GridOf(now, ss, b), d, n, p)
      {
        PairOnDiagonal(GridOf(now, ss, b), GridOf(st, ss, b), c, p, col, d, n);
      }
    }
  }

  /** EVENODD with p < k: the same for two data columns one period apart. */
  lemma EvenOddPairUndetermined(st: seq<seq<byte>>, k: nat, p: nat, ss: nat, c: nat, x: seq<byte>)
    requires 0 < p && WideEvenOddStripe(st, k, p, ss) && c + p < k && |x| == Offset(p - 1, ss)
    ensures WideEvenOddStripe(Changed(st, c, c + p, x), k, p, ss)
    ensures Changed(st, c, c + p, x) == st <==> AllZero(x)
    ensures forall i :: 0 <= i < k + 2 && i != c && i != c + p ==> Changed(st, c, c + p, x)[i] == st[i]
  {
    hide Xor, Offset;
    var e, now := c + p, Changed(st, c, c + p, x);
    ChangedDiffers(st, c, e, x);
    forall b: nat | b < ss
      ensures forall s: nat :: s < p - 1 ==> Cell(now[k], ss, s, b) == RowSum(GridOf(now, ss, b), s, k)
      ensures forall d: nat :: d < p - 1 ==>
                Cell(now[k + 1], ss, d, b)
                == Xor(WideDiagSum(GridOf(now, ss, b), d, k, p), WideDiagSum(GridOf(now, ss, b), p - 1, k, p))
    {
      var col: int -> byte := s => if s < 0 then NUL else Cell(x, ss, s, b);
      ChangedGrid(st, c, e, x, ss, b);
      forall s: nat | s < p - 1
        ensures Cell(now[k], ss, s, b) == RowSum(GridOf(now, ss, b), s, k)
      {
        PairInRow(GridOf(now, ss, b), GridOf(st, ss, b), c, e, col, s, k);
      }
      forall d: nat | d < p
        ensures WideDiagSum(GridOf(now, ss, b), d, k, p) == WideDiagSum(GridOf(st, ss, b), d, k, p)
      {
        PairOnDiagonal(GridOf(now, ss, b), GridOf(st, ss, b), c, p, col, d, k);
      }
    }
  }
}
