/** Row-diagonal parity. */
module Rdp {
  import opened ModPrime
  import opened Buffers
  import opened RepairSchedule
  import opened ArrayCode
  import opened Encoding
  import opened Raid5
  import opened Bitmasks
  import opened RdpRepair
  import opened PrimeSearch

  /** The row parity chunk of the first k chunks. */
  ghost function RowParityOf(data: seq<seq<byte>>, k: nat, size: nat): (r: seq<byte>)
    ensures |r| == size
  {
    seq(size, (j: nat) => RowSum(ByteGrid(data, j), 0, k))
  }

  /** Data followed by its row parity. */
  ghost function WithRowParity(data: seq<seq<byte>>, k: nat, size: nat): seq<seq<byte>>
    requires k <= |data|
  {
    data[..k] + [RowParityOf(data, k, size)]
  }

  class RdpCoding {
    const raid5: Raid5Coding
    const k: nat
    const p: nat
    /** A prime was found; otherwise the code exits. */
    const found: bool
    const chunkSize: nat
    const symbolSize: nat

    ghost predicate Valid()
      reads this, raid5
    {
      && raid5.n == k + 1
      && IsPrime(p) && k + 1 <= p <= 0x8000_0000
      && chunkSize == Offset(p - 1, symbolSize)
    }

    constructor (k: nat, chunkSize: nat, primes: seq<nat>)
      requires PrimeList(primes)
      ensures this.k == k && this.chunkSize == chunkSize && fresh(raid5)
      ensures var last := primes[|primes| - 1];
              && (found && last >= k + 1 ==>
                   Valid() && p in primes && NoneBelow(primes, p, k + 1, false, chunkSize))
              && (found && !Valid() <==> last < k + 1 && last >= 2 && chunkSize % (last - 1) == 0)
      ensures !found ==> NoneBelow(primes, 1 + primes[|primes| - 1], k + 1, false, chunkSize)
    {
      raid5 := new Raid5Coding(k + 1);
      this.k := k;
      this.chunkSize := chunkSize;
      var found', p', symbolSize' := GetSymbolSize(primes, k + 1, false, chunkSize);
      found, p, symbolSize := found', p', symbolSize';
    }

    /** One column of the diagonal parity loop. */
    method EncodeColumn(parity: array<byte>, src: array<byte>, cidx: nat,
                        limited: bool, startOff: nat, endOff: nat, ghost cols: seq<seq<byte>>)
      requires Valid() && parity != src && (limited ==> startOff <= endOff)
      requires parity.Length == src.Length == chunkSize && cidx <= k && cidx < |cols| && src[..] == cols[cidx]
      modifies parity
      ensures forall d: nat, b: nat :: d < p - 1 && b < symbolSize ==>
                Cell(parity[..], symbolSize, d, b) == Xor(old(Cell(parity[..], symbolSize, d, b)),
                    Visible(cols, k, p, symbolSize, b, limited, startOff, endOff)(cidx, RowOn(d, cidx, p)))
    {
      hide Xor;
      ghost var was := parity[..];
      var sidx := 0;
      while sidx < p - 1
        invariant 0 <= sidx <= p - 1
        invariant forall d: nat, b: nat :: d < p - 1 && b < symbolSize ==>
          Cell(parity[..], symbolSize, d, b) ==
          if RowOn(d, cidx, p) < sidx
          then Xor(Cell(was, symbolSize, d, b),
                   Visible(cols, k, p, symbolSize, b, limited, startOff, endOff)(cidx, RowOn(d, cidx, p)))
          else Cell(was, symbolSize, d, b)
      {
        var pidx := (cidx + sidx) % p;
        DiagonalOf(cidx, sidx, p);
        // the last diagonal is not stored
        if pidx != p - 1 {
          OffsetOrder(pidx, p - 1, symbolSize);
          XorVisible(parity, pidx, src, cidx, sidx, k, p, symbolSize, limited, startOff, endOff, cols);
        }
        sidx := sidx + 1;
      }
      forall d: nat, b: nat | d < p - 1 && b < symbolSize
        ensures Cell(parity[..], symbolSize, d, b) == Xor(Cell(was, symbolSize, d, b),
            Visible(cols, k, p, symbolSize, b, limited, startOff, endOff)(cidx, RowOn(d, cidx, p)))
      {
        VisibleMissingRow(cols, cidx, k, p, symbolSize, b, limited, startOff, endOff);
        AddCancel(Cell(was, symbolSize, d, b), NUL);
      }
    }

    /** Adds parity chunk `index` of the data, or of the range startOff..endOff, to the buffer. */
    method Encode(data: seq<array<byte>>, parity: array<byte>, index: nat, startOff: nat, endOff: nat)
      requires Valid() && k <= |data| && parity.Length == chunkSize
      requires forall i :: 0 <= i < k ==> data[i].Length == chunkSize && data[i] != parity
      requires endOff != 0 ==> startOff <= endOff
      modifies parity
      ensures index == 1 ==> RowsAdded(old(parity[..]), parity[..], old(Contents(data)), k)
      ensures index == 2 ==>
                DiagonalsAdded(old(parity[..]), parity[..], WithRowParity(old(Contents(data)), k, chunkSize), k + 1,
                               endOff != 0 && endOff != startOff, startOff, endOff)
      ensures index != 1 && index != 2 ==> parity[..] == old(parity[..])
    {
      hide Xor;
      var size := if endOff == 0 then 0 else endOff - startOff;
      if index == 1 {
        raid5.Encode(data, parity, chunkSize);
      } else if index == 2 {
        EncodeDiagonal(data, parity, size > 0, startOff, endOff);
      }
    }

    method EncodeDiagonal(data: seq<array<byte>>, parity: array<byte>, limited: bool, startOff: nat, endOff: nat)
      requires Valid() && k <= |data| && parity.Length == chunkSize && (limited ==> startOff <= endOff)
      requires forall i :: 0 <= i < k ==> data[i].Length == chunkSize && data[i] != parity
      modifies parity
      ensures DiagonalsAdded(old(parity[..]), parity[..], WithRowParity(old(Contents(data)), k, chunkSize), k + 1,
                             limited, startOff, endOff)
    {
      hide Xor, DiagonalsAdded, RowsAdded, RowParityOf;
      ghost var cols := WithRowParity(Contents(data), k, chunkSize);
      ghost var was := parity[..];
      // the row parity is one of the columns of the diagonals
      var firstParity := new byte[chunkSize](_ => NUL);
      ghost var zero := firstParity[..];
      raid5.Encode(data, firstParity, chunkSize);
      FreshParity(zero, firstParity[..], Contents(data), k);
      NoColumnAdded(was, cols, limited, startOff, endOff);
      var cidx := 0;
      while cidx < k + 1
        invariant 0 <= cidx <= k + 1
        invariant firstParity[..] == cols[k] && forall i :: 0 <= i < k ==> data[i][..] == cols[i]
        invariant DiagonalsAdded(was, parity[..], cols, cidx, limited, startOff, endOff)
      {
        EncodeNext(if cidx < k then data[cidx] else firstParity, parity, cidx, limited, startOff, endOff, was, cols);
        cidx := cidx + 1;
      }
    }

    /** Adds one column to the diagonals, or skips an unmodified chunk. */
    method EncodeNext(src: array<byte>, parity: array<byte>, cidx: nat, limited: bool, startOff: nat, endOff: nat,
                      ghost was: seq<byte>, ghost cols: seq<seq<byte>>)
      requires Valid() && parity != src && (limited ==> startOff <= endOff) && cidx <= k
      requires parity.Length == src.Length == chunkSize && cidx < |cols| && src[..] == cols[cidx]
      requires DiagonalsAdded(was, parity[..], cols, cidx, limited, startOff, endOff)
      modifies parity
      ensures DiagonalsAdded(was, parity[..], cols, cidx + 1, limited, startOff, endOff)
    {
      hide Xor;
      ghost var now := parity[..];
      if limited && cidx < k && ((cidx + 1) * chunkSize < startOff || cidx * chunkSize > endOff) {
        HiddenColumn(now, cols, cidx, startOff, endOff);
      } else {
        EncodeColumn(parity, src, cidx, limited, startOff, endOff, cols);
      }
      ColumnAdded(was, now, parity[..], cols, cidx, limited, startOff, endOff);
    }

    lemma FreshParity(zero: seq<byte>, parity: seq<byte>, data: seq<seq<byte>>, m: nat)
      requires m <= |data| && RowsAdded(zero, parity, data, m) && AllZero(zero)
      ensures parity == RowParityOf(data, m, |parity|)
    {
      hide Xor;
      forall j | 0 <= j < |parity| ensures parity[j] == RowParityOf(data, m, |parity|)[j] {
        ZeroPlus(RowSum(ByteGrid(data, j), 0, m));
      }
    }

    /** The diagonal parity holds its old content plus the diagonals of the columns before n. */
    ghost predicate DiagonalsAdded(was: seq<byte>, now: seq<byte>, cols: seq<seq<byte>>, n: nat,
                                   limited: bool, startOff: nat, endOff: nat)
      reads this, raid5
      requires Valid() && n <= p
    {
      forall d: nat, b: nat :: d < p - 1 && b < symbolSize ==>
        Cell(now, symbolSize, d, b) == Xor(Cell(was, symbolSize, d, b),
            DiagSum(Visible(cols, k, p, symbolSize, b, limited, startOff, endOff), d, n, p))
    }

    lemma NoColumnAdded(was: seq<byte>, cols: seq<seq<byte>>, limited: bool, startOff: nat, endOff: nat)
      requires Valid()
      ensures DiagonalsAdded(was, was, cols, 0, limited, startOff, endOff)
    {
      hide Xor;
      forall d: nat, b: nat | d < p - 1 && b < symbolSize
        ensures Cell(was, symbolSize, d, b) == Xor(Cell(was, symbolSize, d, b), NUL)
      {
        AddCancel(Cell(was, symbolSize, d, b), NUL);
      }
    }

    lemma ColumnAdded(was: seq<byte>, now: seq<byte>, next: seq<byte>, cols: seq<seq<byte>>, cidx: nat,
                      limited: bool, startOff: nat, endOff: nat)
      requires Valid() && cidx <= k && DiagonalsAdded(was, now, cols, cidx, limited, startOff, endOff)
      requires forall d: nat, b: nat :: d < p - 1 && b < symbolSize ==>
        Cell(next, symbolSize, d, b) == Xor(Cell(now, symbolSize, d, b),
            Visible(cols, k, p, symbolSize, b, limited, startOff, endOff)(cidx, RowOn(d, cidx, p)))
      ensures DiagonalsAdded(was, next, cols, cidx + 1, limited, startOff, endOff)
    {
      hide Xor;
      forall d: nat, b: nat | d < p - 1 && b < symbolSize
        ensures Cell(next, symbolSize, d, b) == Xor(Cell(was, symbolSize, d, b),
            DiagSum(Visible(cols, k, p, symbolSize, b, limited, startOff, endOff), d, cidx + 1, p))
      {
        var g := Visible(cols, k, p, symbolSize, b, limited, startOff, endOff);
        Assoc(Cell(was, symbolSize, d, b), DiagSum(g, d, cidx, p), g(cidx, RowOn(d, cidx, p)));
      }
    }

    /** A data chunk that lies outside startOff..endOff contributes nothing. */
    lemma HiddenColumn(now: seq<byte>, cols: seq<seq<byte>>, cidx: nat, startOff: nat, endOff: nat)
      requires Valid() && cidx < k && cidx < |cols| && |cols[cidx]| == chunkSize
      requires (cidx + 1) * chunkSize < startOff || cidx * chunkSize > endOff
      ensures forall d: nat, b: nat :: d < p - 1 && b < symbolSize ==>
        Cell(now, symbolSize, d, b) == Xor(Cell(now, symbolSize, d, b),
            Visible(cols, k, p, symbolSize, b, true, startOff, endOff)(cidx, RowOn(d, cidx, p)))
    {
      hide Xor;
      forall d: nat, b: nat | d < p - 1 && b < symbolSize
        ensures Cell(now, symbolSize, d, b) == Xor(Cell(now, symbolSize, d, b),
            Visible(cols, k, p, symbolSize, b, true, startOff, endOff)(cidx, RowOn(d, cidx, p)))
      {
        HiddenCell(cols, cidx, RowOn(d, cidx, p), b, startOff, endOff);
        AddCancel(Cell(now, symbolSize, d, b), NUL);
      }
    }

    lemma HiddenCell(cols: seq<seq<byte>>, c: nat, s: nat, b: nat, startOff: nat, endOff: nat)
      requires Valid() && c < k && c < |cols| && |cols[c]| == chunkSize && b < symbolSize && s < p
      requires (c + 1) * chunkSize < startOff || c * chunkSize > endOff
      ensures Visible(cols, k, p, symbolSize, b, true, startOff, endOff)(c, s) == NUL
    {
      hide Xor;
      var g := Visible(cols, k, p, symbolSize, b, true, startOff, endOff);
      assert GridOf(cols, symbolSize, b)(c, s) == Cell(cols[c], symbolSize, s, b);
      if s < p - 1 {
        OffsetIsProduct(c, chunkSize);
        OffsetIsProduct(c + 1, chunkSize);
        OffsetOrder(s, p - 1, symbolSize);
        assert g(c, s) == NUL;
      } else {
        assert g(c, s) == NUL;
      }
    }

    /** XORs the other data and row parity chunks into one of them. */
    method PerformXor(chunks: seq<array<byte>>, target: nat)
      requires Valid() && Separate(chunks, k + 2, chunkSize)
      modifies chunks
      ensures target > k ==> Contents(chunks) == old(Contents(chunks))
      ensures target <= k ==> AddedOthers(old(Contents(chunks)), Contents(chunks), target, k + 1)
    {
      hide Xor;
      if target > k {
        return;
      }
      AddOthers(chunks, target, k + 1, chunkSize);
    }

    /**
     * Outcome of decode on the chunks listed in `failed`. When two of the data and row parity chunks
     * are lost both are restored whatever their buffers hold. In the other cases the code adds to
     * the lost buffers, so the stripe comes back exactly when those buffers were clear.
     */
    ghost predicate Decoded(was: seq<seq<byte>>, now: seq<seq<byte>>, st: seq<seq<byte>>, failed: seq<nat>, ok: bool) {
      && (ok <==> 1 <= |failed| <= 2)
      && (!ok ==> now == was)
      && (ok && |failed| == 2 && failed[1] <= k ==> now == st)
      && (ok && !(|failed| == 2 && failed[1] <= k) ==> (now == st <==> LostClear(was, failed)))
    }

    /** `st` is the stripe that was stored; the surviving chunks still hold it. */
    method Decode(chunks: seq<array<byte>>, chunkStatus: BitmaskArray, ghost st: seq<seq<byte>>) returns (ok: bool)
      requires Valid() && Separate(chunks, k + 2, chunkSize) && RdpStripe(st, k, p, symbolSize)
      requires chunkStatus.Valid() && 0 < chunkStatus.count && k + 2 <= chunkStatus.size && Apart(chunkStatus, chunks)
      requires forall c: nat :: c < k + 2 && chunkStatus.IsSet(0, c) ==> chunks[c][..] == st[c]
      modifies chunks
      ensures Decoded(old(Contents(chunks)), Contents(chunks), st, old(Failed(Alive(chunkStatus, k + 2))), ok)
    {
      hide Xor;
      var tooMany, failed := CollectFailed(chunkStatus, k + 2);
      if tooMany || |failed| == 0 {
        return false;
      }
      SurvivorsHold(Alive(chunkStatus, k + 2), failed, Contents(chunks), st);
      if |failed| == 1 {
        assert failed == [failed[0]];
        DecodeOne(chunks, failed[0], st);
      } else {
        assert failed == [failed[0], failed[1]];
        DecodeTwo(chunks, failed[0], failed[1], st);
      }
      return true;
    }

    lemma SurvivorsHold(alive: seq<bool>, failed: seq<nat>, was: seq<seq<byte>>, st: seq<seq<byte>>)
      requires |alive| == |was| == |st| == k + 2 && failed == Failed(alive) && 1 <= |failed| <= 2
      requires forall c :: 0 <= c < k + 2 && alive[c] ==> was[c] == st[c]
      ensures failed[0] < k + 2 && (|failed| == 2 ==> failed[0] < failed[1] < k + 2)
      ensures forall c :: 0 <= c < k + 2 && c != failed[0] && (|failed| == 2 ==> c != failed[1]) ==> was[c] == st[c]
    {
      hide Xor;
      FailedIsLost(alive);
    }

    /** The branches for two lost chunks. */
    method DecodeTwo(chunks: seq<array<byte>>, f0: nat, f1: nat, ghost st: seq<seq<byte>>)
      requires Valid() && Separate(chunks, k + 2, chunkSize) && RdpStripe(st, k, p, symbolSize) && f0 < f1 < k + 2
      requires forall c :: 0 <= c < k + 2 && c != f0 && c != f1 ==> chunks[c][..] == st[c]
      modifies chunks
      ensures Decoded(old(Contents(chunks)), Contents(chunks), st, [f0, f1], true)
    {
      hide Xor, AllZero, DiagSum, RowSum;
      LostClearOf(Contents(chunks), f0, f1);
      if f1 == k + 1 {
        DecodeWithDiagonal(chunks, f0, st);
      } else {
        RepairBoth(chunks, f0, f1, k, p, symbolSize, st);
        assert Contents(chunks) == st;
      }
    }

    /** The branch for a data or row parity chunk lost together with the diagonal parity. */
    method DecodeWithDiagonal(chunks: seq<array<byte>>, lost: nat, ghost st: seq<seq<byte>>)
      requires Valid() && Separate(chunks, k + 2, chunkSize) && RdpStripe(st, k, p, symbolSize) && lost <= k
      requires forall c :: 0 <= c < k + 1 && c != lost ==> chunks[c][..] == st[c]
      modifies chunks
      ensures Contents(chunks) == st <==> AllZero(old(chunks[lost][..])) && AllZero(old(chunks[k + 1][..]))
    {
      hide Xor;
      ghost var was := Contents(chunks);
      PerformXor(chunks, lost);
      ghost var mid := Contents(chunks);
      Encode(chunks, chunks[k + 1], 2, 0, 0);
      BothParitiesRestored(was, mid, Contents(chunks), st, lost);
    }

    /** The branch for a single lost chunk. */
    method DecodeOne(chunks: seq<array<byte>>, lost: nat, ghost st: seq<seq<byte>>)
      requires Valid() && Separate(chunks, k + 2, chunkSize) && RdpStripe(st, k, p, symbolSize) && lost < k + 2
      requires forall c :: 0 <= c < k + 2 && c != lost ==> chunks[c][..] == st[c]
      modifies chunks
      ensures Decoded(old(Contents(chunks)), Contents(chunks), st, [lost], true)
    {
      hide Xor;
      ghost var was := Contents(chunks);
      LostClearOf(was, lost, lost);
      if lost == k + 1 {
        Encode(chunks, chunks[k + 1], 2, 0, 0);
        DiagonalRestored(was, Contents(chunks), st);
        assert Contents(chunks)[k + 1] == st[k + 1] ==> Contents(chunks) == st;
      } else {
        PerformXor(chunks, lost);
        RowRestored(was, Contents(chunks), st, lost);
      }
    }

    /** The row chunk comes back exactly when its buffer was clear. */
    lemma RowRestored(was: seq<seq<byte>>, now: seq<seq<byte>>, st: seq<seq<byte>>, f: nat)
      requires Valid() && RdpStripe(st, k, p, symbolSize) && f <= k
      requires AddedOthers(was, now, f, k + 1) && |was| == k + 2 && |was[f]| == chunkSize
      requires forall c :: 0 <= c < k + 2 && c != f ==> was[c] == st[c]
      ensures now == st <==> AllZero(was[f])
    {
      hide Xor;
      RowParityBalanced(st, k, p, symbolSize);
      AddOthersRestores(was, now, st, f, k + 1, chunkSize);
      assert now[f] == st[f] ==> now == st;
    }

    /** What Encode( chunks, chunks[ k + 1 ], 2 ) leaves in the diagonal parity. */
    ghost predicate DiagonalEncoded(was: seq<seq<byte>>, now: seq<seq<byte>>)
      reads this, raid5
      requires Valid() && |was| == k + 2
    {
      && |now| == k + 2 && (forall c :: 0 <= c <= k ==> now[c] == was[c]) && |now[k + 1]| == chunkSize
      && DiagonalsAdded(was[k + 1], now[k + 1], WithRowParity(was, k, chunkSize), k + 1, false, 0, 0)
    }

    /** With the data in place the diagonal parity comes back exactly when its buffer was clear. */
    lemma DiagonalRestored(was: seq<seq<byte>>, now: seq<seq<byte>>, st: seq<seq<byte>>)
      requires Valid() && RdpStripe(st, k, p, symbolSize) && |was| == k + 2 && |was[k + 1]| == chunkSize
      requires DiagonalEncoded(was, now)
      requires forall c :: 0 <= c < k ==> was[c] == st[c]
      ensures now[k + 1] == st[k + 1] <==> AllZero(was[k + 1])
    {
      hide Xor;
      var parity, want, junk := now[k + 1], st[k + 1], was[k + 1];
      forall d: nat, b: nat | d < p - 1 && b < symbolSize
        ensures Cell(parity, symbolSize, d, b) == Cell(want, symbolSize, d, b) <==> Cell(junk, symbolSize, d, b) == NUL
      {
        DiagonalValue(was, st, d, b);
        AddCancel(Cell(want, symbolSize, d, b), NUL);
        AddCancel(NUL, NUL);
        SolveByte(Cell(want, symbolSize, d, b), Cell(want, symbolSize, d, b), Cell(junk, symbolSize, d, b));
      }
      SameIffClear(junk, parity, want);
    }

    lemma SameIffClear(was: seq<byte>, now: seq<byte>, want: seq<byte>)
      requires Valid() && |was| == |now| == |want| == chunkSize
      requires forall d: nat, b: nat :: d < p - 1 && b < symbolSize ==>
        (Cell(now, symbolSize, d, b) == Cell(want, symbolSize, d, b) <==> Cell(was, symbolSize, d, b) == NUL)
      ensures now == want <==> AllZero(was)
    {
      hide Xor;
      if AllZero(was) {
        CellsDetermine(now, want, symbolSize, p - 1);
      }
      if now == want {
        forall j | 0 <= j < |was| ensures was[j] == NUL {
          var d, b := SymbolOf(j, p - 1, symbolSize);
          assert Cell(was, symbolSize, d, b) == was[j];
        }
      }
    }

    /** The diagonal sums over data and fresh row parity are the stripe's diagonal parity. */
    lemma DiagonalValue(was: seq<seq<byte>>, st: seq<seq<byte>>, d: nat, b: nat)
      requires Valid() && RdpStripe(st, k, p, symbolSize) && |was| == k + 2 && d < p - 1 && b < symbolSize
      requires forall c :: 0 <= c < k ==> was[c] == st[c]
      ensures DiagSum(Visible(WithRowParity(was, k, chunkSize), k, p, symbolSize, b, false, 0, 0), d, k + 1, p)
              == Cell(st[k + 1], symbolSize, d, b)
    {
      hide Xor;
      var cols := WithRowParity(was, k, chunkSize);
      SameRowParity(was, st);
      var f, g := Visible(cols, k, p, symbolSize, b, false, 0, 0), GridOf(st, symbolSize, b);
      forall c, s | 0 <= c < k + 1 && 0 <= s < p ensures f(c, s) == g(c, s) {
        assert f(c, s) == GridOf(cols, symbolSize, b)(c, s);
      }
      DiagSumCongruence(f, g, d, k + 1, p);
    }

    lemma SameRowParity(was: seq<seq<byte>>, st: seq<seq<byte>>)
      requires Valid() && RdpStripe(st, k, p, symbolSize) && |was| >= k
      requires forall c :: 0 <= c < k ==> was[c] == st[c]
      ensures WithRowParity(was, k, chunkSize) == st[..k + 1]
    {
      hide Xor;
      RowParityBalanced(st, k, p, symbolSize);
      forall j | 0 <= j < chunkSize ensures RowParityOf(was, k, chunkSize)[j] == st[k][j] {
        RowSumCongruence(ByteGrid(was, j), ByteGrid(st, j), 0, k);
      }
      assert RowParityOf(was, k, chunkSize) == st[k];
    }

    lemma BothParitiesRestored(was: seq<seq<byte>>, mid: seq<seq<byte>>, now: seq<seq<byte>>, st: seq<seq<byte>>,
                               f: nat)
      requires Valid() && RdpStripe(st, k, p, symbolSize) && f <= k
      requires AddedOthers(was, mid, f, k + 1) && |was| == k + 2 && |was[f]| == |was[k + 1]| == chunkSize
      requires DiagonalEncoded(mid, now)
      requires forall c :: 0 <= c < k + 1 && c != f ==> was[c] == st[c]
      ensures now == st <==> AllZero(was[f]) && AllZero(was[k + 1])
    {
      hide Xor;
      RowParityBalanced(st, k, p, symbolSize);
      AddOthersRestores(was, mid, st, f, k + 1, chunkSize);
      if f == k || mid[f] == st[f] {
        DiagonalRestored(mid, now, st);
      }
      if mid[f] == st[f] && now[k + 1] == st[k + 1] {
        assert now == st;
      }
    }

    // ----- what encode is for -----

    /** Equal-sized data chunks. */
    ghost predicate IsData(data: seq<seq<byte>>)
      reads this
    {
      |data| == k && forall c :: 0 <= c < k ==> |data[c]| == chunkSize
    }

    /** The parity chunks of a stripe are determined by its data. */
    ghost predicate HasParities(data: seq<seq<byte>>, rowP: seq<byte>, diagP: seq<byte>)
      reads this, raid5
      requires Valid() && IsData(data)
    {
      && rowP == RowParityOf(data, k, chunkSize) && |diagP| == chunkSize
      && forall d: nat, b: nat :: d < p - 1 && b < symbolSize ==>
           Cell(diagP, symbolSize, d, b)
           == DiagSum(GridOf(WithRowParity(data, k, chunkSize), symbolSize, b), d, k + 1, p)
    }

    lemma SameDiagonals(data: seq<seq<byte>>, st: seq<seq<byte>>, d: nat, b: nat)
      requires Valid() && IsData(data) && |st| == k + 2 && d < p
      requires st[..k] == data && st[k] == RowParityOf(data, k, chunkSize)
      ensures DiagSum(GridOf(WithRowParity(data, k, chunkSize), symbolSize, b), d, k + 1, p)
              == DiagSum(GridOf(st, symbolSize, b), d, k + 1, p)
    {
      hide Xor;
      DiagSumCongruence(GridOf(WithRowParity(data, k, chunkSize), symbolSize, b), GridOf(st, symbolSize, b),
                        d, k + 1, p);
    }

    lemma StripeIffParities(data: seq<seq<byte>>, rowP: seq<byte>, diagP: seq<byte>)
      requires Valid() && IsData(data) && |rowP| == |diagP| == chunkSize
      ensures RdpStripe(data + [rowP, diagP], k, p, symbolSize) <==> HasParities(data, rowP, diagP)
    {
      hide Xor;
      var st := data + [rowP, diagP];
      assert st[k] == rowP && st[k + 1] == diagP;
      if RdpStripe(st, k, p, symbolSize) {
        SameRowParity(data, st);
        assert st[..k + 1] == WithRowParity(data, k, chunkSize);
        assert st[..k + 1][k] == rowP;
      } else if rowP == RowParityOf(data, k, chunkSize) {
        FreshRowParity(data, st);
      }
      if rowP == RowParityOf(data, k, chunkSize) {
        assert st[..k] == data;
        forall d: nat, b: nat | d < p - 1 && b < symbolSize
          ensures Cell(diagP, symbolSize, d, b) == DiagSum(GridOf(st, symbolSize, b), d, k + 1, p)
                  <==> Cell(diagP, symbolSize, d, b)
                       == DiagSum(GridOf(WithRowParity(data, k, chunkSize), symbolSize, b), d, k + 1, p)
        {
          SameDiagonals(data, st, d, b);
        }
      }
    }

    lemma FreshRowParity(data: seq<seq<byte>>, st: seq<seq<byte>>)
      requires Valid() && IsData(data) && |st| == k + 2 && st[..k] == data && st[k] == RowParityOf(data, k, chunkSize)
      ensures RowParity(st, k, p, symbolSize)
    {
      hide Xor;
      forall s: nat, b: nat | s < p - 1 && b < symbolSize
        ensures Cell(st[k], symbolSize, s, b) == RowSum(GridOf(st, symbolSize, b), s, k)
      {
        OffsetOrder(s, p - 1, symbolSize);
        var j := Offset(s, symbolSize) + b;
        RowSumByBytes(st, symbolSize, s, b, k);
        RowSumCongruence(ByteGrid(st, j), ByteGrid(data, j), 0, k);
      }
    }

    /** Encoding into two clear buffers yields a stripe. */
    lemma FreshEncodeIsStripe(data: seq<seq<byte>>, rowP: seq<byte>, diagP: seq<byte>, zero: seq<byte>)
      requires Valid() && IsData(data) && |zero| == |rowP| == |diagP| == chunkSize && AllZero(zero)
      requires RowsAdded(zero, rowP, data, k)
      requires DiagonalsAdded(zero, diagP, WithRowParity(data, k, chunkSize), k + 1, false, 0, 0)
      ensures RdpStripe(data + [rowP, diagP], k, p, symbolSize)
    {
      hide Xor;
      FreshParity(zero, rowP, data, k);
      var cols := WithRowParity(data, k, chunkSize);
      forall d: nat, b: nat | d < p - 1 && b < symbolSize
        ensures Cell(diagP, symbolSize, d, b) == DiagSum(GridOf(cols, symbolSize, b), d, k + 1, p)
      {
        DiagonalTerm(zero, diagP, cols, false, 0, 0, d, b);
        ZeroPlus(DiagSum(GridOf(cols, symbolSize, b), d, k + 1, p));
      }
      StripeIffParities(data, rowP, diagP);
    }

    lemma DiagonalTerm(was: seq<byte>, now: seq<byte>, cols: seq<seq<byte>>, limited: bool, startOff: nat, endOff: nat,
                       d: nat, b: nat)
      requires Valid() && |cols| == k + 1 && d < p - 1 && b < symbolSize
      requires DiagonalsAdded(was, now, cols, k + 1, limited, startOff, endOff)
      requires limited ==> ZeroOutside(cols, k, chunkSize, startOff, endOff)
      ensures Cell(now, symbolSize, d, b)
              == Xor(Cell(was, symbolSize, d, b), DiagSum(GridOf(cols, symbolSize, b), d, k + 1, p))
    {
      hide Xor;
      var f, g := Visible(cols, k, p, symbolSize, b, limited, startOff, endOff), GridOf(cols, symbolSize, b);
      forall c, s | 0 <= c < k + 1 && 0 <= s < p ensures f(c, s) == g(c, s) {
        VisibleIsAll(cols, k, p, symbolSize, b, limited, startOff, endOff, c, s);
      }
      DiagSumCongruence(f, g, d, k + 1, p);
    }

    /**
     * Updating data in place: encoding the delta, limited to the range it touches, into the old
     * parity chunks gives the parity chunks of the new data.
     */
    lemma UpdateKeepsStripe(data: seq<seq<byte>>, delta: seq<seq<byte>>, rowP: seq<byte>, diagP: seq<byte>,
                            rowP': seq<byte>, diagP': seq<byte>, limited: bool, startOff: nat, endOff: nat)
      requires Valid() && IsData(data) && IsData(delta) && |rowP| == |diagP| == |rowP'| == |diagP'| == chunkSize
      requires RdpStripe(data + [rowP, diagP], k, p, symbolSize)
      requires limited ==> ZeroOutside(delta, k, chunkSize, startOff, endOff)
      requires RowsAdded(rowP, rowP', delta, k)
      requires DiagonalsAdded(diagP, diagP', WithRowParity(delta, k, chunkSize), k + 1, limited, startOff, endOff)
      ensures RdpStripe(XorStripe(data, delta) + [rowP', diagP'], k, p, symbolSize)
    {
      hide Xor;
      var data' := XorStripe(data, delta);
      StripeIffParities(data, rowP, diagP);
      XorOfRowParities(data, delta, rowP');
      var olds, adds := WithRowParity(data, k, chunkSize), WithRowParity(delta, k, chunkSize);
      var news := WithRowParity(data', k, chunkSize);
      assert news == XorStripe(olds, adds);
      forall d: nat, b: nat | d < p - 1 && b < symbolSize
        ensures Cell(diagP', symbolSize, d, b) == DiagSum(GridOf(news, symbolSize, b), d, k + 1, p)
      {
        DiagonalTerm(diagP, diagP', adds, limited, startOff, endOff, d, b);
        SumOfXor(olds, adds, d, b);
      }
      StripeIffParities(data', rowP', diagP');
    }

    /**
     * An update in place of part of data chunk c: with the delta that computeDelta yields encoded into both parity
     * chunks, over the range it was computed on, the chunks form a stripe again.
     */
    lemma InPlaceUpdateKeepsStripe(data: seq<seq<byte>>, c: nat, now: seq<byte>, delta: seq<byte>, newData: seq<byte>,
                                   offset: nat, rowP: seq<byte>, diagP: seq<byte>, rowP': seq<byte>, diagP': seq<byte>,
                                   deltas: seq<seq<byte>>, start: nat)
      requires Valid() && IsData(data) && c < k && |rowP| == |diagP| == |rowP'| == |diagP'| == |now| == chunkSize
      requires RdpStripe(data + [rowP, diagP], k, p, symbolSize)
      requires 0 < |delta| == |newData| && offset + |delta| <= chunkSize
      requires forall j :: offset <= j < offset + |delta| ==> delta[j - offset] == Xor(data[c][j], newData[j - offset])
      requires forall j :: 0 <= j < chunkSize ==>
                 now[j] == if offset <= j < offset + |delta| then newData[j - offset] else data[c][j]
      requires deltas == DeltaStripe(delta, c, offset, k, chunkSize) && start == Offset(c, chunkSize) + offset
      requires RowsAdded(rowP, rowP', deltas, k)
      requires DiagonalsAdded(diagP, diagP', WithRowParity(deltas, k, chunkSize), k + 1, true, start, start + |delta|)
      ensures RdpStripe(data[c := now] + [rowP', diagP'], k, p, symbolSize)
    {
      hide Xor, RdpStripe;
      DeltaStripeZeroOutside(delta, c, offset, k, chunkSize);
      OneChunkUpdated(data, c, now, delta, newData, offset, chunkSize);
      UpdateKeepsStripe(data, deltas, rowP, diagP, rowP', diagP', true, start, start + |delta|);
    }

    lemma SumOfXor(x: seq<seq<byte>>, y: seq<seq<byte>>, d: nat, b: nat)
      requires Valid() && |x| == |y| == k + 1 && (forall c :: 0 <= c <= k ==> |x[c]| == |y[c]|) && d < p
      ensures DiagSum(GridOf(XorStripe(x, y), symbolSize, b), d, k + 1, p)
              == Xor(DiagSum(GridOf(x, symbolSize, b), d, k + 1, p), DiagSum(GridOf(y, symbolSize, b), d, k + 1, p))
    {
      hide Xor;
      var f, g, h := GridOf(x, symbolSize, b), GridOf(y, symbolSize, b), GridOf(XorStripe(x, y), symbolSize, b);
      forall c, s | 0 <= c < k + 1 && 0 <= s < p ensures h(c, s) == Xor(f(c, s), g(c, s)) {
        GridOfXor(x, y, symbolSize, b, c, s);
      }
      DiagSumLinear(f, g, h, d, k + 1, p);
    }

    lemma XorOfRowParities(data: seq<seq<byte>>, delta: seq<seq<byte>>, rowP': seq<byte>)
      requires Valid() && IsData(data) && IsData(delta) && |rowP'| == chunkSize
      requires forall j :: 0 <= j < chunkSize ==>
        rowP'[j] == Xor(RowParityOf(data, k, chunkSize)[j], RowSum(ByteGrid(delta, j), 0, k))
      ensures rowP' == RowParityOf(XorStripe(data, delta), k, chunkSize)
      ensures rowP' == XorSeq(RowParityOf(data, k, chunkSize), RowParityOf(delta, k, chunkSize))
    {
      hide Xor;
      forall j | 0 <= j < chunkSize
        ensures rowP'[j] == RowParityOf(XorStripe(data, delta), k, chunkSize)[j]
      {
        var f, g, h := ByteGrid(data, j), ByteGrid(delta, j), ByteGrid(XorStripe(data, delta), j);
        forall c | 0 <= c < k ensures h(c, 0) == Xor(f(c, 0), g(c, 0)) {
          assert h(c, 0) == XorStripe(data, delta)[c][j];
        }
        RowSumLinear(f, g, h, 0, k);
      }
    }
  }
}
