/** EVENODD. */
module EvenOdd {
  import opened ModPrime
  import opened Buffers
  import opened RepairSchedule
  import opened ArrayCode
  import opened Encoding
  import opened Raid5
  import opened Bitmasks
  import opened PrimeSearch
  import opened RdpRepair
  import opened EvenOddCode
  import opened EvenOddRepair

  // ----- the order in which encode visits the symbols: row by row -----

  /** XOR of the symbols of diagonal d that come before column cidx of row sidx. */
  ghost function Visited(g: Grid, d: nat, n: nat, p: nat, sidx: nat, cidx: nat): byte
    requires d < p && n <= p
  {
    if n == 0 then NUL
    else
      var s := RowOn(d, n - 1, p);
      if s < sidx || (s == sidx && n - 1 < cidx)
      then Xor(Visited(g, d, n - 1, p, sidx, cidx), g(n - 1, s)) else Visited(g, d, n - 1, p, sidx, cidx)
  }

  /** Visiting one symbol adds it to its own diagonal only. */
  lemma {:induction false} VisitOne(g: Grid, d: nat, n: nat, p: nat, sidx: nat, cidx: nat)
    requires d < p && n <= p && cidx < p && sidx < p
    ensures Visited(g, d, n, p, sidx, cidx + 1) ==
            if cidx < n && RowOn(d, cidx, p) == sidx then Xor(Visited(g, d, n, p, sidx, cidx), g(cidx, sidx))
            else Visited(g, d, n, p, sidx, cidx)
  {
    hide Xor;
    if n > 0 {
      VisitOne(g, d, n - 1, p, sidx, cidx);
      if n - 1 > cidx && RowOn(d, cidx, p) == sidx {
        assert RowOn(d, n - 1, p) != sidx;
        var s := RowOn(d, n - 1, p);
        if s < sidx {
          SwapLast(Visited(g, d, n - 1, p, sidx, cidx), g(cidx, sidx), g(n - 1, s));
        }
      }
    }
  }

  lemma SwapLast(x: byte, y: byte, z: byte)
    ensures Xor(Xor(x, y), z) == Xor(Xor(x, z), y)
  {
    hide Xor;
    Assoc(x, y, z);
    XorCommutes(y, z);
    Assoc(x, z, y);
  }

  lemma {:induction false} NextRow(g: Grid, d: nat, n: nat, p: nat, sidx: nat)
    requires d < p && n <= p
    ensures Visited(g, d, n, p, sidx, n) == Visited(g, d, n, p, sidx + 1, 0)
  {
    hide Xor;
    SameVisits(g, d, n, p, sidx, n);
  }

  lemma {:induction false} SameVisits(g: Grid, d: nat, n: nat, p: nat, sidx: nat, cidx: nat)
    requires d < p && n <= cidx && n <= p
    ensures Visited(g, d, n, p, sidx, cidx) == Visited(g, d, n, p, sidx + 1, 0)
  {
    hide Xor;
    if n > 0 {
      SameVisits(g, d, n - 1, p, sidx, cidx);
    }
  }

  lemma {:induction false} NothingVisited(g: Grid, d: nat, n: nat, p: nat)
    requires d < p && n <= p
    ensures Visited(g, d, n, p, 0, 0) == NUL
  {
    hide Xor;
    if n > 0 {
      NothingVisited(g, d, n - 1, p);
    }
  }

  /** After p - 1 rows each diagonal is complete. */
  lemma {:induction false} AllVisited(g: Grid, d: nat, n: nat, p: nat, top: nat)
    requires d < p && n <= p && top == p - 1 && forall c :: 0 <= c < n ==> g(c, top) == NUL
    ensures Visited(g, d, n, p, top, 0) == DiagSum(g, d, n, p)
  {
    hide Xor;
    if n > 0 {
      AllVisited(g, d, n - 1, p, top);
      AddCancel(DiagSum(g, d, n - 1, p), NUL);
    }
  }

  class EvenOddCoding {
    const raid5: Raid5Coding
    const k: nat
    const p: nat
    /** A prime was found; otherwise the code exits. */
    const found: bool
    const chunkSize: nat
    const symbolSize: nat

    ghost predicate Valid()
      reads this, raid5
    {
      && raid5.n == k + 1
      && IsPrime(p) && p % 2 == 1 && k <= p <= 0x8000_0000
      && chunkSize == Offset(p - 1, symbolSize)
    }

    constructor (k: nat, chunkSize: nat, primes: seq<nat>)
      requires PrimeList(primes)
      ensures this.k == k && this.chunkSize == chunkSize && fresh(raid5)
      ensures var last := primes[|primes| - 1];
              && (found && last >= k ==> Valid() && p in primes && NoneBelow(primes, p, k, true, chunkSize))
              && (found && !Valid() <==> last < k && last >= 2 && chunkSize % (last - 1) == 0)
      ensures !found ==> NoneBelow(primes, 1 + primes[|primes| - 1], k, true, chunkSize)
    {
      raid5 := new Raid5Coding(k + 1);
      this.k := k;
      this.chunkSize := chunkSize;
      var found', p', symbolSize' := GetSymbolSize(primes, k, true, chunkSize);
      found, p, symbolSize := found', p', symbolSize';
      if found' {
        OddPrime(p');
      }
    }

    /** Diagonals in the parity buffer and the missing one in s, after some symbols. */
    ghost predicate Collected(was: seq<byte>, now: seq<byte>, s: seq<byte>, cols: seq<seq<byte>>,
                              sidx: nat, cidx: nat, limited: bool, startOff: nat, endOff: nat)
      reads this, raid5
      requires Valid()
    {
      forall b: nat :: b < symbolSize ==>
        var g := Visible(cols, k, p, symbolSize, b, limited, startOff, endOff);
        && Cell(s, symbolSize, 0, b) == Visited(g, p - 1, k, p, sidx, cidx)
        && forall d: nat :: d < p - 1 ==>
             Cell(now, symbolSize, d, b) == Xor(Cell(was, symbolSize, d, b), Visited(g, d, k, p, sidx, cidx))
    }

    /** The body of the encoding loops. */
    method EncodeSymbol(src: array<byte>, parity: array<byte>, s: array<byte>, sidx: nat, cidx: nat,
                        limited: bool, startOff: nat, endOff: nat, ghost was: seq<byte>, ghost cols: seq<seq<byte>>)
      requires Valid() && parity != src && s != src && s != parity && (limited ==> startOff <= endOff)
      requires sidx < p - 1 && cidx < k && cidx < |cols| && src[..] == cols[cidx]
      requires parity.Length == src.Length == chunkSize && s.Length == symbolSize
      requires Collected(was, parity[..], s[..], cols, sidx, cidx, limited, startOff, endOff)
      modifies parity, s
      ensures Collected(was, parity[..], s[..], cols, sidx, cidx + 1, limited, startOff, endOff)
    {
      hide Xor;
      var pidx := (cidx + sidx) % p;
      DiagonalOf(cidx, sidx, p);
      ghost var now, part := parity[..], s[..];
      // diagonal p - 1 has no symbol of its own
      if pidx == p - 1 {
        XorVisible(s, 0, src, cidx, sidx, k, p, symbolSize, limited, startOff, endOff, cols);
      } else {
        OffsetOrder(pidx, p - 1, symbolSize);
        XorVisible(parity, pidx, src, cidx, sidx, k, p, symbolSize, limited, startOff, endOff, cols);
      }
      SymbolCollected(was, now, part, parity[..], s[..], cols, sidx, cidx, limited, startOff, endOff);
    }

    lemma SymbolCollected(was: seq<byte>, now: seq<byte>, s: seq<byte>, now': seq<byte>, s': seq<byte>,
                          cols: seq<seq<byte>>, sidx: nat, cidx: nat, limited: bool, startOff: nat, endOff: nat)
      requires Valid() && sidx < p - 1 && cidx < k
      requires Collected(was, now, s, cols, sidx, cidx, limited, startOff, endOff)
      requires forall b: nat :: b < symbolSize ==>
        Cell(s', symbolSize, 0, b) ==
        if RowOn(p - 1, cidx, p) == sidx
        then Xor(Cell(s, symbolSize, 0, b), Visible(cols, k, p, symbolSize, b, limited, startOff, endOff)(cidx, sidx))
        else Cell(s, symbolSize, 0, b)
      requires forall d: nat, b: nat :: d < p - 1 && b < symbolSize ==>
        Cell(now', symbolSize, d, b) ==
        if RowOn(d, cidx, p) == sidx
        then Xor(Cell(now, symbolSize, d, b), Visible(cols, k, p, symbolSize, b, limited, startOff, endOff)(cidx, sidx))
        else Cell(now, symbolSize, d, b)
      ensures Collected(was, now', s', cols, sidx, cidx + 1, limited, startOff, endOff)
    {
      hide Xor;
      forall b: nat | b < symbolSize
        ensures var g := Visible(cols, k, p, symbolSize, b, limited, startOff, endOff);
                Cell(s', symbolSize, 0, b) == Visited(g, p - 1, k, p, sidx, cidx + 1)
      {
        VisitOne(Visible(cols, k, p, symbolSize, b, limited, startOff, endOff), p - 1, k, p, sidx, cidx);
      }
      forall d: nat, b: nat | d < p - 1 && b < symbolSize
        ensures var g := Visible(cols, k, p, symbolSize, b, limited, startOff, endOff);
                Cell(now', symbolSize, d, b) == Xor(Cell(was, symbolSize, d, b), Visited(g, d, k, p, sidx, cidx + 1))
      {
        var g := Visible(cols, k, p, symbolSize, b, limited, startOff, endOff);
        VisitOne(g, d, k, p, sidx, cidx);
        Assoc(Cell(was, symbolSize, d, b), Visited(g, d, k, p, sidx, cidx), g(cidx, sidx));
      }
    }

    /** Adds parity chunk `index` of the data, or of the range startOff..endOff, to the buffer. */
    method Encode(data: seq<array<byte>>, parity: array<byte>, index: nat, startOff: nat, endOff: nat)
      requires Valid() && k <= |data| && parity.Length == chunkSize
      requires forall i :: 0 <= i < k ==> data[i].Length == chunkSize && data[i] != parity
      requires endOff != 0 ==> startOff <= endOff
      modifies parity
      ensures index == 1 ==> RowsAdded(old(parity[..]), parity[..], old(Contents(data)), k)
      ensures index == 2 ==>
                AdjustedAdded(old(parity[..]), parity[..], old(Contents(data)),
                              endOff != 0 && endOff != startOff, startOff, endOff)
      ensures index != 1 && index != 2 ==> parity[..] == old(parity[..])
    {
      hide Xor;
      var size := if endOff == 0 then 0 else endOff - startOff;
      if index == 1 {
        raid5.Encode(data, parity, chunkSize);
      } else if index == 2 {
        EncodeAdjusted(data, parity, size > 0, startOff, endOff);
      }
    }

    /** The buffer holds its old content plus every diagonal of the visible data and S. */
    ghost predicate AdjustedAdded(was: seq<byte>, now: seq<byte>, cols: seq<seq<byte>>, limited: bool, startOff: nat,
                                  endOff: nat)
      reads this, raid5
      requires Valid()
    {
      forall d: nat, b: nat :: d < p - 1 && b < symbolSize ==>
        var g := Visible(cols, k, p, symbolSize, b, limited, startOff, endOff);
        Cell(now, symbolSize, d, b) == Xor(Cell(was, symbolSize, d, b), Xor(DiagSum(g, d, k, p), Adjuster(g, k, p)))
    }

    method EncodeAdjusted(data: seq<array<byte>>, parity: array<byte>, limited: bool, startOff: nat, endOff: nat)
      requires Valid() && k <= |data| && parity.Length == chunkSize && (limited ==> startOff <= endOff)
      requires forall i :: 0 <= i < k ==> data[i].Length == chunkSize && data[i] != parity
      modifies parity
      ensures AdjustedAdded(old(parity[..]), parity[..], old(Contents(data)), limited, startOff, endOff)
    {
      hide Xor, Collected;
      ghost var was, cols := parity[..], Contents(data);
      // every diagonal carries the adjuster
      var s := new byte[symbolSize](_ => NUL);
      NothingCollected(was, s[..], cols, limited, startOff, endOff);
      var sidx := 0;
      while sidx < p - 1
        invariant 0 <= sidx <= p - 1 && forall i :: 0 <= i < k ==> data[i][..] == cols[i]
        invariant Collected(was, parity[..], s[..], cols, sidx, 0, limited, startOff, endOff)
      {
        var cidx := 0;
        while cidx < k
          invariant 0 <= cidx <= k && forall i :: 0 <= i < k ==> data[i][..] == cols[i]
          invariant Collected(was, parity[..], s[..], cols, sidx, cidx, limited, startOff, endOff)
        {
          EncodeSymbol(data[cidx], parity, s, sidx, cidx, limited, startOff, endOff, was, cols);
          cidx := cidx + 1;
        }
        RowCollected(was, parity[..], s[..], cols, sidx, limited, startOff, endOff);
        sidx := sidx + 1;
      }
      ghost var diagonals := parity[..];
      AddToAllSymbols(parity, s);
      EverythingCollected(was, diagonals, s[..], parity[..], cols, limited, startOff, endOff);
    }

    /** Adds S to every symbol of the parity. */
    method AddToAllSymbols(parity: array<byte>, s: array<byte>)
      requires Valid() && parity != s && parity.Length == chunkSize && s.Length == symbolSize
      modifies parity
      ensures forall d: nat, b: nat :: d < p - 1 && b < symbolSize ==>
        Cell(parity[..], symbolSize, d, b)
        == Xor(old(Cell(parity[..], symbolSize, d, b)), Cell(s[..], symbolSize, 0, b))
    {
      hide Xor;
      ghost var was := parity[..];
      var sidx := 0;
      while sidx < p - 1
        invariant 0 <= sidx <= p - 1
        invariant forall d: nat, b: nat :: d < p - 1 && b < symbolSize ==>
          Cell(parity[..], symbolSize, d, b) ==
          if d < sidx then Xor(Cell(was, symbolSize, d, b), Cell(s[..], symbolSize, 0, b))
          else Cell(was, symbolSize, d, b)
      {
        OffsetOrder(sidx, p - 1, symbolSize);
        XorSymbol(parity, sidx, s, 0, 0, symbolSize, symbolSize);
        sidx := sidx + 1;
      }
    }

    lemma NothingCollected(was: seq<byte>, s: seq<byte>, cols: seq<seq<byte>>, limited: bool, startOff: nat,
                           endOff: nat)
      requires Valid() && |s| == symbolSize && forall i :: 0 <= i < |s| ==> s[i] == NUL
      ensures Collected(was, was, s, cols, 0, 0, limited, startOff, endOff)
    {
      hide Xor;
      forall d: nat, b: nat | d < p && b < symbolSize
        ensures Visited(Visible(cols, k, p, symbolSize, b, limited, startOff, endOff), d, k, p, 0, 0) == NUL
        ensures Xor(Cell(was, symbolSize, d, b), NUL) == Cell(was, symbolSize, d, b)
      {
        NothingVisited(Visible(cols, k, p, symbolSize, b, limited, startOff, endOff), d, k, p);
        AddCancel(Cell(was, symbolSize, d, b), NUL);
      }
    }

    lemma RowCollected(was: seq<byte>, now: seq<byte>, s: seq<byte>, cols: seq<seq<byte>>, sidx: nat,
                       limited: bool, startOff: nat, endOff: nat)
      requires Valid() && Collected(was, now, s, cols, sidx, k, limited, startOff, endOff)
      ensures Collected(was, now, s, cols, sidx + 1, 0, limited, startOff, endOff)
    {
      hide Xor;
      forall d: nat, b: nat | d < p && b < symbolSize
        ensures var g := Visible(cols, k, p, symbolSize, b, limited, startOff, endOff);
                Visited(g, d, k, p, sidx, k) == Visited(g, d, k, p, sidx + 1, 0)
      {
        NextRow(Visible(cols, k, p, symbolSize, b, limited, startOff, endOff), d, k, p, sidx);
      }
    }

    lemma EverythingCollected(was: seq<byte>, diagonals: seq<byte>, s: seq<byte>, now: seq<byte>, cols: seq<seq<byte>>,
                              limited: bool, startOff: nat, endOff: nat)
      requires Valid() && k <= |cols| && forall c :: 0 <= c < k ==> |cols[c]| == chunkSize
      requires Collected(was, diagonals, s, cols, p - 1, 0, limited, startOff, endOff)
      requires forall d: nat, b: nat :: d < p - 1 && b < symbolSize ==>
        Cell(now, symbolSize, d, b) == Xor(Cell(diagonals, symbolSize, d, b), Cell(s, symbolSize, 0, b))
      ensures AdjustedAdded(was, now, cols, limited, startOff, endOff)
    {
      hide Xor;
      forall d: nat, b: nat | d < p - 1 && b < symbolSize
        ensures var g := Visible(cols, k, p, symbolSize, b, limited, startOff, endOff);
                Cell(now, symbolSize, d, b)
                == Xor(Cell(was, symbolSize, d, b), Xor(DiagSum(g, d, k, p), Adjuster(g, k, p)))
      {
        var g := Visible(cols, k, p, symbolSize, b, limited, startOff, endOff);
        var top := p - 1;
        forall c | 0 <= c < k ensures g(c, top) == NUL {
          VisibleMissingRow(cols, c, k, p, symbolSize, b, limited, startOff, endOff);
        }
        AllVisited(g, d, k, p, top);
        AllVisited(g, top, k, p, top);
        Assoc(Cell(was, symbolSize, d, b), DiagSum(g, d, k, p), Adjuster(g, k, p));
      }
    }

    // ----- decoding -----

    /** `st` is the stripe that was stored; the surviving chunks still hold it. */
    method Decode(chunks: seq<array<byte>>, chunkStatus: BitmaskArray, ghost st: seq<seq<byte>>) returns (ok: bool)
      requires Valid() && Separate(chunks, k + 2, chunkSize) && EvenOddStripe(st, k, p, symbolSize)
      requires chunkStatus.Valid() && 0 < chunkStatus.count && k + 2 <= chunkStatus.size && Apart(chunkStatus, chunks)
      requires forall c: nat :: c < k + 2 && chunkStatus.IsSet(0, c) ==> chunks[c][..] == st[c]
      modifies chunks
      ensures ok <==> 1 <= |old(Failed(Alive(chunkStatus, k + 2)))| <= 2
      ensures Contents(chunks) == if ok then st else old(Contents(chunks))
    {
      hide Xor, Lit, RowParity, AdjustedParity;
      var tooMany, failed := CollectFailed(chunkStatus, k + 2);
      if tooMany || |failed| == 0 {
        return false;
      }
      LostChunks(Alive(chunkStatus, k + 2), Alive(chunkStatus, k + 1), failed, Contents(chunks), st);
      if |failed| == 1 {
        DecodeOne(chunks, chunkStatus, failed[0], st);
      } else {
        DecodeTwo(chunks, chunkStatus, failed[0], failed[1], st);
      }
      return true;
    }

    lemma LostChunks(alive: seq<bool>, aliveRows: seq<bool>, failed: seq<nat>, was: seq<seq<byte>>, st: seq<seq<byte>>)
      requires |alive| == |was| == |st| == k + 2 && failed == Failed(alive) && 1 <= |failed| <= 2
               && aliveRows == alive[..k + 1]
      requires forall c :: 0 <= c < k + 2 && alive[c] ==> was[c] == st[c]
      ensures failed[0] < k + 2 && (|failed| == 2 ==> failed[0] < failed[1] < k + 2)
      ensures forall c :: 0 <= c < k + 2 && c != failed[0] && (|failed| == 2 ==> c != failed[1]) ==> was[c] == st[c]
      ensures (|failed| == 1 && failed[0] <= k) || (|failed| == 2 && failed[1] == k + 1)
              ==> Failed(aliveRows) == [failed[0]]
    {
      FailedIsLost(alive);
      FailedStep(alive, k + 1);
      assert alive[..k + 2] == alive;
    }

    method DecodeOne(chunks: seq<array<byte>>, chunkStatus: BitmaskArray, lost: nat, ghost st: seq<seq<byte>>)
      requires Valid() && Separate(chunks, k + 2, chunkSize) && EvenOddStripe(st, k, p, symbolSize) && lost < k + 2
      requires chunkStatus.Valid() && 0 < chunkStatus.count && k + 2 <= chunkStatus.size && Apart(chunkStatus, chunks)
      requires lost <= k ==> Failed(Alive(chunkStatus, k + 1)) == [lost]
      requires forall c :: 0 <= c < k + 2 && c != lost ==> chunks[c][..] == st[c]
      modifies chunks
      ensures Contents(chunks) == st
    {
      hide Xor;
      Clear(chunks[lost]);
      if lost == k + 1 {
        EncodeLostDiagonal(chunks, st);
      } else {
        DecodeByRow(chunks, chunkStatus, lost, st);
      }
      assert Contents(chunks) == st;
    }

    method DecodeTwo(chunks: seq<array<byte>>, chunkStatus: BitmaskArray, f0: nat, f1: nat, ghost st: seq<seq<byte>>)
      requires Valid() && Separate(chunks, k + 2, chunkSize) && EvenOddStripe(st, k, p, symbolSize) && f0 < f1 < k + 2
      requires chunkStatus.Valid() && 0 < chunkStatus.count && k + 2 <= chunkStatus.size && Apart(chunkStatus, chunks)
      requires f1 == k + 1 ==> Failed(Alive(chunkStatus, k + 1)) == [f0]
      requires forall c :: 0 <= c < k + 2 && c != f0 && c != f1 ==> chunks[c][..] == st[c]
      modifies chunks
      ensures Contents(chunks) == st
    {
      hide Xor, Failed, Lit;
      Clear(chunks[f0]);
      Clear(chunks[f1]);
      if f1 == k + 1 {
        DecodeByRow(chunks, chunkStatus, f0, st);
        EncodeLostDiagonal(chunks, st);
      } else if f1 == k {
        RepairDataAndRow(chunks, f0, st);
      } else {
        RepairTwoData(chunks, f0, f1, st);
      }
      assert Contents(chunks) == st;
    }

    /** Row repair of one cleared chunk by RAID-5. */
    method DecodeByRow(chunks: seq<array<byte>>, chunkStatus: BitmaskArray, lost: nat, ghost st: seq<seq<byte>>)
      requires Valid() && Separate(chunks, k + 2, chunkSize) && EvenOddStripe(st, k, p, symbolSize) && lost <= k
      requires chunkStatus.Valid() && 0 < chunkStatus.count && k + 2 <= chunkStatus.size && Apart(chunkStatus, chunks)
      requires Failed(Alive(chunkStatus, k + 1)) == [lost] && AllZero(chunks[lost][..])
      requires forall c :: 0 <= c < k + 1 && c != lost ==> chunks[c][..] == st[c]
      modifies chunks
      ensures forall c :: 0 <= c < k + 1 ==> chunks[c][..] == st[c]
      ensures chunks[k + 1][..] == old(chunks[k + 1][..])
    {
      hide Xor;
      ghost var was := Contents(chunks);
      var ok := raid5.Decode(chunks, chunkStatus, chunkSize);
      RowParityBalanced(st, k, p, symbolSize);
      AddOthersRestores(was, Contents(chunks), st, lost, k + 1, chunkSize);
    }

    /** The diagonal parity is encoded again into its cleared buffer. */
    method EncodeLostDiagonal(chunks: seq<array<byte>>, ghost st: seq<seq<byte>>)
      requires Valid() && Separate(chunks, k + 2, chunkSize) && EvenOddStripe(st, k, p, symbolSize)
      requires AllZero(chunks[k + 1][..])
      requires forall c :: 0 <= c < k ==> chunks[c][..] == st[c]
      modifies chunks[k + 1]
      ensures chunks[k + 1][..] == st[k + 1]
    {
      hide Xor;
      ghost var was := Contents(chunks);
      Encode(chunks, chunks[k + 1], 2, 0, 0);
      AdjustedIsStored(was, chunks[k + 1][..], st);
    }

    lemma AdjustedIsStored(was: seq<seq<byte>>, now: seq<byte>, st: seq<seq<byte>>)
      requires Valid() && EvenOddStripe(st, k, p, symbolSize) && |was| == k + 2 && AllZero(was[k + 1])
      requires |now| == |was[k + 1]| == chunkSize && AdjustedAdded(was[k + 1], now, was, false, 0, 0)
      requires forall c :: 0 <= c < k ==> was[c] == st[c]
      ensures now == st[k + 1]
    {
      hide Xor;
      var want, junk := st[k + 1], was[k + 1];
      forall d: nat, b: nat | d < p - 1 && b < symbolSize
        ensures Cell(now, symbolSize, d, b) == Cell(want, symbolSize, d, b)
      {
        var f, g := Visible(was, k, p, symbolSize, b, false, 0, 0), GridOf(st, symbolSize, b);
        forall c, s | 0 <= c < k && 0 <= s < p ensures f(c, s) == g(c, s) {
          assert f(c, s) == GridOf(was, symbolSize, b)(c, s);
        }
        DiagSumCongruence(f, g, d, k, p);
        DiagSumCongruence(f, g, p - 1, k, p);
        OffsetOrder(d, p - 1, symbolSize);
        ZeroPlus(Xor(DiagSum(g, d, k, p), Adjuster(g, k, p)));
      }
      CellsDetermine(now, want, symbolSize, p - 1);
    }

    /** A data chunk and the row parity. */
    method RepairDataAndRow(chunks: seq<array<byte>>, f: nat, ghost st: seq<seq<byte>>)
      requires Valid() && Separate(chunks, k + 2, chunkSize) && EvenOddStripe(st, k, p, symbolSize) && f < k
      requires AllZero(chunks[f][..]) && AllZero(chunks[k][..])
      requires forall c :: 0 <= c < k + 2 && c != f && c != k ==> chunks[c][..] == st[c]
      modifies chunks
      ensures forall c :: 0 <= c < k + 2 ==> chunks[c][..] == st[c]
    {
      hide Xor;
      RepairDataChunk(chunks, f, k, p, symbolSize, st);
      // the lost row parity is encoded again
      ghost var was := Contents(chunks);
      Encode(chunks, chunks[k], 1, 0, 0);
      RowIsStored(was, chunks[k][..], st);
    }

    lemma RowIsStored(was: seq<seq<byte>>, now: seq<byte>, st: seq<seq<byte>>)
      requires Valid() && EvenOddStripe(st, k, p, symbolSize) && |was| == k + 2 && AllZero(was[k])
      requires |was[k]| == chunkSize && RowsAdded(was[k], now, was, k)
      requires forall c :: 0 <= c < k ==> was[c] == st[c]
      ensures now == st[k]
    {
      hide Xor;
      RowParityBalanced(st, k, p, symbolSize);
      forall j | 0 <= j < chunkSize ensures now[j] == st[k][j] {
        RowSumCongruence(ByteGrid(was, j), ByteGrid(st, j), 0, k);
        ZeroPlus(st[k][j]);
      }
    }

    /** Two data chunks. */
    method RepairTwoData(chunks: seq<array<byte>>, f0: nat, f1: nat, ghost st: seq<seq<byte>>)
      requires Valid() && Separate(chunks, k + 2, chunkSize) && EvenOddStripe(st, k, p, symbolSize) && f0 < f1 < k
      requires AllZero(chunks[f0][..]) && AllZero(chunks[f1][..])
      requires forall c :: 0 <= c < k + 2 && c != f0 && c != f1 ==> chunks[c][..] == st[c]
      modifies chunks
      ensures forall c :: 0 <= c < k + 2 ==> chunks[c][..] == st[c]
    {
      hide Xor;
      RepairTwoChunks(chunks, f0, f1, k, p, symbolSize, st);
    }

    // ----- what encode is for -----

    ghost predicate IsData(data: seq<seq<byte>>)
      reads this
    {
      |data| == k && forall c :: 0 <= c < k ==> |data[c]| == chunkSize
    }

    /** Value of the diagonal parity of `data`. */
    ghost function Adjusted(data: seq<seq<byte>>, d: nat, b: nat): byte
      reads this, raid5
      requires Valid() && d < p
    {
      Xor(DiagSum(GridOf(data, symbolSize, b), d, k, p), Adjuster(GridOf(data, symbolSize, b), k, p))
    }

    ghost predicate HasParities(data: seq<seq<byte>>, rowP: seq<byte>, diagP: seq<byte>)
      reads this, raid5
      requires Valid() && IsData(data)
    {
      && |rowP| == |diagP| == chunkSize
      && (forall j :: 0 <= j < chunkSize ==> rowP[j] == RowSum(ByteGrid(data, j), 0, k))
      && (forall d: nat, b: nat :: d < p - 1 && b < symbolSize ==>
            Cell(diagP, symbolSize, d, b) == Adjusted(data, d, b))
    }

    lemma StripeIffParities(data: seq<seq<byte>>, rowP: seq<byte>, diagP: seq<byte>)
      requires Valid() && IsData(data) && |rowP| == |diagP| == chunkSize
      ensures EvenOddStripe(data + [rowP, diagP], k, p, symbolSize) <==> HasParities(data, rowP, diagP)
    {
      hide Xor;
      var st := data + [rowP, diagP];
      assert st[k] == rowP && st[k + 1] == diagP;
      forall d: nat, b: nat | d < p - 1 && b < symbolSize
        ensures Adjusted(data, d, b)
                == Xor(DiagSum(GridOf(st, symbolSize, b), d, k, p), Adjuster(GridOf(st, symbolSize, b), k, p))
      {
        DiagSumCongruence(GridOf(data, symbolSize, b), GridOf(st, symbolSize, b), d, k, p);
        DiagSumCongruence(GridOf(data, symbolSize, b), GridOf(st, symbolSize, b), p - 1, k, p);
      }
      forall j: nat | j < chunkSize ensures RowSum(ByteGrid(data, j), 0, k) == RowSum(ByteGrid(st, j), 0, k) {
        RowSumCongruence(ByteGrid(data, j), ByteGrid(st, j), 0, k);
      }
      if EvenOddStripe(st, k, p, symbolSize) {
        RowParityBalanced(st, k, p, symbolSize);
      }
      if HasParities(data, rowP, diagP) {
        forall s: nat, b: nat | s < p - 1 && b < symbolSize
          ensures Cell(st[k], symbolSize, s, b) == RowSum(GridOf(st, symbolSize, b), s, k)
        {
          OffsetOrder(s, p - 1, symbolSize);
          RowSumByBytes(st, symbolSize, s, b, k);
        }
      }
    }

    /** Encoding into two clear buffers yields a stripe. */
    lemma FreshEncodeIsStripe(data: seq<seq<byte>>, rowP: seq<byte>, diagP: seq<byte>, zero: seq<byte>)
      requires Valid() && IsData(data) && |zero| == |diagP| == chunkSize && AllZero(zero)
      requires RowsAdded(zero, rowP, data, k) && AdjustedAdded(zero, diagP, data, false, 0, 0)
      ensures EvenOddStripe(data + [rowP, diagP], k, p, symbolSize)
    {
      hide Xor;
      forall j | 0 <= j < chunkSize ensures rowP[j] == RowSum(ByteGrid(data, j), 0, k) {
        ZeroPlus(RowSum(ByteGrid(data, j), 0, k));
      }
      forall d: nat, b: nat | d < p - 1 && b < symbolSize
        ensures Cell(diagP, symbolSize, d, b) == Adjusted(data, d, b)
      {
        AdjustedTerm(zero, diagP, data, false, 0, 0, d, b);
        ZeroPlus(Adjusted(data, d, b));
      }
      StripeIffParities(data, rowP, diagP);
    }

    lemma AdjustedTerm(was: seq<byte>, now: seq<byte>, data: seq<seq<byte>>, limited: bool, startOff: nat, endOff: nat,
                       d: nat, b: nat)
      requires Valid() && IsData(data) && d < p - 1 && b < symbolSize
               && AdjustedAdded(was, now, data, limited, startOff, endOff)
      requires limited ==> ZeroOutside(data, k, chunkSize, startOff, endOff)
      ensures Cell(now, symbolSize, d, b) == Xor(Cell(was, symbolSize, d, b), Adjusted(data, d, b))
    {
      hide Xor;
      var f, g := Visible(data, k, p, symbolSize, b, limited, startOff, endOff), GridOf(data, symbolSize, b);
      forall c, s | 0 <= c < k && 0 <= s < p ensures f(c, s) == g(c, s) {
        VisibleIsAll(data, k, p, symbolSize, b, limited, startOff, endOff, c, s);
      }
      DiagSumCongruence(f, g, d, k, p);
      DiagSumCongruence(f, g, p - 1, k, p);
    }

    /**
     * Updating data in place: encoding the delta, limited to the range it touches, into the old
     * parity chunks gives the parity chunks of the new data.
     */
    lemma UpdateKeepsStripe(data: seq<seq<byte>>, delta: seq<seq<byte>>, rowP: seq<byte>, diagP: seq<byte>,
                            rowP': seq<byte>, diagP': seq<byte>, limited: bool, startOff: nat, endOff: nat)
      requires Valid() && IsData(data) && IsData(delta) && |rowP| == |diagP| == |rowP'| == |diagP'| == chunkSize
      requires EvenOddStripe(data + [rowP, diagP], k, p, symbolSize)
      requires limited ==> ZeroOutside(delta, k, chunkSize, startOff, endOff)
      requires RowsAdded(rowP, rowP', delta, k)
      requires AdjustedAdded(diagP, diagP', delta, limited, startOff, endOff)
      ensures EvenOddStripe(XorStripe(data, delta) + [rowP', diagP'], k, p, symbolSize)
    {
      hide Xor;
      var data' := XorStripe(data, delta);
      StripeIffParities(data, rowP, diagP);
      forall j | 0 <= j < chunkSize ensures rowP'[j] == RowSum(ByteGrid(data', j), 0, k) {
        var f, g, h := ByteGrid(data, j), ByteGrid(delta, j), ByteGrid(data', j);
        forall c | 0 <= c < k ensures h(c, 0) == Xor(f(c, 0), g(c, 0)) {
          assert h(c, 0) == data'[c][j];
        }
        RowSumLinear(f, g, h, 0, k);
      }
      forall d: nat, b: nat | d < p - 1 && b < symbolSize
        ensures Cell(diagP', symbolSize, d, b) == Adjusted(data', d, b)
      {
        AdjustedTerm(diagP, diagP', delta, limited, startOff, endOff, d, b);
        AdjustedIsLinear(data, delta, d, b);
      }
      StripeIffParities(data', rowP', diagP');
    }

    /**
     * An update in place of part of data chunk c: with the delta that computeDelta yields encoded into both parity
     * chunks, over the range it was computed on, the chunks form a stripe again.
     */
    lemma InPlaceUpdateKeepsStripe(data: seq<seq<byte>>, c: nat, now: seq<byte>, delta: seq<byte>, newData: seq<byte>,
                                   offset: nat, rowP: seq<byte>, diagP: seq<byte>, rowP': seq<byte>, diagP': seq<byte>,
                                   deltas: seq<seq<byte>>, start: nat)
      requires Valid() && IsData(data) && c < k && |rowP| == |diagP| == |rowP'| == |diagP'| == |now| == chunkSize
      requires EvenOddStripe(data + [rowP, diagP], k, p, symbolSize)
      requires 0 < |delta| == |newData| && offset + |delta| <= chunkSize
      requires forall j :: offset <= j < offset + |delta| ==> delta[j - offset] == Xor(data[c][j], newData[j - offset])
      requires forall j :: 0 <= j < chunkSize ==>
                 now[j] == if offset <= j < offset + |delta| then newData[j - offset] else data[c][j]
      requires deltas == DeltaStripe(delta, c, offset, k, chunkSize) && start == Offset(c, chunkSize) + offset
      requires RowsAdded(rowP, rowP', deltas, k)
      requires AdjustedAdded(diagP, diagP', deltas, true, start, start + |delta|)
      ensures EvenOddStripe(data[c := now] + [rowP', diagP'], k, p, symbolSize)
    {
      hide Xor, EvenOddStripe, AdjustedAdded, RowsAdded;
      DeltaStripeZeroOutside(delta, c, offset, k, chunkSize);
      OneChunkUpdated(data, c, now, delta, newData, offset, chunkSize);
      UpdateKeepsStripe(data, deltas, rowP, diagP, rowP', diagP', true, start, start + |delta|);
    }

    lemma AdjustedIsLinear(x: seq<seq<byte>>, y: seq<seq<byte>>, d: nat, b: nat)
      requires Valid() && IsData(x) && IsData(y) && d < p
      ensures Adjusted(XorStripe(x, y), d, b) == Xor(Adjusted(x, d, b), Adjusted(y, d, b))
    {
      hide Xor;
      var f, g, h := GridOf(x, symbolSize, b), GridOf(y, symbolSize, b), GridOf(XorStripe(x, y), symbolSize, b);
      forall c, s | 0 <= c < k && 0 <= s < p ensures h(c, s) == Xor(f(c, s), g(c, s)) {
        GridOfXor(x, y, symbolSize, b, c, s);
      }
      DiagSumLinear(f, g, h, d, k, p);
      DiagSumLinear(f, g, h, p - 1, k, p);
      Interchange(DiagSum(f, d, k, p), DiagSum(g, d, k, p), Adjuster(f, k, p), Adjuster(g, k, p));
    }
  }

  lemma OddPrime(p: nat)
    requires IsPrime(p) && p != 2
    ensures p % 2 == 1
  {
    assert p % 2 != 0;
  }
}
