/** Single parity over whole chunks. */
module Raid5 {
  import opened Buffers
  import opened ArrayCode
  import opened Bitmasks

  class Raid5Coding {
    var n: nat

    constructor (n: nat)
      ensures this.n == n
    {
      this.n := n;
    }

    /** Adds the XOR of the n - 1 data chunks to the parity buffer; ranges are ignored. */
    method Encode(data: seq<array<byte>>, parity: array<byte>, chunkSize: nat)
      requires 1 <= n <= |data| + 1 && parity.Length == chunkSize
      requires forall i :: 0 <= i < n - 1 ==> data[i].Length == chunkSize && data[i] != parity
      modifies parity
      ensures RowsAdded(old(parity[..]), parity[..], old(Contents(data)), n - 1)
    {
      hide Xor, RowsAdded;
      ghost var was, cols := parity[..], Contents(data);
      AddNone(was, cols);
      var i := 0;
      while i < n - 1
        invariant 0 <= i <= n - 1 && RowsAdded(was, parity[..], cols, i)
      {
        ghost var before := parity[..];
        BitwiseXor(parity, 0, parity, 0, data[i], 0, chunkSize);
        RowsAddedStep(was, before, parity[..], cols, i);
        i := i + 1;
      }
    }

    /**
     * Adds all other chunks to the one lost chunk among the first n. With no chunk lost the code
     * rewrites chunk 0; with more it gives up.
     */
    method Decode(chunks: seq<array<byte>>, bitmap: BitmaskArray, chunkSize: nat) returns (ok: bool)
      requires 1 <= n <= |chunks| && Separate(chunks, |chunks|, chunkSize)
      requires bitmap.Valid() && 0 < bitmap.count && n <= bitmap.size
      requires Apart(bitmap, chunks)
      modifies chunks
      ensures ok <==> |Failed(Alive(bitmap, n))| <= 1
      ensures !ok ==> Contents(chunks) == old(Contents(chunks))
      ensures ok ==> AddedOthers(old(Contents(chunks)), Contents(chunks), Target(Failed(Alive(bitmap, n))), n)
    {
      hide Xor;
      var lostIndex, failed := FindLost(bitmap);
      if failed > 1 {
        return false;
      }
      AddOthers(chunks, lostIndex, n, chunkSize);
      return true;
    }

    /** First loop of decode: stops at the second lost chunk. */
    method FindLost(bitmap: BitmaskArray) returns (lostIndex: nat, failed: nat)
      requires 1 <= n <= bitmap.size && bitmap.Valid() && 0 < bitmap.count
      ensures lostIndex < n
      ensures var f := Failed(Alive(bitmap, n));
              (failed > 1 <==> |f| > 1) && (failed <= 1 ==> lostIndex == Target(f))
    {
      hide Xor, Failed, Lit;
      lostIndex, failed := 0, 0;
      var i := 0;
      ghost var alive := Alive(bitmap, n);
      FailedNone(alive);
      ghost var f: seq<nat> := [];
      while i < n
        invariant 0 <= i <= n && lostIndex < n
        invariant failed == |f| <= 1 && lostIndex == Target(f) && f == Failed(alive[..i])
      {
        var live := bitmap.Check(0, i);
        FailedStep(alive, i);
        if !live {
          assert Failed(alive[..i + 1]) == f + [i];
          f := f + [i];
          lostIndex := i;
          failed := failed + 1;
          if failed > 1 {
            FailedGrows(alive, i + 1);
            return;
          }
        }
        i := i + 1;
      }
      assert alive[..n] == alive;
    }
  }

  /** First loop of the RDP and EVENODD decoders: gives up at the third lost chunk. */
  method CollectFailed(bitmap: BitmaskArray, m: nat) returns (tooMany: bool, failed: seq<nat>)
    requires m <= bitmap.size && bitmap.Valid() && 0 < bitmap.count
    ensures tooMany <==> |Failed(Alive(bitmap, m))| > 2
    ensures !tooMany ==> failed == Failed(Alive(bitmap, m))
  {
    hide Xor, Failed, Lit;
    failed := [];
    var idx := 0;
    ghost var alive := Alive(bitmap, m);
    FailedNone(alive);
    while idx < m
      invariant 0 <= idx <= m && failed == Failed(alive[..idx]) && |failed| <= 2
    {
      var live := bitmap.Check(0, idx);
      FailedStep(alive, idx);
      if !live {
        if |failed| < 2 {
          failed := failed + [idx];
        } else {
          FailedGrows(alive, idx + 1);
          return true, failed;
        }
      }
      idx := idx + 1;
    }
    assert alive[..m] == alive;
    tooMany := false;
  }

  /** chunks[target] ^= every other chunk among the first n. */
  method AddOthers(chunks: seq<array<byte>>, target: nat, n: nat, size: nat)
    requires target < n <= |chunks| && Separate(chunks, |chunks|, size)
    modifies chunks[target]
    ensures AddedOthers(old(Contents(chunks)), Contents(chunks), target, n)
  {
    hide Xor;
    ghost var was := Contents(chunks);
    var dst := chunks[target];
    OthersAddedNone(was, target);
    var i := 0;
    while i < n
      invariant 0 <= i <= n && OthersAdded(was, dst[..], target, i)
    {
      if i != target {
        AddOther(dst, chunks[i], was, target, i);
      }
      i := i + 1;
    }
  }

  method AddOther(dst: array<byte>, src: array<byte>, ghost was: seq<seq<byte>>, ghost t: nat, ghost i: nat)
    requires dst != src && dst.Length == src.Length
    requires t < |was| && i < |was| && i != t && src[..] == was[i] && OthersAdded(was, dst[..], t, i)
    modifies dst
    ensures OthersAdded(was, dst[..], t, i + 1)
  {
    hide Xor;
    ghost var before := dst[..];
    BitwiseXor(dst, 0, dst, 0, src, 0, dst.Length);
    OthersAddedStep(was, before, dst[..], t, i);
  }

  /** The buffer holds its old content plus the first n columns. */
  ghost predicate RowsAdded(was: seq<byte>, now: seq<byte>, cols: seq<seq<byte>>, n: nat) {
    |now| == |was| && forall j :: 0 <= j < |was| ==> now[j] == Xor(was[j], RowSum(ByteGrid(cols, j), 0, n))
  }

  lemma AddNone(was: seq<byte>, cols: seq<seq<byte>>)
    ensures RowsAdded(was, was, cols, 0)
  {
    hide Xor;
    forall j | 0 <= j < |was| ensures was[j] == Xor(was[j], NUL) {
      AddCancel(was[j], NUL);
    }
  }

  lemma RowsAddedStep(was: seq<byte>, now: seq<byte>, next: seq<byte>, cols: seq<seq<byte>>, i: nat)
    requires RowsAdded(was, now, cols, i) && i < |cols| && |cols[i]| == |next| == |now|
    requires forall j :: 0 <= j < |now| ==> next[j] == Xor(now[j], cols[i][j])
    ensures RowsAdded(was, next, cols, i + 1)
  {
    hide Xor;
    forall j | 0 <= j < |was| ensures next[j] == Xor(was[j], RowSum(ByteGrid(cols, j), 0, i + 1)) {
      Assoc(was[j], RowSum(ByteGrid(cols, j), 0, i), cols[i][j]);
    }
  }

  /** The target holds its old content plus the other columns among the first n. */
  ghost predicate OthersAdded(was: seq<seq<byte>>, now: seq<byte>, t: nat, n: nat)
    requires t < |was|
  {
    |now| == |was[t]| &&
    forall j :: 0 <= j < |now| ==> now[j] == Xor(was[t][j], RowSumBut(ByteGrid(was, j), 0, n, t, -1))
  }

  lemma OthersAddedNone(was: seq<seq<byte>>, t: nat)
    requires t < |was|
    ensures OthersAdded(was, was[t], t, 0)
  {
    hide Xor;
    forall j | 0 <= j < |was[t]| ensures was[t][j] == Xor(was[t][j], NUL) {
      AddCancel(was[t][j], NUL);
    }
  }

  lemma OthersAddedStep(was: seq<seq<byte>>, now: seq<byte>, next: seq<byte>, t: nat, i: nat)
    requires t < |was| && i < |was| && i != t && OthersAdded(was, now, t, i) && |was[i]| == |next| == |now|
    requires forall j :: 0 <= j < |now| ==> next[j] == Xor(now[j], was[i][j])
    ensures OthersAdded(was, next, t, i + 1)
  {
    hide Xor;
    forall j | 0 <= j < |now| ensures next[j] == Xor(was[t][j], RowSumBut(ByteGrid(was, j), 0, i + 1, t, -1)) {
      Assoc(was[t][j], RowSumBut(ByteGrid(was, j), 0, i, t, -1), was[i][j]);
    }
  }

  /** Chunk t received the XOR of the other chunks among the first n; nothing else changed. */
  ghost predicate AddedOthers(was: seq<seq<byte>>, now: seq<seq<byte>>, t: nat, n: nat) {
    && t < |was| == |now|
    && (forall c :: 0 <= c < |was| && c != t ==> now[c] == was[c])
    && OthersAdded(was, now[t], t, n)
  }

  /** Every byte position of the first n chunks sums to zero. */
  ghost predicate Balanced(st: seq<seq<byte>>, n: nat, size: nat) {
    forall j: nat :: j < size ==> RowSum(ByteGrid(st, j), 0, n) == NUL
  }

  ghost predicate AllZero(chunk: seq<byte>) {
    forall j :: 0 <= j < |chunk| ==> chunk[j] == NUL
  }

  ghost predicate LostClear(st: seq<seq<byte>>, failed: seq<nat>) {
    forall i :: 0 <= i < |failed| ==> failed[i] < |st| && AllZero(st[failed[i]])
  }

  lemma LostClearOf(st: seq<seq<byte>>, f0: nat, f1: nat)
    requires f0 < |st| && f1 < |st|
    ensures LostClear(st, [f0]) <==> AllZero(st[f0])
    ensures LostClear(st, [f0, f1]) <==> AllZero(st[f0]) && AllZero(st[f1])
  {
    hide Xor;
    if LostClear(st, [f0]) {
      assert AllZero(st[[f0][0]]);
    }
    if LostClear(st, [f0, f1]) {
      assert AllZero(st[[f0, f1][0]]) && AllZero(st[[f0, f1][1]]);
    }
  }

  /** Adding the other chunks to a lost chunk yields the stripe's chunk exactly when the buffer was clear. */
  lemma AddOthersRestores(was: seq<seq<byte>>, now: seq<seq<byte>>, st: seq<seq<byte>>, t: nat, n: nat, size: nat)
    requires AddedOthers(was, now, t, n) && t < n <= |was| == |st| && Balanced(st, n, size)
    requires |was[t]| == |st[t]| == size
    requires forall c :: 0 <= c < n && c != t ==> was[c] == st[c]
    ensures now[t] == st[t] <==> AllZero(was[t])
  {
    hide Xor;
    forall j: nat | j < size
      ensures now[t][j] == st[t][j] <==> was[t][j] == NUL
    {
      RowSumButCongruence(ByteGrid(was, j), ByteGrid(st, j), 0, n, t);
      RowSumSolved(ByteGrid(st, j), 0, n, t, -1);
      SolveByte(RowSumBut(ByteGrid(st, j), 0, n, t, -1), st[t][j], was[t][j]);
    }
  }

  /**
   * When none of the n chunks of a stripe is lost, decode still picks chunk 0 and adds the others to it, which
   * leaves zeros: the stripe survives exactly when that chunk was zero already.
   */
  lemma NothingLostErasesFirst(st: seq<seq<byte>>, now: seq<seq<byte>>, n: nat, size: nat)
    requires 0 < n <= |st| && AddedOthers(st, now, Target([]), n) && Balanced(st, n, size) && |st[0]| == size
    ensures AllZero(now[0]) && (now == st <==> AllZero(st[0]))
  {
    hide Xor;
    forall j: nat | j < size ensures now[0][j] == NUL {
      RowSumSolved(ByteGrid(st, j), 0, n, 0, -1);
      SameCancels(RowSumBut(ByteGrid(st, j), 0, n, 0, -1), st[0][j]);
    }
  }

  lemma SameCancels(sum: byte, x: byte)
    requires Xor(sum, x) == Xor(NUL, NUL)
    ensures Xor(x, sum) == NUL
  {
  }

  lemma SolveByte(sum: byte, x: byte, junk: byte)
    requires Xor(sum, x) == Xor(NUL, NUL)
    ensures Xor(junk, sum) == x <==> junk == NUL
  {
  }

  /** Row parity over symbols is a zero sum over bytes. */
  lemma RowParityBalanced(st: seq<seq<byte>>, k: nat, p: nat, ss: nat)
    requires 0 < p && k < |st| && |st[k]| == Offset(p - 1, ss) && RowParity(st, k, p, ss)
    ensures Balanced(st, k + 1, Offset(p - 1, ss))
    ensures forall j: nat :: j < Offset(p - 1, ss) ==> st[k][j] == RowSum(ByteGrid(st, j), 0, k)
  {
    hide Xor;
    forall j: nat | j < Offset(p - 1, ss)
      ensures RowSum(ByteGrid(st, j), 0, k + 1) == NUL && st[k][j] == RowSum(ByteGrid(st, j), 0, k)
    {
      var s, b := SymbolOf(j, p - 1, ss);
      RowSumByBytes(st, ss, s, b, k);
      assert Cell(st[k], ss, s, b) == st[k][j];
      AddCancel(st[k][j], NUL);
    }
  }

  /** The status words are not chunk memory. */
  ghost predicate Apart(bitmap: BitmaskArray, chunks: seq<array<byte>>) {
    forall c :: 0 <= c < |chunks| ==> chunks[c] as object != bitmap.bitmasks
  }

  /** Status bits of the first n chunks. */
  ghost function Alive(bitmap: BitmaskArray, n: nat): (alive: seq<bool>)
    reads bitmap, bitmap.bitmasks
    ensures |alive| == n && forall c :: 0 <= c < n ==> alive[c] == bitmap.IsSet(0, c)
  {
    seq(n, (c: nat) reads bitmap, bitmap.bitmasks => bitmap.IsSet(0, c))
  }

  /** Indices of the lost chunks, in order. */
  ghost function Failed(alive: seq<bool>): (f: seq<nat>) {
    if alive == [] then []
    else
      var m := |alive| - 1;
      Failed(alive[..m]) + if alive[m] then [] else [m]
  }

  lemma {:induction false} FailedIsLost(alive: seq<bool>)
    ensures var f := Failed(alive);
            && (forall i :: 0 <= i < |f| ==> f[i] < |alive| && !alive[f[i]])
            && (forall i, j :: 0 <= i < j < |f| ==> f[i] < f[j])
            && (forall c: nat :: c < |alive| && !alive[c] ==> c in f)
  {
    hide Xor;
    if alive != [] {
      FailedIsLost(alive[..|alive| - 1]);
    }
  }

  lemma FailedNone(alive: seq<bool>)
    ensures Failed(alive[..0]) == []
  {
    hide Xor;
  }

  lemma FailedStep(alive: seq<bool>, i: nat)
    requires i < |alive|
    ensures Failed(alive[..i + 1]) == Failed(alive[..i]) + if alive[i] then [] else [i]
  {
    hide Xor;
    assert alive[..i + 1][..i] == alive[..i];
  }

  lemma {:induction false} FailedGrows(alive: seq<bool>, m: nat)
    requires m <= |alive|
    ensures |Failed(alive[..m])| <= |Failed(alive)|
  {
    hide Xor;
    if m < |alive| {
      var n := |alive| - 1;
      assert alive[..n][..m] == alive[..m];
      FailedGrows(alive[..n], m);
    } else {
      assert alive[..m] == alive;
    }
  }

  function Target(failed: seq<nat>): nat {
    if |failed| == 0 then 0 else failed[|failed| - 1]
  }
}
