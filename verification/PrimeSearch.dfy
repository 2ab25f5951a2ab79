/** Choice of the prime p of an array code from the list of small primes. */
module PrimeSearch {
  import opened ModPrime
  import opened Buffers

  /** What the code relies on in its list of primes. */
  ghost predicate PrimeList(primes: seq<nat>) {
    && 3 <= |primes|
    && (forall i :: 0 <= i < |primes| ==> IsPrime(primes[i]) && primes[i] <= 0x8000_0000)
    && (forall i, j :: 0 <= i < j < |primes| ==> primes[i] < primes[j])
  }

  /** The prime cuts the chunk into whole symbols. */
  predicate CutsWhole(prime: nat, chunkSize: nat) {
    2 <= prime && chunkSize % (prime - 1) == 0
  }

  /** And it is large enough. */
  ghost predicate Usable(prime: nat, least: nat, chunkSize: nat) {
    least <= prime && CutsWhole(prime, chunkSize)
  }

  /**
   * Binary search for the first prime >= need; with `odd` set, 2 is passed over. When every
   * prime is smaller the last index is returned.
   */
  method GetPrime(primes: seq<nat>, need: nat, odd: bool) returns (index: nat)
    requires PrimeList(primes)
    ensures index < |primes|
    ensures index < |primes| - 1 ==> primes[index] >= need
    ensures odd ==> primes[index] != 2
    ensures forall i :: 0 <= i < index ==> primes[i] < need || (odd && primes[i] == 2)
  {
    var start, end := 0, |primes| - 1;
    index := 0;
    while start < end
      invariant 0 <= start && start + 1 < end < |primes|
      invariant forall i :: 0 <= i < start ==> primes[i] < need
      invariant end < |primes| - 1 ==> primes[end] >= need
      invariant start == 0 || primes[start] < need
      decreases end - start
    {
      var mid := (start + end) / 2;
      if primes[mid] < need {
        start := mid;
      }
      if primes[mid] >= need {
        end := mid;
      }
      if start + 1 == end {
        index := if primes[start] >= need && !(odd && primes[start] == 2) then start else end;
        break;
      }
    }
  }

  function SymbolSize(prime: nat, chunkSize: nat): (size: nat)
    requires CutsWhole(prime, chunkSize)
    ensures prime >= 2 && chunkSize == Offset(prime - 1, size)
  {
    OffsetIsProduct(prime - 1, chunkSize / (prime - 1));
    chunkSize / (prime - 1)
  }

  /** No prime of the list is usable below this one. */
  ghost predicate NoneBelow(primes: seq<nat>, bound: nat, need: nat, odd: bool, chunkSize: nat) {
    forall q :: q in primes && q < bound ==> !Usable(q, need, chunkSize) || (odd && q == 2)
  }

  /** Every prime passed over is too small, or 2 where that is not allowed, or leaves a part of the chunk over. */
  lemma NoneBelowIff(primes: seq<nat>, bound: nat, need: nat, odd: bool, chunkSize: nat)
    requires PrimeList(primes)
    ensures NoneBelow(primes, bound, need, odd, chunkSize)
            <==> forall q :: q in primes && need <= q < bound && !(odd && q == 2) ==>
                   q >= 2 && chunkSize % (q - 1) != 0
  {
    forall q | q in primes
      ensures q >= 2
    {
      assert IsPrime(q);
    }
  }

  lemma CutsWholeIs(prime: nat, chunkSize: nat)
    ensures CutsWhole(prime, chunkSize) <==> prime >= 2 && chunkSize % (prime - 1) == 0
  {
  }

  lemma PassedOver(primes: seq<nat>, first: nat, pp: nat, need: nat, odd: bool, chunkSize: nat)
    requires PrimeList(primes) && first <= pp <= |primes|
    requires forall i :: 0 <= i < first ==> primes[i] < need || (odd && primes[i] == 2)
    requires forall i :: first <= i < pp ==> !CutsWhole(primes[i], chunkSize)
    ensures NoneBelow(primes, if pp < |primes| then primes[pp] else 1 + primes[|primes| - 1], need, odd, chunkSize)
    ensures pp < |primes| && primes[first] != 2 ==> primes[pp] != 2
  {
    hide CutsWhole;
    var bound := if pp < |primes| then primes[pp] else 1 + primes[|primes| - 1];
    forall q | q in primes && q < bound
      ensures !Usable(q, need, chunkSize) || (odd && q == 2)
    {
      var i :| 0 <= i < |primes| && primes[i] == q;
      assert i < pp;
    }
  }

  /**
   * First prime that cuts the chunk into whole symbols, from the one found by the binary search
   * on; the code exits when there is none. The prime can be too small: when even the last one of
   * the list is, and divides.
   */
  method GetSymbolSize(primes: seq<nat>, need: nat, odd: bool, chunkSize: nat)
    returns (found: bool, p: nat, symbolSize: nat)
    requires PrimeList(primes)
    ensures found ==> p in primes && !(odd && p == 2) && p >= 2 && chunkSize == Offset(p - 1, symbolSize)
    ensures found ==> NoneBelow(primes, p, need, odd, chunkSize)
    ensures !found ==> NoneBelow(primes, 1 + primes[|primes| - 1], need, odd, chunkSize)
    ensures var last := primes[|primes| - 1];
            found && p < need <==> last < need && last >= 2 && chunkSize % (last - 1) == 0
  {
    hide CutsWhole, Usable, IsPrime, NoneBelow, Offset;
    ghost var last := primes[|primes| - 1];
    var pp := GetPrime(primes, need, odd);
    ghost var first := pp;
    assert last < need ==> first == |primes| - 1;
    while pp < |primes| && !CutsWhole(primes[pp], chunkSize)
      invariant first <= pp <= |primes|
      invariant forall i :: first <= i < pp ==> !CutsWhole(primes[i], chunkSize)
      decreases |primes| - pp
    {
      pp := pp + 1;
    }
    PassedOver(primes, first, pp, need, odd, chunkSize);
    CutsWholeIs(last, chunkSize);
    if pp == |primes| {
      return false, 0, 0;
    }
    assert primes[first] <= primes[pp] <= last;
    found, p := true, primes[pp];
    symbolSize := SymbolSize(p, chunkSize);
  }
}
