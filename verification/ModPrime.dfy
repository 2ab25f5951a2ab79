/** Arithmetic modulo a prime: what the zig-zag repair walks of the array codes rest on. */
module ModPrime {

  ghost predicate IsPrime(p: int) {
    2 <= p && forall d {:trigger p % d} :: 2 <= d < p ==> p % d != 0
  }

  ghost predicate IsProduct(p: int, a: int, b: int) {
    p == a * b
  }

  /** A prime is a number from 2 on that is no product of two such numbers. */
  lemma IsPrimeIff(p: int)
    ensures IsPrime(p) <==> p >= 2 && forall a, b :: a >= 2 && b >= 2 ==> !IsProduct(p, a, b)
  {
    if IsPrime(p) {
      forall a, b | a >= 2 && b >= 2
        ensures !IsProduct(p, a, b)
      {
        FactorDivides(p, a, b);
      }
    } else if p >= 2 {
      var d :| 2 <= d < p && p % d == 0;
      assert IsProduct(p, d, p / d);
    }
  }

  lemma FactorDivides(p: int, a: int, b: int)
    requires a >= 2 && b >= 2
    ensures IsProduct(p, a, b) ==> a < p && p % a == 0
  {
    if p == a * b {
      assert a * b >= a * 2;
      ModUnique(p, b, 0, a);
    }
  }

  lemma ModShift(x: int, j: int, p: int)
    requires 0 < p
    ensures (x + j * p) % p == x % p
  {
    var q, r := x / p, x % p;
    ModUnique(x + j * p, q + j, r, p);
  }

  /** Division with remainder is unique. */
  lemma ModUnique(x: int, q: int, r: int, p: int)
    requires 0 < p && 0 <= r < p && x == q * p + r
    ensures x % p == r && x / p == q
  {
    var q', r' := x / p, x % p;
    assert (q - q') * p == r' - r;
    MultipleBound(q - q', p);
  }

  lemma MultipleBound(j: int, p: int)
    requires 0 < p
    ensures j >= 1 ==> j * p >= p
    ensures j <= -1 ==> j * p <= -p
  {
  }

  lemma ModOfMod(x: int, y: int, p: int)
    requires 0 < p
    ensures (x % p + y) % p == (x + y) % p
  {
    assert x % p + y == x + y + (-(x / p)) * p;
    ModShift(x + y, -(x / p), p);
  }

  /** Two integers leave the same remainder exactly when p divides their difference. */
  lemma SameRemainder(x: int, y: int, p: int)
    requires 0 < p
    ensures x % p == y % p <==> (x - y) % p == 0
  {
    var j, e := x / p - y / p, x % p - y % p;
    assert x - y == e + j * p;
    ModShift(e, j, p);
    ModUnique(e, if e < 0 then -1 else 0, if e < 0 then e + p else e, p);
  }

  lemma MultipleOf(j: int, p: int)
    requires 0 < p
    ensures (j * p) % p == 0
  {
    ModShift(0, j, p);
  }

  /** Euclid's lemma for a factor below the prime. */
  lemma {:induction false} Euclid(a: int, b: int, p: int)
    requires IsPrime(p) && 0 < a < p && (a * b) % p == 0
    ensures b % p == 0
    decreases a
  {
    if a > 1 {
      var q, r := p / a, p % a;
      assert r != 0;
      var m := (a * b) / p;
      assert a * b == m * p;
      calc {
        r * b;
        (p - q * a) * b;
        p * b - q * (a * b);
        { assert q * (a * b) == q * (m * p) == (q * m) * p; }
        p * b - (q * m) * p;
        (b - q * m) * p;
      }
      MultipleOf(b - q * m, p);
      Euclid(r, b, p);
    }
  }

  /** Distinct multipliers below p send a nonzero difference to distinct residues. */
  lemma MultiplesDiffer(i: int, j: int, delta: int, c: int, p: int)
    requires IsPrime(p) && 0 <= i < j < i + p && -p < delta < p && delta != 0
    ensures (c + i * delta) % p != (c + j * delta) % p
  {
    SameRemainder(c + j * delta, c + i * delta, p);
    assert (c + j * delta) - (c + i * delta) == (j - i) * delta;
    if ((j - i) * delta) % p == 0 {
      MultipleBound(delta / p, p);
      Euclid(j - i, delta, p);
    }
  }

  ghost predicate Distinct(xs: seq<int>) {
    forall i, j :: 0 <= i < j < |xs| ==> xs[i] != xs[j]
  }

  ghost function Below(n: nat): (s: set<int>)
    ensures forall x :: x in s <==> 0 <= x < n
    ensures |s| == n
  {
    if n == 0 then {} else Below(n - 1) + {n - 1}
  }

  ghost function Elements(xs: seq<int>): (s: set<int>)
    ensures forall x :: x in s <==> x in xs
    ensures Distinct(xs) ==> |s| == |xs|
  {
    if xs == [] then {}
    else
      var rest := Elements(xs[1..]);
      assert xs == [xs[0]] + xs[1..];
      {xs[0]} + rest
  }

  lemma SubsetOfSameSize<T>(a: set<T>, b: set<T>)
    requires a <= b && |a| == |b|
    ensures a == b
  {
    assert |b| == |a| + |b - a| by { assert b == a + (b - a); }
  }

  /** n different numbers below n are all the numbers below n. */
  lemma Pigeonhole(xs: seq<int>, v: int)
    requires Distinct(xs) && 0 <= v < |xs|
    requires forall i :: 0 <= i < |xs| ==> 0 <= xs[i] < |xs|
    ensures v in xs
  {
    SubsetOfSameSize(Elements(xs), Below(|xs|));
  }
}
