/** The cuckoo hash table: four-slot buckets, two candidate buckets per key, displacement along a random path. */
module Cuckoo {
  import opened KeyValues
  import opened CuckooIndex
  import opened CuckooKeys
  import opened KeyComparison
  import opened LargeObjects

  /** An object in memory; NIL is the null pointer, an empty slot. */
  type Pointer = nat

  const NIL: Pointer := 0
  const BUCKET_SIZE: nat := 4
  const MAX_CUCKOO_COUNT: nat := 500

  /** One step of a displacement path. */
  datatype Hop = Hop(bucket: nat, slot: nat, ptr: Pointer)

  /** The objects among the slots. */
  ghost function Objects(slots: seq<Pointer>): multiset<Pointer> {
    multiset(slots)[NIL := 0]
  }

  /** Moving an object to an empty slot keeps the objects. */
  lemma MoveKeepsObjects(slots: seq<Pointer>, i: nat, j: nat)
    requires i < |slots| && j < |slots| && slots[j] == NIL && i != j
    ensures Objects(slots[j := slots[i]][i := NIL]) == Objects(slots)
  {
    var once := slots[j := slots[i]];
    assert multiset(once) == multiset(slots) - multiset{NIL} + multiset{slots[i]};
    assert multiset(once[i := NIL]) == multiset(once) - multiset{once[i]} + multiset{NIL};
  }

  lemma FillAddsObject(slots: seq<Pointer>, i: nat, a: Pointer)
    requires i < |slots| && slots[i] == NIL && a != NIL
    ensures Objects(slots[i := a]) == Objects(slots) + multiset{a}
  {
  }

  lemma EmptyRemovesObject(slots: seq<Pointer>, i: nat)
    requires i < |slots| && slots[i] != NIL
    ensures Objects(slots[i := NIL]) == Objects(slots) - multiset{slots[i]}
  {
  }

  /** The first empty slot from q on, or `end`. */
  ghost function FirstEmpty(cells: seq<Pointer>, q: nat, end: nat): (r: nat)
    requires q <= end <= |cells|
    ensures q <= r <= end && (r < end ==> cells[r] == NIL)
    ensures forall i :: q <= i < r ==> cells[i] != NIL
    decreases end - q
  {
    if q == end || cells[q] == NIL then q else FirstEmpty(cells, q + 1, end)
  }

  /** The first slot from q on whose object passes for the key, or `end`. */
  ghost function FirstKey(cells: seq<Pointer>, isKey: (Pointer, Key) -> bool, key: Key, q: nat, end: nat): (r: nat)
    requires q <= end <= |cells|
    ensures q <= r <= end && (r < end ==> cells[r] != NIL && isKey(cells[r], key))
    ensures forall i :: q <= i < r ==> cells[i] == NIL || !isKey(cells[i], key)
    decreases end - q
  {
    if q == end || (cells[q] != NIL && isKey(cells[q], key)) then q else FirstKey(cells, isKey, key, q + 1, end)
  }

  /** Every object is stored once, under a key of its own. */
  ghost predicate Distinct(objects: multiset<Pointer>, keyOf: Pointer -> Key) {
    && (forall a :: a in objects ==> objects[a] == 1)
    && (forall a, b :: a in objects && b in objects && keyOf(a) == keyOf(b) ==> a == b)
  }

  /** The plain map the objects stand for. */
  ghost function Dict(objects: multiset<Pointer>, keyOf: Pointer -> Key): map<Key, Pointer>
    requires Distinct(objects, keyOf)
  {
    map a | a in objects :: keyOf(a) := a
  }

  lemma AddedHas(objects: multiset<Pointer>, a: Pointer, b: Pointer)
    ensures b in objects + multiset{a} <==> b in objects || b == a
    ensures (objects + multiset{a})[b] == objects[b] + if b == a then 1 else 0
  {
  }

  lemma FreshKeepsDistinct(objects: multiset<Pointer>, keyOf: Pointer -> Key, a: Pointer)
    requires Distinct(objects, keyOf) && keyOf(a) !in Dict(objects, keyOf)
    ensures Distinct(objects + multiset{a}, keyOf)
  {
    var more := objects + multiset{a};
    assert a !in objects;
    forall b | b in more ensures (b in objects || b == a) && more[b] == 1 {
      AddedHas(objects, a, b);
    }
  }

  /** Two maps are equal when they agree on every key. */
  lemma SameDict(objects: multiset<Pointer>, keyOf: Pointer -> Key, m: map<Key, Pointer>)
    requires Distinct(objects, keyOf)
    requires forall a :: a in objects ==> keyOf(a) in m && m[keyOf(a)] == a
    requires forall k :: k in m ==> m[k] in objects && keyOf(m[k]) == k
    ensures Dict(objects, keyOf) == m
  {
  }

  lemma KnownBreaksDistinct(objects: multiset<Pointer>, keyOf: Pointer -> Key, a: Pointer)
    requires Distinct(objects, keyOf) && keyOf(a) in Dict(objects, keyOf)
    ensures !Distinct(objects + multiset{a}, keyOf)
  {
    var b :| b in objects && keyOf(b) == keyOf(a);
    AddedHas(objects, a, b);
    AddedHas(objects, a, a);
  }

  lemma FreshExtendsDict(objects: multiset<Pointer>, more: multiset<Pointer>, keyOf: Pointer -> Key, a: Pointer)
    requires Distinct(objects, keyOf) && Distinct(more, keyOf) && keyOf(a) !in Dict(objects, keyOf)
    requires forall b :: b in more <==> b in objects || b == a
    ensures Dict(more, keyOf) == Dict(objects, keyOf)[keyOf(a) := a]
  {
    var m := Dict(objects, keyOf)[keyOf(a) := a];
    forall b | b in more
      ensures keyOf(b) in m && m[keyOf(b)] == b
    {
    }
    forall k | k in m
      ensures m[k] in more && keyOf(m[k]) == k
    {
    }
    hide *;
    SameDict(more, keyOf, m);
  }

  lemma InDict(objects: multiset<Pointer>, keyOf: Pointer -> Key, a: Pointer)
    requires Distinct(objects, keyOf)
    ensures a in objects ==> keyOf(a) in Dict(objects, keyOf) && Dict(objects, keyOf)[keyOf(a)] == a
    ensures forall k :: k in Dict(objects, keyOf) ==>
              Dict(objects, keyOf)[k] in objects && keyOf(Dict(objects, keyOf)[k]) == k
  {
  }

  lemma RemovingTwoKeys(m: map<Key, Pointer>, k: Key, l: Key)
    ensures m == m - {l} <==> l !in m
    ensures k in m ==> (m - {k} == m - {l} <==> k == l)
  {
    if k in m && k != l {
      assert k in m - {l} && k !in m - {k};
    }
  }

  /** Insertion does not look for duplicates: the table stays a map exactly when the key was fresh. */
  lemma AddedIsDistinctIff(objects: multiset<Pointer>, keyOf: Pointer -> Key, a: Pointer)
    requires Distinct(objects, keyOf)
    ensures Distinct(objects + multiset{a}, keyOf) <==> keyOf(a) !in Dict(objects, keyOf)
    ensures keyOf(a) !in Dict(objects, keyOf) ==>
              Dict(objects + multiset{a}, keyOf) == Dict(objects, keyOf)[keyOf(a) := a]
  {
    hide Distinct, Dict;
    if keyOf(a) !in Dict(objects, keyOf) {
      FreshKeepsDistinct(objects, keyOf, a);
      forall b ensures b in objects + multiset{a} <==> b in objects || b == a {
        AddedHas(objects, a, b);
      }
      FreshExtendsDict(objects, objects + multiset{a}, keyOf, a);
    } else {
      KnownBreaksDistinct(objects, keyOf, a);
    }
  }

  lemma RemovedIsDistinct(objects: multiset<Pointer>, keyOf: Pointer -> Key, a: Pointer)
    requires Distinct(objects, keyOf) && a in objects
    ensures Distinct(objects - multiset{a}, keyOf)
    ensures forall b :: b in objects - multiset{a} <==> b in objects && b != a
  {
    var fewer := objects - multiset{a};
    forall b ensures (b in fewer <==> b in objects && b != a) && (b in fewer ==> fewer[b] == 1) {
      assert fewer[b] == if b == a then objects[b] - 1 else objects[b];
    }
  }

  /** Deleting an object removes its key. */
  lemma RemovedDropsKey(objects: multiset<Pointer>, keyOf: Pointer -> Key, a: Pointer)
    requires Distinct(objects, keyOf) && a in objects
    ensures Distinct(objects - multiset{a}, keyOf)
    ensures Dict(objects - multiset{a}, keyOf) == Dict(objects, keyOf) - {keyOf(a)}
  {
    RemovedIsDistinct(objects, keyOf, a);
    SameDict(objects - multiset{a}, keyOf, Dict(objects, keyOf) - {keyOf(a)});
  }

  /** The hop leads from one bucket to the next. */
  ghost predicate Linked(here: Hop, next: Hop, kickHash: Pointer -> uint32, power: nat) {
    && here.slot < BUCKET_SIZE && here.ptr != NIL
    && next.bucket == AltIndex(here.bucket, TagHash(kickHash(here.ptr)), power)
  }

  /** The first n hops form a path, and hop n starts in its last bucket. */
  ghost predicate Path(hops: seq<Hop>, n: nat, kickHash: Pointer -> uint32, power: nat)
    requires n < |hops|
  {
    && (forall d :: 0 <= d <= n ==> hops[d].bucket < Pow2(power))
    && (forall d, e :: 0 <= d && e == d + 1 <= n ==> Linked(hops[d], hops[e], kickHash, power))
  }

  class CuckooHash {
    const power: nat
    const chunkSize: nat
    /** What stands in memory at an address; it does not change while the table refers to it. */
    const contents: Pointer -> Content
    const hashFunc: seq<octet> -> uint32
    const keyOf: Pointer -> Key := (a: Pointer) => KeyAt(contents(a), chunkSize)
    const hash: Key -> uint32 := (key: Key) => hashFunc(HashedBytes(key))
    const kickHash: Pointer -> uint32 := (a: Pointer) => hashFunc(KickedBytes(contents(a), chunkSize))
    /** Whether the table takes the object's key for this one. */
    const isKey: (Pointer, Key) -> bool := (a: Pointer, key: Key) => IsKey(contents(a), key, chunkSize)
    const slots: array<Pointer>
    const cp: array<Hop>
    var kickCount: nat

    ghost predicate Valid()
      reads this
    {
      && 1 <= power <= 31
      && slots.Length == BUCKET_SIZE * Pow2(power)
      && cp.Length == MAX_CUCKOO_COUNT
      && (cp as object) != slots
    }

    /** The bucket is one of the two the object's key may be in. */
    ghost predicate Candidate(a: Pointer, bucket: nat)
      requires power <= 31
    {
      IsCandidate(bucket, hash(keyOf(a)), power)
    }

    /** Displacing the object hashes to what its key hashes to. */
    ghost predicate HashesAlike(a: Pointer) {
      kickHash(a) == hash(keyOf(a))
    }

    /** This is so for every hash function when the object is not large, or with a fixed key size. */
    lemma SmallHashesAlike(a: Pointer)
      ensures !IsLargeObject(contents(a), chunkSize) ==> HashesAlike(a)
    {
      hide KickedBytes, HashedBytes, KeyAt;
      if !IsLargeObject(contents(a), chunkSize) {
        SmallHashedAlike(contents(a), chunkSize);
      }
    }

    /** Every object is where a lookup would find it, and hashes the same when displaced. */
    ghost predicate Placed(cells: seq<Pointer>)
      requires power <= 31
    {
      forall q :: 0 <= q < |cells| && cells[q] != NIL ==>
        Candidate(cells[q], q / BUCKET_SIZE) && HashesAlike(cells[q])
    }

    /** The table stands for a map from keys to objects. */
    ghost predicate Table()
      reads this, slots
    {
      Valid() && Placed(slots[..]) && Distinct(Objects(slots[..]), keyOf)
    }

    ghost function Model(): map<Key, Pointer>
      requires Table()
      reads this, slots
    {
      Dict(Objects(slots[..]), keyOf)
    }

    constructor (power: nat, chunkSize: nat, contents: Pointer -> Content, hashFunc: seq<octet> -> uint32)
      requires 1 <= power <= 31
      ensures Valid() && fresh(slots) && fresh(cp)
      ensures this.power == power && this.chunkSize == chunkSize && this.contents == contents
              && this.hashFunc == hashFunc
      ensures slots.Length == 4 * Pow2(power) && cp.Length == 500
      ensures Table() && Model() == map[] && forall q :: 0 <= q < slots.Length ==> slots[q] == NIL
    {
      hide Objects, Distinct, Dict, Placed, Candidate, Pow2;
      this.power, this.chunkSize, this.contents, this.hashFunc := power, chunkSize, contents, hashFunc;
      slots := new Pointer[BUCKET_SIZE * Pow2(power)](_ => NIL);
      cp := new Hop[MAX_CUCKOO_COUNT](_ => Hop(0, 0, NIL));
      kickCount := 0;
      new;
      NothingStored(slots[..]);
    }

    lemma NothingStored(cells: seq<Pointer>)
      requires power <= 31 && forall q :: 0 <= q < |cells| ==> cells[q] == NIL
      ensures Placed(cells) && Distinct(Objects(cells), keyOf) && Dict(Objects(cells), keyOf) == map[]
    {
      assert forall a :: a in multiset(cells) ==> a == NIL;
      assert Objects(cells) == multiset{};
    }

    ghost function EmptyIn(cells: seq<Pointer>, i: nat): (q: nat)
      requires BUCKET_SIZE * i + BUCKET_SIZE <= |cells|
      ensures BUCKET_SIZE * i <= q <= BUCKET_SIZE * i + BUCKET_SIZE
      ensures q < BUCKET_SIZE * i + BUCKET_SIZE ==> cells[q] == NIL
      ensures forall x :: BUCKET_SIZE * i <= x < q ==> cells[x] != NIL
    {
      FirstEmpty(cells, BUCKET_SIZE * i, BUCKET_SIZE * i + BUCKET_SIZE)
    }

    ghost function KeyIn(cells: seq<Pointer>, i: nat, key: Key): (q: nat)
      requires BUCKET_SIZE * i + BUCKET_SIZE <= |cells|
      ensures BUCKET_SIZE * i <= q <= BUCKET_SIZE * i + BUCKET_SIZE
      ensures q < BUCKET_SIZE * i + BUCKET_SIZE ==> cells[q] != NIL && isKey(cells[q], key)
      ensures forall x :: BUCKET_SIZE * i <= x < q ==> cells[x] == NIL || !isKey(cells[x], key)
    {
      FirstKey(cells, isKey, key, BUCKET_SIZE * i, BUCKET_SIZE * i + BUCKET_SIZE)
    }

    /** The first empty slot of bucket i, or BUCKET_SIZE. */
    method EmptySlot(i: nat) returns (j: nat)
      requires Valid() && i < Pow2(power)
      ensures j <= BUCKET_SIZE && BUCKET_SIZE * i + j == EmptyIn(slots[..], i)
    {
      j := 0;
      while j < BUCKET_SIZE
        invariant j <= BUCKET_SIZE
        invariant EmptyIn(slots[..], i) == FirstEmpty(slots[..], BUCKET_SIZE * i + j, BUCKET_SIZE * i + BUCKET_SIZE)
      {
        if slots[BUCKET_SIZE * i + j] == NIL {
          return;
        }
        j := j + 1;
      }
    }

    // ----- when a walk cannot fail -----

    ghost predicate IsFull(cells: seq<Pointer>, bucket: nat)
      requires BUCKET_SIZE * bucket + BUCKET_SIZE <= |cells|
    {
      forall q :: BUCKET_SIZE * bucket <= q < BUCKET_SIZE * bucket + BUCKET_SIZE ==> cells[q] != NIL
    }

    /** Where an object of the bucket is displaced to. */
    ghost function NextBucket(bucket: nat, ptr: Pointer): (next: nat)
      requires power <= 31
      ensures next < Pow2(power)
    {
      CandidatesInRange(0, bucket, TagHash(kickHash(ptr)), power);
      AltIndex(bucket, TagHash(kickHash(ptr)), power)
    }

    /** Whatever objects are chosen, at most n displacements from the bucket lead to one with an empty slot. */
    ghost predicate Escapes(cells: seq<Pointer>, bucket: nat, n: nat)
      requires power <= 31 && |cells| == BUCKET_SIZE * Pow2(power) && bucket < Pow2(power)
      decreases n
    {
      || !IsFull(cells, bucket)
      || (n > 0 && forall q :: BUCKET_SIZE * bucket <= q < BUCKET_SIZE * bucket + BUCKET_SIZE ==>
            Escapes(cells, NextBucket(bucket, cells[q]), n - 1))
    }

    lemma {:induction false} EscapesMore(cells: seq<Pointer>, bucket: nat, n: nat, m: nat)
      requires power <= 31 && |cells| == BUCKET_SIZE * Pow2(power) && bucket < Pow2(power)
      requires n <= m && Escapes(cells, bucket, n)
      ensures Escapes(cells, bucket, m)
      decreases n
    {
      hide IsFull, NextBucket, Pow2;
      if IsFull(cells, bucket) {
        forall q | BUCKET_SIZE * bucket <= q < BUCKET_SIZE * bucket + BUCKET_SIZE
          ensures Escapes(cells, NextBucket(bucket, cells[q]), m - 1)
        {
          EscapesMore(cells, NextBucket(bucket, cells[q]), n - 1, m - 1);
        }
      }
    }

    /** The least number of displacements that suffice. */
    ghost function Height(cells: seq<Pointer>, bucket: nat, n: nat): (h: nat)
      requires power <= 31 && |cells| == BUCKET_SIZE * Pow2(power) && bucket < Pow2(power)
      requires Escapes(cells, bucket, n)
      ensures h <= n && Escapes(cells, bucket, h) && (h > 0 ==> !Escapes(cells, bucket, h - 1))
      decreases n
    {
      if n > 0 && Escapes(cells, bucket, n - 1) then Height(cells, bucket, n - 1) else n
    }

    lemma HeightIsLeast(cells: seq<Pointer>, bucket: nat, n: nat, m: nat)
      requires power <= 31 && |cells| == BUCKET_SIZE * Pow2(power) && bucket < Pow2(power)
      requires Escapes(cells, bucket, n) && Escapes(cells, bucket, m)
      ensures Height(cells, bucket, n) <= m
    {
      hide Escapes, Pow2;
      var h := Height(cells, bucket, n);
      if m < h {
        EscapesMore(cells, bucket, m, h - 1);
      }
    }

    /** A displacement from a full bucket leads lower, so a walk never comes back. */
    lemma HeightDrops(cells: seq<Pointer>, bucket: nat, n: nat, q: nat)
      requires power <= 31 && |cells| == BUCKET_SIZE * Pow2(power) && bucket < Pow2(power)
      requires Escapes(cells, bucket, n) && IsFull(cells, bucket)
      requires BUCKET_SIZE * bucket <= q < BUCKET_SIZE * bucket + BUCKET_SIZE
      ensures n > 0 && Escapes(cells, NextBucket(bucket, cells[q]), n - 1)
      ensures Height(cells, NextBucket(bucket, cells[q]), n - 1) < Height(cells, bucket, n)
    {
      hide IsFull, NextBucket, Pow2, Height;
      HeightIsLeast(cells, NextBucket(bucket, cells[q]), n - 1, Height(cells, bucket, n) - 1);
    }

    /** The slots of the first n hops hold what was recorded, and the n + 1 buckets are different. */
    ghost predicate Recorded(cells: seq<Pointer>, hops: seq<Hop>, n: nat)
      requires n < |hops|
    {
      && (forall d :: 0 <= d < n ==> hops[d].slot < BUCKET_SIZE && BUCKET_SIZE * hops[d].bucket + hops[d].slot < |cells|
                                     && cells[BUCKET_SIZE * hops[d].bucket + hops[d].slot] == hops[d].ptr)
      && (forall d, e :: 0 <= d < e <= n ==> hops[d].bucket != hops[e].bucket)
    }

    /** A recorded walk that goes lower with every hop and has `left` displacements left. */
    ghost predicate Walk(cells: seq<Pointer>, hops: seq<Hop>, n: nat, left: nat)
      requires power <= 31 && |cells| == BUCKET_SIZE * Pow2(power) && n < |hops|
    {
      && Recorded(cells, hops, n)
      && (forall d :: 0 <= d <= n ==> hops[d].bucket < Pow2(power) && Escapes(cells, hops[d].bucket, left + n - d))
      && (forall d :: 0 <= d < n ==>
            Height(cells, hops[d].bucket, left + n - d) > Height(cells, hops[n].bucket, left))
    }

    lemma WalkOn(cells: seq<Pointer>, hops: seq<Hop>, now: seq<Hop>, n: nat, left: nat, q: nat)
      requires power <= 31 && |cells| == BUCKET_SIZE * Pow2(power) && n + 1 < |hops| == |now|
      requires Walk(cells, hops, n, left) && IsFull(cells, hops[n].bucket)
      requires BUCKET_SIZE * hops[n].bucket <= q < BUCKET_SIZE * hops[n].bucket + BUCKET_SIZE
      requires forall d :: 0 <= d < n ==> now[d] == hops[d]
      requires now[n] == Hop(hops[n].bucket, q - BUCKET_SIZE * hops[n].bucket, cells[q])
      requires now[n + 1].bucket == NextBucket(hops[n].bucket, cells[q])
      ensures left > 0 && Walk(cells, now, n + 1, left - 1)
    {
      hide IsFull, NextBucket, Pow2, Height, Escapes;
      HeightDrops(cells, hops[n].bucket, left, q);
      var next := now[n + 1].bucket;
      forall d | 0 <= d <= n
        ensures Escapes(cells, now[d].bucket, left - 1 + n + 1 - d)
        ensures Height(cells, now[d].bucket, left - 1 + n + 1 - d) > Height(cells, next, left - 1)
        ensures now[d].bucket != next
      {
        assert now[d].bucket == hops[d].bucket;
        if now[d].bucket == next {
          HeightIsLeast(cells, next, left + n - d, left - 1);
          HeightIsLeast(cells, next, left + n - d, Height(cells, next, left - 1));
        }
      }
    }

    lemma WalkStarts(cells: seq<Pointer>, hops: seq<Hop>, left: nat)
      requires power <= 31 && |cells| == BUCKET_SIZE * Pow2(power) && 0 < |hops| && hops[0].bucket < Pow2(power)
      ensures Walk(cells, hops, 0, left) <==> Escapes(cells, hops[0].bucket, left)
    {
      hide Escapes, Height, Pow2;
    }

    lemma WalkIsRecorded(cells: seq<Pointer>, hops: seq<Hop>, now: seq<Hop>, n: nat, left: nat, slot: nat)
      requires power <= 31 && |cells| == BUCKET_SIZE * Pow2(power) && n < |hops|
      requires Walk(cells, hops, n, left) && now == hops[n := hops[n].(slot := slot)]
      ensures Recorded(cells, now, n)
    {
      hide Escapes, Height, Pow2;
    }

    /** Records a random object of a full bucket as the next one to displace. */
    method Kick(depth: nat, i: nat, ghost left: nat)
      requires Valid() && depth < MAX_CUCKOO_COUNT - 1 && i == cp[depth].bucket
      requires Path(cp[..], depth, kickHash, power)
      requires IsFull(slots[..], i)
      modifies cp
      ensures cp[0].bucket == old(cp[0].bucket) && Path(cp[..], depth + 1, kickHash, power)
      ensures old(Walk(slots[..], cp[..], depth, left)) ==> left > 0 && Walk(slots[..], cp[..], depth + 1, left - 1)
    {
      hide Escapes, Walk, Height, Pow2;
      ghost var was: seq<Hop> := cp[..];
      var random: nat := *;
      var j := random % BUCKET_SIZE;
      var ptr := slots[BUCKET_SIZE * i + j];
      cp[depth] := cp[depth].(slot := j, ptr := ptr);
      CandidatesInRange(0, i, TagHash(kickHash(ptr)), power);
      cp[depth + 1] := cp[depth + 1].(bucket := AltIndex(i, TagHash(kickHash(ptr)), power));
      if Walk(slots[..], was, depth, left) {
        WalkOn(slots[..], was, cp[..], depth, left, BUCKET_SIZE * i + j);
      }
    }

    /** Extends the path from hop depthStart until a bucket with an empty slot is met, or gives up with -1. */
    method CpSearch(depthStart: nat) returns (found: int)
      requires Valid() && depthStart < MAX_CUCKOO_COUNT && depthStart <= kickCount
      requires Path(cp[..], depthStart, kickHash, power)
      modifies cp, `kickCount
      ensures cp[0].bucket == old(cp[0].bucket)
      ensures found < 0 ==> kickCount >= MAX_CUCKOO_COUNT - 1
      ensures found >= 0 ==>
                && depthStart <= found < MAX_CUCKOO_COUNT
                && kickCount == old(kickCount) + found - depthStart < MAX_CUCKOO_COUNT
                && Path(cp[..], found, kickHash, power)
                && cp[found].slot < BUCKET_SIZE && slots[BUCKET_SIZE * cp[found].bucket + cp[found].slot] == NIL
      ensures depthStart == old(kickCount) <= 498 && old(Walk(slots[..], cp[..], depthStart, 498 - depthStart)) ==>
                found >= 0 && Recorded(slots[..], cp[..], found)
    {
      hide Walk, Recorded, Escapes, Pow2;
      ghost var escapes := depthStart == kickCount <= 498 && Walk(slots[..], cp[..], depthStart, 498 - depthStart);
      var depth := depthStart;
      while kickCount < MAX_CUCKOO_COUNT && depth < MAX_CUCKOO_COUNT - 1
        invariant depthStart <= depth < MAX_CUCKOO_COUNT && kickCount == old(kickCount) + depth - depthStart
        invariant cp[0].bucket == old(cp[0].bucket) && Path(cp[..], depth, kickHash, power)
        invariant escapes ==> depth <= 498 && Walk(slots[..], cp[..], depth, 498 - depth)
      {
        var i := cp[depth].bucket;
        ghost var hops: seq<Hop> := cp[..];
        var j := EmptySlot(i);
        if j < BUCKET_SIZE {
          cp[depth] := cp[depth].(slot := j);
          if escapes {
            WalkIsRecorded(slots[..], hops, cp[..], depth, 498 - depth, j);
          }
          return depth;
        }
        Kick(depth, i, if escapes then 498 - depth else 0);
        kickCount := kickCount + 1;
        depth := depth + 1;
      }
      return -1;
    }

    /** Moves the objects along the path, last hop first; stops where a slot no longer holds what was recorded. */
    method CpBackmove(depthStart: nat) returns (depth: nat)
      requires Valid() && depthStart < MAX_CUCKOO_COUNT && Path(cp[..], depthStart, kickHash, power)
      requires cp[depthStart].slot < BUCKET_SIZE
      requires slots[BUCKET_SIZE * cp[depthStart].bucket + cp[depthStart].slot] == NIL
      modifies slots
      ensures depth <= depthStart
      ensures depth == 0 ==> cp[0].slot < BUCKET_SIZE && slots[BUCKET_SIZE * cp[0].bucket + cp[0].slot] == NIL
      ensures Objects(slots[..]) == old(Objects(slots[..]))
      ensures old(Placed(slots[..])) ==> Placed(slots[..])
      ensures old(Recorded(slots[..], cp[..], depthStart)) ==> depth == 0
    {
      hide Objects, Placed, Candidate, Recorded;
      depth := depthStart;
      while depth > 0
        invariant depth <= depthStart
        invariant old(Recorded(slots[..], cp[..], depthStart)) ==> Recorded(slots[..], cp[..], depth)
        invariant cp[depth].slot < BUCKET_SIZE && slots[BUCKET_SIZE * cp[depth].bucket + cp[depth].slot] == NIL
        invariant Objects(slots[..]) == old(Objects(slots[..]))
        invariant old(Placed(slots[..])) ==> Placed(slots[..])
      {
        assert Linked(cp[depth - 1], cp[depth], kickHash, power);
        var i1, i2, j1, j2 := cp[depth - 1].bucket, cp[depth].bucket, cp[depth - 1].slot, cp[depth].slot;
        if slots[BUCKET_SIZE * i1 + j1] != cp[depth - 1].ptr {
          NotRecorded(slots[..], cp[..], depth);
          return;
        }
        ghost var was: seq<Pointer> := slots[..];
        Move(i1, j1, i2, j2);
        if Recorded(was, cp[..], depth) {
          RecordedStep(was, slots[..], cp[..], depth, j2);
        }
        depth := depth - 1;
      }
    }

    lemma NotRecorded(cells: seq<Pointer>, hops: seq<Hop>, n: nat)
      requires 0 < n < |hops| && BUCKET_SIZE * hops[n - 1].bucket + hops[n - 1].slot < |cells|
      requires cells[BUCKET_SIZE * hops[n - 1].bucket + hops[n - 1].slot] != hops[n - 1].ptr
      ensures !Recorded(cells, hops, n)
    {
    }

    /** A move between the last two buckets touches no slot recorded before. */
    lemma RecordedStep(cells: seq<Pointer>, now: seq<Pointer>, hops: seq<Hop>, n: nat, slot: nat)
      requires 0 < n < |hops| && Recorded(cells, hops, n) && slot < BUCKET_SIZE
      requires BUCKET_SIZE * hops[n].bucket + slot < |cells|
      requires var from := BUCKET_SIZE * hops[n - 1].bucket + hops[n - 1].slot;
               from < |cells| && now == cells[BUCKET_SIZE * hops[n].bucket + slot := cells[from]][from := NIL]
      ensures Recorded(now, hops, n - 1)
    {
      forall d | 0 <= d < n - 1
        ensures BUCKET_SIZE * hops[d].bucket + hops[d].slot != BUCKET_SIZE * hops[n].bucket + slot
        ensures BUCKET_SIZE * hops[d].bucket + hops[d].slot != BUCKET_SIZE * hops[n - 1].bucket + hops[n - 1].slot
      {
        assert hops[d].bucket != hops[n].bucket && hops[d].bucket != hops[n - 1].bucket;
      }
    }

    /** Moves one object to an empty slot of its other bucket. */
    method Move(i1: nat, j1: nat, i2: nat, j2: nat)
      requires Valid() && i1 < Pow2(power) && i2 < Pow2(power) && j1 < BUCKET_SIZE && j2 < BUCKET_SIZE
      requires slots[BUCKET_SIZE * i1 + j1] != NIL
      requires i2 == AltIndex(i1, TagHash(kickHash(slots[BUCKET_SIZE * i1 + j1])), power)
      // the code's own assertion: the destination is empty
      requires slots[BUCKET_SIZE * i2 + j2] == NIL
      modifies slots
      ensures slots[..] == var was := old(slots[..]);
                           was[BUCKET_SIZE * i2 + j2 := was[BUCKET_SIZE * i1 + j1]][BUCKET_SIZE * i1 + j1 := NIL]
      ensures Objects(slots[..]) == old(Objects(slots[..]))
      ensures old(Placed(slots[..])) ==> Placed(slots[..])
    {
      hide Objects, Placed, AltIndex;
      ghost var was: seq<Pointer> := slots[..];
      var from, to := BUCKET_SIZE * i1 + j1, BUCKET_SIZE * i2 + j2;
      slots[to] := slots[from];
      slots[from] := NIL;
      assert slots[..] == was[to := was[from]][from := NIL];
      MoveKeepsObjects(was, from, to);
      if Placed(was) {
        MoveKeepsPlaced(was, i1, from, i2, to);
      }
    }

    lemma MoveKeepsPlaced(cells: seq<Pointer>, i1: nat, from: nat, i2: nat, to: nat)
      requires power <= 31 && from < |cells| && to < |cells| && cells[from] != NIL && from != to && Placed(cells)
      requires i1 == from / BUCKET_SIZE && i2 == to / BUCKET_SIZE
      requires i2 == AltIndex(i1, TagHash(kickHash(cells[from])), power)
      ensures Placed(cells[to := cells[from]][from := NIL])
    {
      OtherCandidate(cells[from], i1);
    }

    /** Displacing an object takes it from one candidate bucket to the other. */
    lemma OtherCandidate(a: Pointer, bucket: nat)
      requires power <= 31 && Candidate(a, bucket)
      ensures Candidate(a, AltIndex(bucket, TagHash(hash(keyOf(a))), power))
    {
      var h := hash(keyOf(a));
      CandidatesInRange(h, 0, 1, power);
      AltIndexTwice(IndexHash(h, power), TagHash(h), power);
    }

    /** Frees the slot at the start of the path, or gives up with -1; either way every object is kept. */
    method Cuckoo() returns (index: int)
      requires Valid() && cp[0].bucket < Pow2(power)
      modifies slots, cp, `kickCount
      ensures index == 0 || index == -1
      ensures cp[0].bucket == old(cp[0].bucket)
      ensures index == 0 ==> cp[0].slot < BUCKET_SIZE && slots[BUCKET_SIZE * cp[0].bucket + cp[0].slot] == NIL
      ensures index < 0 ==> kickCount >= MAX_CUCKOO_COUNT - 1
      ensures Objects(slots[..]) == old(Objects(slots[..]))
      ensures old(Placed(slots[..])) ==> Placed(slots[..])
      ensures old(Escapes(slots[..], cp[0].bucket, 498)) ==> index == 0
    {
      hide Objects, Placed, Candidate, Escapes, Recorded, Walk;
      kickCount := 0;
      var depth: nat := 0;
      WalkStarts(slots[..], cp[..], 498);
      while true
        invariant old(Escapes(slots[..], cp[0].bucket, 498)) ==>
                    depth == kickCount == 0 && Walk(slots[..], cp[..], 0, 498)
        invariant depth <= kickCount <= MAX_CUCKOO_COUNT && depth < MAX_CUCKOO_COUNT
        invariant cp[0].bucket == old(cp[0].bucket) && Path(cp[..], depth, kickHash, power)
        invariant Objects(slots[..]) == old(Objects(slots[..]))
        invariant old(Placed(slots[..])) ==> Placed(slots[..])
        decreases MAX_CUCKOO_COUNT - kickCount, depth
      {
        var found := CpSearch(depth);
        if found < 0 {
          return -1;
        }
        var current := CpBackmove(found);
        if current == 0 {
          return 0;
        }
        depth := current - 1;
      }
    }

    /** Puts the object into the first empty slot of bucket i. */
    method TryAdd(ptr: Pointer, i: nat) returns (added: bool)
      requires Valid() && ptr != NIL && i < Pow2(power)
      modifies slots
      ensures added <==> old(EmptyIn(slots[..], i)) < BUCKET_SIZE * i + BUCKET_SIZE
      ensures slots[..] == if added then old(slots[..])[old(EmptyIn(slots[..], i)) := ptr] else old(slots[..])
    {
      ghost var was: seq<Pointer> := slots[..];
      var j := EmptySlot(i);
      if j == BUCKET_SIZE {
        return false;
      }
      slots[BUCKET_SIZE * i + j] := ptr;
      assert slots[..] == was[BUCKET_SIZE * i + j := ptr];
      return true;
    }

    /** An object put into an empty slot of a candidate bucket is added and in its place. */
    lemma AddedObject(cells: seq<Pointer>, i: nat, q: nat, ptr: Pointer)
      requires power <= 31 && BUCKET_SIZE * i <= q < BUCKET_SIZE * i + BUCKET_SIZE && q < |cells| && cells[q] == NIL
      requires ptr != NIL
      ensures Objects(cells[q := ptr]) == Objects(cells) + multiset{ptr}
      ensures Placed(cells) && Candidate(ptr, i) && HashesAlike(ptr) ==> Placed(cells[q := ptr])
    {
      hide Candidate;
      assert q / BUCKET_SIZE == i;
      FillAddsObject(cells, q, ptr);
    }

    /** Adds the object, displacing others if both its buckets are full. */
    method Insert(key: Key, ptr: Pointer) returns (ok: bool)
      requires Valid() && ptr != NIL && keyOf(ptr) == key
      modifies slots, cp, `kickCount
      // the top bits of the hash value give the first bucket; its first empty slot is taken, then one of the second
      ensures var h, i1 := hash(key), IndexHash(hash(key), power);
              i1 * Pow2(32 - power) <= h < (i1 + 1) * Pow2(32 - power)
      ensures var i1 := IndexHash(hash(key), power);
              var i2 := AltIndex(i1, TagHash(hash(key)), power);
              i1 < Pow2(power) && i2 < Pow2(power) &&
              var q1, q2 := old(EmptyIn(slots[..], i1)), old(EmptyIn(slots[..], i2));
              && (q1 < BUCKET_SIZE * i1 + BUCKET_SIZE ==> ok && slots[..] == old(slots[..])[q1 := ptr])
              && (q1 == BUCKET_SIZE * i1 + BUCKET_SIZE && q2 < BUCKET_SIZE * i2 + BUCKET_SIZE ==>
                    ok && slots[..] == old(slots[..])[q2 := ptr])
      ensures ok ==> Objects(slots[..]) == old(Objects(slots[..])) + multiset{ptr}
      ensures !ok ==> Objects(slots[..]) == old(Objects(slots[..])) && kickCount >= 499
      ensures old(Escapes(slots[..], SecondBucket(key), 498)) ==> ok
      ensures old(Placed(slots[..])) && HashesAlike(ptr) ==> Placed(slots[..])
      ensures old(Table() && key !in Model()) && HashesAlike(ptr) ==>
                Table() && Model() == if ok then old(Model())[key := ptr] else old(Model())
    {
      hide Distinct, Dict, Path, Objects, Placed, EmptyIn, IndexHash, AltIndex, TagHash, Escapes;
      if Table() {
        AddedIsDistinctIff(Objects(slots[..]), keyOf, ptr);
      }
      var hashValue := hash(key);
      var tag := TagHash(hashValue);
      var i1 := IndexHash(hashValue, power);
      var i2 := AltIndex(i1, tag, power);
      CandidatesInRange(hashValue, i1, tag, power);
      IndexHashIsTop(hashValue, power);
      ok := AddTo(ptr, i1);
      if ok {
        return;
      }
      ok := AddTo(ptr, i2);
      if ok {
        return;
      }
      cp[0] := cp[0].(bucket := i2);
      var index := Cuckoo();
      if index >= 0 {
        // the slot at the start of the path is empty, so there is room
        RoomInBucket(slots[..], i2, cp[0].slot);
        ok := AddTo(ptr, cp[0].bucket);
        assert ok;
      }
    }

    lemma RoomInBucket(cells: seq<Pointer>, i: nat, slot: nat)
      requires slot < BUCKET_SIZE && BUCKET_SIZE * i + BUCKET_SIZE <= |cells| && cells[BUCKET_SIZE * i + slot] == NIL
      ensures EmptyIn(cells, i) < BUCKET_SIZE * i + BUCKET_SIZE
    {
    }

    /** tryAdd on a candidate bucket. */
    method AddTo(ptr: Pointer, i: nat) returns (added: bool)
      requires Valid() && ptr != NIL && i < Pow2(power) && Candidate(ptr, i)
      modifies slots
      ensures added <==> old(EmptyIn(slots[..], i)) < BUCKET_SIZE * i + BUCKET_SIZE
      ensures slots[..] == if added then old(slots[..])[old(EmptyIn(slots[..], i)) := ptr] else old(slots[..])
      ensures added ==> Objects(slots[..]) == old(Objects(slots[..])) + multiset{ptr}
      ensures old(Placed(slots[..])) && HashesAlike(ptr) ==> Placed(slots[..])
    {
      hide Objects, Placed, Candidate;
      ghost var was: seq<Pointer> := slots[..];
      added := TryAdd(ptr, i);
      if added {
        AddedObject(was, i, EmptyIn(was, i), ptr);
      }
    }

    /** The first object of bucket i that passes for the key, or NIL. */
    method Scan(key: Key, i: nat) returns (result: Pointer)
      requires Valid() && i < Pow2(power)
      ensures var q := KeyIn(slots[..], i, key);
              result == if q < BUCKET_SIZE * i + BUCKET_SIZE then slots[q] else NIL
    {
      var j := 0;
      while j < BUCKET_SIZE
        invariant j <= BUCKET_SIZE
        invariant KeyIn(slots[..], i, key)
                  == FirstKey(slots[..], isKey, key, BUCKET_SIZE * i + j, BUCKET_SIZE * i + BUCKET_SIZE)
      {
        var ptr := slots[BUCKET_SIZE * i + j];
        if ptr != NIL && isKey(ptr, key) {
          return ptr;
        }
        j := j + 1;
      }
      return NIL;
    }

    ghost function FirstBucket(key: Key): (i: nat)
      requires power <= 31
      ensures i < Pow2(power)
    {
      CandidatesInRange(hash(key), 0, 1, power);
      IndexHash(hash(key), power)
    }

    ghost function SecondBucket(key: Key): (i: nat)
      requires power <= 31
      ensures i < Pow2(power)
    {
      CandidatesInRange(hash(key), FirstBucket(key), TagHash(hash(key)), power);
      AltIndex(FirstBucket(key), TagHash(hash(key)), power)
    }

    /** The first slot that passes for the key, in its first bucket or else in its second; otherwise |cells|. */
    ghost function SlotOf(cells: seq<Pointer>, key: Key): (q: nat)
      requires power <= 31 && |cells| == BUCKET_SIZE * Pow2(power)
      ensures q <= |cells| && (q < |cells| ==> cells[q] != NIL && isKey(cells[q], key))
    {
      var i1, i2 := FirstBucket(key), SecondBucket(key);
      var q1, q2 := KeyIn(cells, i1, key), KeyIn(cells, i2, key);
      if q1 < BUCKET_SIZE * i1 + BUCKET_SIZE then q1 else if q2 < BUCKET_SIZE * i2 + BUCKET_SIZE then q2 else |cells|
    }

    /** What a lookup returns. */
    ghost function FoundIn(cells: seq<Pointer>, key: Key): Pointer
      requires power <= 31 && |cells| == BUCKET_SIZE * Pow2(power)
    {
      if SlotOf(cells, key) < |cells| then cells[SlotOf(cells, key)] else NIL
    }

    /** An object under this key if there is one, otherwise NIL. */
    ghost predicate Right(cells: seq<Pointer>, key: Key)
      requires power <= 31 && |cells| == BUCKET_SIZE * Pow2(power)
    {
      var a := FoundIn(cells, key);
      if a == NIL then forall q :: 0 <= q < |cells| && cells[q] != NIL ==> keyOf(cells[q]) != key else keyOf(a) == key
    }

    /** Where a lookup of the key searches. */
    ghost predicate IsSearched(key: Key, q: nat)
      requires power <= 31
    {
      q / BUCKET_SIZE == FirstBucket(key) || q / BUCKET_SIZE == SecondBucket(key)
    }

    /** The slot holds the object of another key that passes for this one, in a bucket where this one is looked for. */
    ghost predicate IsMistaken(cells: seq<Pointer>, key: Key, q: nat)
      requires power <= 31 && q < |cells|
    {
      cells[q] != NIL && IsSearched(key, q) && isKey(cells[q], key) && keyOf(cells[q]) != key
    }

    ghost predicate Mistakable(cells: seq<Pointer>, key: Key)
      requires power <= 31
    {
      exists q :: 0 <= q < |cells| && IsMistaken(cells, key, q)
    }

    /** A table with a fixed key size mistakes nothing; the other kind does not mistake a key without a zero byte. */
    lemma ToldApart(cells: seq<Pointer>, key: Key)
      requires power <= 31
      requires forall q :: 0 <= q < |cells| && cells[q] != NIL ==>
                 if contents(cells[q]).Plain? then key.SmallKey? else 0 !in WholeKey(key)
      ensures !Mistakable(cells, key)
    {
      hide IsSearched, IsKey, KeyAt, WholeKey;
      forall q | 0 <= q < |cells| && cells[q] != NIL
        ensures !IsMistaken(cells, key, q)
      {
        if contents(cells[q]).Stored? {
          ToldApartWithoutZero(contents(cells[q]), key, chunkSize);
        } else {
          PlainKey(contents(cells[q]), key, chunkSize);
        }
      }
    }

    /** The table without what is stored under the key. */
    ghost function Without(cells: seq<Pointer>, key: Key): (r: seq<Pointer>)
      ensures |r| == |cells|
      ensures forall q :: 0 <= q < |cells| ==>
                r[q] == if cells[q] != NIL && keyOf(cells[q]) == key then NIL else cells[q]
    {
      seq(|cells|, q requires 0 <= q < |cells| => if cells[q] != NIL && keyOf(cells[q]) == key then NIL else cells[q])
    }

    /** The search covers both buckets, the first one first. */
    lemma SlotIsFirst(cells: seq<Pointer>, key: Key, p: nat)
      requires power <= 31 && |cells| == BUCKET_SIZE * Pow2(power) && p < |cells|
      requires cells[p] != NIL && IsSearched(key, p) && isKey(cells[p], key)
      ensures SlotOf(cells, key) < |cells| && (SlotOf(cells, key) == p || Precedes(key, SlotOf(cells, key), p))
      ensures !Precedes(key, p, SlotOf(cells, key))
    {
      hide IndexHash, AltIndex, TagHash, Pow2;
    }

    lemma SlotIsSearched(cells: seq<Pointer>, key: Key)
      requires power <= 31 && |cells| == BUCKET_SIZE * Pow2(power) && SlotOf(cells, key) < |cells|
      ensures IsSearched(key, SlotOf(cells, key))
    {
      hide IndexHash, AltIndex, TagHash, Pow2;
    }

    ghost predicate Precedes(key: Key, q: nat, p: nat)
      requires power <= 31
    {
      if q / BUCKET_SIZE == p / BUCKET_SIZE then q < p else q / BUCKET_SIZE == FirstBucket(key)
    }

    /** The object under a key answers to it and is in a searched bucket. */
    lemma OwnSlot(cells: seq<Pointer>, key: Key, p: nat)
      requires power <= 31 && p < |cells| && Placed(cells) && cells[p] != NIL && keyOf(cells[p]) == key
      ensures IsSearched(key, p) && isKey(cells[p], key)
    {
      hide IndexHash, AltIndex, TagHash, IsKey, HashedBytes, KickedBytes;
      AnswersToOwnKey(contents(cells[p]), chunkSize);
      assert Candidate(cells[p], p / BUCKET_SIZE);
    }

    /** What is stored under the key is not missed. */
    lemma NothingFound(cells: seq<Pointer>, key: Key)
      requires power <= 31 && |cells| == BUCKET_SIZE * Pow2(power) && Placed(cells) && FoundIn(cells, key) == NIL
      ensures forall q :: 0 <= q < |cells| && cells[q] != NIL ==> keyOf(cells[q]) != key
    {
      hide SlotOf, IsSearched, Placed;
      forall q | 0 <= q < |cells| && cells[q] != NIL
        ensures keyOf(cells[q]) != key
      {
        if keyOf(cells[q]) == key {
          OwnSlot(cells, key, q);
          SlotIsFirst(cells, key, q);
        }
      }
    }

    lemma RightIfTold(cells: seq<Pointer>, key: Key)
      requires power <= 31 && |cells| == BUCKET_SIZE * Pow2(power) && Placed(cells) && !Mistakable(cells, key)
      ensures Right(cells, key)
    {
      hide SlotOf, IsSearched, Placed;
      if SlotOf(cells, key) < |cells| {
        SlotIsSearched(cells, key);
        assert !IsMistaken(cells, key, SlotOf(cells, key));
      } else {
        NothingFound(cells, key);
      }
    }

    /**
     * A lookup is right when no object in the searched buckets is mistaken, and only then would it also be right if
     * nothing were stored under the key.
     */
    lemma RightIff(cells: seq<Pointer>, key: Key)
      requires power <= 31 && |cells| == BUCKET_SIZE * Pow2(power) && Placed(cells)
      ensures !Mistakable(cells, key) ==> Right(cells, key)
      ensures !Mistakable(cells, key) <==> Right(Without(cells, key), key)
    {
      hide SlotOf, IsSearched, Candidate;
      var fewer := Without(cells, key);
      assert Placed(fewer);
      if Mistakable(cells, key) {
        var q :| 0 <= q < |cells| && IsMistaken(cells, key, q);
        SlotIsFirst(fewer, key, q);
      } else {
        RightIfTold(cells, key);
        forall q | 0 <= q < |fewer|
          ensures !IsMistaken(fewer, key, q)
        {
          assert !IsMistaken(cells, key, q);
        }
        RightIfTold(fewer, key);
      }
    }

    /** When the key has an object, the lookup is right iff no mistaken one is searched before it. */
    lemma RightIffFirst(cells: seq<Pointer>, key: Key, p: nat)
      requires power <= 31 && |cells| == BUCKET_SIZE * Pow2(power) && Placed(cells) && p < |cells|
      requires forall q :: 0 <= q < |cells| ==> (cells[q] != NIL && keyOf(cells[q]) == key <==> q == p)
      ensures Right(cells, key)
              <==> forall q :: 0 <= q < |cells| && IsMistaken(cells, key, q) ==> !Precedes(key, q, p)
    {
      hide SlotOf, IsSearched, Candidate, Placed;
      assert cells[p] != NIL && keyOf(cells[p]) == key;
      OwnSlot(cells, key, p);
      SlotIsFirst(cells, key, p);
      SlotIsSearched(cells, key);
      var s := SlotOf(cells, key);
      if s == p {
        forall q | 0 <= q < |cells| && IsMistaken(cells, key, q)
          ensures !Precedes(key, q, p)
        {
          SlotIsFirst(cells, key, q);
        }
      } else {
        assert IsMistaken(cells, key, s);
      }
    }

    /** The first object that passes for the key: of its first bucket, or else of its second. */
    method Find(key: Key) returns (result: Pointer)
      requires Valid()
      ensures result == FoundIn(slots[..], key)
      ensures result != NIL ==> result in Objects(slots[..]) && isKey(result, key)
      ensures Placed(slots[..]) && result == NIL ==> forall a :: a in Objects(slots[..]) ==> keyOf(a) != key
      ensures Table() ==> (result == (if key in Model() then Model()[key] else NIL) <==> Right(slots[..], key))
      ensures Table() && !Mistakable(slots[..], key) ==> result == if key in Model() then Model()[key] else NIL
    {
      hide IndexHash, AltIndex, TagHash, Placed, Mistakable, Right, KeyIn, FoundIn, Objects, Distinct, Dict;
      var hashValue := hash(key);
      var tag := TagHash(hashValue);
      var i1 := IndexHash(hashValue, power);
      var i2 := AltIndex(i1, tag, power);
      CandidatesInRange(hashValue, i1, tag, power);
      result := Scan(key, i1);
      if result == NIL {
        result := Scan(key, i2);
      }
      FoundByScans(slots[..], key);
      if result == NIL && Placed(slots[..]) {
        NothingFound(slots[..], key);
        ObjectsAreStored(slots[..]);
      }
      if Table() {
        FoundIsModel(slots[..], key);
      }
    }

    lemma FoundByScans(cells: seq<Pointer>, key: Key)
      requires power <= 31 && |cells| == BUCKET_SIZE * Pow2(power)
      ensures var i1 := IndexHash(hash(key), power);
              var i2 := AltIndex(i1, TagHash(hash(key)), power);
              i1 < Pow2(power) && i2 < Pow2(power) &&
              var q1, q2 := KeyIn(cells, i1, key), KeyIn(cells, i2, key);
              FoundIn(cells, key) == if q1 < BUCKET_SIZE * i1 + BUCKET_SIZE then cells[q1]
                                     else if q2 < BUCKET_SIZE * i2 + BUCKET_SIZE then cells[q2] else NIL
      ensures FoundIn(cells, key) != NIL ==> FoundIn(cells, key) in Objects(cells) && isKey(FoundIn(cells, key), key)
    {
      hide IndexHash, AltIndex, TagHash, KeyIn, Objects;
      assert FirstBucket(key) == IndexHash(hash(key), power);
      StoredIff(cells, FoundIn(cells, key));
    }

    lemma StoredIff(cells: seq<Pointer>, a: Pointer)
      ensures a in Objects(cells) <==> a in cells && a != NIL
    {
    }

    lemma ObjectsAreStored(cells: seq<Pointer>)
      ensures forall a :: a in Objects(cells) ==> exists q :: 0 <= q < |cells| && cells[q] != NIL && cells[q] == a
    {
    }

    lemma FoundIsModel(cells: seq<Pointer>, key: Key)
      requires power <= 31 && |cells| == BUCKET_SIZE * Pow2(power) && Placed(cells)
      requires Distinct(Objects(cells), keyOf)
      ensures var m := Dict(Objects(cells), keyOf);
              Right(cells, key) <==> FoundIn(cells, key) == if key in m then m[key] else NIL
      ensures !Mistakable(cells, key) ==> Right(cells, key)
    {
      hide SlotOf, Placed, Mistakable, Objects;
      RightIff(cells, key);
      StoredIff(cells, FoundIn(cells, key));
      forall q | 0 <= q < |cells| && cells[q] != NIL
        ensures cells[q] in Objects(cells)
      {
        StoredIff(cells, cells[q]);
      }
      forall b
        ensures b in Objects(cells) <==> b in cells && b != NIL
      {
        StoredIff(cells, b);
      }
    }

    /** Removes the first object of bucket i that passes for the key. */
    method TryDel(key: Key, i: nat) returns (deleted: bool)
      requires Valid() && i < Pow2(power)
      modifies slots
      ensures deleted <==> old(KeyIn(slots[..], i, key)) < BUCKET_SIZE * i + BUCKET_SIZE
      ensures slots[..] == if deleted then old(slots[..])[old(KeyIn(slots[..], i, key)) := NIL] else old(slots[..])
    {
      ghost var was: seq<Pointer> := slots[..];
      var j := 0;
      while j < BUCKET_SIZE
        invariant j <= BUCKET_SIZE && slots[..] == was
        invariant KeyIn(was, i, key) == FirstKey(was, isKey, key, BUCKET_SIZE * i + j, BUCKET_SIZE * i + BUCKET_SIZE)
      {
        var ptr := slots[BUCKET_SIZE * i + j];
        if ptr != NIL && isKey(ptr, key) {
          slots[BUCKET_SIZE * i + j] := NIL;
          assert slots[..] == was[BUCKET_SIZE * i + j := NIL];
          return true;
        }
        j := j + 1;
      }
      return false;
    }

    lemma RemovedObject(cells: seq<Pointer>, q: nat)
      requires power <= 31 && q < |cells| && cells[q] != NIL
      ensures Objects(cells[q := NIL]) == Objects(cells) - multiset{cells[q]} && cells[q] in Objects(cells)
      ensures Placed(cells) ==> Placed(cells[q := NIL])
    {
      hide Candidate;
      EmptyRemovesObject(cells, q);
    }

    /** Removes the object that a lookup finds. The map loses this key exactly when the lookup is right. */
    method Del(key: Key)
      requires Valid()
      modifies slots
      ensures slots[..] == var was, q := old(slots[..]), old(SlotOf(slots[..], key));
                           if q < |was| then was[q := NIL] else was
      ensures old(Placed(slots[..])) ==> Placed(slots[..])
      ensures old(Table()) ==>
                Table() && var was, a := old(Model()), old(FoundIn(slots[..], key));
                           Model() == if a == NIL then was else was - {keyOf(a)}
      ensures old(Table()) ==> (Model() == old(Model()) - {key} <==> old(Right(slots[..], key)))
      ensures old(Table() && !Mistakable(slots[..], key)) ==> Model() == old(Model()) - {key}
    {
      hide Distinct, Dict, Placed, Objects, IndexHash, AltIndex, TagHash, Mistakable, Right, KeyIn;
      ghost var was: seq<Pointer> := slots[..];
      var hashValue := hash(key);
      var tag := TagHash(hashValue);
      var i1 := IndexHash(hashValue, power);
      var i2 := AltIndex(i1, tag, power);
      CandidatesInRange(hashValue, i1, tag, power);
      var deleted := TryDel(key, i1);
      if !deleted {
        deleted := TryDel(key, i2);
      }
      if SlotOf(was, key) < |was| {
        KeyRemoved(was, SlotOf(was, key));
      }
      if Placed(was) && Distinct(Objects(was), keyOf) {
        RemovedRightIff(was, key);
      }
    }

    lemma RemovedRightIff(cells: seq<Pointer>, key: Key)
      requires power <= 31 && |cells| == BUCKET_SIZE * Pow2(power) && Placed(cells)
      requires Distinct(Objects(cells), keyOf)
      ensures var m, a := Dict(Objects(cells), keyOf), FoundIn(cells, key);
              (if a == NIL then m else m - {keyOf(a)}) == m - {key} <==> Right(cells, key)
      ensures !Mistakable(cells, key) ==> Right(cells, key)
    {
      hide FoundIn, Placed, Mistakable, Right, Objects, Dict, Distinct;
      FoundIsModel(cells, key);
      FoundByScans(cells, key);
      StoredIff(cells, NIL);
      InDict(Objects(cells), keyOf, FoundIn(cells, key));
      RemovingTwoKeys(Dict(Objects(cells), keyOf), keyOf(FoundIn(cells, key)), key);
    }

    lemma KeyRemoved(cells: seq<Pointer>, q: nat)
      requires power <= 31 && q < |cells| && cells[q] != NIL
      ensures Placed(cells) ==> Placed(cells[q := NIL])
      ensures Distinct(Objects(cells), keyOf) ==>
                Distinct(Objects(cells[q := NIL]), keyOf)
                && Dict(Objects(cells[q := NIL]), keyOf) == Dict(Objects(cells), keyOf) - {keyOf(cells[q])}
    {
      hide Distinct, Dict, Placed, Objects;
      RemovedObject(cells, q);
      if Distinct(Objects(cells), keyOf) {
        RemovedDropsKey(Objects(cells), keyOf, cells[q]);
      }
    }

    lemma EmptyInNew(cells: seq<Pointer>, i: nat, n: nat)
      requires n < BUCKET_SIZE && BUCKET_SIZE * i + BUCKET_SIZE <= |cells|
      requires forall q :: BUCKET_SIZE * i <= q < BUCKET_SIZE * i + n ==> cells[q] != NIL
      requires cells[BUCKET_SIZE * i + n] == NIL
      ensures EmptyIn(cells, i) == BUCKET_SIZE * i + n
    {
    }

    lemma FirstSlotFound(cells: seq<Pointer>, key: Key)
      requires power <= 31 && |cells| == BUCKET_SIZE * Pow2(power)
      requires var q := BUCKET_SIZE * FirstBucket(key); cells[q] != NIL && isKey(cells[q], key)
      ensures SlotOf(cells, key) == BUCKET_SIZE * FirstBucket(key)
    {
      hide IndexHash, Pow2, FirstBucket;
    }
  }

  lemma TwoEntries(k: Key, l: Key)
    requires k != l
    ensures map[][k := 1][l := 2] - {k} == map[l := 2] && l !in map[][k := 1]
  {
  }

  /** A table that holds two splits of one object in one bucket. */
  method StoreSplits(o: Object, other: Object, chunkSize: nat, power: nat) returns (table: CuckooHash)
    requires 1 <= power <= 31 && KeyAt(Stored(o), chunkSize) != KeyAt(Stored(other), chunkSize)
    ensures fresh(table) && fresh(table.slots) && table.Table() && table.contents(1) == Stored(o)
    ensures table.contents(2) == Stored(other)
    ensures table.keyOf(1) == KeyAt(Stored(o), chunkSize) && table.keyOf(2) == KeyAt(Stored(other), chunkSize)
    ensures table.isKey(1, table.keyOf(2)) == IsKey(Stored(o), table.keyOf(2), chunkSize)
    ensures table.Model() == map[][table.keyOf(1) := 1][table.keyOf(2) := 2]
    ensures table.slots[BUCKET_SIZE * table.FirstBucket(table.keyOf(2))] == 1
  {
    hide IndexHash, AltIndex, TagHash, Pow2, KickedBytes, HashedBytes, KeyAt, IsKey, Dict, Distinct, Objects,
         CuckooHash.Placed, CuckooHash.EmptyIn;
    table := new CuckooHash(power, chunkSize, a => if a == 1 then Stored(o) else Stored(other), b => 0);
    ghost var i := table.FirstBucket(table.keyOf(1));
    assert i == IndexHash(0, power) == table.FirstBucket(table.keyOf(2));
    TwoEntries(table.keyOf(1), table.keyOf(2));
    table.EmptyInNew(table.slots[..], i, 0);
    assert table.HashesAlike(1) && table.HashesAlike(2);
    var ok := table.Insert(table.keyOf(1), 1);
    table.EmptyInNew(table.slots[..], i, 1);
    ok := table.Insert(table.keyOf(2), 2);
  }

  /**
   * Two splits of any large object with offsets below 2^16, in a table where they share a bucket: a lookup of the
   * second finds the first, and deleting the second removes the first.
   */
  method MistakenSplit(o: Object, other: Object, chunkSize: nat, power: nat)
    returns (table: CuckooHash, found: Pointer)
    requires 1 <= power <= 31 && IsLarge(chunkSize, |o.key|, o.valueSize)
    requires other.key == o.key && other.valueSize == o.valueSize && other.splitOffset != o.splitOffset
    requires o.splitOffset < 0x1_0000 && other.splitOffset < 0x1_0000
    ensures fresh(table) && table.Table() && table.contents(1) == Stored(o) && table.contents(2) == Stored(other)
    ensures found == 1 && table.keyOf(1) != table.keyOf(2)
    ensures table.Model() == map[table.keyOf(2) := 2]
  {
    hide IndexHash, AltIndex, TagHash, Pow2, KeyAt, IsKey, Dict, Distinct, Objects, CuckooHash.Placed,
         CuckooHash.FirstBucket, CuckooHash.SlotOf, CuckooHash.Right, CuckooHash.Mistakable, IsLarge;
    SplitsMistakenIff(o, other, chunkSize);
    table := StoreSplits(o, other, chunkSize, power);
    ghost var key, otherKey := table.keyOf(1), table.keyOf(2);
    TwoEntries(key, otherKey);
    table.FirstSlotFound(table.slots[..], otherKey);
    found := table.Find(KeyAt(Stored(other), chunkSize));
    table.Del(KeyAt(Stored(other), chunkSize));
  }
}
