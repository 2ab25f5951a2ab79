/** Putting the splits of a large value together as the responses arrive. */
module Reassembly {
  import opened Buffers
  import opened LargeObjects

  const RECEIVED: byte := 1

  class SplitBuffer {
    const chunkSize: nat
    const keySize: nat
    const valueSize: nat
    const numOfSplit: nat
    const splitSize: nat
    /** One flag per split, then the value. */
    const buffer: array<byte>
    /** The value on the servers, and the splits of it received so far. */
    ghost const value: seq<byte>
    ghost var arrived: set<nat>

    ghost predicate Shape() {
      && HasRoom(chunkSize, keySize, valueSize) && IsLarge(chunkSize, keySize, valueSize)
      && numOfSplit == NumOfSplit(chunkSize, keySize, valueSize)
      && splitSize == SplitSize(chunkSize, keySize, valueSize)
      && |value| == valueSize && buffer.Length == numOfSplit + valueSize
    }

    /** The flags tell which splits have arrived, and these splits hold the value's bytes. */
    ghost predicate Holds(bytes: seq<byte>, there: set<nat>) {
      && |bytes| == numOfSplit + valueSize && |value| == valueSize
      && (forall i :: i in there ==> i < numOfSplit)
      && (forall i: nat :: i < numOfSplit ==> bytes[i] == if i in there then RECEIVED else NUL)
      && (forall i: nat, v: nat :: i in there && v < valueSize && InSplit(i, v) ==> bytes[numOfSplit + v] == value[v])
    }

    /** Byte v of the value belongs to split i. */
    ghost predicate InSplit(i: nat, v: nat) {
      Offset(i, splitSize) <= v < Offset(i, splitSize) + splitSize
    }

    ghost predicate Valid()
      reads this, buffer
    {
      Shape() && Holds(buffer[..], arrived)
    }

    constructor (chunkSize: nat, keySize: nat, valueSize: nat, ghost value: seq<byte>)
      requires HasRoom(chunkSize, keySize, valueSize)
               && IsLarge(chunkSize, keySize, valueSize)
      requires |value| == valueSize
      ensures Valid() && fresh(buffer) && arrived == {} && this.value == value
    {
      this.chunkSize, this.keySize, this.valueSize := chunkSize, keySize, valueSize;
      var num := NumOfSplit(chunkSize, keySize, valueSize);
      numOfSplit, splitSize := num, SplitSize(chunkSize, keySize, valueSize);
      buffer := new byte[num + valueSize](_ => NUL);
      this.value := value;
      arrived := {};
    }

    /** Copies bytes to a place in the buffer. */
    method CopyTo(at: nat, data: seq<byte>)
      requires at + |data| <= buffer.Length
      modifies buffer
      ensures forall j :: 0 <= j < buffer.Length ==>
                buffer[j] == if at <= j < at + |data| then data[j - at] else old(buffer[j])
    {
      var b := 0;
      while b < |data|
        invariant 0 <= b <= |data|
        invariant forall j :: 0 <= j < buffer.Length ==>
          buffer[j] == if at <= j < at + b then data[j - at] else old(buffer[j])
      {
        buffer[at + b] := data[b];
        b := b + 1;
      }
    }

    /** What copying the bytes of split i and setting its flag does. */
    lemma SplitStored(was: seq<byte>, now: seq<byte>, there: set<nat>, i: nat, from: nat, to: nat)
      requires Holds(was, there) && |now| == |was| && i < numOfSplit && from <= to <= valueSize
      requires forall v: nat :: v < valueSize && InSplit(i, v) ==> from <= v < to
      requires forall j :: 0 <= j < |now| ==>
                 now[j] == if j == i then RECEIVED
                           else if numOfSplit + from <= j < numOfSplit + to then value[j - numOfSplit]
                           else was[j]
      ensures Holds(now, there + {i})
    {
      hide InSplit;
    }

    /** Stores a split and marks it. */
    method StoreSplit(splitOffset: nat, data: seq<byte>, ghost i: nat)
      requires Valid() && i < numOfSplit && splitOffset == Offset(i, splitSize) < valueSize
      requires data == value[splitOffset..splitOffset + SplitLength(splitSize, valueSize, splitOffset)]
      modifies this, buffer
      ensures Valid() && arrived == old(arrived) + {i}
    {
      hide Holds;
      SplitIndexInverts(chunkSize, keySize, valueSize, i, splitOffset);
      OffsetIsProduct(i, splitSize);
      var (splitIndex, isLarge) := GetSplitIndex(chunkSize, keySize, valueSize, splitOffset);
      CopyTo(numOfSplit + splitOffset, data);
      buffer[splitIndex] := RECEIVED;
      SplitStored(old(buffer[..]), buffer[..], arrived, i, splitOffset, splitOffset + |data|);
      arrived := arrived + {i};
    }

    /** The offsets of all splits but the first. */
    method RemainingSplits() returns (requests: seq<nat>)
      requires Shape()
      ensures |requests| == numOfSplit - 1
      ensures forall x: nat :: x < |requests| ==> requests[x] == Offset(x + 1, splitSize)
    {
      requests := [];
      var sOffset := splitSize;
      SplitsTile(chunkSize, keySize, valueSize, 1);
      while sOffset < valueSize
        invariant sOffset == Offset(|requests| + 1, splitSize) && |requests| < numOfSplit
        invariant forall x: nat :: x < |requests| ==> requests[x] == Offset(x + 1, splitSize)
      {
        SplitsTile(chunkSize, keySize, valueSize, |requests| + 1);
        requests := requests + [sOffset];
        sOffset := sOffset + splitSize;
      }
      SplitsTile(chunkSize, keySize, valueSize, |requests| + 1);
    }

    method AllReceived() returns (isCompleted: bool)
      requires Valid()
      ensures isCompleted <==> forall j: nat :: j < numOfSplit ==> j in arrived
    {
      isCompleted := true;
      var i := 0;
      while i < numOfSplit
        invariant 0 <= i <= numOfSplit && forall j: nat :: j < i ==> j in arrived
      {
        if buffer[i] == NUL {
          return false;
        }
        i := i + 1;
      }
    }

    /** With every split there, the buffer holds the value. */
    lemma WholeValue()
      requires Valid() && forall j: nat :: j < numOfSplit ==> j in arrived
      ensures buffer[numOfSplit..] == value
    {
      forall v: nat | v < valueSize ensures buffer[..][numOfSplit + v] == value[v] {
        DivBounds(v, splitSize);
        SplitsTile(chunkSize, keySize, valueSize, v / splitSize);
        OffsetCompare(v / splitSize, numOfSplit, splitSize);
        assert InSplit(v / splitSize, v);
      }
    }

    /** Handles the response that carries split i. */
    method HandleSplit(splitOffset: nat, data: seq<byte>, ghost i: nat) returns (completed: bool, requests: seq<nat>)
      requires Valid() && i < numOfSplit && splitOffset == Offset(i, splitSize) < valueSize
      requires data == value[splitOffset..splitOffset + SplitLength(splitSize, valueSize, splitOffset)]
      modifies this, buffer
      ensures Valid() && arrived == old(arrived) + {i}
      // the reply is due exactly when every split is there, and then it is the value
      ensures completed <==> i != 0 && forall j: nat :: j < numOfSplit ==> j in arrived
      ensures completed ==> buffer[numOfSplit..] == value
      // the first split leads to a request for each of the others
      ensures i == 0 ==> |requests| == numOfSplit - 1
                         && forall x: nat :: x < |requests| ==> requests[x] == Offset(x + 1, splitSize)
      ensures i != 0 ==> requests == []
    {
      StoreSplit(splitOffset, data, i);
      requests := [];
      OffsetCompare(0, i, splitSize);
      assert Offset(0, splitSize) == 0;
      if splitOffset == 0 {
        requests := RemainingSplits();
        return false, requests;
      }
      completed := AllReceived();
      if completed {
        WholeValue();
      }
    }
  }

  /** The splits that have arrived after the first t responses. */
  ghost function ArrivedAfter(order: seq<nat>, t: nat): set<nat>
    requires t <= |order|
  {
    set x | 0 <= x < t :: order[x]
  }

  /** In whatever order the splits come, once each, all are there exactly after the last response. */
  lemma CompletedAtLast(order: seq<nat>, numOfSplit: nat, t: nat)
    requires forall x, y :: 0 <= x < y < |order| ==> order[x] != order[y]
    requires forall j: nat :: j < numOfSplit <==> j in order
    requires t <= |order|
    ensures (forall j: nat :: j < numOfSplit ==> j in ArrivedAfter(order, t)) <==> t == |order|
  {
    if t < |order| {
      assert order[t] in order && order[t] !in ArrivedAfter(order, t);
    } else {
      forall j: nat | j < numOfSplit ensures j in ArrivedAfter(order, t) {
        assert j in order;
      }
    }
  }

  lemma NewArrival(order: seq<nat>, t: nat)
    requires t < |order|
    ensures ArrivedAfter(order, t + 1) == ArrivedAfter(order, t) + {order[t]}
  {
  }

  /**
   * A whole run: the responses to a GET come in some order, split 0 first since the others are only requested then.
   * Completion is reported with the last response and with no other, and the buffer then holds the value.
   */
  method Receive(buffer: SplitBuffer, value: seq<byte>, order: seq<nat>) returns (reports: seq<bool>)
    requires buffer.Valid() && buffer.arrived == {} && value == buffer.value
    requires forall x, y :: 0 <= x < y < |order| ==> order[x] != order[y]
    requires forall j: nat :: j < buffer.numOfSplit <==> j in order
    requires order != [] && order[0] == 0
    modifies buffer, buffer.buffer
    ensures |reports| == |order| && forall t :: 0 <= t < |order| ==> (reports[t] <==> t == |order| - 1)
    ensures buffer.buffer[buffer.numOfSplit..] == value
  {
    hide ArrivedAfter;
    reports := [];
    NoArrival(order);
    SplitsTile(buffer.chunkSize, buffer.keySize, buffer.valueSize, 0);
    assert 1 in order;
    var t := 0;
    while t < |order|
      invariant 0 <= t <= |order| == |reports| + (|order| - t) && buffer.Valid()
                && buffer.arrived == ArrivedAfter(order, t)
      invariant forall u :: 0 <= u < t ==> (reports[u] <==> u == |order| - 1)
      invariant t == |order| ==> buffer.buffer[buffer.numOfSplit..] == value
    {
      var i := order[t];
      assert i in order && i < buffer.numOfSplit;
      SplitsTile(buffer.chunkSize, buffer.keySize, buffer.valueSize, i);
      SplitsTile(buffer.chunkSize, buffer.keySize, buffer.valueSize, 0);
      OffsetIsProduct(i, buffer.splitSize);
      var splitOffset := GetValueOffsetAtSplit(buffer.chunkSize, buffer.keySize, buffer.valueSize, i);
      var data := value[splitOffset..splitOffset + SplitLength(buffer.splitSize, buffer.valueSize, splitOffset)];
      var completed, requests := buffer.HandleSplit(splitOffset, data, i);
      NewArrival(order, t);
      CompletedAtLast(order, buffer.numOfSplit, t + 1);
      reports := reports + [completed];
      t := t + 1;
    }
  }

  lemma NoArrival(order: seq<nat>)
    ensures ArrivedAfter(order, 0) == {}
  {
  }
}
