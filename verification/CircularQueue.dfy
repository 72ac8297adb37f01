/** spdlog's circular queue: when it is full, a push drops the oldest item. */
module CircularQueue {
  import opened Words

  /** Pushing onto a queue that holds up to `capacity` items. */
  function Push<T>(q: seq<T>, capacity: nat, item: T): seq<T> {
    var more := q + [item];
    if |more| > capacity then more[1..] else more
  }

  function PushAll<T>(q: seq<T>, capacity: nat, items: seq<T>): seq<T> {
    if items == [] then q
    else Push(PushAll(q, capacity, items[..|items| - 1]), capacity, items[|items| - 1])
  }

  function Last<T>(s: seq<T>, n: nat): seq<T> {
    if |s| > n then s[|s| - n..] else s
  }

  /** However many items are pushed, the queue keeps the last ones in order. */
  lemma {:induction false} KeepsTheLast<T>(q: seq<T>, capacity: nat, items: seq<T>)
    requires |q| <= capacity
    ensures PushAll(q, capacity, items) == Last(q + items, capacity)
  {
    if items == [] {
      assert q + items == q;
    } else {
      var n := |items| - 1;
      KeepsTheLast(q, capacity, items[..n]);
      assert q + items == (q + items[..n]) + [items[n]];
    }
  }

  /** The position `i` steps after `head` on a ring of `n`. */
  function Wrap(head: nat, i: nat, n: nat): nat
    requires n > 0
  {
    (head + i) % n
  }

  lemma WrapIs(head: nat, i: nat, n: nat)
    requires head < n && i <= n
    ensures Wrap(head, i, n) == if head + i < n then head + i else head + i - n
  {
    if head + i < n {
      DivUnique(head + i, n, 0, head + i);
    } else {
      DivUnique(head + i, n, 1, head + i - n);
    }
  }

  function Distance(head: nat, tail: nat, n: nat): nat
    requires head < n && tail < n
  {
    if tail >= head then tail - head else n - (head - tail)
  }

  /** The items from `head` up to `tail` on a ring. */
  function Ring<T>(v: seq<T>, head: nat, tail: nat): seq<T>
    requires head < |v| && tail < |v|
  {
    seq(Distance(head, tail, |v|), i requires 0 <= i < Distance(head, tail, |v|) => v[Wrap(head, i, |v|)])
  }

  lemma RingGrows<T>(v: seq<T>, head: nat, tail: nat, item: T)
    requires head < |v| && tail < |v| && Wrap(tail, 1, |v|) != head
    ensures Wrap(tail, 1, |v|) < |v|
    ensures Ring(v[tail := item], head, Wrap(tail, 1, |v|)) == Ring(v, head, tail) + [item]
    ensures |Ring(v, head, tail)| < |v| - 1
  {
    var n, tail' := |v|, Wrap(tail, 1, |v|);
    WrapIs(tail, 1, n);
    hide Wrap;
    forall i | 0 <= i < Distance(head, tail', n)
      ensures Ring(v[tail := item], head, tail')[i] == (Ring(v, head, tail) + [item])[i]
    {
      WrapIs(head, i, n);
    }
  }

  lemma RingOverruns<T>(v: seq<T>, head: nat, tail: nat, item: T)
    requires head < |v| && tail < |v| && Wrap(tail, 1, |v|) == head
    ensures Wrap(head, 1, |v|) < |v|
    ensures Ring(v[tail := item], Wrap(head, 1, |v|), head) == (Ring(v, head, tail) + [item])[1..]
    ensures |Ring(v, head, tail)| == |v| - 1
  {
    var n, head' := |v|, Wrap(head, 1, |v|);
    WrapIs(tail, 1, n);
    WrapIs(head, 1, n);
    hide Wrap;
    var more := Ring(v, head, tail) + [item];
    forall i | 0 <= i < Distance(head', head, n)
      ensures Ring(v[tail := item], head', head)[i] == more[1..][i]
    {
      WrapIs(head', i, n);
      WrapIs(head, i + 1, n);
    }
  }

  lemma RingPushes<T>(v: seq<T>, head: nat, tail: nat, item: T)
    requires head < |v| && tail < |v|
    ensures var tail' := Wrap(tail, 1, |v|);
            var head' := if tail' == head then Wrap(head, 1, |v|) else head;
            && tail' < |v| && head' < |v|
            && Ring(v[tail := item], head', tail') == Push(Ring(v, head, tail), |v| - 1, item)
            && (tail' == head <==> |Ring(v, head, tail)| == |v| - 1)
  {
    if Wrap(tail, 1, |v|) == head {
      RingOverruns(v, head, tail, item);
    } else {
      RingGrows(v, head, tail, item);
    }
    hide Ring, Wrap;
  }

  lemma PushLength<T>(q: seq<T>, capacity: nat, item: T)
    requires |q| <= capacity
    ensures |Push(q, capacity, item)| == if |q| == capacity then capacity else |q| + 1
  {
  }

  lemma RingPop<T>(v: seq<T>, head: nat, tail: nat)
    requires head < |v| && tail < |v| && head != tail
    ensures var head' := Wrap(head, 1, |v|);
            Ring(v, head, tail) == [v[head]] + Ring(v, head', tail)
  {
    var n, head' := |v|, Wrap(head, 1, |v|);
    WrapIs(head, 1, n);
    WrapIs(head, 0, n);
    hide Wrap;
    forall i | 0 <= i < Distance(head, tail, n)
      ensures Ring(v, head, tail)[i] == ([v[head]] + Ring(v, head', tail))[i]
    {
      WrapIs(head, i, n);
      if i > 0 {
        WrapIs(head', i - 1, n);
      }
    }
  }

  class CircularQueue<T(0)> {
    var maxItems: nat
    var head: nat
    var tail: nat
    var overrunCounter: nat
    var v: array<T>
    ghost var pushes: nat
    ghost var pops: nat

    /** How many items fit: one place stays free to tell a full queue from an empty one. */
    ghost function Capacity(): int
      reads this
    {
      maxItems - 1
    }

    /** A queue of which another has taken the items. */
    predicate Disabled()
      reads this
    {
      maxItems == 0 && head == 0 && tail == 0 && overrunCounter == 0
    }

    ghost predicate Valid()
      reads this, v
    {
      && pushes == pops + overrunCounter + |Contents()|
      && if maxItems == 0 then Disabled() else v.Length == maxItems && head < maxItems && tail < maxItems
    }

    ghost function Contents(): seq<T>
      reads this, v
    {
      if head < maxItems == v.Length && tail < maxItems then Ring(v[..], head, tail) else []
    }

    /** A disabled queue. */
    constructor Empty()
      ensures Valid() && Disabled() && Contents() == [] && fresh(v)
    {
      maxItems, head, tail, overrunCounter := 0, 0, 0, 0;
      pushes, pops := 0, 0;
      v := new T[0];
    }

    constructor (capacity: nat)
      ensures Valid() && Capacity() == capacity && Contents() == [] && fresh(v)
      ensures pushes == pops == overrunCounter == 0
    {
      maxItems, head, tail, overrunCounter := capacity + 1, 0, 0, 0;
      pushes, pops := 0, 0;
      v := new T[capacity + 1];
    }

    method PushBack(item: T)
      requires Valid()
      modifies this, v
      ensures Valid() && v == old(v) && maxItems == old(maxItems) && pops == old(pops)
      ensures maxItems == 0 ==> Disabled() && pushes == old(pushes)
      ensures maxItems > 0 ==>
                && Contents() == Push(old(Contents()), Capacity(), item)
                && pushes == old(pushes) + 1
                && overrunCounter == old(overrunCounter) + if |old(Contents())| == Capacity() then 1 else 0
    {
      if maxItems > 0 {
        ghost var was := v[..];
        RingPushes(was, head, tail, item);
        PushLength(Ring(was, head, tail), maxItems - 1, item);
        hide Ring, Push, Distance, Wrap;
        v[tail] := item;
        ghost var now := v[..];
        assert now == was[tail := item];
        tail := Wrap(tail, 1, maxItems);
        if tail == head {
          head := Wrap(head, 1, maxItems);
          overrunCounter := overrunCounter + 1;
        }
        pushes := pushes + 1;
      }
    }

    method Front() returns (item: T)
      requires Valid() && Contents() != []
      ensures item == Contents()[0]
    {
      RingPop(v[..], head, tail);
      item := v[head];
    }

    method Size() returns (n: nat)
      requires Valid()
      ensures n == |Contents()|
    {
      n := if tail >= head then tail - head else maxItems - (head - tail);
    }

    method At(i: nat) returns (item: T)
      requires Valid() && i < |Contents()|
      ensures item == Contents()[i]
    {
      WrapIs(head, i, maxItems);
      hide Wrap;
      item := v[Wrap(head, i, maxItems)];
    }

    method PopFront()
      requires Valid() && Contents() != []
      modifies this
      ensures Valid() && v == old(v) && maxItems == old(maxItems)
      ensures Contents() == old(Contents())[1..] && overrunCounter == old(overrunCounter)
      ensures pops == old(pops) + 1 && pushes == old(pushes)
    {
      RingPop(v[..], head, tail);
      WrapIs(head, 1, maxItems);
      hide Ring, Wrap;
      head := Wrap(head, 1, maxItems);
      pops := pops + 1;
    }

    method IsEmpty() returns (b: bool)
      requires Valid()
      ensures b <==> Contents() == []
    {
      b := tail == head;
    }

    method IsFull() returns (b: bool)
      requires Valid()
      ensures b <==> maxItems > 0 && |Contents()| == Capacity()
    {
      b := false;
      if maxItems > 0 {
        WrapIs(tail, 1, maxItems);
        hide Wrap;
        b := Wrap(tail, 1, maxItems) == head;
      }
    }

    /** Taking over another queue, which is left disabled. */
    method CopyMoveable(other: CircularQueue<T>)
      requires other.Valid() && other != this
      modifies this, other
      ensures Valid() && other.Valid() && other.Disabled() && other.Contents() == []
      ensures Contents() == old(other.Contents()) && maxItems == old(other.maxItems) && v == old(other.v)
      ensures overrunCounter == old(other.overrunCounter)
      ensures pushes == old(other.pushes) && pops == old(other.pops)
    {
      maxItems, head, tail := other.maxItems, other.head, other.tail;
      overrunCounter := other.overrunCounter;
      pushes, pops := other.pushes, other.pops;
      v := other.v;
      other.maxItems, other.head, other.tail, other.overrunCounter := 0, 0, 0, 0;
      other.pushes, other.pops := 0, 0;
    }
  }
}
