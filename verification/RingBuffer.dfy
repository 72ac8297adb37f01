/** Taskete's ring buffer, each call taken as one step: all places are used, and a flag says which
    cursor reached the other when both are at the same place. */
module RingBuffer {
  import opened CircularQueue
  import opened Options

  function Held(producer: nat, consumer: nat, allRead: bool, n: nat): nat
    requires producer < n && consumer < n
  {
    if producer == consumer then if allRead then 0 else n
    else if producer > consumer then producer - consumer else n - (consumer - producer)
  }

  /** The items after the consumer's place up to the producer's. */
  function Items<T>(v: seq<T>, producer: nat, consumer: nat, allRead: bool): seq<T>
    requires producer < |v| && consumer < |v|
  {
    var held := Held(producer, consumer, allRead, |v|);
    seq(held, i requires 0 <= i < held => v[Wrap(consumer, i + 1, |v|)])
  }

  lemma PushItem<T>(v: seq<T>, producer: nat, consumer: nat, allRead: bool, item: T)
    requires producer < |v| && consumer < |v| && !(producer == consumer && !allRead)
    ensures var next := Wrap(producer, 1, |v|);
            next < |v| && Items(v[next := item], next, consumer, allRead && next != consumer)
                          == Items(v, producer, consumer, allRead) + [item]
  {
    var n, next := |v|, Wrap(producer, 1, |v|);
    WrapIs(producer, 1, n);
    hide Wrap;
    var held := Held(next, consumer, allRead && next != consumer, n);
    forall i | 0 <= i < held
      ensures v[next := item][Wrap(consumer, i + 1, n)] == (Items(v, producer, consumer, allRead) + [item])[i]
    {
      WrapIs(consumer, i + 1, n);
    }
  }

  lemma PullItem<T>(v: seq<T>, producer: nat, consumer: nat, allRead: bool)
    requires producer < |v| && consumer < |v| && !(producer == consumer && allRead)
    ensures var next := Wrap(consumer, 1, |v|);
            next < |v| && Items(v, producer, consumer, allRead)
                          == [v[next]] + Items(v, producer, next, allRead || next == producer)
  {
    var n, next := |v|, Wrap(consumer, 1, |v|);
    WrapIs(consumer, 1, n);
    hide Wrap;
    forall i | 0 <= i < Held(producer, consumer, allRead, n)
      ensures Items(v, producer, consumer, allRead)[i]
              == ([v[next]] + Items(v, producer, next, allRead || next == producer))[i]
    {
      WrapIs(consumer, i + 1, n);
      if i > 0 {
        WrapIs(next, i, n);
      }
    }
  }

  class RingBuffer<T(0)> {
    const slots: array<T>
    var producer: nat
    var consumer: nat
    var allRead: bool

    ghost predicate Valid()
      reads this
    {
      producer < slots.Length && consumer < slots.Length
    }

    ghost function Contents(): seq<T>
      requires Valid()
      reads this, slots
    {
      Items(slots[..], producer, consumer, allRead)
    }

    constructor (size: nat)
      requires size > 0
      ensures Valid() && slots.Length == size && fresh(slots) && Contents() == []
    {
      slots := new T[size];
      producer, consumer, allRead := 0, 0, true;
    }

    /** Fails exactly when `size` items are held. */
    method TryPush(item: T) returns (ok: bool)
      requires Valid()
      modifies this, slots
      ensures Valid() && (ok <==> |old(Contents())| < slots.Length)
      ensures Contents() == if ok then old(Contents()) + [item] else old(Contents())
    {
      ok := false;
      if producer == consumer && !allRead {
        return;
      }
      ghost var was := slots[..];
      PushItem(was, producer, consumer, allRead, item);
      WrapIs(producer, 1, slots.Length);
      hide Items, Wrap;
      var next := producer + 1;
      if next == slots.Length {
        next := 0;
      }
      slots[next] := item;
      assert slots[..] == was[next := item];
      producer := next;
      if next == consumer {
        allRead := false;
      }
      ok := true;
    }

    /** Fails exactly when nothing is held. */
    method TryPull() returns (item: Option<T>)
      requires Valid()
      modifies this
      ensures Valid() && (item.None? <==> old(Contents()) == [])
      ensures item.None? ==> Contents() == old(Contents())
      ensures item.Some? ==> old(Contents()) == [item.value] + Contents()
    {
      item := None;
      if producer == consumer && allRead {
        return;
      }
      PullItem(slots[..], producer, consumer, allRead);
      WrapIs(consumer, 1, slots.Length);
      hide Items, Wrap;
      var next := consumer + 1;
      if next == slots.Length {
        next := 0;
      }
      item := Some(slots[next]);
      consumer := next;
      if next == producer {
        allRead := true;
      }
    }

    method IsEmpty() returns (b: bool)
      requires Valid()
      ensures b <==> Contents() == []
    {
      b := producer == consumer && allRead;
    }

    method Clear()
      requires Valid()
      modifies this
      ensures Valid() && Contents() == []
    {
      consumer := producer;
      allRead := true;
    }
  }
}
