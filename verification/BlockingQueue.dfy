/** spdlog's blocking queue inside its thread pool: the critical sections as methods on the circular
    queue, each of which is one step of the protocol. Which waiting thread a notification wakes is
    up to the scheduler, and comes in as a parameter. */
module BlockingQueue {
  import opened CircularQueue
  import opened Options
  import opened ThreadPool

  class Monitor {
    const q: CircularQueue<Msg>
    const capacity: nat
    var workers: seq<Worker>
    var closer: Closer
    var signals: nat
    ghost var posted: seq<Msg>
    ghost var gone: seq<Gone>

    ghost predicate Valid()
      reads this, q, q.v
    {
      q.Valid() && q.maxItems == capacity + 1
    }

    ghost function Abstract(): State
      reads this, q, q.v
    {
      State(capacity, q.Contents(), workers, closer, signals, posted, gone)
    }

    constructor (capacity: nat, threads: nat)
      ensures Valid() && Abstract() == Start(capacity, threads) && fresh(q) && fresh(q.v)
    {
      q := new CircularQueue<Msg>(capacity);
      this.capacity := capacity;
      workers, closer, signals := seq(threads, _ => Ready), Open, 0;
      posted, gone := [], [];
    }

    lemma Bounded()
      requires Valid()
      ensures |q.Contents()| <= capacity
    {
    }

    /** The message is the last one in the queue, and the oldest has been overwritten if it was full. */
    twostate predicate Pushed(msg: Msg)
      reads this, q, q.v
    {
      var all := old(q.Contents()) + [msg];
      && posted == old(posted) + [msg]
      && (if |all| <= capacity then q.Contents() == all && gone == old(gone)
          else q.Contents() == all[1..] && gone == old(gone) + [Dropped(all[0])])
    }

    /** The push under the lock, with the histories. */
    method PushBack(msg: Msg)
      requires Valid()
      modifies q, q.v, this`posted, this`gone
      ensures Valid() && q.v == old(q.v) && Abstract() == ThreadPool.Enqueue(old(Abstract()), msg)
      ensures Pushed(msg)
    {
      ghost var queue := q.Contents();
      posted := posted + [msg];
      if |queue| == capacity {
        gone := gone + [Dropped((queue + [msg])[0])];
      }
      q.PushBack(msg);
    }

    /** `enqueue_nowait`, up to its notification. */
    method EnqueueNowait(id: nat)
      requires Valid() && closer.Open?
      modifies this, q, q.v
      ensures Valid() && q.v == old(q.v) && Next(old(Abstract()), Post(id, false)) == Some(Abstract())
      ensures Pushed(Log(id)) && signals == old(signals) + 1 && workers == old(workers) && closer == old(closer)
    {
      hide Push, Ring, ThreadPool.Enqueue;
      PushBack(Log(id));
      signals := signals + 1;
    }

    /** `enqueue`, up to its notification; without room it goes on waiting. */
    method Enqueue(id: nat) returns (ok: bool)
      requires Valid() && closer.Open?
      modifies this, q, q.v
      ensures Valid() && q.v == old(q.v)
      ensures Next(old(Abstract()), Post(id, true)) == if ok then Some(Abstract()) else None
      ensures ok <==> |old(q.Contents())| < capacity
      ensures if ok then Pushed(Log(id)) && signals == old(signals) + 1 && workers == old(workers)
              else Abstract() == old(Abstract())
    {
      hide Push, Ring, ThreadPool.Enqueue;
      Bounded();
      var full := q.IsFull();
      ok := !full;
      if ok {
        PushBack(Log(id));
        signals := signals + 1;
      }
    }

    /** The notification of `push_cv_` by a producer. */
    method NotifyPush(wake: Option<nat>)
      requires Valid() && Next(Abstract(), Signal(wake)).Some?
      modifies this
      ensures Valid() && Next(old(Abstract()), Signal(wake)) == Some(Abstract())
      ensures signals == old(signals) - 1 && q.Contents() == old(q.Contents())
      ensures workers == if wake.Some? then old(workers)[wake.value := Ready] else old(workers)
      ensures if wake.Some? then old(workers)[wake.value] == Sleeping else Sleeping !in old(workers)
    {
      signals := signals - 1;
      WakeWorker(wake);
    }

    method WakeWorker(wake: Option<nat>)
      requires Valid() && WakeOne(Abstract(), wake).Some?
      modifies this`workers
      ensures Valid() && WakeOne(old(Abstract()), wake) == Some(Abstract())
      ensures workers == if wake.Some? then old(workers)[wake.value := Ready] else old(workers)
    {
      if wake.Some? {
        workers := workers[wake.value := Ready];
      }
    }

    /** `dequeue_for` by a worker that has the lock: it takes the oldest message or waits. */
    method DequeueFor(w: nat) returns (item: Option<Msg>)
      requires Valid() && w < |workers| && workers[w] == Ready
      modifies this, q
      ensures Valid() && q.v == old(q.v)
      ensures Next(old(Abstract()), if item.Some? then Take(w) else Sleep(w)) == Some(Abstract())
      ensures item.None? <==> old(q.Contents()) == []
      ensures item.Some? ==>
                && old(q.Contents()) == [item.value] + q.Contents() && gone == old(gone) + [Taken(item.value)]
                && workers == old(workers)[w := Notify(item.value)]
      ensures item.None? ==> q.Contents() == [] && gone == old(gone) && workers == old(workers)[w := Sleeping]
      ensures posted == old(posted) && signals == old(signals) && closer == old(closer)
    {
      var empty := q.IsEmpty();
      if empty {
        workers := workers[w := Sleeping];
        return None;
      }
      var front := q.Front();
      q.PopFront();
      gone := gone + [Taken(front)];
      workers := workers[w := Notify(front)];
      item := Some(front);
    }

    /** The rest of `process_next_msg_`: `pop_cv_` is notified, the message handled, and the loop of
        the worker goes on unless the message was to terminate. */
    method ProcessMsg(w: nat) returns (more: bool)
      requires Valid() && w < |workers| && workers[w].Notify?
      modifies this
      ensures Valid() && Next(old(Abstract()), Tell(w)) == Some(Abstract())
      ensures more <==> old(workers[w].msg).Log?
      ensures workers == old(workers)[w := if more then Ready else Stopped]
      ensures closer == if old(closer).Asleep? then Posting(old(closer).owed) else old(closer)
      ensures q.Contents() == old(q.Contents()) && signals == old(signals) && posted == old(posted) && gone == old(gone)
    {
      var msg := workers[w].msg;
      if closer.Asleep? {
        closer := Posting(closer.owed);
      }
      more := msg.Log?;
      workers := workers[w := if more then Ready else Stopped];
    }

    /** The destructor starts: one terminate message for each thread. */
    method CloseAll()
      requires Valid() && closer.Open?
      modifies this
      ensures Valid() && Next(old(Abstract()), Close) == Some(Abstract())
      ensures closer == (if |workers| == 0 then Joining else Posting(|workers|)) && workers == old(workers)
      ensures q.Contents() == old(q.Contents()) && signals == old(signals) && posted == old(posted) && gone == old(gone)
    {
      closer := After(|workers|);
    }

    /** One turn of its loop up to the notification, or the wait for room. */
    method PostTerminate() returns (ok: bool)
      requires Valid() && closer.Posting? && closer.owed > 0
      modifies this, q, q.v
      ensures Valid() && q.v == old(q.v)
      ensures Next(old(Abstract()), if ok then ClosePush else CloseSleep) == Some(Abstract())
      ensures ok <==> |old(q.Contents())| < capacity
      ensures ok ==> Pushed(Terminate) && closer == Signaling(old(closer).owed - 1)
      ensures !ok ==> closer == Asleep(old(closer).owed) && q.Contents() == old(q.Contents())
                      && posted == old(posted) && gone == old(gone)
      ensures workers == old(workers) && signals == old(signals)
    {
      hide Push, Ring, ThreadPool.Enqueue;
      Bounded();
      var full := q.IsFull();
      ok := !full;
      if full {
        closer := Asleep(closer.owed);
      } else {
        PushBack(Terminate);
        closer := Signaling(closer.owed - 1);
      }
    }

    /** Its notification of `push_cv_`. */
    method NotifyTerminate(wake: Option<nat>)
      requires Valid() && Next(Abstract(), CloseSignal(wake)).Some?
      modifies this
      ensures Valid() && Next(old(Abstract()), CloseSignal(wake)) == Some(Abstract())
      ensures closer == (if old(closer).owed == 0 then Joining else Posting(old(closer).owed))
      ensures workers == if wake.Some? then old(workers)[wake.value := Ready] else old(workers)
      ensures q.Contents() == old(q.Contents()) && signals == old(signals)
    {
      closer := After(closer.owed);
      WakeWorker(wake);
    }
  }
}
