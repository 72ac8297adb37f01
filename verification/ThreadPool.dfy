/** spdlog's thread pool and its blocking queue, as steps between which the queue's mutex is free:
    producers post, workers take messages, and the destructor posts one terminate message per worker
    and joins them. Every interleaving of the steps is a run. */
module ThreadPool {
  import opened CircularQueue
  import opened Joining
  import opened Options

  /** Log and flush messages alike, or the message that ends a worker. */
  datatype Msg = Log(id: nat) | Terminate

  /** A worker is about to look at the queue, waits on `push_cv_`, has taken a message and is about to
      notify `pop_cv_`, or has left its loop. */
  datatype Worker = Ready | Sleeping | Notify(msg: Msg) | Stopped

  /** The destructor: not called, about to post with `owed` messages to go, waiting on `pop_cv_`,
      about to notify `push_cv_`, or joining. */
  datatype Closer = Open | Posting(owed: nat) | Asleep(owed: nat) | Signaling(owed: nat) | Joining

  /** Messages leave the queue taken by a worker or overwritten by a later message. */
  datatype Gone = Taken(msg: Msg) | Dropped(msg: Msg)

  /** `signals` producers have pushed and are about to notify `push_cv_`. `posted` and `gone` are
      histories. */
  datatype State = State(
    capacity: nat,
    queue: seq<Msg>,
    workers: seq<Worker>,
    closer: Closer,
    signals: nat,
    posted: seq<Msg>,
    gone: seq<Gone>)

  datatype Step =
    | Post(id: nat, block: bool)
    | Signal(wake: Option<nat>)
    | Take(w: nat)
    | Sleep(w: nat)
    | Tell(w: nat)
    | Close
    | ClosePush
    | CloseSleep
    | CloseSignal(wake: Option<nat>)
    | TimeOut(w: nat)
    | Spurious

  // Steps

  predicate Is(s: State, w: nat, worker: Worker) {
    w < |s.workers| && s.workers[w] == worker
  }

  /** Appending under the lock; a full queue loses its oldest message. */
  function Enqueue(s: State, msg: Msg): State {
    s.(queue := Push(s.queue, s.capacity, msg),
       posted := s.posted + [msg],
       gone := if |s.queue| < s.capacity then s.gone else s.gone + [Dropped((s.queue + [msg])[0])])
  }

  /** `notify_one` on `push_cv_`: one waiting worker wakes up, if there is one. */
  function WakeOne(s: State, wake: Option<nat>): Option<State> {
    match wake
    case Some(w) => if Is(s, w, Sleeping) then Some(s.(workers := s.workers[w := Ready])) else None
    case None => if Sleeping in s.workers then None else Some(s)
  }

  /** The state after a step, or nothing where it cannot be taken. */
  function Next(s: State, step: Step): Option<State> {
    match step
    case Post(id, block) =>
      if s.closer.Open? && (block ==> |s.queue| < s.capacity) then
        Some(Enqueue(s, Log(id)).(signals := s.signals + 1))
      else None
    case Signal(wake) => if s.signals == 0 then None else WakeOne(s.(signals := s.signals - 1), wake)
    case Take(w) =>
      if Is(s, w, Ready) && s.queue != [] then
        Some(s.(queue := s.queue[1..], gone := s.gone + [Taken(s.queue[0])],
                workers := s.workers[w := Notify(s.queue[0])]))
      else None
    case Sleep(w) => if Is(s, w, Ready) && s.queue == [] then Some(s.(workers := s.workers[w := Sleeping])) else None
    case Tell(w) =>
      if w < |s.workers| && s.workers[w].Notify? then
        Some(s.(workers := s.workers[w := if s.workers[w].msg == Terminate then Stopped else Ready],
                closer := if s.closer.Asleep? then Posting(s.closer.owed) else s.closer))
      else None
    case Close => if s.closer.Open? then Some(s.(closer := After(|s.workers|))) else None
    case ClosePush =>
      if s.closer.Posting? && s.closer.owed > 0 && |s.queue| < s.capacity then
        Some(Enqueue(s, Terminate).(closer := Signaling(s.closer.owed - 1)))
      else None
    case CloseSleep =>
      if s.closer.Posting? && |s.queue| >= s.capacity then Some(s.(closer := Asleep(s.closer.owed))) else None
    case CloseSignal(wake) =>
      if s.closer.Signaling? then WakeOne(s.(closer := After(s.closer.owed)), wake) else None
    case TimeOut(w) => if Is(s, w, Sleeping) then Some(s.(workers := s.workers[w := Ready])) else None
    case Spurious => if s.closer.Asleep? then Some(s.(closer := Posting(s.closer.owed))) else None
  }

  function After(owed: nat): Closer {
    if owed == 0 then Joining else Posting(owed)
  }

  // Sums over the workers

  function Sum(workers: seq<Worker>, f: Worker -> nat): nat {
    if workers == [] then 0 else f(workers[0]) + Sum(workers[1..], f)
  }

  lemma {:induction false} SumUpdate(workers: seq<Worker>, f: Worker -> nat, w: nat, worker: Worker)
    requires w < |workers|
    ensures Sum(workers[w := worker], f) + f(workers[w]) == Sum(workers, f) + f(worker)
  {
    if w > 0 {
      SumUpdate(workers[1..], f, w - 1, worker);
      assert workers[w := worker][1..] == workers[1..][w - 1 := worker];
    } else {
      assert workers[0 := worker][1..] == workers[1..];
    }
  }

  lemma {:induction false} SumPositive(workers: seq<Worker>, f: Worker -> nat, w: nat)
    requires w < |workers|
    ensures Sum(workers, f) >= f(workers[w])
  {
    if w == 0 {
    } else {
      SumPositive(workers[1..], f, w - 1);
    }
  }

  lemma {:induction false} SumZero(workers: seq<Worker>, f: Worker -> nat)
    requires forall w :: 0 <= w < |workers| ==> f(workers[w]) == 0
    ensures Sum(workers, f) == 0
  {
    if workers == [] {
    } else {
      SumZero(workers[1..], f);
    }
  }

  /** Workers that will take another terminate message. */
  function IsActive(w: Worker): nat {
    if w == Stopped || w == Notify(Terminate) then 0 else 1
  }

  function IsReady(w: Worker): nat {
    if w.Ready? then 1 else 0
  }

  function IsNotifying(w: Worker): nat {
    if w.Notify? then 1 else 0
  }

  function Terminates(queue: seq<Msg>): nat {
    if queue == [] then 0 else (if queue[0].Terminate? then 1 else 0) + Terminates(queue[1..])
  }

  lemma {:induction false} TerminatesAppend(queue: seq<Msg>, msg: Msg)
    ensures Terminates(queue + [msg]) == Terminates(queue) + if msg.Terminate? then 1 else 0
  {
    if queue != [] {
      TerminatesAppend(queue[1..], msg);
      assert (queue + [msg])[1..] == queue[1..] + [msg];
    } else {
      assert (queue + [msg])[1..] == [];
    }
  }

  // What every step keeps

  /** Terminate messages still to be posted. */
  function Owed(s: State): nat {
    match s.closer
    case Open => |s.workers|
    case Joining => 0
    case _ => s.closer.owed
  }

  function Messages(gone: seq<Gone>): seq<Msg> {
    seq(|gone|, i requires 0 <= i < |gone| => gone[i].msg)
  }

  /** Each worker that goes on has a terminate message in the queue or still to be posted. */
  predicate Accounted(s: State) {
    Sum(s.workers, IsActive) == Terminates(s.queue) + Owed(s)
  }

  /** No wake-up gets lost: a waiting worker means that others will see to the queue, a waiting
      destructor that the queue is full or a worker is about to tell it otherwise. */
  predicate Awake(s: State) {
    && (Sleeping in s.workers ==>
          |s.queue| <= Sum(s.workers, IsReady) + s.signals + if s.closer.Signaling? then 1 else 0)
    && (s.closer.Asleep? ==> |s.queue| == s.capacity || Sum(s.workers, IsNotifying) > 0)
  }

  /** Messages leave the queue in the order in which they were posted; terminate messages come last
      and are not overwritten. */
  predicate Ordered(s: State) {
    InOrder(s) && TerminatesLast(s)
  }

  predicate InOrder(s: State) {
    && |s.queue| <= s.capacity
    && Messages(s.gone) + s.queue == s.posted
    && (forall g :: g in s.gone && g.Dropped? ==> g.msg.Log?)
  }

  predicate TerminatesLast(s: State) {
    && (forall i, j :: 0 <= i < j < |s.posted| && s.posted[i].Terminate? ==> s.posted[j].Terminate?)
    && (s.closer.Open? ==> Terminate !in s.posted)
    && (Owed(s) < |s.workers| ==> s.posted != [] && s.posted[|s.posted| - 1].Terminate?)
  }

  predicate Inv(s: State) {
    Accounted(s) && Awake(s) && Ordered(s) && (s.closer.Posting? || s.closer.Asleep? ==> s.closer.owed > 0)
  }

  /** A new pool: every worker is about to look at the empty queue. */
  function Start(capacity: nat, threads: nat): State {
    State(capacity, [], seq(threads, _ => Ready), Open, 0, [], [])
  }

  lemma {:induction false} AllActive(n: nat)
    ensures Sum(seq(n, _ => Ready), IsActive) == n
  {
    if n == 0 {
    } else {
      AllActive(n - 1);
      assert seq(n, _ => Ready)[1..] == seq(n - 1, _ => Ready);
    }
  }

  lemma StartInv(capacity: nat, threads: nat)
    ensures Inv(Start(capacity, threads))
  {
    AllActive(threads);
  }

  /** The worker whose place a step changes. */
  function Moved(step: Step): Option<nat> {
    match step
    case Signal(wake) => wake
    case CloseSignal(wake) => wake
    case Take(w) => Some(w)
    case Sleep(w) => Some(w)
    case Tell(w) => Some(w)
    case TimeOut(w) => Some(w)
    case _ => None
  }

  lemma SumAfter(s: State, step: Step, f: Worker -> nat)
    requires Next(s, step).Some?
    ensures var s' := Next(s, step).value;
            match Moved(step)
            case None => s'.workers == s.workers
            case Some(w) => w < |s.workers| == |s'.workers| && s'.workers == s.workers[w := s'.workers[w]] &&
                            Sum(s'.workers, f) + f(s.workers[w]) == Sum(s.workers, f) + f(s'.workers[w])
  {
    var s' := Next(s, step).value;
    match Moved(step) {
      case None =>
      case Some(w) => SumUpdate(s.workers, f, w, s'.workers[w]);
    }
  }

  lemma NoTerminates(queue: seq<Msg>)
    requires Terminate !in queue
    ensures Terminates(queue) == 0
  {
    if queue == [] {
    } else {
      NoTerminates(queue[1..]);
    }
  }

  lemma AccountedPost(s: State, id: nat, block: bool)
    requires Inv(s) && Next(s, Post(id, block)).Some?
    ensures Accounted(Next(s, Post(id, block)).value)
  {
    OldestIsLog(s);
    hide Awake, Ordered, Sum;
    NoTerminates(s.queue);
    NoTerminates(Push(s.queue, s.capacity, Log(id)));
  }

  lemma AccountedTake(s: State, w: nat)
    requires Accounted(s) && Next(s, Take(w)).Some?
    ensures Accounted(Next(s, Take(w)).value)
  {
    SumAfter(s, Take(w), IsActive);
    hide Sum;
  }

  lemma AccountedClosePush(s: State)
    requires Accounted(s) && Next(s, ClosePush).Some?
    ensures Accounted(Next(s, ClosePush).value)
  {
    hide Sum, Terminates;
    TerminatesAppend(s.queue, Terminate);
  }

  lemma AccountedOther(s: State, step: Step)
    requires Accounted(s) && Next(s, step).Some? && !step.Post? && !step.Take? && !step.ClosePush?
    ensures Accounted(Next(s, step).value)
  {
    SumAfter(s, step, IsActive);
    hide Sum, Terminates;
  }

  lemma KeepsAccounted(s: State, step: Step)
    requires Inv(s) && Next(s, step).Some?
    ensures Accounted(Next(s, step).value)
  {
    hide Accounted, Next;
    match step {
      case Post(id, block) => AccountedPost(s, id, block);
      case Take(w) => AccountedTake(s, w);
      case ClosePush => AccountedClosePush(s);
      case _ => AccountedOther(s, step);
    }
  }

  lemma KeepsAwake(s: State, step: Step)
    requires Inv(s) && Next(s, step).Some?
    ensures Awake(Next(s, step).value)
  {
    var s' := Next(s, step).value;
    SumAfter(s, step, IsReady);
    SumAfter(s, step, IsNotifying);
    hide Accounted, Ordered;
    match step {
      case Take(w) => SumPositive(s'.workers, IsNotifying, w);
      case _ =>
    }
  }

  lemma MessagesMore(gone: seq<Gone>, g: Gone)
    ensures Messages(gone + [g]) == Messages(gone) + [g.msg]
  {
  }

  lemma EnqueueInOrder(s: State, msg: Msg)
    requires InOrder(s) && (|s.queue| == s.capacity ==> (s.queue + [msg])[0].Log?)
    ensures InOrder(Enqueue(s, msg))
  {
    var more := s.queue + [msg];
    assert (Messages(s.gone) + s.queue) + [msg] == Messages(s.gone) + more;
    if |s.queue| == s.capacity {
      MessagesMore(s.gone, Dropped(more[0]));
      assert Messages(s.gone) + more == (Messages(s.gone) + [more[0]]) + more[1..];
    }
  }

  lemma TakeInOrder(s: State, w: nat)
    requires InOrder(s) && Next(s, Take(w)).Some?
    ensures InOrder(Next(s, Take(w)).value)
  {
    MessagesMore(s.gone, Taken(s.queue[0]));
    assert Messages(s.gone) + s.queue == (Messages(s.gone) + [s.queue[0]]) + s.queue[1..];
  }

  lemma OldestIsLog(s: State)
    requires Inv(s) && s.closer.Open?
    ensures Terminate !in s.queue
  {
    assert forall m :: m in s.queue ==> m in Messages(s.gone) + s.queue;
  }

  lemma KeepsInOrder(s: State, step: Step)
    requires Inv(s) && Next(s, step).Some?
    ensures InOrder(Next(s, step).value)
  {
    match step {
      case Post(id, _) =>
        OldestIsLog(s);
        assert s.queue != [] ==> s.queue[0] in s.queue;
        hide Accounted, Awake, TerminatesLast, InOrder;
        EnqueueInOrder(s, Log(id));
        SameOrder(Enqueue(s, Log(id)), Next(s, step).value);
      case Take(w) =>
        hide Accounted, Awake, TerminatesLast, InOrder;
        TakeInOrder(s, w);
      case ClosePush =>
        assert |s.queue| < s.capacity;
        hide Accounted, Awake, TerminatesLast, InOrder;
        EnqueueInOrder(s, Terminate);
        SameOrder(Enqueue(s, Terminate), Next(s, step).value);
      case _ =>
        hide Accounted, Awake, TerminatesLast, InOrder;
        SameOrder(s, Next(s, step).value);
    }
  }

  lemma SameOrder(s: State, s': State)
    requires InOrder(s) && s'.queue == s.queue && s'.gone == s.gone && s'.posted == s.posted
    requires s'.capacity == s.capacity
    ensures InOrder(s')
  {
  }

  lemma PostTerminatesLast(s: State, step: Step)
    requires Inv(s) && Next(s, step).Some? && (step.Post? || step.ClosePush?)
    ensures TerminatesLast(Next(s, step).value)
  {
    var msg := if step.Post? then Log(step.id) else Terminate;
    var s', n := Next(s, step).value, |s.posted|;
    assert s'.posted == s.posted + [msg] && |s'.workers| == |s.workers|;
    hide Accounted, Awake, InOrder, Push, Next, Enqueue;
    assert step.Post? ==> s.closer.Open? && s'.closer.Open?;
    assert step.Post? ==> forall i :: 0 <= i < n ==> s.posted[i] in s.posted;
    forall i, j | 0 <= i < j < |s'.posted| && s'.posted[i].Terminate?
      ensures s'.posted[j].Terminate?
    {
      if j < n {
        assert s.posted[i].Terminate?;
      }
    }
  }

  lemma KeepsTerminatesLast(s: State, step: Step)
    requires Inv(s) && Next(s, step).Some?
    ensures TerminatesLast(Next(s, step).value)
  {
    if step.Post? || step.ClosePush? {
      PostTerminatesLast(s, step);
    } else {
      var s' := Next(s, step).value;
      assert s'.posted == s.posted && |s'.workers| == |s.workers|;
      assert Owed(s') == Owed(s) && (s'.closer.Open? ==> s.closer.Open?);
      hide Accounted, Awake, InOrder, Next, Owed;
    }
  }

  /** Every step keeps the invariant. */
  lemma StepInv(s: State, step: Step)
    requires Inv(s) && Next(s, step).Some?
    ensures Inv(Next(s, step).value)
  {
    KeepsAccounted(s, step);
    KeepsAwake(s, step);
    KeepsInOrder(s, step);
    KeepsTerminatesLast(s, step);
    hide Accounted, Awake, InOrder, TerminatesLast;
  }

  // Shutting down

  /** Steps that happen by themselves: not the end of a ten-second wait, not a spurious wake-up. */
  predicate Own(step: Step) {
    !step.TimeOut? && !step.Spurious?
  }

  /** The destructor returns. */
  predicate Done(s: State) {
    s.closer.Joining? && forall w :: 0 <= w < |s.workers| ==> s.workers[w].Stopped?
  }

  /** Without waiting for a time-out, some thread can always go on until all is done, provided that
      the queue has room for a message. */
  lemma NeverStuck(s: State) returns (step: Step)
    requires Inv(s) && !s.closer.Open? && s.capacity > 0 && !Done(s)
    ensures Own(step) && Next(s, step).Some?
  {
    if w :| 0 <= w < |s.workers| && s.workers[w].Ready? {
      return if s.queue == [] then Sleep(w) else Take(w);
    }
    if w :| 0 <= w < |s.workers| && s.workers[w].Notify? {
      return Tell(w);
    }
    var wake: Option<nat> := None;
    if w :| 0 <= w < |s.workers| && s.workers[w].Sleeping? {
      wake := Some(w);
    }
    if s.signals > 0 {
      return Signal(wake);
    }
    match s.closer {
      case Signaling(_) => return CloseSignal(wake);
      case Posting(_) => return if |s.queue| < s.capacity then ClosePush else CloseSleep;
      case _ => NothingLeft(s);
    }
  }

  /** All workers wait or have stopped, and so does the destructor: then nothing is left to do. */
  lemma NothingLeft(s: State)
    requires Inv(s) && s.capacity > 0 && s.signals == 0 && (s.closer.Asleep? || s.closer.Joining?)
    requires forall w :: 0 <= w < |s.workers| ==> s.workers[w].Sleeping? || s.workers[w].Stopped?
    ensures Done(s)
  {
    SumZero(s.workers, IsReady);
    SumZero(s.workers, IsNotifying);
    if w :| 0 <= w < |s.workers| && s.workers[w].Sleeping? {
      SumPositive(s.workers, IsActive, w);
      assert s.workers[w] in s.workers;
      assert s.queue == [];
      assert Terminates(s.queue) == 0;
    } else {
      SumZero(s.workers, IsActive);
    }
  }

  function Weight(w: Worker): nat {
    if w.Notify? then 3 else if w.Ready? then 1 else 0
  }

  function CloserWeight(c: Closer): nat {
    if c.Posting? then 1 else if c.Signaling? then 3 else 0
  }

  function Measure(s: State): nat {
    6 * Owed(s) + 3 * |s.queue| + 3 * s.signals + Sum(s.workers, Weight) + CloserWeight(s.closer)
  }

  lemma StepDecreases(s: State, step: Step)
    requires !s.closer.Open? && Own(step) && Next(s, step).Some?
    ensures Measure(Next(s, step).value) < Measure(s) && !Next(s, step).value.closer.Open?
  {
    SumAfter(s, step, Weight);
    hide Sum;
  }

  lemma EndsWithTerminate(queue: seq<Msg>)
    ensures queue != [] && queue[|queue| - 1].Terminate? ==> Terminates(queue) > 0
  {
    if queue != [] {
      var n := |queue| - 1;
      TerminatesAppend(queue[..n], queue[n]);
      assert queue == queue[..n] + [queue[n]];
    }
  }

  lemma LastPosted(s: State)
    requires InOrder(s)
    ensures s.queue != [] ==> s.posted != [] && s.queue[|s.queue| - 1] == s.posted[|s.posted| - 1]
  {
  }

  /** When the destructor returns, the queue is empty, and the messages that have left it are exactly
      those posted, in order; only log messages have been overwritten. */
  lemma DoneDelivers(s: State)
    requires Inv(s) && Done(s) && |s.workers| > 0
    ensures s.queue == [] && Messages(s.gone) == s.posted
    ensures forall i :: 0 <= i < |s.posted| ==>
              s.gone[i].msg == s.posted[i] && (s.gone[i].Dropped? ==> s.posted[i].Log?)
    ensures forall i, j :: 0 <= i < j < |s.gone| && s.gone[i].msg.Terminate? ==> s.gone[j].msg.Terminate?
  {
    SumZero(s.workers, IsActive);
    assert Terminates(s.queue) == 0;
    EndsWithTerminate(s.queue);
    LastPosted(s);
    assert forall i :: 0 <= i < |s.posted| ==> s.gone[i] in s.gone;
  }

  // Whole runs

  function Run(s: State, steps: seq<Step>): Option<State>
    decreases |steps|
  {
    if steps == [] then Some(s)
    else
      var s' := Next(s, steps[0]);
      if s'.None? then None else Run(s'.value, steps[1..])
  }

  lemma {:induction false} RunInv(s: State, steps: seq<Step>)
    requires Inv(s) && Run(s, steps).Some?
    ensures Inv(Run(s, steps).value)
    ensures Run(s, steps).value.capacity == s.capacity && |Run(s, steps).value.workers| == |s.workers|
    decreases |steps|
  {
    if steps == [] {
    } else {
      StepInv(s, steps[0]);
      SumAfter(s, steps[0], IsReady);
      RunInv(Next(s, steps[0]).value, steps[1..]);
    }
  }

  /** The log messages among them. */
  function LogIds(msgs: seq<Msg>): seq<nat> {
    if msgs == [] then []
    else
      var last := msgs[|msgs| - 1];
      LogIds(msgs[..|msgs| - 1]) + if last.Log? then [last.id] else []
  }

  /** What producers post in a run. */
  function PostIds(steps: seq<Step>): seq<nat> {
    if steps == [] then [] else (if steps[0].Post? then [steps[0].id] else []) + PostIds(steps[1..])
  }

  lemma LogIdsMore(msgs: seq<Msg>, msg: Msg)
    ensures LogIds(msgs + [msg]) == LogIds(msgs) + if msg.Log? then [msg.id] else []
  {
    assert (msgs + [msg])[..|msgs|] == msgs;
  }

  lemma StepPosts(s: State, step: Step)
    requires Next(s, step).Some?
    ensures LogIds(Next(s, step).value.posted) == LogIds(s.posted) + if step.Post? then [step.id] else []
  {
    hide LogIds, Push;
    if step.Post? {
      LogIdsMore(s.posted, Log(step.id));
    } else if step.ClosePush? {
      LogIdsMore(s.posted, Terminate);
    }
  }

  /** Nothing is posted but what producers post, in their order, and terminate messages. */
  lemma {:induction false} RunPosts(s: State, steps: seq<Step>)
    requires Run(s, steps).Some?
    ensures LogIds(Run(s, steps).value.posted) == LogIds(s.posted) + PostIds(steps)
    decreases |steps|
  {
    hide Next, LogIds;
    if steps == [] {
    } else {
      var step, rest := steps[0], steps[1..];
      StepPosts(s, step);
      RunPosts(Next(s, step).value, rest);
      Joined(LogIds(s.posted), if step.Post? then [step.id] else [], PostIds(rest));
    }
  }

  /** Messages are overwritten only by posts that do not block, and only in a full queue. */
  lemma StepLoses(s: State, step: Step)
    requires Next(s, step).Some?
    ensures var s' := Next(s, step).value;
            if step.Post? && |s.queue| == s.capacity then
              !step.block && s'.gone == s.gone + [Dropped((s.queue + [Log(step.id)])[0])]
            else if step.Take? then s'.gone == s.gone + [Taken(s.queue[0])]
            else |s.queue| <= s.capacity ==> s'.gone == s.gone
  {
  }

  lemma {:induction false} RunLosesNothing(s: State, steps: seq<Step>)
    requires Inv(s) && Run(s, steps).Some?
    requires forall step :: step in steps && step.Post? ==> step.block
    requires forall g :: g in s.gone ==> g.Taken?
    ensures forall g :: g in Run(s, steps).value.gone ==> g.Taken?
    decreases |steps|
  {
    if steps == [] {
    } else {
      assert steps[0] in steps;
      StepInv(s, steps[0]);
      StepLoses(s, steps[0]);
      hide Next, Inv;
      RunLosesNothing(Next(s, steps[0]).value, steps[1..]);
    }
  }

  /** The number of time-outs and spurious wake-ups. */
  function Strays(steps: seq<Step>): nat {
    if steps == [] then 0 else Strays(steps[1..]) + if Own(steps[0]) then 0 else 1
  }

  /** A time-out or a spurious wake-up gives the threads one more step to do, at most. */
  lemma StepStrays(s: State, step: Step)
    requires !s.closer.Open? && Next(s, step).Some?
    ensures Measure(Next(s, step).value) + 1 <= Measure(s) + (if Own(step) then 0 else 2)
    ensures !Next(s, step).value.closer.Open?
  {
    if Own(step) {
      StepDecreases(s, step);
    } else {
      SumAfter(s, step, Weight);
      hide Sum;
    }
  }

  /** Once the destructor has started, only so many steps are possible, but for time-outs and spurious
      wake-ups, each of which costs two. */
  lemma {:induction false} RunsEnd(s: State, steps: seq<Step>)
    requires !s.closer.Open? && Run(s, steps).Some?
    ensures |steps| + Measure(Run(s, steps).value) <= Measure(s) + 2 * Strays(steps)
    ensures !Run(s, steps).value.closer.Open?
    decreases |steps|
  {
    if steps == [] {
    } else {
      StepStrays(s, steps[0]);
      RunsEnd(Next(s, steps[0]).value, steps[1..]);
    }
  }

  /** From a new pool, through any posts, to a state from which no thread can go on by itself: the
      destructor returns, and every message posted has been delivered or overwritten, in order. */
  lemma ShutdownCompletes(capacity: nat, threads: nat, steps: seq<Step>)
    requires capacity > 0 && threads > 0 && Run(Start(capacity, threads), steps).Some?
    requires var s := Run(Start(capacity, threads), steps).value;
             !s.closer.Open? && forall step :: Own(step) ==> Next(s, step).None?
    ensures var s := Run(Start(capacity, threads), steps).value;
            Done(s) && s.queue == [] && Messages(s.gone) == s.posted && LogIds(s.posted) == PostIds(steps)
  {
    var start := Start(capacity, threads);
    var s := Run(start, steps).value;
    StartInv(capacity, threads);
    RunInv(start, steps);
    RunPosts(start, steps);
    hide Inv, Run;
    if Done(s) {
      DoneDelivers(s);
    } else {
      var step := NeverStuck(s);
    }
  }

  // Where it goes wrong

  /** A queue without room is always full: the destructor cannot post, whatever else happens. */
  lemma {:induction false} NoRoomNoEnd(s: State, steps: seq<Step>)
    requires s.capacity == 0 && (s.closer.Posting? || s.closer.Asleep?) && Run(s, steps).Some?
    ensures !Done(Run(s, steps).value)
    decreases |steps|
  {
    if steps == [] {
    } else {
      NoRoomNoEnd(Next(s, steps[0]).value, steps[1..]);
    }
  }

  /** If somebody still posts without blocking while the destructor runs, a terminate message can be
      overwritten: then more workers go on than will be told to end. */
  lemma OverwritingLosesWorker(s: State, id: nat)
    requires Inv(s) && !s.closer.Open? && 0 < |s.queue| == s.capacity && s.queue[0].Terminate?
    ensures var s' := Enqueue(s, Log(id));
            Sum(s'.workers, IsActive) == Terminates(s'.queue) + Owed(s') + 1
  {
    hide Awake, Ordered, Sum;
    TerminatesAppend(s.queue, Log(id));
    assert (s.queue + [Log(id)])[1..] == s.queue[1..] + [Log(id)];
  }
}
