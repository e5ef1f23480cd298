/** The worker units and the round-robin pool of threadpool.h, with the threads
    taken away: each `SingleThreadUnit` is its FIFO task queue, its `stop` flag
    and a log of the tasks its consumer has run; a step of the consumer thread
    is an explicit call. Tasks are opaque ids and a thread id is the index of
    its worker. */
module Threading {

  type TaskId = nat

  /** The state of one unit: its queue (head first), its stop flag, and the
      tasks its consumer has run so far, in the order it ran them. */
  datatype UnitState = UnitState(queue: seq<TaskId>, stop: bool, ran: seq<TaskId>)

  /** What `enqueue` does: queue the task, or throw `std::runtime_error`. */
  datatype Enqueued = Accepted | Rejected

  /** What one turn of the consumer loop does: run the head task, block in
      `condition.wait`, or return from the thread. */
  datatype Consumed = Ran(task: TaskId) | Waiting | Exited

  /** A unit as its constructor leaves it. */
  function Fresh(): UnitState
  {
    UnitState([], false, [])
  }

  /** `enqueue`: refused once `stop` is set, otherwise the task joins the tail. */
  function Accept(u: UnitState, t: TaskId): (UnitState, Enqueued)
  {
    if u.stop then (u, Rejected)
    else (u.(queue := u.queue + [t]), Accepted)
  }

  /** One turn of the consumer loop: it blocks while neither `stop` nor a task
      is there, returns once `stop` is set and the queue is empty, and
      otherwise pops the head and runs it. */
  function ConsumeStep(u: UnitState): (UnitState, Consumed)
  {
    if u.queue == [] then (u, if u.stop then Exited else Waiting)
    else (u.(queue := u.queue[1..], ran := u.ran + [u.queue[0]]), Ran(u.queue[0]))
  }

  /** The destructor's first step: set `stop`. */
  function StopUnit(u: UnitState): UnitState
  {
    u.(stop := true)
  }

  /** The consumer run until it blocks or returns. */
  function RunPending(u: UnitState): UnitState
    decreases |u.queue|
  {
    if u.queue == [] then u else RunPending(ConsumeStep(u).0)
  }

  /** The consumer blocks exactly when nothing is queued and `stop` is clear,
      returns exactly when nothing is queued and `stop` is set, and otherwise
      runs the head of the queue. */
  lemma ConsumerWaitsAndExits(u: UnitState)
    ensures ConsumeStep(u).1 == Waiting <==> !u.stop && u.queue == []
    ensures ConsumeStep(u).1 == Exited <==> u.stop && u.queue == []
    ensures ConsumeStep(u).1.Ran? <==> u.queue != []
    ensures u.queue != [] ==> ConsumeStep(u).1 == Ran(u.queue[0])
  {
  }

  /** Running the consumer until it stops runs every queued task, in queue
      order, leaves the queue empty and leaves it blocked or returned. */
  lemma {:induction false} RunPendingRunsAll(u: UnitState)
    ensures RunPending(u) == UnitState([], u.stop, u.ran + u.queue)
    ensures ConsumeStep(RunPending(u)).1 == if u.stop then Exited else Waiting
    decreases |u.queue|
  {
    if u.queue != [] {
      var v := ConsumeStep(u).0;
      assert v.ran + v.queue == u.ran + u.queue by {
        assert u.queue == [u.queue[0]] + u.queue[1..];
      }
      RunPendingRunsAll(v);
    }
  }

  /** Every task queued before shutdown runs before the thread returns. */
  lemma ShutdownRunsEverything(u: UnitState)
    ensures RunPending(StopUnit(u)).ran == u.ran + u.queue
    ensures RunPending(StopUnit(u)).queue == []
    ensures ConsumeStep(RunPending(StopUnit(u))).1 == Exited
  {
    RunPendingRunsAll(StopUnit(u));
  }

  // Everything that can happen to a unit, one operation at a time.

  datatype Op = Post(task: TaskId) | Step | Shut

  function Apply(u: UnitState, op: Op): UnitState
  {
    match op
    case Post(t) => Accept(u, t).0
    case Step => ConsumeStep(u).0
    case Shut => StopUnit(u)
  }

  /** The task an operation adds to the queue, if it adds one. */
  function Admitted(u: UnitState, op: Op): seq<TaskId>
  {
    if op.Post? && Accept(u, op.task).1 == Accepted then [op.task] else []
  }

  function Run(u: UnitState, ops: seq<Op>): UnitState
    decreases |ops|
  {
    if ops == [] then u else Run(Apply(u, ops[0]), ops[1..])
  }

  /** The tasks the operations get accepted into the queue, in order. */
  function AcceptedIn(u: UnitState, ops: seq<Op>): seq<TaskId>
    decreases |ops|
  {
    if ops == [] then [] else Admitted(u, ops[0]) + AcceptedIn(Apply(u, ops[0]), ops[1..])
  }

  /** No operation loses, duplicates or reorders a task: what has run followed
      by what is queued grows exactly by the task the operation admits. */
  lemma ApplyConserves(u: UnitState, op: Op)
    ensures Apply(u, op).ran + Apply(u, op).queue == u.ran + u.queue + Admitted(u, op)
  {
  }

  /** Over any sequence of operations, the tasks that have run followed by
      those still queued are the tasks that were there, then the accepted
      ones, in the order they were accepted. */
  lemma {:induction false} Conservation(u: UnitState, ops: seq<Op>)
    ensures Run(u, ops).ran + Run(u, ops).queue == u.ran + u.queue + AcceptedIn(u, ops)
    decreases |ops|
  {
    if ops != [] {
      var v := Apply(u, ops[0]);
      ApplyConserves(u, ops[0]);
      Conservation(v, ops[1..]);
      assert AcceptedIn(u, ops) == Admitted(u, ops[0]) + AcceptedIn(v, ops[1..]);
      assert u.ran + u.queue + Admitted(u, ops[0]) + AcceptedIn(v, ops[1..])
          == u.ran + u.queue + (Admitted(u, ops[0]) + AcceptedIn(v, ops[1..]));
    }
  }

  /** Starting from a fresh unit, tasks run in exactly the order they were accepted. */
  lemma RunsInOrder(ops: seq<Op>)
    ensures Run(Fresh(), ops).ran <= AcceptedIn(Fresh(), ops)
  {
    Conservation(Fresh(), ops);
    var v := Run(Fresh(), ops);
    assert v.ran + v.queue == AcceptedIn(Fresh(), ops);
    assert v.ran <= v.ran + v.queue;
  }

  /** `stop` is never cleared, and once it is set no task is accepted and the
      tasks that have run only grow. */
  lemma {:induction false} StopIsSticky(u: UnitState, ops: seq<Op>)
    requires u.stop
    ensures Run(u, ops).stop
    ensures AcceptedIn(u, ops) == []
    decreases |ops|
  {
    if ops != [] {
      StopIsSticky(Apply(u, ops[0]), ops[1..]);
    }
  }

  /** `SingleThreadUnit`: the queue `tasks`, the flag `stop`, the thread id
      `tid` and the record `ran` of what the consumer thread has run. */
  class SingleThreadUnit {
    var tasks: seq<TaskId>
    var stop: bool
    var tid: nat
    var ran: seq<TaskId>

    function State(): UnitState
      reads this
    {
      UnitState(tasks, stop, ran)
    }

    /** The constructor: an empty queue with `stop` clear. */
    constructor (id: nat)
      ensures State() == Fresh() && tid == id
    {
      tasks, stop, tid, ran := [], false, id, [];
    }

    /** `enqueue`: appends one task at the tail, or is refused once `stop` is set. */
    method Enqueue(t: TaskId) returns (res: Enqueued)
      modifies this`tasks
      ensures (State(), res) == Accept(old(State()), t)
      ensures res == Rejected <==> stop
      ensures tasks == if stop then old(tasks) else old(tasks) + [t]
    {
      if stop {
        return Rejected;
      }
      tasks := tasks + [t];
      return Accepted;
    }

    /** One turn of the consumer loop. */
    method RunOnce() returns (c: Consumed)
      modifies this`tasks, this`ran
      ensures (State(), c) == ConsumeStep(old(State()))
    {
      if tasks == [] {
        c := if stop then Exited else Waiting;
        return;
      }
      var task := tasks[0];
      tasks := tasks[1..];
      ran := ran + [task];
      c := Ran(task);
    }

    /** The consumer loop run until it blocks (`stop` clear) or returns (`stop` set). */
    method RunUntilIdle() returns (c: Consumed)
      modifies this`tasks, this`ran
      ensures State() == RunPending(old(State()))
      ensures tasks == [] && ran == old(ran) + old(tasks)
      ensures c == if stop then Exited else Waiting
    {
      c := Waiting;
      while true
        invariant stop == old(stop)
        invariant RunPending(State()) == RunPending(old(State()))
        decreases |tasks|
      {
        c := RunOnce();
        if !c.Ran? {
          break;
        }
      }
      RunPendingRunsAll(old(State()));
    }

    /** The destructor: set `stop`, then the thread runs what is left and returns. */
    method Destroy()
      modifies this`stop, this`tasks, this`ran
      ensures State() == RunPending(StopUnit(old(State())))
      ensures stop && tasks == [] && ran == old(ran) + old(tasks)
    {
      stop := true;
      var c := RunUntilIdle();
      assert c == Exited;
    }
  }

  // Round-robin dispatch.

  /** The worker a post serves when the wrap test comes before the use of the cursor. */
  function NextTarget(cursor: nat, size: nat): (t: nat)
    requires 0 < size && cursor <= size
    ensures t < size
  {
    if cursor == size then 0 else cursor
  }

  /** The cursor after `n` posts to a pool of `size` workers. */
  function CursorAfter(n: nat, size: nat): (c: nat)
    requires 0 < size
    ensures c <= size
  {
    if n == 0 then 0 else NextTarget(CursorAfter(n - 1, size), size) + 1
  }

  /** Multiplying by a positive size keeps a gap of at least one size. */
  lemma MulGap(a: nat, b: nat, size: nat)
    requires b < a && 0 < size
    ensures b * size + size <= a * size
    decreases a
  {
    if b + 1 < a {
      MulGap(a - 1, b, size);
      assert a * size == (a - 1) * size + size;
    } else {
      assert a * size == b * size + size;
    }
  }

  /** Euclidean division has one quotient and remainder. */
  lemma ModUnique(x: nat, size: nat, q: nat, r: nat)
    requires r < size && x == q * size + r
    ensures x % size == r
  {
    var q', r' := x / size, x % size;
    assert x == q' * size + r';
    if q' < q {
      MulGap(q, q', size);
      assert false;
    } else if q < q' {
      MulGap(q', q, size);
      assert false;
    }
  }

  /** Stepping by one steps the remainder by one, wrapping at `size`. */
  lemma ModSucc(m: nat, size: nat)
    requires 0 < size
    ensures (m + 1) % size == if m % size + 1 == size then 0 else m % size + 1
  {
    var q, r := m / size, m % size;
    assert m == q * size + r;
    if r + 1 == size {
      assert m + 1 == (q + 1) * size + 0;
      ModUnique(m + 1, size, q + 1, 0);
    } else {
      ModUnique(m + 1, size, q, r + 1);
    }
  }

  /** After `n > 0` posts the cursor is one past worker `(n - 1) % size`. */
  lemma {:induction false} CursorAfterValue(n: nat, size: nat)
    requires 0 < n && 0 < size
    ensures CursorAfter(n, size) == (n - 1) % size + 1
  {
    if n == 1 {
      ModUnique(0, size, 0, 0);
    } else {
      CursorAfterValue(n - 1, size);
      ModSucc(n - 2, size);
    }
  }

  /** The `n`-th post (counting from 0) goes to worker `n % size`. */
  lemma RoundRobin(n: nat, size: nat)
    requires 0 < size
    ensures NextTarget(CursorAfter(n, size), size) == n % size
  {
    if n == 0 {
      ModUnique(0, size, 0, 0);
    } else {
      CursorAfterValue(n, size);
      ModSucc(n - 1, size);
    }
  }

  /** How many of the first `n` posts go to worker `i`. */
  function Served(n: nat, size: nat, i: nat): nat
    requires 0 < size
  {
    if n == 0 then 0
    else Served(n - 1, size, i) + if NextTarget(CursorAfter(n - 1, size), size) == i then 1 else 0
  }

  /** Partway through round `k`, each worker has one task per finished round,
      plus one if the current round has reached it. */
  lemma {:induction false} ServedInRound(k: nat, j: nat, size: nat, i: nat)
    requires 0 < size && j <= size && i < size
    ensures Served(k * size + j, size, i) == k + if i < j then 1 else 0
    decreases k, j
  {
    if j == 0 {
      if k > 0 {
        assert k * size + j == (k - 1) * size + size;
        ServedInRound(k - 1, size, size, i);
      }
    } else {
      ServedInRound(k, j - 1, size, i);
      RoundRobin(k * size + j - 1, size);
      ModUnique(k * size + j - 1, size, k, j - 1);
    }
  }

  /** Fairness: `k * size` posts give every worker exactly `k` tasks. */
  lemma Fairness(k: nat, size: nat, i: nat)
    requires 0 < size && i < size
    ensures Served(k * size, size, i) == k
  {
    ServedInRound(k, 0, size, i);
  }

  /** `ThreadPool`: the workers and the cursor `current_round_`; `posted`
      counts the posts so far. */
  class ThreadPool {
    var workers: seq<SingleThreadUnit>
    var currentRound: nat
    ghost var posted: nat

    /** Worker `i` has thread id `i` (so distinct workers are distinct
        objects), no worker is stopped while the pool lives, and the cursor
        is where `posted` posts leave it. */
    ghost predicate Valid()
      reads this, workers
    {
      && (forall i :: 0 <= i < |workers| ==> workers[i].tid == i && !workers[i].stop)
      && currentRound <= |workers|
      && (0 < |workers| ==> currentRound == CursorAfter(posted, |workers|))
    }

    /** The constructor: `size` new workers, each with an empty queue. */
    constructor (size: nat)
      requires size < 0x1_0000
      ensures Valid() && |workers| == size && currentRound == 0 && posted == 0
      ensures forall i :: 0 <= i < size ==> fresh(workers[i]) && workers[i].State() == Fresh()
    {
      var ws: seq<SingleThreadUnit> := [];
      var i := 0;
      while i < size
        invariant 0 <= i <= size && |ws| == i
        invariant forall j :: 0 <= j < i ==> fresh(ws[j]) && ws[j].tid == j && ws[j].State() == Fresh()
      {
        var w := new SingleThreadUnit(i);
        ws := ws + [w];
        i := i + 1;
      }
      workers, currentRound, posted := ws, 0, 0;
    }

    /** `PostTask_RoundRobin` with the wrap test moved before the use of the
        cursor: the task goes to the tail of worker `posted % size`, whose
        id is returned; no other queue changes. */
    method PostTaskRoundRobin(t: TaskId) returns (id: nat)
      requires Valid() && 0 < |workers|
      modifies this`currentRound, this`posted, workers
      ensures Valid() && posted == old(posted) + 1
      ensures id == old(posted) % |workers| && id == NextTarget(old(currentRound), |workers|)
      ensures workers[id].tasks == old(workers[id].tasks) + [t]
      ensures forall i :: 0 <= i < |workers| && i != id ==> workers[i].tasks == old(workers[i].tasks)
      ensures forall i :: 0 <= i < |workers| ==>
                workers[i].ran == old(workers[i].ran) && workers[i].stop == old(workers[i].stop)
    {
      if currentRound == |workers| {
        currentRound := 0;
      }
      var res := workers[currentRound].Enqueue(t);
      id := workers[currentRound].tid;
      currentRound := currentRound + 1;
      RoundRobin(posted, |workers|);
      posted := posted + 1;
    }

    /** The pool's destructor: every worker is destroyed in turn, and each
        runs all the tasks it still had. */
    method Destroy()
      requires Valid()
      modifies workers
      ensures forall i :: 0 <= i < |workers| ==>
                && workers[i].stop && workers[i].tasks == []
                && workers[i].ran == old(workers[i].ran) + old(workers[i].tasks)
    {
      var i := 0;
      while i < |workers|
        invariant 0 <= i <= |workers|
        invariant forall j :: 0 <= j < |workers| ==> workers[j].tid == j
        invariant forall j :: 0 <= j < i ==>
                    && workers[j].stop && workers[j].tasks == []
                    && workers[j].ran == old(workers[j].ran) + old(workers[j].tasks)
        invariant forall j :: i <= j < |workers| ==> workers[j].State() == old(workers[j].State())
      {
        workers[i].Destroy();
        i := i + 1;
      }
    }
  }

  // Dispatch as written: `workers_[current_round_]` is used before the wrap test.

  /** One post as written: the `slot` indexed at the enqueue, the `idSlot`
      whose id is returned, and the cursor left behind. */
  datatype Posting = Posting(slot: nat, idSlot: nat, next: nat)

  function PostAsWritten(cursor: nat, size: nat): Posting
  {
    var wrapped := if cursor == size then 0 else cursor;
    Posting(cursor, wrapped, wrapped + 1)
  }

  /** The cursor after `n` posts as written. */
  function CursorAsWritten(n: nat, size: nat): nat
  {
    if n == 0 then 0 else PostAsWritten(CursorAsWritten(n - 1, size), size).next
  }

  /** The slot the (n+1)-th post indexes, as written. */
  function SlotAsWritten(n: nat, size: nat): nat
  {
    PostAsWritten(CursorAsWritten(n, size), size).slot
  }

  /** As written, the cursor stays within `0..size` ... */
  lemma {:induction false} CursorAsWrittenInRange(n: nat, size: nat)
    requires 0 < size
    ensures CursorAsWritten(n, size) <= size
    ensures n > 0 ==> 1 <= CursorAsWritten(n, size)
  {
    if n > 0 {
      CursorAsWrittenInRange(n - 1, size);
    }
  }

  /** ... and counts the first `size` posts one by one ... */
  lemma {:induction false} CursorAsWrittenCounts(n: nat, size: nat)
    requires n <= size
    ensures CursorAsWritten(n, size) == n
  {
    if n > 0 {
      CursorAsWrittenCounts(n - 1, size);
    }
  }

  /** ... so the post after the last worker was served indexes `workers_[size]`,
      one past the end, and on an empty pool so does the first post. */
  lemma OverrunAsWritten(size: nat)
    ensures SlotAsWritten(size, size) == size
    ensures SlotAsWritten(0, 0) == 0
  {
    CursorAsWrittenCounts(size, size);
  }

  /** The as-written cursor runs through the same values as the corrected one. */
  lemma {:induction false} CursorsAgree(n: nat, size: nat)
    requires 0 < size
    ensures CursorAsWritten(n, size) == CursorAfter(n, size)
  {
    if n > 0 {
      CursorsAgree(n - 1, size);
    }
  }

  /** The whole schedule as written: post `n` (counting from 0) indexes
      `workers_[n % size]`, except that every post with `n > 0` and
      `n % size == 0` indexes `workers_[size]`, one past the end. */
  lemma ScheduleAsWritten(n: nat, size: nat)
    requires 0 < size
    ensures SlotAsWritten(n, size) == if n > 0 && n % size == 0 then size else n % size
  {
    CursorsAgree(n, size);
    if n == 0 {
      ModUnique(0, size, 0, 0);
    } else {
      CursorAfterValue(n, size);
      ModSucc(n - 1, size);
    }
  }

  /** The id returned is that of the worker just indexed, except on the wrapping
      post, which returns worker 0's id. */
  lemma IdAsWritten(cursor: nat, size: nat)
    ensures cursor < size ==> PostAsWritten(cursor, size).idSlot == PostAsWritten(cursor, size).slot
    ensures cursor == size ==> PostAsWritten(cursor, size).idSlot == 0
  {
  }

  /** After the first post, worker 0 never receives a task again. */
  lemma StarvesFirstWorker(n: nat, size: nat)
    requires 0 < size && 0 < n
    ensures SlotAsWritten(n, size) > 0
  {
  }

  /** With three workers, the first five posts index 0, 1, 2, 3 and 1. */
  lemma ThreeWorkersAsWritten()
    ensures [SlotAsWritten(0, 3), SlotAsWritten(1, 3), SlotAsWritten(2, 3),
             SlotAsWritten(3, 3), SlotAsWritten(4, 3)] == [0, 1, 2, 3, 1]
  {
  }

  /** The corrected dispatch never leaves the pool and, over the first five
      posts to three workers, serves 0, 1, 2, 0 and 1. */
  lemma ThreeWorkersCorrected()
    ensures [NextTarget(CursorAfter(0, 3), 3), NextTarget(CursorAfter(1, 3), 3),
             NextTarget(CursorAfter(2, 3), 3), NextTarget(CursorAfter(3, 3), 3),
             NextTarget(CursorAfter(4, 3), 3)] == [0, 1, 2, 0, 1]
  {
  }
}
