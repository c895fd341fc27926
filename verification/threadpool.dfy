/**
 * Slot-table bookkeeping of the thread pool.
 *
 * A pool keeps the tasks it owns in one fixed array `tasks`.  The slots
 * [0, pendingCount) hold exactly the tasks no worker has claimed yet; the
 * slots [pendingCount, pushedCount) hold the tasks that are running or have
 * finished and wait to be reclaimed.  Every task remembers its own slot in
 * `index`, and tasks only move by swapping two slots.
 *
 * Every operation below is one critical section of the C code, run under the
 * pool mutex; here it is one atomic method.  The threads, the mutex and the
 * condition variables are not modelled: a wait that would block is a step
 * that has not happened yet.
 */
module ThreadPool {

  /** Ceilings from thread_pool.h. */
  const MaxThreads: int := 20
  const MaxTasks: int := 100000

  /** An opaque `void *`: a task's argument or the value its function returned. */
  type Value = int
  const Null: Value := 0

  datatype Error = InvalidArgument | TooManyTasks | TaskNotPushed | HasTasks | TaskInPool | Timeout

  /** A return code: 0 or one of the TPOOL_ERR_* codes. */
  datatype Outcome = Ok | Fail(error: Error)

  /** A return code together with the value passed back through an out-pointer. */
  datatype Result<T> = Success(value: T) | Failure(error: Error)

  /** How many tasks of a stretch of slots are pending, running, and finished but not yet reclaimed. */
  datatype Census = Census(pending: nat, running: nat, finished: nat)

  /** `s` with the entries at `i` and `j` exchanged: a permutation that moves nothing else. */
  function Swapped<T>(s: seq<T>, i: nat, j: nat): (r: seq<T>)
    requires i < |s| && j < |s|
    ensures |r| == |s| && r[i] == s[j] && r[j] == s[i]
  {
    s[i := s[j]][j := s[i]]
  }

  /** The slot sequence after a push: the new task is appended, then swapped into slot `p`. */
  function PushSlots<T>(s: seq<T>, p: nat, t: T): (r: seq<T>)
    requires p <= |s|
    ensures |r| == |s| + 1 && r[p] == t
  {
    Swapped(s + [t], p, |s|)
  }

  /** The slot sequence after a claim: slot 0 and slot `q` trade places. */
  function ClaimSlots<T>(s: seq<T>, q: nat): (r: seq<T>)
    requires q < |s|
    ensures |r| == |s| && r[q] == s[0] && r[0] == s[q]
  {
    Swapped(s, 0, q)
  }

  /** The slot sequence after a reclaim: slot `k` trades places with the last slot, which is then dropped. */
  function RemoveSlots<T>(s: seq<T>, k: nat): (r: seq<T>)
    requires k < |s|
    ensures |r| == |s| - 1
  {
    Swapped(s, k, |s| - 1)[..|s| - 1]
  }

  /** A swap moves nothing but the two entries, and keeps every entry. */
  lemma SwappedPermutes<T>(s: seq<T>, i: nat, j: nat)
    requires i < |s| && j < |s|
    ensures forall k :: 0 <= k < |s| && k != i && k != j ==> Swapped(s, i, j)[k] == s[k]
    ensures multiset(Swapped(s, i, j)) == multiset(s)
  {
  }

  /**
   * A push leaves the slots before `p` alone, puts the new task in slot `p`,
   * moves the task that was there to the end, and adds exactly one task.
   */
  lemma PushSlotsShape<T>(s: seq<T>, p: nat, t: T)
    requires p <= |s|
    ensures var r := PushSlots(s, p, t);
      r[..p] == s[..p] && r[p] == t &&
      (p < |s| ==> r[p + 1..|s|] == s[p + 1..] && r[|s|] == s[p]) &&
      multiset(r) == multiset(s) + multiset{t}
  {
    var r := PushSlots(s, p, t);
    SwappedPermutes(s + [t], p, |s|);
    assert r[..p] == s[..p];
    assert p < |s| ==> r[p + 1..|s|] == s[p + 1..];
  }

  /**
   * A claim trades slot 0 with slot `q` and keeps every task; the slots
   * strictly between them and after `q` stay where they were.
   */
  lemma ClaimSlotsShape<T>(s: seq<T>, q: nat)
    requires q < |s|
    ensures var r := ClaimSlots(s, q);
      r[0] == s[q] && r[q] == s[0] && (0 < q ==> r[1..q] == s[1..q]) && r[q + 1..] == s[q + 1..] &&
      multiset(r) == multiset(s)
  {
    SwappedPermutes(s, 0, q);
    var r := ClaimSlots(s, q);
    assert 0 < q ==> r[1..q] == s[1..q];
    assert r[q + 1..] == s[q + 1..];
  }

  /**
   * A reclaim of slot `k` keeps the slots before it, fills it with the last
   * task, keeps the slots after it, and drops exactly the reclaimed task.
   */
  lemma RemoveSlotsShape<T>(s: seq<T>, k: nat)
    requires k < |s|
    ensures var r := RemoveSlots(s, k);
      r[..k] == s[..k] && (k < |s| - 1 ==> r[k] == s[|s| - 1] && r[k + 1..] == s[k + 1..|s| - 1]) &&
      multiset(r) == multiset(s) - multiset{s[k]}
  {
    var w := Swapped(s, k, |s| - 1);
    SwappedPermutes(s, k, |s| - 1);
    assert w == w[..|s| - 1] + [s[k]];
    var r := RemoveSlots(s, k);
    assert r[..k] == s[..k];
    assert k < |s| - 1 ==> r[k + 1..] == s[k + 1..|s| - 1];
  }

  class Task {
    /** The user function and its argument; executing it is not modelled. */
    const work: Value
    const arg: Value
    var result: Value
    var index: int
    var isFinished: bool
    var isRunning: bool
    var detached: bool
    var pool: Pool?

    /** thread_task_new: a task owned by no pool, with no slot. */
    constructor (work: Value, arg: Value)
      ensures this.work == work && this.arg == arg && result == Null
      ensures pool == null && index == -1
      ensures !isFinished && !isRunning && !detached
    {
      this.work := work;
      this.arg := arg;
      result := Null;
      isFinished := false;
      isRunning := false;
      detached := false;
      pool := null;
      index := -1;
    }

    /** thread_task_is_finished: the finished flag (read under the pool's lock when there is one). */
    function IsFinished(): (r: bool)
      reads this
      ensures r ==> !IsRunning()
    {
      isFinished
    }

    /** thread_task_is_running: claimed by a worker and not finished; never true outside a pool. */
    function IsRunning(): (r: bool)
      reads this
      ensures r ==> pool != null && !isFinished
    {
      pool != null && isRunning && !isFinished
    }

    /** thread_task_delete: refused while the task belongs to a pool; freeing is not modelled. */
    method Delete() returns (r: Outcome)
      ensures r == Ok <==> pool == null
      ensures r.Fail? ==> r.error == TaskInPool
    {
      if pool != null {
        return Fail(TaskInPool);
      }
      return Ok;
    }

    /** The pool this task belongs to, as a frame. */
    ghost function Owner(): set<Pool>
      reads this
    {
      if pool == null then {} else {pool}
    }

    /** The slot array of the owning pool, as a frame. */
    ghost function OwnerTable(): set<array<Task?>>
      reads this, Owner()
    {
      if pool == null then {} else {pool.tasks}
    }

    /** The tasks that share the owning pool, as a frame. */
    ghost function Peers(): set<Task>
      reads this, Owner(), OwnerTable()
    {
      if pool == null then {} else pool.Live() + pool.Running
    }

    /** The owning pool is consistent and holds this task in the slot it names. */
    ghost predicate InValidPool()
      reads this, Owner(), OwnerTable(), Peers()
    {
      pool != null && pool.Valid() && pool.Holds(this)
    }

    /**
     * thread_task_join.  Without an owning pool it fails with TaskNotPushed.
     * Otherwise the caller waits (4/thread_pool.c:57-60) until the task is
     * finished; this method is the step that runs once the wait is over, so it
     * is called on a finished task.  It reclaims the task and hands back its result.
     */
    method Join() returns (r: Result<Value>)
      requires pool != null ==> InValidPool() && isFinished
      modifies this`pool, this`index, this`isRunning
      modifies Owner()`pushedCount, OwnerTable(), Peers()`index
      ensures old(pool) == null ==>
        r == Failure(TaskNotPushed) && pool == null && index == old(index) && isRunning == old(isRunning)
      ensures old(pool) != null ==>
        var p := old(pool);
        r == Success(result) && p.Valid() &&
        pool == null && index == -1 && !isRunning &&
        p.pushedCount == old(p.pushedCount) - 1 &&
        p.tasks[..p.pushedCount] == RemoveSlots(old(p.tasks[..p.pushedCount]), old(index))
    {
      if pool == null {
        return Failure(TaskNotPushed);
      }
      pool.Reclaim(this);
      r := Success(result);
    }

    /**
     * thread_task_timed_join, from the moment the deadline has been computed.
     * A task that is not finished when this step runs has outlived the wait:
     * the call fails with Timeout and changes nothing, and the task can be
     * joined again later.  A finished task is reclaimed exactly as by Join.
     */
    method TimedJoin() returns (r: Result<Value>)
      requires pool != null ==> InValidPool()
      modifies this`pool, this`index, this`isRunning
      modifies Owner()`pushedCount, OwnerTable(), Peers()`index
      ensures old(pool) == null ==>
        r == Failure(TaskNotPushed) && pool == null && index == old(index) && isRunning == old(isRunning)
      ensures old(pool) != null && !old(isFinished) ==>
        r == Failure(Timeout) && pool == old(pool) && index == old(index) && isRunning == old(isRunning) &&
        unchanged(pool) && unchanged(pool.tasks) && unchanged(old(Peers()))
      ensures old(pool) != null && old(isFinished) ==>
        var p := old(pool);
        r == Success(result) && p.Valid() &&
        pool == null && index == -1 && !isRunning &&
        p.pushedCount == old(p.pushedCount) - 1 &&
        p.tasks[..p.pushedCount] == RemoveSlots(old(p.tasks[..p.pushedCount]), old(index))
    {
      if pool == null {
        return Failure(TaskNotPushed);
      }
      if !isFinished {
        return Failure(Timeout);
      }
      pool.Reclaim(this);
      r := Success(result);
    }

    /**
     * thread_task_detach.  Without an owning pool it fails with TaskNotPushed.
     * A finished task is reclaimed at once (and then destroyed, which is not
     * modelled); an unfinished one is only marked, and the worker that
     * publishes it reclaims it.
     */
    method Detach() returns (r: Outcome)
      requires pool != null ==> InValidPool()
      modifies this`pool, this`index, this`isRunning, this`detached
      modifies Owner()`pushedCount, OwnerTable(), Peers()`index
      ensures r == Ok <==> old(pool) != null
      ensures r.Fail? ==>
        r.error == TaskNotPushed && pool == null && detached == old(detached) &&
        index == old(index) && isRunning == old(isRunning)
      ensures r == Ok && !old(isFinished) ==>
        detached && pool == old(pool) && index == old(index) && isRunning == old(isRunning) &&
        unchanged(pool) && unchanged(pool.tasks) && unchanged(old(Peers()) - {this}) &&
        pool.Valid()
      ensures r == Ok && old(isFinished) ==>
        var p := old(pool);
        p.Valid() && pool == null && index == -1 && !isRunning &&
        p.pushedCount == old(p.pushedCount) - 1 &&
        p.tasks[..p.pushedCount] == RemoveSlots(old(p.tasks[..p.pushedCount]), old(index))
    {
      if pool == null {
        return Fail(TaskNotPushed);
      }
      if isFinished {
        pool.Reclaim(this);
      } else {
        detached := true;
      }
      r := Ok;
    }
  }

  class Pool {
    const maxThreadCount: int
    var threadCount: int
    const tasks: array<Task?>
    var pendingCount: int
    var runningCount: int
    var pushedCount: int
    /** The live tasks a worker has claimed and not yet published. */
    ghost var Running: set<Task>

    /** The tasks in slots [0, pushedCount). */
    ghost function Live(): set<Task>
      reads this`pushedCount, tasks
    {
      set t: Task | 0 <= pushedCount <= tasks.Length && t in tasks[..pushedCount]
    }

    /** `t` sits in the live slot its back-pointer names. */
    ghost predicate Holds(t: Task)
      reads this, tasks, t
    {
      t.pool == this && 0 <= t.index < pushedCount <= tasks.Length && tasks[t.index] == t
    }

    /**
     * Task `u`, found in slot `i`, belongs to this pool and knows its slot;
     * the slot lies in the pending zone exactly when the task is unclaimed;
     * only a claimed task finishes; and the task is counted as running
     * exactly when it is claimed and unfinished.
     */
    ghost predicate Placed(u: Task, pending: bool, counted: bool)
      reads u`pool, u`isRunning, u`isFinished
    {
      u.pool == this &&
      (pending <==> !u.isRunning) && (u.isFinished ==> u.isRunning) &&
      (counted <==> u.isRunning && !u.isFinished)
    }

    /** Every live slot other than `a` and `b` holds a task placed as its slot says. */
    ghost predicate SlotsOk(a: int, b: int)
      reads this`pushedCount, this`pendingCount, this`Running, tasks, Live()
    {
      tasks.Length == MaxTasks && 0 <= pushedCount <= MaxTasks &&
      forall i :: 0 <= i < pushedCount && i != a && i != b ==>
        tasks[i] != null && tasks[i].index == i && Placed(tasks[i], i < pendingCount, tasks[i] in Running)
    }

    /** The running tasks sit in live slots, and runningCount counts them. */
    ghost predicate Counted()
      reads this`pushedCount, this`runningCount, this`Running, tasks, Running
    {
      (forall t :: t in Running ==> 0 <= t.index < pushedCount <= tasks.Length && tasks[t.index] == t) &&
      |Running| == runningCount
    }

    /** The slot-table invariant. */
    ghost predicate Valid()
      reads this, tasks, Live(), Running
    {
      0 < maxThreadCount <= MaxThreads && 0 <= threadCount <= maxThreadCount &&
      0 <= pendingCount <= pushedCount && SlotsOk(-1, -1) && Counted()
    }

    /** Declaring two slots out of place weakens the claim that no slot is. */
    lemma Weaken(a: int, b: int)
      requires SlotsOk(-1, -1)
      ensures SlotsOk(a, b)
    {
    }

    /** An out-of-place slot `a` that turns out placed after all leaves only `b` out of place. */
    lemma Fill(a: int, b: int)
      requires SlotsOk(a, b)
      requires 0 <= a < pushedCount && a != b ==>
        tasks[a] != null && tasks[a].index == a && Placed(tasks[a], a < pendingCount, tasks[a] in Running)
      ensures SlotsOk(b, -1)
    {
    }

    /** The tasks in the first `n` slots, counted by status. */
    ghost function CensusOf(n: int): (c: Census)
      requires 0 <= n <= pushedCount <= tasks.Length
      reads this`pushedCount, tasks, Live()
      ensures c.pending + c.running + c.finished <= n
      decreases n
    {
      if n == 0 then Census(0, 0, 0)
      else
        var c := CensusOf(n - 1);
        var u := tasks[n - 1];
        assert u == tasks[..pushedCount][n - 1];
        if u == null then c
        else if !u.isRunning then c.(pending := c.pending + 1)
        else if !u.isFinished then c.(running := c.running + 1)
        else c.(finished := c.finished + 1)
    }

    /** The running tasks whose slot lies below `n`. */
    ghost function RunningBelow(n: int): set<Task>
      reads this`Running, Running
    {
      set t | t in Running && t.index < n
    }

    /** In a consistent table every slot is counted once: the census of a prefix adds up to its length. */
    lemma {:induction false} CensusTotal(n: int)
      requires SlotsOk(-1, -1) && 0 <= n <= pushedCount
      ensures var c := CensusOf(n); c.pending + c.running + c.finished == n
      decreases n
    {
      if n > 0 {
        CensusTotal(n - 1);
      }
    }

    /** The unclaimed tasks are exactly those in the pending zone. */
    lemma {:induction false} CensusPending(n: int)
      requires Valid() && 0 <= n <= pushedCount
      ensures CensusOf(n).pending == if n <= pendingCount then n else pendingCount
      decreases n
    {
      if n > 0 {
        CensusPending(n - 1);
      }
    }

    /** The running tasks below slot `n` are exactly the claimed, unfinished tasks of the first `n` slots. */
    lemma {:induction false} CensusRunning(n: int)
      requires Valid() && 0 <= n <= pushedCount
      ensures CensusOf(n).running == |RunningBelow(n)|
      decreases n
    {
      if n == 0 {
        assert RunningBelow(0) == {};
      } else {
        CensusRunning(n - 1);
        var u := tasks[n - 1];
        if u in Running {
          assert RunningBelow(n) == RunningBelow(n - 1) + {u};
        } else {
          assert RunningBelow(n) == RunningBelow(n - 1);
        }
      }
    }

    /**
     * The counters agree with the table: pendingCount tasks are pending,
     * runningCount are running, and the rest of the pushedCount live slots
     * hold finished tasks awaiting reclamation; the table never exceeds MaxTasks.
     */
    lemma CountsAddUp()
      requires Valid()
      ensures var c := CensusOf(pushedCount);
        c.pending == pendingCount && c.running == runningCount &&
        c.pending + c.running + c.finished == pushedCount <= MaxTasks
    {
      CensusTotal(pushedCount);
      CensusPending(pushedCount);
      CensusRunning(pushedCount);
      assert RunningBelow(pushedCount) == Running;
    }

    /**
     * Where a live task sits says what it is doing: it is in the pending zone
     * exactly when no worker has claimed it, and thread_task_is_running holds
     * exactly for the tasks counted as running.
     */
    lemma StatusBySlot(t: Task)
      requires Valid() && Holds(t)
      ensures t.index < pendingCount <==> !t.isRunning
      ensures t.IsRunning() <==> t in Running
      ensures t.IsFinished() ==> t.index >= pendingCount
    {
      assert tasks[t.index] == t;
    }

    /** thread_pool_new once the argument is known to be in range: an empty pool. */
    constructor (maxThreadCount: int)
      requires 0 < maxThreadCount <= MaxThreads
      ensures Valid() && fresh(tasks)
      ensures this.maxThreadCount == maxThreadCount && threadCount == 0
      ensures pendingCount == 0 && runningCount == 0 && pushedCount == 0
    {
      this.maxThreadCount := maxThreadCount;
      threadCount := 0;
      tasks := new Task?[MaxTasks];
      pendingCount, runningCount, pushedCount := 0, 0, 0;
      Running := {};
    }

    /** thread_pool_thread_count: the number of workers spawned so far. */
    function ThreadCount(): (n: int)
      requires Valid()
      reads this, tasks, Live(), Running
      ensures 0 <= n <= maxThreadCount <= MaxThreads
    {
      threadCount
    }

    /**
     * swap_tasks: exchange the slots of two tasks and their back-pointers;
     * nothing else moves, and a task swapped with itself stays put.  The
     * slots other than the two keep their placement, and the running tasks
     * stay where their back-pointers say.
     */
    method Swap(t1: Task, t2: Task)
      requires 0 <= t1.index < tasks.Length && tasks[t1.index] == t1
      requires 0 <= t2.index < tasks.Length && tasks[t2.index] == t2
      modifies tasks, t1`index, t2`index
      ensures tasks[old(t1.index)] == t2 && tasks[old(t2.index)] == t1
      ensures t1.index == old(t2.index) && t2.index == old(t1.index)
      ensures forall i :: 0 <= i < tasks.Length && i != old(t1.index) && i != old(t2.index) ==> tasks[i] == old(tasks[i])
      ensures t1 == t2 ==> tasks[..] == old(tasks[..])
      ensures old(t1.index) < pushedCount <= tasks.Length && old(t2.index) < pushedCount ==>
        tasks[..pushedCount] == Swapped(old(tasks[..pushedCount]), old(t1.index), old(t2.index))
      ensures old(SlotsOk(t1.index, t2.index)) ==> SlotsOk(old(t1.index), old(t2.index))
      ensures (old(Counted()) && (t1 in Running ==> old(t2.index) < pushedCount) &&
               (t2 in Running ==> old(t1.index) < pushedCount)) ==> Counted()
    {
      var index1, index2 := t1.index, t2.index;
      tasks[index1] := t2;
      tasks[index2] := t1;
      t2.index := index1;
      t1.index := index2;
    }

    /**
     * The first steps of thread_pool_push_task: the task is marked
     * unclaimed, appended after the last live slot, and the pending zone
     * grows by one.  Only the slot of the appended task and the slot just
     * taken into the pending zone are out of place.
     */
    method Enqueue(t: Task)
      requires Valid() && t.pool == null && pushedCount < MaxTasks
      modifies t`isFinished, t`isRunning, t`pool, t`index, tasks, this`pushedCount, this`pendingCount, this`threadCount
      ensures pushedCount == old(pushedCount) + 1 && pendingCount == old(pendingCount) + 1
      ensures threadCount == old(threadCount) +
        (if old(runningCount == threadCount && threadCount < maxThreadCount) then 1 else 0)
      ensures 0 <= threadCount <= maxThreadCount
      ensures tasks[..pushedCount] == old(tasks[..pushedCount]) + [t]
      ensures t.pool == this && t.index == old(pushedCount) && !t.isRunning && !t.isFinished && t !in Running
      ensures SlotsOk(old(pendingCount), old(pushedCount)) && Counted()
      ensures old(pendingCount) < old(pushedCount) ==>
        var u := tasks[old(pendingCount)];
        u != null && u != t && u.index == old(pendingCount) && Placed(u, false, u in Running)
    {
      ghost var p0, n0 := pendingCount, pushedCount;
      t.isFinished, t.isRunning, t.pool := false, false, this;
      tasks[pushedCount] := t;
      pushedCount := pushedCount + 1;
      t.index := pushedCount - 1;
      pendingCount := pendingCount + 1;
      Spawn();
      assert t !in Running;
    }

    /** A new worker is started exactly when every worker is busy and the ceiling allows one more. */
    method Spawn()
      requires 0 <= threadCount <= maxThreadCount
      modifies this`threadCount
      ensures threadCount == old(threadCount) +
        (if old(runningCount == threadCount && threadCount < maxThreadCount) then 1 else 0)
      ensures old(threadCount) <= threadCount <= maxThreadCount
    {
      if runningCount == threadCount && threadCount < maxThreadCount {
        threadCount := threadCount + 1;
      }
    }

    /**
     * thread_pool_push_task.  A full table refuses the task and nothing changes.
     * Otherwise the task becomes pending: it is appended and then swapped into
     * the first slot after the old pending zone.  A worker is spawned exactly
     * when every spawned worker is busy and the ceiling has not been reached.
     */
    method Push(t: Task) returns (r: Outcome)
      requires Valid() && t.pool == null
      modifies this`pushedCount, this`pendingCount, this`threadCount, tasks
      modifies t`isFinished, t`isRunning, t`pool, t`index, Live()`index
      ensures Valid()
      ensures r == Ok <==> old(pushedCount) < MaxTasks
      ensures r.Fail? ==>
        r.error == TooManyTasks && unchanged(this) && unchanged(tasks) && unchanged(t)
      ensures r == Ok ==>
        pushedCount == old(pushedCount) + 1 && pendingCount == old(pendingCount) + 1 &&
        Holds(t) && !t.isFinished && !t.isRunning && t.index == old(pendingCount) &&
        tasks[..pushedCount] == PushSlots(old(tasks[..pushedCount]), old(pendingCount), t)
      ensures r == Ok ==>
        threadCount == old(threadCount) +
          (if old(runningCount == threadCount && threadCount < maxThreadCount) then 1 else 0)
    {
      if pushedCount >= MaxTasks {
        return Fail(TooManyTasks);
      }
      ghost var slots := tasks[..pushedCount];
      Enqueue(t);
      SwapIntoZone(t, slots);
      r := Ok;
    }

    /**
     * The last step of thread_pool_push_task: the appended task trades slots
     * with the task on the new pending-zone boundary, which leaves both in place.
     */
    method SwapIntoZone(t: Task, ghost slots: seq<Task?>)
      requires 0 < maxThreadCount <= MaxThreads && 0 <= threadCount <= maxThreadCount
      requires 0 < pendingCount <= pushedCount && |slots| == pushedCount - 1
      requires SlotsOk(pendingCount - 1, pushedCount - 1) && Counted()
      requires tasks[..pushedCount] == slots + [t]
      requires t.pool == this && t.index == pushedCount - 1 && !t.isRunning && !t.isFinished && t !in Running
      requires pendingCount < pushedCount ==>
        var u := tasks[pendingCount - 1];
        u != null && u != t && u.index == pendingCount - 1 && Placed(u, false, u in Running)
      modifies tasks, Live()`index
      ensures Valid() && Holds(t) && t.index == pendingCount - 1
      ensures tasks[..pushedCount] == PushSlots(slots, pendingCount - 1, t)
    {
      var other := tasks[pendingCount - 1];
      Swap(other, t);
      Fill(pendingCount - 1, pushedCount - 1);
      Fill(pushedCount - 1, -1);
    }

    /**
     * The claim step of a worker (4/thread_pool.c:97-115).  With no pending
     * task the worker waits and nothing changes.  Otherwise it takes the task
     * in slot 0, shrinks the pending zone, swaps the task onto the new zone
     * boundary and marks it running.
     */
    method Claim() returns (t: Task?)
      requires Valid()
      modifies this`pendingCount, this`runningCount, this`Running
      modifies tasks, Live()`index, Live()`isRunning
      ensures Valid()
      ensures t == null <==> old(pendingCount) == 0
      ensures t == null ==> unchanged(this) && unchanged(tasks)
      ensures t != null ==>
        t == old(tasks[0]) && Holds(t) && old(!t.isRunning) && t.isRunning && !t.isFinished &&
        pendingCount == old(pendingCount) - 1 && runningCount == old(runningCount) + 1 &&
        t.index == pendingCount && Running == old(Running) + {t} &&
        tasks[..pushedCount] == ClaimSlots(old(tasks[..pushedCount]), pendingCount)
    {
      if pendingCount == 0 {
        return null;
      }
      t := tasks[0];
      Dequeue(t);
      MarkRunning(t);
    }

    /** The first steps of a claim: the pending zone shrinks and its first task moves onto the new boundary. */
    method Dequeue(t: Task)
      requires Valid() && 0 < pendingCount && tasks[0] == t
      modifies this`pendingCount, tasks, Live()`index
      ensures pendingCount == old(pendingCount) - 1 && 0 <= pendingCount < pushedCount
      ensures SlotsOk(pendingCount, -1) && Counted()
      ensures tasks[pendingCount] == t && t.index == pendingCount && Placed(t, true, false) && t !in Running
      ensures tasks[..pushedCount] == ClaimSlots(old(tasks[..pushedCount]), pendingCount)
    {
      pendingCount := pendingCount - 1;
      var other := tasks[pendingCount];
      Swap(t, other);
      Fill(0, pendingCount);
    }

    /** The end of a claim: the claimed task, already on the zone boundary, is marked and counted as running. */
    method MarkRunning(t: Task)
      requires 0 < maxThreadCount <= MaxThreads && 0 <= threadCount <= maxThreadCount
      requires SlotsOk(pendingCount, -1) && Counted() && 0 <= pendingCount < pushedCount
      requires t.index == pendingCount && Placed(t, true, false) && tasks[pendingCount] == t && t !in Running
      modifies this`runningCount, this`Running, t`isRunning
      ensures Valid() && Holds(t) && t.isRunning && !t.isFinished
      ensures runningCount == old(runningCount) + 1 && Running == old(Running) + {t}
    {
      runningCount := runningCount + 1;
      t.isRunning := true;
      Running := Running + {t};
      Fill(pendingCount, -1);
    }

    /**
     * join_thread_task once the task is finished: the task trades slots with
     * the last live one (which lies outside the pending zone), the table
     * shrinks by one, and the task leaves the pool.  The C code decrements
     * pushed_tasks_count before the swap; both happen under the lock, so the
     * order is not observable.
     */
    method Reclaim(t: Task)
      requires Valid() && Holds(t) && t.isFinished
      modifies this`pushedCount, tasks, t`pool, t`isRunning, Live()`index
      ensures Valid()
      ensures pushedCount == old(pushedCount) - 1
      ensures t.pool == null && t.index == -1 && !t.isRunning
      ensures tasks[..pushedCount] == RemoveSlots(old(tasks[..pushedCount]), old(t.index))
    {
      ghost var k := t.index;
      var last := tasks[pushedCount - 1];
      Weaken(k, pushedCount - 1);
      Swap(t, last);
      Fill(k, pushedCount - 1);
      Release(t);
    }

    /** The end of a reclaim: the table shrinks past the task, which leaves the pool. */
    method Release(t: Task)
      requires 0 < maxThreadCount <= MaxThreads && 0 <= threadCount <= maxThreadCount
      requires SlotsOk(pushedCount - 1, -1) && Counted() && 0 <= pendingCount < pushedCount
      requires tasks[pushedCount - 1] == t && t.index == pushedCount - 1 && t !in Running
      modifies this`pushedCount, t`pool, t`index, t`isRunning
      ensures Valid()
      ensures pushedCount == old(pushedCount) - 1
      ensures tasks[..pushedCount] == old(tasks[..pushedCount])[..pushedCount]
      ensures t.pool == null && t.index == -1 && !t.isRunning
    {
      pushedCount := pushedCount - 1;
      t.pool := null;
      t.index := -1;
      t.isRunning := false;
    }

    /**
     * The publish step of a worker (4/thread_pool.c:74-85): store the result,
     * leave the running count, mark the task finished; a detached task is
     * reclaimed on the spot (and destroyed, which is not modelled).
     */
    method Publish(t: Task, result: Value)
      requires Valid() && t in Running
      modifies this`runningCount, this`pushedCount, this`Running, tasks
      modifies t`result, t`isFinished, t`pool, t`isRunning, Live()`index
      ensures Valid()
      ensures t.result == result && t.isFinished && runningCount == old(runningCount) - 1
      ensures Running == old(Running) - {t}
      ensures !t.detached ==> Holds(t) && pushedCount == old(pushedCount) && unchanged(tasks)
      ensures t.detached ==>
        t.pool == null && t.index == -1 && pushedCount == old(pushedCount) - 1 &&
        tasks[..pushedCount] == RemoveSlots(old(tasks[..pushedCount]), old(t.index))
    {
      MarkFinished(t, result);
      if t.detached {
        Reclaim(t);
      }
    }

    /** The body of a publish: the result is stored and the task leaves the running count as finished. */
    method MarkFinished(t: Task, result: Value)
      requires Valid() && t in Running
      modifies this`runningCount, this`Running, t`result, t`isFinished
      ensures Valid() && Holds(t)
      ensures t.result == result && t.isFinished && runningCount == old(runningCount) - 1
      ensures Running == old(Running) - {t}
    {
      ghost var j := t.index;
      Weaken(j, -1);
      t.result := result;
      runningCount := runningCount - 1;
      t.isFinished := true;
      Running := Running - {t};
      Fill(j, -1);
    }

    /**
     * thread_pool_delete's guard: a pool with pending or running tasks is
     * refused and stays usable.  Joining the workers and freeing the pool are
     * not modelled; when the guard passes, every task still in the table has
     * finished.
     */
    method Delete() returns (r: Outcome)
      requires Valid()
      ensures r == Ok <==> pendingCount == 0 && runningCount == 0
      ensures r.Fail? ==> r.error == HasTasks
      ensures r == Ok ==> forall i :: 0 <= i < pushedCount ==> tasks[i].isFinished
    {
      if pendingCount > 0 || runningCount > 0 {
        return Fail(HasTasks);
      }
      assert Running == {};
      r := Ok;
    }
  }

  /**
   * thread_pool_new: a worker ceiling outside [1, MaxThreads] is refused;
   * otherwise an empty pool with no workers.
   */
  method NewPool(maxThreadCount: int) returns (r: Result<Pool>)
    ensures r.Failure? <==> maxThreadCount <= 0 || maxThreadCount > MaxThreads
    ensures r.Failure? ==> r.error == InvalidArgument
    ensures r.Success? ==>
      fresh(r.value) && fresh(r.value.tasks) && r.value.Valid() && r.value.maxThreadCount == maxThreadCount &&
      r.value.threadCount == 0 && r.value.pendingCount == 0 && r.value.runningCount == 0 &&
      r.value.pushedCount == 0
  {
    if maxThreadCount <= 0 || maxThreadCount > MaxThreads {
      return Failure(InvalidArgument);
    }
    var pool := new Pool(maxThreadCount);
    r := Success(pool);
  }
}
