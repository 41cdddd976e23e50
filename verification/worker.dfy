/** The worker thread and its work items (MathLib::WorkerItem<T>,
    MathLib::WorkerThread<T>, MathLib::WorkerThreadClientBase<T>).

    The owner type T is the client class (`WorkerThreadClient`, the
    client-base mixin holding the back-pointer to its worker thread).  A
    work item's action is either the private stop action or a user action,
    whose effect on the owner lies outside this model and whose boolean
    result is fixed when the item is made.  The background thread's progress
    is the method `WorkerThreadMain`, which runs the loop until the thread
    either leaves it or would block in `pop` on an empty queue. */
module Worker {
  import opened Queues

  /** Default high-water mark of a worker thread's queue. */
  const DefaultQueueSize: int := 100

  /** `WorkerThreadClientBase::THREAD_QUEUE_TIMEOUT_SECS`. */
  const ThreadQueueTimeoutSecs: int := 10

  /** What `WorkerItem::action` does when invoked. */
  datatype Action = StopAction | UserAction(result: bool)

  /** The value `action` returns: the stop action always reports success. */
  function ActionResult(a: Action): bool
  {
    match a
    case StopAction => true
    case UserAction(b) => b
  }

  predicate IsStopItem(item: WorkerItem)
  {
    item.action.StopAction?
  }

  /** Some item of `items` is a stop item. */
  predicate HasStop(items: seq<WorkerItem>)
  {
    exists j :: 0 <= j < |items| && IsStopItem(items[j])
  }

  /** How many items the worker loop takes from a queue holding `items`
      before it leaves: up to and including the first stop item, or all of
      them when there is none. */
  function Processed(items: seq<WorkerItem>): (k: nat)
    ensures k <= |items|
    ensures forall j :: 0 <= j < k - 1 ==> !IsStopItem(items[j])
    ensures HasStop(items) <==> 0 < k && IsStopItem(items[k - 1])
    ensures !HasStop(items) ==> k == |items|
    decreases |items|
  {
    if items == [] then 0
    else if IsStopItem(items[0]) then 1
    else
      var k := 1 + Processed(items[1..]);
      assert HasStop(items) <==> HasStop(items[1..]) by {
        if HasStop(items) {
          var j :| 0 <= j < |items| && IsStopItem(items[j]);
          assert j > 0 && items[1..][j - 1] == items[j];
        }
        if HasStop(items[1..]) {
          var j :| 0 <= j < |items[1..]| && IsStopItem(items[1..][j]);
          assert items[j + 1] == items[1..][j];
        }
      }
      assert forall j :: 1 <= j < k - 1 ==> items[j] == items[1..][j - 1];
      k
  }

  /** How many items one run of the worker loop takes from a queue holding
      `items`: a thread parked in `pop` takes the next item whatever
      `stopping` says; after that the loop runs while `stopping` is false. */
  function Taken(items: seq<WorkerItem>, stopping: bool, parked: bool): (k: nat)
    ensures k <= |items|
    ensures parked && items != [] ==> 0 < k
  {
    if !stopping then Processed(items)
    else if parked && items != [] then 1
    else 0
  }

  /** A unit of work with its completion record. */
  class WorkerItem {
    const action: Action
    var completed: bool
    var success: bool

    /** A fresh item is neither completed nor successful. */
    constructor (action: Action)
      ensures this.action == action && !completed && !success
    {
      this.action := action;
      completed := false;
      success := false;
    }

    /** `action(owner)`: the stop action (`StopWorkerItem::action`) asks the
        owner to stop its worker thread and reports success. */
    method Act(owner: WorkerThreadClient) returns (result: bool)
      requires owner.workerThread != null
      modifies owner.workerThread`stopping
      ensures result == ActionResult(action)
      ensures owner.workerThread.stopping == (old(owner.workerThread.stopping) || action.StopAction?)
    {
      match action
      case StopAction =>
        owner.Stop();
        result := true;
      case UserAction(b) =>
        result := b;
    }

    /** Runs the action once, then records its result and completion. */
    method Invoke(owner: WorkerThreadClient)
      requires owner.workerThread != null
      modifies this, owner.workerThread`stopping
      ensures completed && success == ActionResult(action)
      ensures owner.workerThread.stopping == (old(owner.workerThread.stopping) || action.StopAction?)
    {
      var result := Act(owner);
      success := result;
      completed := true;
    }

    /** Returns once the item is completed (the loop re-waits after every
        timed-out `wait_for`, so it never returns before that), giving the
        action's result. */
    method Wait(waitMilliseconds: int := -1) returns (r: bool)
      requires completed
      ensures r == success
      // on a completed item the code and its documentation agree
      ensures WaitRound(completed, success, waitMilliseconds, false) == Return(r)
      ensures WaitRoundDocumented(completed, success, waitMilliseconds, false) == Return(r)
    {
      r := false;
      if completed {
        r := success;
      }
    }
  }

  /** The client-base mixin: the owner of a worker thread. */
  class WorkerThreadClient {
    var workerThread: WorkerThread?

    constructor ()
      ensures workerThread == null
    {
      workerThread := null;
    }

    method SetThreadObj(thr: WorkerThread)
      modifies this
      ensures workerThread == thr
    {
      workerThread := thr;
    }

    /** `stop()`: forwards to the worker thread. */
    method Stop()
      requires workerThread != null
      modifies workerThread`stopping
      ensures workerThread.stopping
    {
      workerThread.Stop();
    }

    /** Queues through the worker thread, by default with a 10 s timeout. */
    method QueueWorkerItem(item: WorkerItem, timeOut: int := ThreadQueueTimeoutSecs) returns (ok: bool)
      requires workerThread != null && workerThread.Valid()
      modifies workerThread.workQueue
      ensures workerThread.Valid()
      ensures ok <==> timeOut < 0 || old(|workerThread.workQueue.queue|) < workerThread.workQueue.capacity
      ensures workerThread.workQueue.queue
           == if ok then old(workerThread.workQueue.queue) + [item] else old(workerThread.workQueue.queue)
    {
      ok := workerThread.QueueWorkerItem(item, timeOut);
    }
  }

  class WorkerThread {
    var stopping: bool
    /** The background thread is blocked in `pop`, waiting for an item. */
    var parked: bool
    const workQueue: ConcurrentQueue<WorkerItem>
    const owner: WorkerThreadClient
    /** Every item the background thread has invoked, in order. */
    ghost var invoked: seq<WorkerItem>

    ghost predicate Valid()
      reads this, workQueue, owner
    {
      workQueue.Valid() && owner.workerThread == this
    }

    /** Registers itself with the owner; the queue's capacity is `queueSize`.
        Starting the background thread is `WorkerThreadMain`. */
    constructor (owner: WorkerThreadClient, queueSize: int := DefaultQueueSize)
      modifies owner
      ensures Valid() && !stopping && !parked && this.owner == owner && invoked == []
      ensures fresh(workQueue) && workQueue.queue == [] && workQueue.capacity == queueSize
    {
      stopping := false;
      parked := false;
      workQueue := new ConcurrentQueue(queueSize);
      this.owner := owner;
      invoked := [];
      new;
      owner.SetThreadObj(this);
    }

    /** `stop()`: tells the background loop to leave. */
    method Stop()
      modifies this`stopping
      ensures stopping
    {
      stopping := true;
    }

    /** A negative timeout takes the unbounded push path and always succeeds;
        otherwise the result is that of the timed push. */
    method QueueWorkerItem(item: WorkerItem, timeOut: int := -1) returns (ok: bool)
      requires Valid()
      modifies workQueue
      ensures Valid()
      ensures ok <==> timeOut < 0 || old(|workQueue.queue|) < workQueue.capacity
      ensures workQueue.queue == if ok then old(workQueue.queue) + [item] else old(workQueue.queue)
    {
      if timeOut < 0 {
        workQueue.Push(item);
        return true;
      }
      ok := workQueue.TimedPush(item, timeOut);
    }

    /** One pass of the loop body: `pop` the front item and invoke it. */
    method TakeNext() returns (item: WorkerItem)
      requires Valid() && workQueue.queue != []
      modifies this`stopping, this`invoked, workQueue, workQueue.queue[0]
      ensures Valid()
      ensures item == old(workQueue.queue[0]) && workQueue.queue == old(workQueue.queue[1..])
      ensures invoked == old(invoked) + [item]
      ensures item.completed && item.success == ActionResult(item.action)
      ensures stopping == (old(stopping) || IsStopItem(item))
    {
      item := workQueue.Pop();
      item.Invoke(owner);
      invoked := invoked + [item];
    }

    /** The background loop: pops and invokes items in FIFO order while
        `stopping` is false.  `exited` says the loop was left; otherwise the
        thread is parked in `pop` on the now empty queue.  A parked thread
        resumes inside `pop`: it takes and invokes the next item before it
        tests `stopping` again.  Otherwise exactly the items up to and
        including the first stop item are invoked, each once, and the items
        behind it stay queued. */
    method WorkerThreadMain() returns (exited: bool)
      requires Valid()
      modifies this`stopping, this`parked, this`invoked, workQueue, set i: WorkerItem | i in workQueue.queue
      ensures Valid()
      ensures parked == !exited
      ensures exited ==> stopping
      ensures !exited ==> workQueue.queue == []
      ensures var q := old(workQueue.queue);
        && stopping == (old(stopping) || HasStop(q))
        && exited == (stopping && !(old(parked) && q == []))
      ensures var q := old(workQueue.queue);
        var k := Taken(q, old(stopping), old(parked));
        && workQueue.queue == q[k..]
        && invoked == old(invoked) + q[..k]
        && (forall j :: 0 <= j < k ==> q[j].completed && q[j].success == ActionResult(q[j].action))
        && (forall j :: k <= j < |q| && q[j] !in q[..k] ==>
              q[j].completed == old(q[j].completed) && q[j].success == old(q[j].success))
      // a thread that is stopping and not waiting in `pop` leaves at once,
      // touching nothing
      ensures old(stopping) && !old(parked) ==>
        exited && stopping
        && workQueue.queue == old(workQueue.queue) && invoked == old(invoked)
        && (forall j :: 0 <= j < |old(workQueue.queue)| ==> unchanged(old(workQueue.queue)[j]))
    {
      ghost var q := workQueue.queue;
      ghost var k := 0;
      // a parked thread is inside the loop body, waiting in pop()
      var resume := parked;
      parked := false;
      while resume || !stopping
        invariant Valid() && !parked
        invariant 0 <= k <= |q|
        invariant resume ==> old(parked) && k == 0 && stopping == old(stopping)
        invariant !resume && old(parked) ==> 0 < k
        invariant old(stopping) ==> stopping && k == (if resume then 0 else Taken(q, true, old(parked)))
        invariant old(stopping) && k == 0 ==> forall j :: 0 <= j < |q| ==> unchanged(q[j])
        invariant workQueue.queue == q[k..]
        invariant invoked == old(invoked) + q[..k]
        invariant !stopping ==> forall j :: 0 <= j < k ==> !IsStopItem(q[j])
        invariant stopping && !old(stopping) ==>
          0 < k && IsStopItem(q[k - 1]) && forall j :: 0 <= j < k - 1 ==> !IsStopItem(q[j])
        invariant forall j :: 0 <= j < k ==> q[j].completed && q[j].success == ActionResult(q[j].action)
        invariant forall j :: k <= j < |q| && q[j] !in q[..k] ==>
          q[j].completed == old(q[j].completed) && q[j].success == old(q[j].success)
        decreases |q| - k
      {
        if workQueue.queue == [] {
          // pop() waits here for an item that no other step supplies
          assert k == |q|;
          assert !old(stopping) ==> !HasStop(q);
          parked := true;
          return false;
        }
        var item := TakeNext();
        assert q[..k + 1] == q[..k] + [item];
        k := k + 1;
        resume := false;
      }
      exited := true;
      if !old(stopping) {
        assert HasStop(q);
      }
    }

    /** The destructor: queue the stop item on the unbounded path, wait for
        it, and join the thread only if the stop succeeded.  The wait is where
        the background thread runs.  The destructor returns only while the
        loop is still running (otherwise the wait never ends), and the stop
        item type is private to the worker thread, so no other stop item can
        be queued already.  A thread already told to stop is still reached
        when it waits in `pop` on an empty queue: it takes the stop item. */
    method Destroy() returns (joined: bool)
      requires Valid()
      requires !stopping || (parked && workQueue.queue == [])
      requires forall j :: 0 <= j < |workQueue.queue| ==> !IsStopItem(workQueue.queue[j])
      modifies this`stopping, this`parked, this`invoked, workQueue, set i: WorkerItem | i in workQueue.queue
      ensures Valid() && stopping && !parked && joined
      ensures workQueue.queue == []
      ensures |invoked| == |old(invoked)| + |old(workQueue.queue)| + 1
      ensures invoked[..|invoked| - 1] == old(invoked) + old(workQueue.queue)
      ensures IsStopItem(invoked[|invoked| - 1]) && fresh(invoked[|invoked| - 1])
      ensures forall j :: 0 <= j < |old(workQueue.queue)| ==>
        old(workQueue.queue)[j].completed
        && old(workQueue.queue)[j].success == ActionResult(old(workQueue.queue)[j].action)
    {
      ghost var q0 := workQueue.queue;
      var stopItem := new WorkerItem(StopAction);
      var stopped := QueueWorkerItem(stopItem);
      if stopped {
        ghost var q := workQueue.queue;
        assert q == q0 + [stopItem];
        assert Taken(q, stopping, parked) == |q| by {
          assert IsStopItem(q[|q| - 1]);
          assert forall j :: 0 <= j < |q| - 1 ==> !IsStopItem(q[j]) by {
            forall j | 0 <= j < |q| - 1 ensures !IsStopItem(q[j]) {
              assert q[j] == q0[j];
            }
          }
        }
        var exited := WorkerThreadMain();
        assert q[..|q|] == q;
        assert forall j :: 0 <= j < |q0| ==> q0[j] == q[j];
        stopped := stopItem.Wait(-1);
      }
      joined := false;
      if stopped {
        joined := true;
      }
    }
  }

  /** One pass of `WorkerItem::wait`'s loop after the item's condition
      variable wakes the caller (`timedOut`: `wait_for` reported a timeout):
      the code returns only once the item is completed. */
  datatype WaitStep = Return(result: bool) | KeepWaiting

  function WaitRound(completed: bool, success: bool, waitMilliseconds: int, timedOut: bool): (s: WaitStep)
    ensures s.Return? <==> completed
    ensures s.Return? ==> s.result == success
  {
    if !completed then KeepWaiting
    else Return(success)
  }

  /** The behaviour the doc comment of `wait` describes: false once a
      non-negative timeout has been reached, the action's result otherwise. */
  function WaitRoundDocumented(completed: bool, success: bool, waitMilliseconds: int, timedOut: bool): (s: WaitStep)
    ensures s.Return? <==> completed || (0 <= waitMilliseconds && timedOut)
    ensures !completed && 0 <= waitMilliseconds && timedOut ==> s == Return(false)
    ensures completed ==> s == Return(success)
  {
    if completed then Return(success)
    else if 0 <= waitMilliseconds && timedOut then Return(false)
    else KeepWaiting
  }

  /** As written, a timeout is never reported: an incomplete item keeps the
      caller waiting where the documentation promises `false`. */
  lemma TimeoutIsNotReported(success: bool, waitMilliseconds: int)
    requires 0 <= waitMilliseconds
    ensures WaitRound(false, success, waitMilliseconds, true) == KeepWaiting
    ensures WaitRoundDocumented(false, success, waitMilliseconds, true) == Return(false)
  {
  }

  /** With a negative timeout (the only one the destructor uses) the code and
      its documentation agree. */
  lemma WaitRoundsAgreeWhenUnbounded(completed: bool, success: bool, waitMilliseconds: int, timedOut: bool)
    requires waitMilliseconds < 0
    ensures WaitRound(completed, success, waitMilliseconds, timedOut)
         == WaitRoundDocumented(completed, success, waitMilliseconds, timedOut)
  {
  }
}
