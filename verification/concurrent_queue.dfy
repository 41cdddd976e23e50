/** The thread-safe FIFO work queue (MathLib::ConcurrentQueue<T>).

    Every public operation of the source runs under one mutex, so each is
    modelled as one atomic step.  Blocking is a precondition (`Pop` needs an
    item); a timed wait ends with the value of its predicate at the moment
    the step takes effect, so `TimedPop` fails exactly when the queue is
    empty and `TimedPush` fails exactly when `size >= capacity`. */
module Queues {
  import opened AsioTypes

  /** Capacity used by the default constructor. */
  const DefaultCapacity: int := 100

  /** The four public operations, as steps of a trace. */
  datatype QueueOp<T> = Push(item: T) | TimedPush(item: T) | Pop | TimedPop

  /** Effect of one step: the new contents, whether the call returned
      successfully (for `Pop`: whether it returned at all rather than
      blocking), and the item it took from the front. */
  datatype StepResult<T> = StepResult(items: seq<T>, ok: bool, taken: Option<T>)

  /** Items a step appended at the back. */
  function Entered<T>(op: QueueOp<T>, ok: bool): seq<T>
  {
    if ok && (op.Push? || op.TimedPush?) then [op.item] else []
  }

  /** Items a step removed from the front. */
  function Left<T>(taken: Option<T>): seq<T>
  {
    if taken.Some? then [taken.value] else []
  }

  /** One locked region of the queue, on the abstract contents.  The
      counter `v_size` is `|items|` (see `ConcurrentQueue.Valid`). */
  function Step<T>(items: seq<T>, capacity: int, op: QueueOp<T>): (r: StepResult<T>)
    // FIFO: what was there plus what entered is what left followed by what remains
    ensures items + Entered(op, r.ok) == Left(r.taken) + r.items
    // the untimed push never fails, whatever the capacity
    ensures op.Push? ==> r.ok && |r.items| == |items| + 1
    // the timed push succeeds exactly when there is room
    ensures op.TimedPush? ==> (r.ok <==> |items| < capacity)
    // a successful push appends its item at the back and takes nothing
    ensures (op.Push? || op.TimedPush?) && r.ok ==> r.items == items + [op.item] && r.taken == None
    // both pops take the front element exactly when there is one
    ensures (op.Pop? || op.TimedPop?) ==> (r.ok <==> items != []) && (r.ok ==> r.taken == Some(items[0]))
    ensures !r.ok ==> r.items == items && r.taken == None
  {
    match op
    case Push(x) => StepResult(items + [x], true, None)
    case TimedPush(x) =>
      if |items| < capacity then StepResult(items + [x], true, None)
      else StepResult(items, false, None)
    case _ =>
      if items != [] then StepResult(items[1..], true, Some(items[0]))
      else StepResult(items, false, None)
  }

  /** Result of a whole trace: the final contents, every item that entered
      and every item that left, in order. */
  datatype RunResult<T> = RunResult(items: seq<T>, entered: seq<T>, left: seq<T>)

  function Run<T>(items: seq<T>, capacity: int, ops: seq<QueueOp<T>>): RunResult<T>
    decreases |ops|
  {
    if ops == [] then RunResult(items, [], [])
    else
      var s := Step(items, capacity, ops[0]);
      var rest := Run(s.items, capacity, ops[1..]);
      RunResult(rest.items, Entered(ops[0], s.ok) + rest.entered, Left(s.taken) + rest.left)
  }

  /** Items leave in the order they entered, whichever push path inserted
      them: over any trace, the initial contents followed by everything that
      entered equals everything that left followed by what remains. */
  lemma {:induction false} RunIsFifo<T>(items: seq<T>, capacity: int, ops: seq<QueueOp<T>>)
    ensures items + Run(items, capacity, ops).entered
         == Run(items, capacity, ops).left + Run(items, capacity, ops).items
    decreases |ops|
  {
    if ops != [] {
      var s := Step(items, capacity, ops[0]);
      var rest := Run(s.items, capacity, ops[1..]);
      assert Run(items, capacity, ops)
          == RunResult(rest.items, Entered(ops[0], s.ok) + rest.entered, Left(s.taken) + rest.left);
      RunIsFifo(s.items, capacity, ops[1..]);
      var a, b, c := Entered(ops[0], s.ok), Left(s.taken), rest.entered;
      assert items + a == b + s.items;
      assert items + (a + c) == (items + a) + c;
      assert (b + s.items) + c == b + (s.items + c);
    }
  }

  /** The sequence of items taken is a prefix of the initial contents
      followed by the items that entered. */
  lemma LeftIsPrefixOfEntered<T>(items: seq<T>, capacity: int, ops: seq<QueueOp<T>>)
    ensures var r := Run(items, capacity, ops);
      |r.left| <= |items| + |r.entered| && r.left == (items + r.entered)[..|r.left|]
  {
    RunIsFifo(items, capacity, ops);
    var r := Run(items, capacity, ops);
    assert (items + r.entered)[..|r.left|] == (r.left + r.items)[..|r.left|];
  }

  /** A trace that adds items only through the timed push path. */
  predicate OnlyTimedPushes<T>(ops: seq<QueueOp<T>>)
  {
    forall i :: 0 <= i < |ops| ==> !ops[i].Push?
  }

  /** Backpressure: when only `TimedPush` adds items, a queue that starts
      within its capacity stays within it after every trace (and so at every
      observation point, each being the end of a shorter trace). */
  lemma {:induction false} TimedPushKeepsBound<T>(items: seq<T>, capacity: int, ops: seq<QueueOp<T>>)
    requires |items| <= capacity
    requires OnlyTimedPushes(ops)
    ensures |Run(items, capacity, ops).items| <= capacity
    decreases |ops|
  {
    if ops != [] {
      var s := Step(items, capacity, ops[0]);
      assert !ops[0].Push?;
      assert OnlyTimedPushes(ops[1..]) by {
        forall i | 0 <= i < |ops[1..]| ensures !ops[1..][i].Push? {
          assert ops[1..][i] == ops[i + 1];
        }
      }
      TimedPushKeepsBound(s.items, capacity, ops[1..]);
    }
  }

  /** The untimed push ignores the capacity: from a full queue it still
      grows, so the bound of `TimedPushKeepsBound` needs its hypothesis. */
  lemma PushExceedsCapacity<T>(items: seq<T>, capacity: int, x: T)
    requires |items| == capacity
    ensures |Run(items, capacity, [Push(x)]).items| == capacity + 1
  {
    assert [Push(x)][1..] == [];
  }

  /** The queue object: `v_queue`, `v_size` and `v_capacity`. */
  class ConcurrentQueue<T> {
    var queue: seq<T>
    var size: int
    const capacity: int

    /** `v_size` counts the items of `v_queue` after every operation. */
    ghost predicate Valid()
      reads this
    {
      size == |queue|
    }

    /** `ConcurrentQueue(int capacity)`. */
    constructor (capacity: int)
      ensures Valid() && queue == [] && size == 0 && this.capacity == capacity
    {
      queue := [];
      size := 0;
      this.capacity := capacity;
    }

    /** `ConcurrentQueue()`: capacity 100. */
    constructor Default()
      ensures Valid() && queue == [] && size == 0 && capacity == DefaultCapacity
    {
      queue := [];
      size := 0;
      capacity := DefaultCapacity;
    }

    /** Blocks while the queue is empty, then removes and returns the front. */
    method Pop() returns (val: T)
      requires Valid()
      requires queue != []
      modifies this
      ensures Valid()
      ensures val == old(queue)[0] && queue == old(queue)[1..] && size == old(size) - 1
      ensures Step(old(queue), capacity, QueueOp.Pop) == StepResult(queue, true, Some(val))
    {
      val := queue[0];
      queue := queue[1..];
      size := size - 1;
    }

    /** Waits at most `seconds` for an item; on success writes the front into
        the reference argument (here returned as `t'`), otherwise leaves both
        the queue and the argument as they were. */
    method TimedPop(t: T, seconds: int) returns (ok: bool, t': T)
      requires Valid()
      modifies this
      ensures Valid()
      ensures ok <==> old(queue) != []
      ensures ok ==> t' == old(queue)[0] && queue == old(queue)[1..] && size == old(size) - 1
      ensures !ok ==> t' == t && queue == old(queue) && size == old(size)
      ensures Step(old(queue), capacity, QueueOp.TimedPop) == StepResult(queue, ok, if ok then Some(t') else None)
    {
      if queue == [] {
        return false, t;
      }
      t' := queue[0];
      queue := queue[1..];
      size := size - 1;
      ok := true;
    }

    /** Appends at the back without looking at the capacity. */
    method Push(item: T)
      requires Valid()
      modifies this
      ensures Valid()
      ensures queue == old(queue) + [item] && size == old(size) + 1
      ensures Step(old(queue), capacity, QueueOp.Push(item)) == StepResult(queue, true, None)
    {
      queue := queue + [item];
      size := size + 1;
    }

    /** Waits at most `seconds` for `size < capacity`; appends on success and
        changes nothing on timeout. */
    method TimedPush(item: T, seconds: int) returns (ok: bool)
      requires Valid()
      modifies this
      ensures Valid()
      ensures ok <==> old(size) < capacity
      ensures ok ==> queue == old(queue) + [item] && size == old(size) + 1
      ensures !ok ==> queue == old(queue) && size == old(size)
      ensures Step(old(queue), capacity, QueueOp.TimedPush(item)) == StepResult(queue, ok, None)
    {
      if capacity > size {
        queue := queue + [item];
        size := size + 1;
        ok := true;
      } else {
        ok := false;
      }
    }
  }
}
