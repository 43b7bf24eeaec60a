/** The queue shared between threads. Each operation runs under the queue's own mutex, so a run is a
    sequence of operations. */
module SynchronousQueues {
  import opened Wrappers

  datatype Operation<T> = Push(entry: T) | Pop | Clear

  /** The queue after an operation. */
  function After<T>(queue: seq<T>, op: Operation<T>): seq<T> {
    match op
    case Push(entry) => queue + [entry]
    case Pop => if queue == [] then [] else queue[1..]
    case Clear => []
  }

  /** What an operation hands out. */
  function Given<T>(queue: seq<T>, op: Operation<T>): Option<T> {
    if op.Pop? && queue != [] then Some(queue[0]) else None
  }

  class SynchronousQueue<T> {
    var queue: seq<T>

    constructor ()
      ensures queue == []
    {
      queue := [];
    }

    method IsEmpty() returns (empty: bool)
      ensures empty <==> queue == []
    {
      empty := |queue| == 0;
    }

    method GetSize() returns (size: nat)
      ensures size == |queue|
    {
      size := |queue|;
    }

    method Push(entry: T)
      modifies this
      ensures queue == After(old(queue), Operation.Push(entry))
    {
      queue := queue + [entry];
    }

    /** Takes the front entry; reports nothing, and changes nothing, when there is none. */
    method Pop() returns (entry: Option<T>)
      modifies this
      ensures queue == After(old(queue), Operation.Pop) && entry == Given(old(queue), Operation.Pop)
    {
      if |queue| == 0 {
        return None;
      }
      entry := Some(queue[0]);
      queue := queue[1..];
    }

    method Clear()
      modifies this
      ensures queue == After(old(queue), Operation.Clear)
    {
      queue := [];
    }
  }

  // ----- Any run of operations -----

  function Run<T>(queue: seq<T>, ops: seq<Operation<T>>): seq<T>
    decreases |ops|
  {
    if ops == [] then queue else Run(After(queue, ops[0]), ops[1..])
  }

  function In<T>(op: Operation<T>): seq<T> {
    if op.Push? then [op.entry] else []
  }

  function Out<T>(queue: seq<T>, op: Operation<T>): seq<T> {
    match Given(queue, op)
    case Some(entry) => [entry]
    case None => []
  }

  function Pushed<T>(ops: seq<Operation<T>>): seq<T> {
    if ops == [] then [] else In(ops[0]) + Pushed(ops[1..])
  }

  function Popped<T>(queue: seq<T>, ops: seq<Operation<T>>): seq<T>
    decreases |ops|
  {
    if ops == [] then [] else Out(queue, ops[0]) + Popped(After(queue, ops[0]), ops[1..])
  }

  lemma OneOperation<T>(queue: seq<T>, op: Operation<T>)
    requires !op.Clear?
    ensures Out(queue, op) + After(queue, op) == queue + In(op)
  {
  }

  lemma Regroup<T>(queue: seq<T>, given: seq<T>, next: seq<T>, taken: seq<T>, popped: seq<T>, left: seq<T>, pushed: seq<T>)
    requires given + next == queue + taken && popped + left == next + pushed
    ensures given + popped + left == queue + (taken + pushed)
  {
    assert given + popped + left == given + (popped + left);
    assert given + (next + pushed) == (given + next) + pushed;
    assert queue + taken + pushed == queue + (taken + pushed);
  }

  /** Entries leave in the order they came in, none lost and none twice. */
  lemma {:induction false} FirstInFirstOut<T>(queue: seq<T>, ops: seq<Operation<T>>)
    requires forall i | 0 <= i < |ops| :: !ops[i].Clear?
    ensures Popped(queue, ops) + Run(queue, ops) == queue + Pushed(ops)
    decreases |ops|
  {
    hide After, In, Out;
    if ops != [] {
      var op, rest := ops[0], ops[1..];
      OneOperation(queue, op);
      FirstInFirstOut(After(queue, op), rest);
      Regroup(queue, Out(queue, op), After(queue, op), In(op), Popped(After(queue, op), rest), Run(queue, ops), Pushed(rest));
    }
  }
}
