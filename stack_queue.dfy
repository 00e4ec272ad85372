/**
 * A FIFO queue built from two LIFO stacks (src/StackQueue.java): `enqueue`
 * pushes on `inStack`; `first` and `dequeue` read the top of `outStack`,
 * refilling it from `inStack` only when it has run empty.
 *
 * A stack is a sequence whose top is its last element, so `push` appends,
 * `pop` drops the last element and `peek` reads it. The queue the two stacks
 * stand for is `outStack` read from the top down, then `inStack` read from
 * the bottom up.
 */
module TwoStackQueue {
  import opened Options

  /** `s` back to front. */
  function Reverse<T>(s: seq<T>): (r: seq<T>)
    ensures |r| == |s|
    ensures forall i :: 0 <= i < |s| ==> r[i] == s[|s| - 1 - i]
  {
    if s == [] then [] else Reverse(s[1..]) + [s[0]]
  }

  /** Pushing `x` on a stack puts `x` at the front of the stack read top-down. */
  lemma ReverseSnoc<T>(s: seq<T>, x: T)
    ensures Reverse(s + [x]) == [x] + Reverse(s)
  {

  }

  /** Moving every element of one stack onto an empty one twice gives the original stack. */
  lemma ReverseReverse<T>(s: seq<T>)
    ensures Reverse(Reverse(s)) == s
  {

  }

  /** One call on the `Queue` interface. */
  datatype Op<T> = Enqueue(x: T) | Dequeue | First

  /** The `Queue` interface on a plain sequence, front first: the queue after one call. */
  function Next<T>(q: seq<T>, op: Op<T>): seq<T> {
    match op
    case Enqueue(x) => q + [x]
    case Dequeue => if q == [] then q else q[1..]
    case First => q
  }

  /** The answer of one call: `None` for `enqueue`, and for the null of an empty queue. */
  function Answer<T>(q: seq<T>, op: Op<T>): Option<T> {
    if op.Enqueue? || q == [] then None else Some(q[0])
  }

  /** The answers of a run of calls, one per call. */
  function Answers<T>(q: seq<T>, ops: seq<Op<T>>): (r: seq<Option<T>>)
    ensures |r| == |ops|
    decreases |ops|
  {
    if ops == [] then [] else [Answer(q, ops[0])] + Answers(Next(q, ops[0]), ops[1..])
  }

  /** The queue a run of calls leaves. */
  function Final<T>(q: seq<T>, ops: seq<Op<T>>): seq<T>
    decreases |ops|
  {
    if ops == [] then q else Final(Next(q, ops[0]), ops[1..])
  }

  /** What one call adds at the back: the value of an `enqueue`. */
  function Adds<T>(op: Op<T>): seq<T> {
    if op.Enqueue? then [op.x] else []
  }

  /** What one call hands out from the front: the value a `dequeue` answered with. */
  function Takes<T>(op: Op<T>, a: Option<T>): seq<T> {
    if op.Dequeue? && a.Some? then [a.value] else []
  }

  /** The values a run of calls enqueues, in order. */
  function Enqueued<T>(ops: seq<Op<T>>): seq<T> {
    if ops == [] then [] else Adds(ops[0]) + Enqueued(ops[1..])
  }

  /** The values `dequeue` calls handed out, in order, read off the answers. */
  function Served<T>(ops: seq<Op<T>>, answers: seq<Option<T>>): seq<T>
    requires |answers| == |ops|
  {
    if ops == [] then [] else Takes(ops[0], answers[0]) + Served(ops[1..], answers[1..])
  }

  /** One call keeps first in, first out: what it hands out, then the queue after it, is the queue before it, then what it adds. */
  lemma StepIsFifo<T>(q: seq<T>, op: Op<T>)
    ensures Takes(op, Answer(q, op)) + Next(q, op) == q + Adds(op)
  {

  }

  /** Concatenation regrouped: the induction step of `RunIsFifo`, on bare sequences. */
  lemma Regroup<T>(taken: seq<T>, served: seq<T>, last: seq<T>, q': seq<T>, enq: seq<T>, q: seq<T>, added: seq<T>)
    requires served + last == q' + enq
    requires taken + q' == q + added
    ensures (taken + served) + last == q + (added + enq)
  {
    calc {
      (taken + served) + last;
      taken + (served + last);
      taken + (q' + enq);
      (taken + q') + enq;
      (q + added) + enq;
    }
  }

  /**
   * First in, first out: whatever the interleaving of calls, the values
   * `dequeue` hands out followed by those still queued are the values that
   * were queued at the start followed by those enqueued, in order.
   */
  lemma {:induction false} RunIsFifo<T>(q: seq<T>, ops: seq<Op<T>>)
    ensures Served(ops, Answers(q, ops)) + Final(q, ops) == q + Enqueued(ops)
    decreases |ops|
  {
    if ops != [] {
      var op, rest, q' := ops[0], ops[1..], Next(q, ops[0]);
      RunIsFifo(q', rest);
      StepIsFifo(q, op);
      assert Answers(q, ops)[1..] == Answers(q', rest);
      Regroup(Takes(op, Answer(q, op)), Served(rest, Answers(q', rest)), Final(q', rest), q', Enqueued(rest), q, Adds(op));
    }
  }

  class StackQueue<T> {
    var inStack: seq<T>
    var outStack: seq<T>
    var size: int

    /** The queue, front first: `outStack` from the top down, then `inStack` from the bottom up. */
    ghost function Queue(): seq<T>
      reads this
    {
      Reverse(outStack) + inStack
    }

    /** `size` counts the elements of both stacks. */
    ghost predicate Valid()
      reads this
    {
      size == |inStack| + |outStack|
    }

    constructor ()
      ensures Valid() && Queue() == []
      ensures inStack == [] && outStack == [] && size == 0
    {
      inStack := [];
      outStack := [];
      size := 0;
    }

    function Size(): (n: int)
      reads this
      requires Valid()
      ensures n == |Queue()|
    {
      size
    }

    function IsEmpty(): (b: bool)
      reads this
      requires Valid()
      ensures b <==> Queue() == []
    {
      size == 0
    }

    method Enqueue(x: T)
      requires Valid()
      modifies this
      ensures Valid() && Queue() == old(Queue()) + [x] && Queue() == Next(old(Queue()), Op.Enqueue(x))
      ensures inStack == old(inStack) + [x] && outStack == old(outStack) && size == old(size) + 1
    {
      inStack := inStack + [x];
      size := size + 1;
    }

    /**
     * Pops every element of `inStack` and pushes it on `outStack`, so the
     * bottom of `inStack` ends on top of `outStack`.
     */
    method MoveInToOut()
      modifies this
      ensures inStack == [] && outStack == old(outStack) + Reverse(old(inStack))
      ensures size == old(size)
    {
      while inStack != []
        invariant inStack == old(inStack)[..|inStack|]
        invariant outStack == old(outStack) + Reverse(old(inStack)[|inStack|..])
        invariant size == old(size)
        decreases |inStack|
      {
        var n := |inStack|;
        var x := inStack[n - 1];
        inStack := inStack[..n - 1];
        outStack := outStack + [x];
        assert old(inStack)[n - 1..] == [x] + old(inStack)[n..];
      }
    }

    /** The refill step shared by `first`, `dequeue` and `toString`: only an empty `outStack` is refilled. */
    method Refill()
      requires Valid()
      modifies this
      ensures Valid() && Queue() == old(Queue())
      ensures old(outStack) == [] ==> inStack == [] && outStack == Reverse(old(inStack))
      ensures old(outStack) != [] ==> inStack == old(inStack) && outStack == old(outStack)
      ensures Queue() != [] ==> outStack != []
    {
      if outStack == [] {
        MoveInToOut();
        ReverseReverse(old(inStack));
      }
    }

    /** The front element without removing it; `None` (Java's null) on an empty queue. */
    method First() returns (r: Option<T>)
      requires Valid()
      modifies this
      ensures Valid() && Queue() == old(Queue())
      ensures r == None <==> old(Queue()) == []
      ensures r != None ==> r.value == old(Queue())[0]
      ensures r == Answer(old(Queue()), Op.First) && Queue() == Next(old(Queue()), Op.First)
      ensures old(Queue()) == [] ==> inStack == old(inStack) && outStack == old(outStack)
      ensures old(Queue()) != [] && old(outStack) == [] ==> inStack == [] && outStack == Reverse(old(inStack))
      ensures old(outStack) != [] ==> inStack == old(inStack) && outStack == old(outStack)
    {
      if IsEmpty() {
        return None;
      }
      Refill();
      r := Some(outStack[|outStack| - 1]);
    }

    /** Removes and returns the front element; `None` (Java's null) on an empty queue. */
    method Dequeue() returns (r: Option<T>)
      requires Valid()
      modifies this
      ensures Valid()
      ensures r == None <==> old(Queue()) == []
      ensures old(Queue()) == [] ==> inStack == old(inStack) && outStack == old(outStack)
      ensures old(Queue()) != [] ==> r == Some(old(Queue())[0]) && Queue() == old(Queue())[1..]
      ensures r == Answer(old(Queue()), Op.Dequeue) && Queue() == Next(old(Queue()), Op.Dequeue)
      ensures old(Queue()) != [] && old(outStack) == [] ==> inStack == [] && outStack == Reverse(old(inStack))[..|old(inStack)| - 1]
      ensures old(outStack) != [] ==> inStack == old(inStack) && outStack == old(outStack)[..|old(outStack)| - 1]
    {
      if IsEmpty() {
        return None;
      }
      Refill();
      var n := |outStack|;
      var x := outStack[n - 1];
      ghost var o := outStack;
      size := size - 1;
      outStack := outStack[..n - 1];
      ReverseSnoc(outStack, x);
      assert o == outStack + [x];
      r := Some(x);
    }

    /**
     * One `while (!outStack.empty())` loop of `toString`: pops `outStack`
     * empty and returns what it popped, in order.
     */
    method DrainOut() returns (popped: seq<T>)
      modifies this
      ensures popped == Reverse(old(outStack))
      ensures outStack == [] && inStack == old(inStack) && size == old(size)
    {
      popped := [];
      while outStack != []
        invariant popped + Reverse(outStack) == Reverse(old(outStack))
        invariant inStack == old(inStack) && size == old(size)
        decreases |outStack|
      {
        var n := |outStack|;
        var x := outStack[n - 1];
        ReverseSnoc(outStack[..n - 1], x);
        assert outStack == outStack[..n - 1] + [x];
        outStack := outStack[..n - 1];
        popped := popped + [x];
      }
    }

    /** The last loop of `toString`: pops the scratch stack `temp` empty onto `outStack`. */
    method PourBack(temp: seq<T>)
      modifies this
      ensures outStack == old(outStack) + Reverse(temp)
      ensures inStack == old(inStack) && size == old(size)
    {
      var t := temp;
      while t != []
        invariant t == temp[..|t|]
        invariant outStack == old(outStack) + Reverse(temp[|t|..])
        invariant inStack == old(inStack) && size == old(size)
        decreases |t|
      {
        var n := |t|;
        var x := t[n - 1];
        t := t[..n - 1];
        outStack := outStack + [x];
        assert temp[n - 1..] == [x] + temp[n..];
      }
    }

    /**
     * The walk of `toString`: the values in the order they are printed. Both
     * stacks are popped onto a scratch stack, which is then poured back into
     * `outStack`; the queue is unchanged, but all of it ends in `outStack`.
     */
    method ToString() returns (shown: seq<T>)
      requires Valid()
      modifies this
      ensures Valid() && shown == old(Queue()) && Queue() == old(Queue())
      ensures old(Queue()) == [] ==> inStack == old(inStack) && outStack == old(outStack)
      ensures old(Queue()) != [] ==> inStack == [] && outStack == Reverse(old(Queue()))
    {
      shown := [];
      if IsEmpty() {
        return;
      }
      Refill();
      var front := DrainOut();
      ghost var rest := inStack;
      MoveInToOut();
      var back := DrainOut();
      ReverseReverse(rest);
      shown := front + back;
      var temp := front + back;
      PourBack(temp);
      ReverseReverse(temp);
    }
  }

  /** One call on a two-stack queue answers and moves the queue as the `Queue` interface does. */
  method Call<T>(q: StackQueue<T>, op: Op<T>) returns (a: Option<T>)
    requires q.Valid()
    modifies q
    ensures q.Valid() && a == Answer(old(q.Queue()), op) && q.Queue() == Next(old(q.Queue()), op)
  {
    match op
    case Enqueue(x) =>
      q.Enqueue(x);
      a := None;
    case Dequeue =>
      a := q.Dequeue();
    case First =>
      a := q.First();
  }

  /**
   * Any run of `enqueue`, `dequeue` and `first` calls on a two-stack queue
   * answers as the `Queue` interface does, and so keeps first in, first out:
   * the values dequeued, then those left, are the values queued at the start,
   * then those enqueued.
   */
  method Replay<T>(q: StackQueue<T>, ops: seq<Op<T>>) returns (answers: seq<Option<T>>)
    requires q.Valid()
    modifies q
    ensures q.Valid()
    ensures answers == Answers(old(q.Queue()), ops) && q.Queue() == Final(old(q.Queue()), ops)
    ensures Served(ops, answers) + q.Queue() == old(q.Queue()) + Enqueued(ops)
  {
    answers := [];
    var i := 0;
    while i < |ops|
      invariant 0 <= i <= |ops| && q.Valid()
      invariant answers + Answers(q.Queue(), ops[i..]) == Answers(old(q.Queue()), ops)
      invariant Final(q.Queue(), ops[i..]) == Final(old(q.Queue()), ops)
      decreases |ops| - i
    {
      ghost var before := q.Queue();
      var a := Call(q, ops[i]);
      assert ops[i..][1..] == ops[i + 1..];
      assert Answers(before, ops[i..]) == [a] + Answers(q.Queue(), ops[i + 1..]);
      assert Final(before, ops[i..]) == Final(q.Queue(), ops[i + 1..]);
      answers := answers + [a];
      i := i + 1;
    }
    assert ops[i..] == [];
    RunIsFifo(old(q.Queue()), ops);
  }

  /**
   * The first half of the queue demo: `enqueue 0`, `first`, `enqueue 1`,
   * `enqueue 2`, `dequeue`, `toString`, `first`, with what each query answers.
   */
  method QueueDemoStart() returns (q: StackQueue<int>, first1: Option<int>, removed1: Option<int>, shown1: seq<int>, first2: Option<int>)
    ensures fresh(q) && q.Valid() && q.Queue() == [1, 2]
    ensures first1 == Some(0) && removed1 == Some(0) && shown1 == [1, 2] && first2 == Some(1)
  {
    q := new StackQueue<int>();
    q.Enqueue(0);
    first1 := q.First();
    assert q.Queue() == [0];
    q.Enqueue(1);
    q.Enqueue(2);
    assert q.Queue() == [0, 1, 2];
    removed1 := q.Dequeue();
    assert q.Queue() == [1, 2];
    shown1 := q.ToString();
    first2 := q.First();
  }

  /**
   * The whole queue demo: after its first half, `enqueue 3`, `enqueue 4`,
   * `enqueue 5`, `toString`, `dequeue`, `toString`, `first`.
   */
  method QueueDemo() returns (first1: Option<int>, removed1: Option<int>, shown1: seq<int>, first2: Option<int>,
                              shown2: seq<int>, removed2: Option<int>, shown3: seq<int>, first3: Option<int>)
    ensures first1 == Some(0) && removed1 == Some(0) && shown1 == [1, 2] && first2 == Some(1)
    ensures shown2 == [1, 2, 3, 4, 5] && removed2 == Some(1) && shown3 == [2, 3, 4, 5] && first3 == Some(2)
  {
    var q;
    q, first1, removed1, shown1, first2 := QueueDemoStart();
    q.Enqueue(3);
    q.Enqueue(4);
    q.Enqueue(5);
    assert q.Queue() == [1, 2, 3, 4, 5];
    shown2 := q.ToString();
    removed2 := q.Dequeue();
    assert q.Queue() == [2, 3, 4, 5];
    shown3 := q.ToString();
    first3 := q.First();
  }
}
