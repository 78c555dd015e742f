/** The tag stack of the item parser (webCrawler/webScraper/tokenStack.go)
    and the string FIFO queue of the crawl controller
    (webCrawler/webCrawlerController.go), as immutable sequences. */
module TokenStack {
  import opened Html

  /** The top of the stack is the last element. */
  type Stack = seq<Token>

  /** stack.push */
  function Push(s: Stack, t: Token): (r: Stack)
    ensures |r| == |s| + 1 && r[|s|] == t
    ensures forall i :: 0 <= i < |s| ==> r[i] == s[i]
  {
    s + [t]
  }

  datatype Popped = Popped(top: Token, ok: bool, stack: Stack)

  /** stack.pop: the top element and true, or the zero token and false. */
  function Pop(s: Stack): (r: Popped)
    ensures |s| == 0 ==> r == Popped(ZeroToken, false, [])
    ensures |s| > 0 ==> r.ok && r.top == s[|s| - 1] && r.stack + [r.top] == s
  {
    if |s| == 0 then Popped(ZeroToken, false, s)
    else Popped(s[|s| - 1], true, s[..|s| - 1])
  }

  /** The stack is last-in first-out: popping undoes a push. */
  lemma PushThenPop(s: Stack, t: Token)
    ensures Pop(Push(s, t)) == Popped(t, true, s)
  {
    assert Push(s, t)[..|s|] == s;
  }
}

module StringQueue {

  /** The front of the queue is the first element. */
  type Queue = seq<string>

  /** Queue.enqueue */
  function Enqueue(q: Queue, x: string): (r: Queue)
    ensures |r| == |q| + 1 && r[|q|] == x
    ensures forall i :: 0 <= i < |q| ==> r[i] == q[i]
  {
    q + [x]
  }

  /** Queue.enqueueList: the strings are enqueued one by one, in order. */
  function EnqueueList(q: Queue, xs: seq<string>): (r: Queue)
    ensures |r| == |q| + |xs|
    ensures forall i :: 0 <= i < |q| ==> r[i] == q[i]
    ensures forall j :: 0 <= j < |xs| ==> r[|q| + j] == xs[j]
    decreases |xs|
  {
    if |xs| == 0 then q else EnqueueList(Enqueue(q, xs[0]), xs[1..])
  }

  datatype Dequeued = Dequeued(front: string, queue: Queue)

  /** Queue.dequeue: the front element, or "" on an empty queue. */
  function Dequeue(q: Queue): (r: Dequeued)
    ensures |q| == 0 ==> r == Dequeued("", [])
    ensures |q| > 0 ==> r.front == q[0] && [r.front] + r.queue == q
  {
    if |q| == 0 then Dequeued("", q) else Dequeued(q[0], q[1..])
  }

  /** The queue is first-in first-out: what is enqueued behind a non-empty
      queue does not change what comes out first, and an element enqueued
      into an empty queue is the next one out. */
  lemma {:induction false} FirstInFirstOut(q: Queue, x: string)
    ensures |q| > 0 ==> Dequeue(Enqueue(q, x)) == Dequeued(q[0], Enqueue(q[1..], x))
    ensures |q| == 0 ==> Dequeue(Enqueue(q, x)) == Dequeued(x, [])
  {
    if |q| > 0 {
      assert Enqueue(q, x)[1..] == q[1..] + [x];
    }
  }

  /** Draining the queue built by EnqueueList returns the list in order. */
  function Drain(q: Queue): (r: seq<string>)
    ensures |r| == |q|
    decreases |q|
  {
    if |q| == 0 then [] else var d := Dequeue(q); [d.front] + Drain(d.queue)
  }

  lemma {:induction false} DrainIsIdentity(q: Queue)
    ensures Drain(q) == q
    decreases |q|
  {
    if |q| > 0 {
      DrainIsIdentity(q[1..]);
    }
  }

  lemma {:induction false} EnqueueListThenDrain(xs: seq<string>)
    ensures Drain(EnqueueList([], xs)) == xs
  {
    DrainIsIdentity(EnqueueList([], xs));
    assert EnqueueList([], xs) == xs;
  }
}
