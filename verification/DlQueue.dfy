/**
  DlQueue: a bounded queue whose push and pop run under one lock.
 */
module DlQueues {
  import opened Bytes

  const DEFAULT_QUEUE_SIZE: nat := 8

  function Pushed<T>(queue: seq<T>, max: nat, item: T): seq<T> {
    if |queue| >= max then queue else queue + [item]
  }

  function Popped<T>(queue: seq<T>): seq<T> {
    if queue == [] then [] else queue[1..]
  }

  class DlQueue<T> {
    var queue: seq<T>
    const maxQueueSize: nat

    constructor (maxQueueSize: nat)
      ensures Valid() && queue == []
      ensures this.maxQueueSize == if maxQueueSize == 0 then DEFAULT_QUEUE_SIZE else maxQueueSize
    {
      queue := [];
      this.maxQueueSize := if maxQueueSize == 0 then DEFAULT_QUEUE_SIZE else maxQueueSize;
    }

    ghost predicate Valid()
      reads this
    {
      0 < maxQueueSize && |queue| <= maxQueueSize
    }

    method Push(item: T) returns (ret: int)
      requires Valid()
      modifies this
      ensures Valid() && queue == Pushed(old(queue), maxQueueSize, item)
      ensures |old(queue)| < maxQueueSize ==> ret == 0 && queue == old(queue) + [item]
      ensures |old(queue)| == maxQueueSize ==> ret == -1 && queue == old(queue)
    {
      if |queue| >= maxQueueSize {
        return -1;
      }
      queue := queue + [item];
      return 0;
    }

    /** The item is None where the C++ out-parameter is left as it was. */
    method Pop() returns (ret: int, item: Option<T>)
      requires Valid()
      modifies this
      ensures Valid() && queue == Popped(old(queue))
      ensures old(queue) == [] ==> ret == -1 && item == None && queue == []
      ensures old(queue) != [] ==> ret == 0 && item.Some? && old(queue) == [item.value] + queue
    {
      if queue == [] {
        return -1, None;
      }
      item := Some(queue[0]);
      queue := queue[1..];
      return 0, item;
    }
  }
}

/**
  The producer of the message thread and a consumer, both using one DlQueue. When a push fails,
  the producer drops the oldest item and pushes again; pushes and pops are atomic, so the
  consumer can get in between. Items are known by the frames they are made from, and a frame is
  counted when the producer takes it up, whatever becomes of it.
 */
module OutputQueue {
  import opened DlQueues

  /**
    Where the producer stands: waiting for a frame, in front of its first push, its drop or its
    second push, or behind the NULL pointer of an item that was not popped. `taken` counts what the
    consumer took since the push failed.
   */
  datatype Producer =
    | Receiving
    | Pushing(item: nat)
    | Dropping(item: nat, taken: nat)
    | PushingAgain(item: nat)
    | Crashed(item: nat)

  /**
    `frames` have been taken up; `removed` lists the items that have left the queue, in order, and
    each of them was delivered to the consumer or dropped by the producer.
   */
  datatype State = State(queue: seq<nat>, producer: Producer, frames: nat,
                         removed: seq<nat>, delivered: seq<nat>, dropped: seq<nat>, assertFailed: bool)

  datatype Step = Produce | Consume

  const INITIAL := State([], Receiving, 0, [], [], [], false)

  function Do(s: State, step: Step, max: nat): State {
    match step
    case Consume =>
      if s.queue == [] then s
      else
        s.(queue := Popped(s.queue), removed := s.removed + [s.queue[0]], delivered := s.delivered + [s.queue[0]],
           producer := Noticed(s.producer))
    case Produce =>
      match s.producer
      case Receiving => s.(frames := s.frames + 1, producer := Pushing(s.frames))
      case Pushing(item) =>
        if |s.queue| >= max then s.(producer := Dropping(item, 0))
        else s.(queue := Pushed(s.queue, max, item), producer := Receiving)
      case Dropping(item, _) =>
        if s.queue == [] then s.(producer := Crashed(item))
        else
          s.(queue := Popped(s.queue), removed := s.removed + [s.queue[0]], dropped := s.dropped + [s.queue[0]],
             producer := PushingAgain(item))
      case PushingAgain(item) =>
        if |s.queue| >= max then s.(assertFailed := true)
        else s.(queue := Pushed(s.queue, max, item), producer := Receiving)
      case Crashed(_) => s
  }

  function Noticed(producer: Producer): Producer {
    if producer.Dropping? then producer.(taken := producer.taken + 1) else producer
  }

  // ----- the invariant

  /** What the producer has taken up and not yet pushed. */
  function InHand(producer: Producer): seq<nat> {
    if producer.Receiving? then [] else [producer.item]
  }

  /** The items in the order of their frames. */
  predicate Counts(items: seq<nat>) {
    forall k :: 0 <= k < |items| ==> items[k] == k
  }

  predicate Increasing(items: seq<nat>) {
    forall i, j :: 0 <= i < j < |items| ==> items[i] < items[j]
  }

  /** `items` are some of the first `n` items, in order. */
  predicate Among(items: seq<nat>, n: nat) {
    Increasing(items) && forall k :: 0 <= k < |items| ==> items[k] < n
  }

  ghost predicate Inv(s: State, max: nat) {
    && 0 < max && |s.queue| <= max
    && |s.removed| + |s.queue| + |InHand(s.producer)| == s.frames
    && Counts(s.removed + s.queue) && (!s.producer.Receiving? ==> s.producer.item == s.frames - 1)
    && Among(s.delivered, |s.removed|) && Among(s.dropped, |s.removed|)
    && (forall k: nat :: k < |s.removed| ==> (k in s.delivered <==> k !in s.dropped))
    && (s.producer.Dropping? ==> |s.queue| + s.producer.taken == max)
    && (s.producer.PushingAgain? ==> |s.queue| < max)
    && !s.assertFailed
  }

  lemma OneMore(items: seq<nat>, n: nat)
    requires Among(items, n)
    ensures Among(items + [n], n + 1) && Among(items, n + 1) && n !in items
    ensures forall k: nat :: k < n ==> (k in items + [n] <==> k in items)
  {
  }

  lemma StepKeepsInv(s: State, step: Step, max: nat)
    requires Inv(s, max)
    ensures Inv(Do(s, step, max), max)
  {
    OneMore(s.delivered, |s.removed|);
    OneMore(s.dropped, |s.removed|);
    var all := s.removed + s.queue;
    if s.queue != [] {
      assert (s.removed + [s.queue[0]]) + s.queue[1..] == all;
      assert all[|s.removed|] == |s.removed|;
    }
    if !s.producer.Receiving? {
      assert s.removed + (s.queue + [s.producer.item]) == all + [s.producer.item];
    }
  }

  /** A run, in any interleaving. */
  ghost predicate Run(run: nat -> State, max: nat) {
    run(0) == INITIAL && forall k: nat :: Follows(run(k), run(k + 1), max)
  }

  ghost predicate Follows(s: State, t: State, max: nat) {
    exists step :: t == Do(s, step, max)
  }

  lemma {:induction false} RunKeepsInv(run: nat -> State, max: nat, k: nat)
    requires Run(run, max) && 0 < max
    ensures Inv(run(k), max)
  {
    hide Do, Inv;
    if k == 0 {
      InitialInv(max);
    } else {
      RunKeepsInv(run, max, k - 1);
      assert Follows(run(k - 1), run(k - 1 + 1), max);
      var step :| run(k) == Do(run(k - 1), step, max);
      StepKeepsInv(run(k - 1), step, max);
    }
  }

  lemma InitialInv(max: nat)
    requires 0 < max
    ensures Inv(INITIAL, max)
  {
  }

  /**
    In every interleaving, no frame is lost: the items removed so far, in order, then the queue,
    then the item in hand, if there is one, are all the frames taken up. Each removed item was
    delivered or dropped, never both and never twice; deliveries keep the order; the queue never
    holds more than its maximum; and the push behind a drop succeeds, so the assert holds.
   */
  lemma QueueSafe(run: nat -> State, max: nat, k: nat)
    requires Run(run, max) && 0 < max
    ensures var s := run(k);
            && s.removed + s.queue + InHand(s.producer) == seq(s.frames, i => i)
            && Increasing(s.delivered) && Increasing(s.dropped)
            && (forall item: nat :: item < |s.removed| ==> (item in s.delivered <==> item !in s.dropped))
            && |s.queue| <= max && !s.assertFailed
  {
    RunKeepsInv(run, max, k);
  }

  /** How many steps the producer still makes before the item in hand is in the queue. */
  function StepsLeft(producer: Producer): nat {
    match producer
    case Receiving => 0
    case Pushing(_) => 3
    case Dropping(_, _) => 2
    case PushingAgain(_) => 1
    case Crashed(_) => 0
  }

  /**
    A frame taken up is brought into the queue in at most three more steps of the producer, and no
    step of the consumer takes it back, unless the drop finds nothing.
   */
  lemma FrameIsQueued(run: nat -> State, max: nat, k: nat)
    requires Run(run, max) && 0 < max
    ensures var s := run(k); var p, q := s.producer, Do(s, Produce, max).producer;
            && (p.Receiving? ==> q == Pushing(s.frames))
            && (!p.Receiving? && !p.Crashed? ==> StepsLeft(q) < StepsLeft(p))
            && (q.Receiving? ==> Do(s, Produce, max).queue == s.queue + [p.item])
            && Do(s, Consume, max).producer in {p, Noticed(p)}
  {
    RunKeepsInv(run, max, k);
  }

  /** A drop happens only behind a push that found the queue full. */
  lemma DropsWhenFull(run: nat -> State, max: nat, k: nat)
    requires Run(run, max) && 0 < max && run(k).producer.Pushing?
    ensures Do(run(k), Produce, max).producer.Dropping? <==> |run(k).queue| == max
  {
    RunKeepsInv(run, max, k);
  }

  /**
    The drop finds an item to free exactly if the consumer has not taken a whole queue since the
    push failed; otherwise the producer goes on with the NULL pointers of a fresh item.
   */
  lemma DropFindsItem(run: nat -> State, max: nat, k: nat)
    requires Run(run, max) && 0 < max && run(k).producer.Dropping?
    ensures Do(run(k), Produce, max).producer.Crashed? <==> run(k).producer.taken == max
  {
    RunKeepsInv(run, max, k);
  }

  /** A state reached by `n` steps of one kind. */
  function Repeat(s: State, step: Step, n: nat, max: nat): State {
    if n == 0 then s else Do(Repeat(s, step, n - 1, max), step, max)
  }

  lemma {:induction false} Fill(n: nat, max: nat)
    requires n <= max
    ensures var s := Repeat(INITIAL, Produce, 2 * n, max); s.producer == Receiving && |s.queue| == n
  {
    if n > 0 {
      Fill(n - 1, max);
      var s := Repeat(INITIAL, Produce, 2 * n - 1, max);
      assert s == Do(Repeat(INITIAL, Produce, 2 * n - 2, max), Produce, max);
    }
  }

  lemma {:induction false} Drain(s: State, n: nat, max: nat)
    requires s.producer.Dropping? && s.producer.taken == 0 && n <= |s.queue|
    ensures var t := Repeat(s, Consume, n, max); t.producer == s.producer.(taken := n) && |t.queue| == |s.queue| - n
  {
    if n > 0 {
      Drain(s, n - 1, max);
    }
  }

  /** That does happen: fill the queue, fail to push, and let the consumer empty it. */
  lemma DropCanFindNothing(max: nat)
    requires 0 < max
    ensures var full := Repeat(INITIAL, Produce, 2 * max + 2, max);
            var empty := Repeat(full, Consume, max, max);
            Do(empty, Produce, max).producer.Crashed?
  {
    Fill(max, max);
    var full := Repeat(INITIAL, Produce, 2 * max + 2, max);
    assert full == Do(Repeat(INITIAL, Produce, 2 * max + 1, max), Produce, max);
    assert Repeat(INITIAL, Produce, 2 * max + 1, max) == Do(Repeat(INITIAL, Produce, 2 * max, max), Produce, max);
    Drain(full, max, max);
  }
}
