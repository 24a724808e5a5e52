/**
  The broadcast ring buffer of internal/mpmc/mpmc.go.

  A queue owns a fixed-size buffer and a write counter `idx`; value number `i`
  (counting from 0) is written into slot `i % capacity`.  Every consumer keeps its
  own read counter `last`.  The ghost sequence `log` holds every value ever sent,
  so `idx == |log|`, and the slots hold the last `capacity` entries of `log`.

  The pure part (ReceiveStep, Replay) describes one consumer against the history of
  sends; the classes Mpmc and Consumer are the in-place implementation and are
  proved against it.
*/
module Mpmc {

  /** What one Receive call yields: a value, the "lagging" error, or NotReady
      where the Go code would block in `notify.Wait()` until the next Send. */
  datatype Received<T> = Value(value: T) | Lagging | NotReady

  /** One Receive by a consumer whose counter is `last`, on a queue whose history
      of sends is `log`: the outcome and the consumer's new counter. */
  function ReceiveStep<T>(capacity: nat, log: seq<T>, last: nat): (res: (Received<T>, nat))
    requires last <= |log|
    ensures last <= res.1 <= |log|
  {
    if |log| - last > capacity then (Lagging, |log|)
    else if last == |log| then (NotReady, last)
    else (Value(log[last]), last + 1)
  }

  /** A step of a sequential interleaving: some producer sends, or the consumer receives. */
  datatype Event<T> = Send(value: T) | Receive

  /** The values sent by a trace, in order. */
  function Sent<T>(trace: seq<Event<T>>): (vs: seq<T>)
    ensures |vs| <= |trace|
  {
    if trace == [] then []
    else
      var init := Sent(trace[..|trace| - 1]);
      match trace[|trace| - 1]
      case Send(v) => init + [v]
      case Receive => init
  }

  /** The values among a consumer's outcomes, in order. */
  function Values<T>(outs: seq<Received<T>>): (vs: seq<T>)
    ensures |vs| <= |outs|
  {
    if outs == [] then []
    else
      var init := Values(outs[..|outs| - 1]);
      match outs[|outs| - 1]
      case Value(v) => init + [v]
      case _ => init
  }

  predicate NoLag<T>(outs: seq<Received<T>>) {
    forall i :: 0 <= i < |outs| ==> !outs[i].Lagging?
  }

  /** The history, the consumer's counter and the consumer's outcomes after a trace. */
  datatype Run<T> = Run(log: seq<T>, last: nat, outs: seq<Received<T>>)

  /** Runs `trace` from a queue with history `log` and a consumer at `last`. */
  function Replay<T>(capacity: nat, log: seq<T>, last: nat, trace: seq<Event<T>>): (r: Run<T>)
    requires last <= |log|
    ensures last <= r.last <= |r.log|
    ensures r.log == log + Sent(trace)
    ensures |r.outs| + |Sent(trace)| == |trace|
  {
    if trace == [] then Run(log, last, [])
    else
      var r := Replay(capacity, log, last, trace[..|trace| - 1]);
      match trace[|trace| - 1]
      case Send(v) => Run(r.log + [v], r.last, r.outs)
      case Receive =>
        var (o, last') := ReceiveStep(capacity, r.log, r.last);
        Run(r.log, last', r.outs + [o])
  }

  lemma ValuesSnoc<T>(outs: seq<Received<T>>, o: Received<T>)
    ensures Values(outs + [o]) == Values(outs) + (if o.Value? then [o.value] else [])
  {
    assert (outs + [o])[..|outs|] == outs;
  }

  /** The last step of a trace: the run of the trace without its last event,
      extended by that event. */
  lemma ReplaySnoc<T>(capacity: nat, log: seq<T>, last: nat, trace: seq<Event<T>>, e: Event<T>)
    requires last <= |log|
    ensures var r0 := Replay(capacity, log, last, trace);
            var r := Replay(capacity, log, last, trace + [e]);
            match e
            case Send(v) => r == Run(r0.log + [v], r0.last, r0.outs)
            case Receive =>
              var (o, last') := ReceiveStep(capacity, r0.log, r0.last);
              r == Run(r0.log, last', r0.outs + [o])
  {
    assert (trace + [e])[..|trace|] == trace;
  }

  /** One receive that does not lag extends the consumed stretch of the history by
      exactly the value it returns, if any. */
  lemma ReceiveExtends<T>(capacity: nat, log: seq<T>, last: nat, cur: nat, outs: seq<Received<T>>)
    requires last <= cur <= |log| && Values(outs) == log[last..cur]
    requires !ReceiveStep(capacity, log, cur).0.Lagging?
    ensures var (o, cur') := ReceiveStep(capacity, log, cur);
            Values(outs + [o]) == log[last..cur']
  {
    var (o, cur') := ReceiveStep(capacity, log, cur);
    ValuesSnoc(outs, o);
    if o.Value? {
      assert log[last..cur'] == log[last..cur] + [log[cur]];
    }
  }

  /** The inductive step of NoSkip: one more event keeps the received values equal
      to the consumed stretch of the history. */
  lemma NoSkipStep<T>(capacity: nat, log: seq<T>, last: nat, init: seq<Event<T>>, e: Event<T>)
    requires last <= |log|
    requires var r0 := Replay(capacity, log, last, init); Values(r0.outs) == r0.log[last..r0.last]
    requires NoLag(Replay(capacity, log, last, init + [e]).outs)
    ensures var r := Replay(capacity, log, last, init + [e]);
            Values(r.outs) == r.log[last..r.last]
  {
    ReplaySnoc(capacity, log, last, init, e);
    var r0 := Replay(capacity, log, last, init);
    var r := Replay(capacity, log, last, init + [e]);
    match e
    case Send(v) =>
      assert r.log[last..r.last] == r0.log[last..r0.last];
    case Receive =>
      assert r.outs[|r.outs| - 1] == ReceiveStep(capacity, r0.log, r0.last).0;
      ReceiveExtends(capacity, r0.log, last, r0.last, r0.outs);
  }

  /** Dropping the last event keeps a run free of lag. */
  lemma NoLagInit<T>(capacity: nat, log: seq<T>, last: nat, init: seq<Event<T>>, e: Event<T>)
    requires last <= |log|
    requires NoLag(Replay(capacity, log, last, init + [e]).outs)
    ensures NoLag(Replay(capacity, log, last, init).outs)
  {
    ReplaySnoc(capacity, log, last, init, e);
    var r0 := Replay(capacity, log, last, init);
    var r := Replay(capacity, log, last, init + [e]);
    forall i | 0 <= i < |r0.outs| ensures !r0.outs[i].Lagging? {
      assert r0.outs[i] == r.outs[i];
    }
  }

  /** A consumer that never lags receives exactly the entries of the history from its
      starting counter up to its current counter: in send order, none skipped, none twice. */
  lemma {:induction false} NoSkip<T>(capacity: nat, log: seq<T>, last: nat, trace: seq<Event<T>>)
    requires last <= |log|
    requires NoLag(Replay(capacity, log, last, trace).outs)
    ensures var r := Replay(capacity, log, last, trace);
            Values(r.outs) == r.log[last..r.last]
  {
    if trace != [] {
      var init, e := trace[..|trace| - 1], trace[|trace| - 1];
      assert trace == init + [e];
      NoLagInit(capacity, log, last, init, e);
      NoSkip(capacity, log, last, init);
      NoSkipStep(capacity, log, last, init, e);
    }
  }

  /** With no lag, a consumer that subscribed when the history was `log` receives a
      prefix of the values sent after that point, and all of them once it has caught up. */
  lemma {:induction false} SubscriberSeesLaterSends<T>(capacity: nat, log: seq<T>, trace: seq<Event<T>>)
    requires NoLag(Replay(capacity, log, |log|, trace).outs)
    ensures var r := Replay(capacity, log, |log|, trace);
            Values(r.outs) == Sent(trace)[..r.last - |log|] &&
            (r.last == |r.log| ==> Values(r.outs) == Sent(trace))
  {
    var r := Replay(capacity, log, |log|, trace);
    NoSkip(capacity, log, |log|, trace);
    var sent := Sent(trace);
    assert r.log == log + sent;
    SliceAfter(log, sent, r.last - |log|);
  }

  lemma SliceAfter<T>(log: seq<T>, sent: seq<T>, k: nat)
    requires k <= |sent|
    ensures (log + sent)[|log|..|log| + k] == sent[..k]
  {
  }

  /** While the backlog plus everything still to be sent fits in the buffer, no
      Receive reports lag. */
  lemma {:induction false} NoLagWithinCapacity<T>(capacity: nat, log: seq<T>, last: nat, trace: seq<Event<T>>)
    requires last <= |log|
    requires |log| - last + |Sent(trace)| <= capacity
    ensures NoLag(Replay(capacity, log, last, trace).outs)
  {
    if trace != [] {
      var init := trace[..|trace| - 1];
      assert |Sent(init)| <= |Sent(trace)|;
      NoLagWithinCapacity(capacity, log, last, init);
      var r0 := Replay(capacity, log, last, init);
      var r := Replay(capacity, log, last, trace);
      if trace[|trace| - 1].Receive? {
        assert |r0.log| - r0.last <= capacity;
        forall i | 0 <= i < |r.outs| ensures !r.outs[i].Lagging? {
          if i < |r0.outs| { assert r.outs[i] == r0.outs[i]; }
        }
      }
    }
  }

  /** The property the package's tests check: with a buffer at least as large as the
      number of messages sent after subscription, a consumer skips none and receives
      them in send order. */
  lemma LargeBufferDeliversAll<T>(capacity: nat, log: seq<T>, trace: seq<Event<T>>)
    requires |Sent(trace)| <= capacity
    ensures var r := Replay(capacity, log, |log|, trace);
            NoLag(r.outs) && Values(r.outs) == Sent(trace)[..r.last - |log|]
  {
    NoLagWithinCapacity(capacity, log, |log|, trace);
    SubscriberSeesLaterSends(capacity, log, trace);
  }

  /** A consumer more than `capacity` behind gets the lag error and from then on
      behaves exactly like a consumer subscribed at that moment. */
  lemma {:induction false} LagResubscribes<T>(capacity: nat, log: seq<T>, last: nat, trace: seq<Event<T>>)
    requires last <= |log| && |log| - last > capacity
    ensures var r := Replay(capacity, log, last, [Receive] + trace);
            var s := Replay(capacity, log, |log|, trace);
            r == Run(s.log, s.last, [Lagging] + s.outs)
  {
    if trace == [] {
      assert ([Receive] + trace)[..0] == [];
    } else {
      var init, e := trace[..|trace| - 1], trace[|trace| - 1];
      assert [Receive] + trace == ([Receive] + init) + [e];
      assert trace == init + [e];
      LagResubscribes(capacity, log, last, init);
      ReplaySnoc(capacity, log, last, [Receive] + init, e);
      ReplaySnoc(capacity, log, |log|, init, e);
    }
  }

  /** Two counters less than `capacity` apart use two different slots. */
  lemma SlotsDistinct(i: nat, j: nat, capacity: nat)
    requires 0 < capacity && i < j < i + capacity
    ensures i % capacity != j % capacity
  {
    var qi, qj := i / capacity, j / capacity;
    assert i == qi * capacity + i % capacity;
    assert j == qj * capacity + j % capacity;
    if i % capacity == j % capacity {
      MulSign(qj - qi, capacity);
    }
  }

  /** The sign of a multiple of a positive number. */
  lemma MulSign(d: int, c: nat)
    ensures d <= 0 ==> d * c <= 0
    ensures d >= 1 ==> d * c >= c
  {
  }

  /** MPMC: the shared queue (lines 8-14). */
  class Mpmc<T(0)> {
    const capacity: nat
    const buffer: array<T>
    var idx: nat
    ghost var log: seq<T>

    /** The slots hold the last `capacity` values sent. */
    ghost predicate Valid()
      reads this, buffer
    {
      && 0 < capacity
      && buffer.Length == capacity
      && |log| == idx
      && forall i :: 0 <= i < idx && idx - capacity <= i ==> buffer[i % capacity] == log[i]
    }

    /** NewMPMC (lines 16-23).  A zero capacity would make the `%` of Send and
        Receive fault, so it is excluded. */
    constructor (capacity: nat)
      requires 0 < capacity
      ensures Valid() && fresh(buffer)
      ensures this.capacity == capacity && idx == 0 && log == []
    {
      this.capacity := capacity;
      buffer := new T[capacity];
      idx := 0;
      log := [];
    }

    /** Send (lines 25-33): writes slot `idx % capacity` and advances `idx`. */
    method Send(value: T)
      requires Valid()
      modifies this, buffer
      ensures Valid()
      ensures idx == old(idx) + 1 && log == old(log) + [value]
      ensures buffer[old(idx) % capacity] == value
      ensures forall k :: 0 <= k < capacity && k != old(idx) % capacity ==> buffer[k] == old(buffer[k])
    {
      buffer[idx % capacity] := value;
      idx := idx + 1;
      log := log + [value];
      forall i | 0 <= i < idx && idx - capacity <= i
        ensures buffer[i % capacity] == log[i]
      {
        if i < idx - 1 {
          SlotsDistinct(i, idx - 1, capacity);
        }
      }
    }

    /** Subscribe (lines 40-45): the new consumer starts at the current `idx`. */
    method Subscribe() returns (c: Consumer<T>)
      requires Valid()
      ensures fresh(c) && c.queue == this && c.last == idx && c.Valid()
    {
      c := new Consumer(this);
    }
  }

  /** Consumer (lines 35-38): a read counter into one queue. */
  class Consumer<T(0)> {
    const queue: Mpmc<T>
    var last: nat

    ghost predicate Valid()
      reads this, queue, queue.buffer
    {
      queue.Valid() && last <= queue.idx
    }

    constructor (queue: Mpmc<T>)
      requires queue.Valid()
      ensures this.queue == queue && last == queue.idx && Valid()
    {
      this.queue := queue;
      last := queue.idx;
    }

    /** Receive (lines 47-69).  NotReady is returned where the Go code waits for
        the next Send and then starts over. */
    method Receive() returns (r: Received<T>)
      requires Valid()
      modifies this
      ensures Valid()
      ensures (r, last) == ReceiveStep(queue.capacity, queue.log, old(last))
      ensures queue.idx - old(last) > queue.capacity ==> r == Lagging && last == queue.idx
      ensures old(last) == queue.idx ==> r == NotReady && last == old(last)
      ensures old(last) < queue.idx && queue.idx - old(last) <= queue.capacity ==>
                r == Value(queue.buffer[old(last) % queue.capacity]) &&
                r == Value(queue.log[old(last)]) &&
                last == old(last) + 1
    {
      if queue.idx - last > queue.capacity {
        last := queue.idx;
        return Lagging;
      }
      if queue.idx == last {
        return NotReady;
      }
      var slot := last % queue.capacity;
      last := last + 1;
      r := Value(queue.buffer[slot]);
    }
  }
}
