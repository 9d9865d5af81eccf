/** `CountDownLatchHandler`: a test helper that turns asynchronous deliveries
    into results a test can wait for and then poll, modelled sequentially. */
module LatchHandler {
  import opened Wrappers
  import opened Collector

  class CountDownLatchHandler<T> {
    /** The events kept so far, oldest first (the `LinkedBlockingQueue`). */
    var queue: seq<T>
    /** The queue's capacity, the `size` given at construction. */
    const capacity: nat
    /** The `CountDownLatch` count. */
    var latch: nat
    const timeout: int
    const timeUnit: TimeUnit
    /** How many events `Handle` has been given. */
    ghost var handled: nat

    /** The queue never exceeds its capacity; the counter is the capacity
        counted down once per delivery; and the queue and the counter together
        never exceed the capacity, so the queue has room while the counter is
        positive. */
    ghost predicate Valid()
      reads this
    {
      && capacity >= 1
      && |queue| + latch <= capacity
      && latch == CountDownAll(capacity, handled)
    }

    constructor (size: int, timeout: int, timeUnit: TimeUnit)
      requires size >= 1
      ensures Valid()
      ensures queue == [] && capacity == size && latch == size && handled == 0
      ensures this.timeout == timeout && this.timeUnit == timeUnit
    {
      queue := [];
      capacity := size;
      latch := size;
      this.timeout := timeout;
      this.timeUnit := timeUnit;
      handled := 0;
    }

    /** The two-argument constructor: the timeout is in milliseconds. */
    constructor WithTimeout(size: int, timeout: int)
      requires size >= 1
      ensures Valid()
      ensures queue == [] && capacity == size && latch == size && handled == 0
      ensures this.timeout == timeout && timeUnit == Milliseconds
    {
      queue := [];
      capacity := size;
      latch := size;
      this.timeout := timeout;
      timeUnit := Milliseconds;
      handled := 0;
    }

    /** The one-argument constructor: a timeout of one second. */
    constructor WithSize(size: int)
      requires size >= 1
      ensures Valid()
      ensures queue == [] && capacity == size && latch == size && handled == 0
      ensures timeout == DefaultTimeout && timeUnit == Milliseconds
    {
      queue := [];
      capacity := size;
      latch := size;
      timeout := DefaultTimeout;
      timeUnit := Milliseconds;
      handled := 0;
    }

    /** `handle`: offers the event, ignoring whether the offer succeeded, then
        counts down. While the counter is positive nothing is dropped; once
        `capacity` events have arrived the counter reads zero. */
    method Handle(event: T)
      requires Valid()
      modifies this`queue, this`latch, this`handled
      ensures Valid()
      ensures queue == Offer(old(queue), capacity, event)
      ensures latch == CountDown(old(latch))
      ensures handled == old(handled) + 1
      ensures old(latch) > 0 ==> queue == old(queue) + [event]
      ensures handled >= capacity ==> latch == 0
    {
      if |queue| < capacity {
        queue := queue + [event];
      }
      if latch > 0 {
        latch := latch - 1;
      }
      CountDownAllStep(capacity, handled);
      handled := handled + 1;
      CountDownAllFloor(capacity, handled);
    }

    /** A run of deliveries, each handed to `handle` in turn: the queue keeps
        the earliest events that fit, in order, and the counter has counted
        down once per delivery. */
    method HandleAll(events: seq<T>)
      requires Valid()
      modifies this`queue, this`latch, this`handled
      ensures Valid()
      ensures queue == OfferAll(old(queue), capacity, events)
      ensures queue == old(queue) + events[..Min(capacity - |old(queue)|, |events|)]
      ensures latch == CountDownAll(old(latch), |events|)
      ensures handled == old(handled) + |events|
    {
      for i := 0 to |events|
        invariant Valid()
        invariant queue == OfferAll(old(queue), capacity, events[..i])
        invariant latch == CountDownAll(old(latch), i)
        invariant handled == old(handled) + i
      {
        OfferAllSnoc(old(queue), capacity, events[..i], events[i]);
        CountDownAllStep(old(latch), i);
        assert events[..i + 1] == events[..i] + [events[i]];
        Handle(events[i]);
      }
      assert events[..|events|] == events;
      OfferAllKeepsEarliest(old(queue), capacity, events);
    }

    /** `waitFor()`: in the sequential model, whether the counter is zero. */
    method WaitFor() returns (awaited: bool)
      ensures awaited <==> latch == 0
    {
      awaited := WaitForDuration(timeout, timeUnit);
    }

    /** `waitForMillis(timeout)`. */
    method WaitForMillis(timeout: int) returns (awaited: bool)
      ensures awaited <==> latch == 0
    {
      awaited := WaitForDuration(timeout, Milliseconds);
    }

    /** `waitFor(timeout, unit)`: the wait itself is not modelled. */
    method WaitForDuration(timeout: int, unit: TimeUnit) returns (awaited: bool)
      ensures awaited <==> latch == 0
    {
      awaited := latch == 0;
    }

    /** `isEmpty()`: about the queue only, never the counter. */
    method IsEmpty() returns (empty: bool)
      ensures empty <==> |queue| == 0
    {
      empty := queue == [];
    }

    /** `size()`: the number of kept events, never above the capacity. */
    method Size() returns (n: int)
      requires Valid()
      ensures n == |queue| && 0 <= n <= capacity
    {
      n := |queue|;
    }

    /** `poll()`: removes and returns the oldest event, or nothing when the
        queue is empty. The counter is left alone. */
    method Poll() returns (head: Option<T>)
      requires Valid()
      modifies this`queue
      ensures Valid()
      ensures old(queue) == [] ==> head == None && queue == []
      ensures old(queue) != [] ==> head == Some(old(queue)[0]) && queue == old(queue)[1..]
    {
      if queue == [] {
        head := None;
      } else {
        head := Some(queue[0]);
        queue := queue[1..];
      }
    }

    /** `poll(timeout, unit)`: with nobody delivering meanwhile, waiting does
        not change the answer of `poll()`. */
    method PollWithin(timeout: int, unit: TimeUnit) returns (head: Option<T>)
      requires Valid()
      modifies this`queue
      ensures Valid()
      ensures old(queue) == [] ==> head == None && queue == []
      ensures old(queue) != [] ==> head == Some(old(queue)[0]) && queue == old(queue)[1..]
    {
      head := Poll();
    }

    /** `peek()`: the oldest event, without removing it. */
    method Peek() returns (head: Option<T>)
      ensures queue == [] ==> head == None
      ensures queue != [] ==> head == Some(queue[0])
    {
      head := if queue == [] then None else Some(queue[0]);
    }
  }

  /** The HTTP server tests: a handler for one response, one delivery, then a
      wait that succeeds and a poll that yields the response. */
  method OneResponseDelivered<T>(response: T) returns (awaited: bool, res: Option<T>)
    ensures awaited && res == Some(response)
  {
    var handler := new CountDownLatchHandler<T>.WithSize(1);
    handler.Handle(response);
    awaited := handler.WaitForMillis(5000);
    res := handler.Poll();
  }

  /** Nothing delivered: the wait fails and there is nothing to poll. */
  method NothingDelivered<T>() returns (awaited: bool, res: Option<T>)
    ensures !awaited && res == None
  {
    var handler := new CountDownLatchHandler<T>.WithSize(1);
    awaited := handler.WaitForMillis(200);
    res := handler.Poll();
  }

  /** Two deliveries to a handler built for one: the counter reads zero, the
      first event is kept and the second is lost. */
  method OverDelivery<T>(first: T, second: T) returns (awaited: bool, res: Option<T>, after: Option<T>)
    ensures awaited && res == Some(first) && after == None
  {
    var handler := new CountDownLatchHandler<T>.WithSize(1);
    handler.Handle(first);
    handler.Handle(second);
    awaited := handler.WaitFor();
    res := handler.Poll();
    after := handler.Poll();
  }
}
