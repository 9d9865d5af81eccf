/** What the two blocking result collectors share, as pure functions: a
    bounded FIFO queue that events are offered to and a countdown counter that
    starts at the queue's capacity. Blocking is abstracted away: an offer to a
    full queue, with nobody consuming, is dropped once its timeout runs out,
    and a wait answers at once whether the counter has reached zero. */
module Collector {

  /** `java.util.concurrent.TimeUnit`, kept only as a stored setting. */
  datatype TimeUnit = Nanoseconds | Microseconds | Milliseconds | Seconds | Minutes | Hours | Days

  /** The timeout both collectors use when none is given, in milliseconds. */
  const DefaultTimeout: int := 1000

  /** `LinkedBlockingQueue.offer` with nobody consuming: the element joins the
      tail when there is room and is dropped otherwise. */
  function Offer<T>(queue: seq<T>, capacity: nat, x: T): seq<T>
  {
    if |queue| < capacity then queue + [x] else queue
  }

  /** `CountDownLatch.countDown`: one step towards zero, never below it. */
  function CountDown(count: nat): nat
  {
    if count == 0 then 0 else count - 1
  }

  /** The queue after a run of deliveries, each offered in turn. */
  function OfferAll<T>(queue: seq<T>, capacity: nat, xs: seq<T>): seq<T>
    decreases |xs|
  {
    if xs == [] then queue else OfferAll(Offer(queue, capacity, xs[0]), capacity, xs[1..])
  }

  /** One more delivery is one more offer. */
  lemma {:induction false} OfferAllSnoc<T>(queue: seq<T>, capacity: nat, xs: seq<T>, x: T)
    ensures OfferAll(queue, capacity, xs + [x]) == Offer(OfferAll(queue, capacity, xs), capacity, x)
    decreases |xs|
  {
    if xs == [] {
      assert [] + [x] == [x];
    } else {
      assert (xs + [x])[1..] == xs[1..] + [x];
      OfferAllSnoc(Offer(queue, capacity, xs[0]), capacity, xs[1..], x);
    }
  }

  /** The counter after `k` deliveries, each counting down once. */
  function CountDownAll(count: nat, k: nat): nat
  {
    if k == 0 then count else CountDownAll(CountDown(count), k - 1)
  }

  function Min(a: int, b: int): int
  {
    if a <= b then a else b
  }

  /** Of a run of deliveries, the earliest ones that fit are kept, in order of
      arrival, and every later one is lost. */
  lemma {:induction false} OfferAllKeepsEarliest<T>(queue: seq<T>, capacity: nat, xs: seq<T>)
    requires |queue| <= capacity
    ensures OfferAll(queue, capacity, xs) == queue + xs[..Min(capacity - |queue|, |xs|)]
    decreases |xs|
  {
    if xs != [] {
      var next := Offer(queue, capacity, xs[0]);
      OfferAllKeepsEarliest(next, capacity, xs[1..]);
      if |queue| < capacity {
        assert next + xs[1..][..Min(capacity - |next|, |xs| - 1)]
            == queue + xs[..Min(capacity - |queue|, |xs|)];
      } else {
        assert xs[1..][..0] == xs[..0];
      }
    }
  }

  /** The counter goes down by one per delivery and stops at zero, whether or
      not the delivered events were kept. */
  lemma {:induction false} CountDownAllFloor(count: nat, k: nat)
    ensures CountDownAll(count, k) == if k >= count then 0 else count - k
    decreases k
  {
    if k > 0 {
      CountDownAllFloor(CountDown(count), k - 1);
    }
  }

  /** One more delivery counts down once more. */
  lemma CountDownAllStep(count: nat, k: nat)
    ensures CountDownAll(count, k + 1) == CountDown(CountDownAll(count, k))
  {
    CountDownAllFloor(count, k);
    CountDownAllFloor(count, k + 1);
  }

  /** A collector built for `n` results and handed the events `xs`: it holds
      the first `n` of them, and its counter reads zero exactly when at least
      `n` events arrived. Over-delivery therefore loses data silently. */
  lemma Deliveries<T>(n: nat, xs: seq<T>)
    ensures OfferAll([], n, xs) == xs[..Min(n, |xs|)]
    ensures CountDownAll(n, |xs|) == 0 <==> |xs| >= n
    ensures CountDownAll(n, |xs|) == n - |OfferAll([], n, xs)|
  {
    OfferAllKeepsEarliest([], n, xs);
    assert [] + xs[..Min(n, |xs|)] == xs[..Min(n, |xs|)];
    CountDownAllFloor(n, |xs|);
  }
}
