/** `HttpClientResponseHandler`: the latch-and-queue collector specialised to
    HTTP responses, with a second bounded queue for response bodies. */
module ResponseHandler {
  import opened Wrappers
  import opened Collector

  /** The host runtime's response object; only the status code is observed
      here. */
  datatype HttpClientResponse = HttpClientResponse(statusCode: int)

  class HttpClientResponseHandler {
    /** The responses kept so far, oldest first. */
    var queue: seq<HttpClientResponse>
    /** The bodies kept so far, oldest first, already decoded to text. */
    var queueBody: seq<string>
    /** The capacity of both queues, the `size` given at construction. */
    const capacity: nat
    /** The `CountDownLatch` count. */
    var latch: nat
    const timeout: int
    const timeUnit: TimeUnit
    /** How many responses `Handle` has been given. */
    ghost var handled: nat

    ghost predicate Valid()
      reads this
    {
      && capacity >= 1
      && |queue| + latch <= capacity
      && |queueBody| <= capacity
      && latch == CountDownAll(capacity, handled)
    }

    constructor (size: int, timeout: int, timeUnit: TimeUnit)
      requires size >= 1
      ensures Valid()
      ensures queue == [] && queueBody == [] && capacity == size && latch == size && handled == 0
      ensures this.timeout == timeout && this.timeUnit == timeUnit
    {
      queue := [];
      queueBody := [];
      capacity := size;
      latch := size;
      this.timeout := timeout;
      this.timeUnit := timeUnit;
      handled := 0;
    }

    /** The two-argument constructor: the timeout is in milliseconds. */
    constructor WithTimeout(size: int, timeout: int)
      requires size >= 1
      ensures Valid()
      ensures queue == [] && queueBody == [] && capacity == size && latch == size && handled == 0
      ensures this.timeout == timeout && timeUnit == Milliseconds
    {
      queue := [];
      queueBody := [];
      capacity := size;
      latch := size;
      this.timeout := timeout;
      timeUnit := Milliseconds;
      handled := 0;
    }

    /** The one-argument constructor: a timeout of one second. */
    constructor WithSize(size: int)
      requires size >= 1
      ensures Valid()
      ensures queue == [] && queueBody == [] && capacity == size && latch == size && handled == 0
      ensures timeout == DefaultTimeout && timeUnit == Milliseconds
    {
      queue := [];
      queueBody := [];
      capacity := size;
      latch := size;
      timeout := DefaultTimeout;
      timeUnit := Milliseconds;
      handled := 0;
    }

    /** `handle`: offers the response, ignoring whether the offer succeeded,
        then counts down. The body queue is not touched: the body arrives
        later, through `OnBody`. */
    method Handle(event: HttpClientResponse)
      requires Valid()
      modifies this`queue, this`latch, this`handled
      ensures Valid()
      ensures queue == Offer(old(queue), capacity, event)
      ensures latch == CountDown(old(latch))
      ensures handled == old(handled) + 1
      ensures old(latch) > 0 ==> queue == old(queue) + [event]
      ensures handled >= capacity ==> latch == 0
    {
      if |queue| < capacity {
        queue := queue + [event];
      }
      if latch > 0 {
        latch := latch - 1;
      }
      CountDownAllStep(capacity, handled);
      handled := handled + 1;
      CountDownAllFloor(capacity, handled);
    }

    /** The body handler `handle` registers: the body is offered without
        waiting, so it is dropped when the body queue is full. The response
        queue and the counter are left alone. */
    method OnBody(body: string)
      requires Valid()
      modifies this`queueBody
      ensures Valid()
      ensures queueBody == Offer(old(queueBody), capacity, body)
    {
      if |queueBody| < capacity {
        queueBody := queueBody + [body];
      }
    }

    /** `getBody()`: removes and returns the oldest body, or nothing when no
        body has arrived. */
    method GetBody() returns (body: Option<string>)
      requires Valid()
      modifies this`queueBody
      ensures Valid()
      ensures old(queueBody) == [] ==> body == None && queueBody == []
      ensures old(queueBody) != [] ==> body == Some(old(queueBody)[0]) && queueBody == old(queueBody)[1..]
    {
      if queueBody == [] {
        body := None;
      } else {
        body := Some(queueBody[0]);
        queueBody := queueBody[1..];
      }
    }

    /** `waitFor()`: in the sequential model, whether the counter is zero. */
    method WaitFor() returns (awaited: bool)
      ensures awaited <==> latch == 0
    {
      awaited := WaitForDuration(timeout, timeUnit);
    }

    /** `waitForMillis(timeout)`. */
    method WaitForMillis(timeout: int) returns (awaited: bool)
      ensures awaited <==> latch == 0
    {
      awaited := WaitForDuration(timeout, Milliseconds);
    }

    /** `waitFor(timeout, unit)`: the wait itself is not modelled. */
    method WaitForDuration(timeout: int, unit: TimeUnit) returns (awaited: bool)
      ensures awaited <==> latch == 0
    {
      awaited := latch == 0;
    }

    /** `isEmpty()`: about the response queue only. */
    method IsEmpty() returns (empty: bool)
      ensures empty <==> |queue| == 0
    {
      empty := queue == [];
    }

    /** `size()`: the number of kept responses, never above the capacity. */
    method Size() returns (n: int)
      requires Valid()
      ensures n == |queue| && 0 <= n <= capacity
    {
      n := |queue|;
    }

    /** `poll()`: removes and returns the oldest response, or nothing. */
    method Poll() returns (head: Option<HttpClientResponse>)
      requires Valid()
      modifies this`queue
      ensures Valid()
      ensures old(queue) == [] ==> head == None && queue == []
      ensures old(queue) != [] ==> head == Some(old(queue)[0]) && queue == old(queue)[1..]
    {
      if queue == [] {
        head := None;
      } else {
        head := Some(queue[0]);
        queue := queue[1..];
      }
    }

    /** `poll(timeout, unit)`: with nobody delivering meanwhile, waiting does
        not change the answer of `poll()`. */
    method PollWithin(timeout: int, unit: TimeUnit) returns (head: Option<HttpClientResponse>)
      requires Valid()
      modifies this`queue
      ensures Valid()
      ensures old(queue) == [] ==> head == None && queue == []
      ensures old(queue) != [] ==> head == Some(old(queue)[0]) && queue == old(queue)[1..]
    {
      head := Poll();
    }

    /** `peek()`: the oldest response, without removing it. */
    method Peek() returns (head: Option<HttpClientResponse>)
      ensures queue == [] ==> head == None
      ensures queue != [] ==> head == Some(queue[0])
    {
      head := if queue == [] then None else Some(queue[0]);
    }
  }

  /** A response and then its body: the wait succeeds, the response and the
      body come back, and the body queue is then empty. */
  method ResponseWithBody(status: int, text: string)
    returns (awaited: bool, res: Option<HttpClientResponse>, body: Option<string>, more: Option<string>)
    ensures awaited && res == Some(HttpClientResponse(status))
    ensures body == Some(text) && more == None
  {
    var handler := new HttpClientResponseHandler.WithSize(1);
    handler.Handle(HttpClientResponse(status));
    handler.OnBody(text);
    awaited := handler.WaitForMillis(5000);
    res := handler.Poll();
    body := handler.GetBody();
    more := handler.GetBody();
  }
}
