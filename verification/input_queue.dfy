/**
 The input-capture queue of the bridge: the text buffer, the buffering
 switch, and the pending "get terminal input" requests. A pending request is
 an unresolved promise; here it is a waiter number, and resolving it is a
 delivery of one string to that number.
 */
module InputQueue {

  type WaiterId = nat

  /** Resolution of one pending request with the text it receives. */
  datatype Delivery = Delivery(waiter: WaiterId, payload: string)

  /**
   `buffer` is the text kept for later, `bufferEnabled` says whether unclaimed
   input is kept at all, `waiters` are the pending requests in the order they
   were made, and `nextWaiter` numbers the next request.
   */
  datatype Queue = Queue(buffer: string, bufferEnabled: bool, waiters: seq<WaiterId>, nextWaiter: WaiterId)

  /** An empty queue; the bridge constructs it with buffering off. */
  function Init(bufferEnabled: bool): (q: Queue)
    ensures Valid(q) && q.buffer == [] && q.waiters == []
  {
    Queue([], bufferEnabled, [], 0)
  }

  /** Pending requests are numbered in increasing order, all below the next number. */
  ghost predicate Valid(q: Queue) {
    && (forall i :: 0 <= i < |q.waiters| ==> q.waiters[i] < q.nextWaiter)
    && (forall i, j :: 0 <= i < j < |q.waiters| ==> q.waiters[i] < q.waiters[j])
  }

  datatype Granted = Granted(next: Queue, waiter: WaiterId)

  /**
   `get()`: registers one more pending request and returns its number. The
   buffer is left as it is, even when it holds text: the request waits for
   the next input event.
   */
  function Get(q: Queue): (r: Granted)
    ensures r.next.buffer == q.buffer && r.next.bufferEnabled == q.bufferEnabled
    ensures r.next.waiters == q.waiters + [r.waiter]
    ensures Valid(q) ==> Valid(r.next) && r.waiter !in q.waiters
  {
    Granted(q.(waiters := q.waiters + [q.nextWaiter], nextWaiter := q.nextWaiter + 1), q.nextWaiter)
  }

  datatype Arrival = Arrival(next: Queue, delivered: seq<Delivery>)

  /**
   One input event on the queue side. With requests pending, every one of them
   receives the same text, the buffer followed by the event's data, and both
   the buffer and the request list are emptied. Without requests, the data is
   appended when buffering is on and dropped when it is off.
   */
  function Arrive(q: Queue, data: string): (r: Arrival)
    ensures r.next.bufferEnabled == q.bufferEnabled && r.next.nextWaiter == q.nextWaiter
    ensures r.next.waiters == []
    ensures |q.waiters| > 0 ==>
      && r.next.buffer == []
      && |r.delivered| == |q.waiters|
      && forall i :: 0 <= i < |r.delivered| ==> r.delivered[i] == Delivery(q.waiters[i], q.buffer + data)
    ensures |q.waiters| == 0 ==>
      && r.delivered == []
      && r.next.buffer == (if q.bufferEnabled then q.buffer + data else q.buffer)
    ensures Valid(r.next)
  {
    if |q.waiters| > 0 then
      var payload := q.buffer + data;
      Arrival(q.(buffer := [], waiters := []),
              seq(|q.waiters|, i requires 0 <= i < |q.waiters| => Delivery(q.waiters[i], payload)))
    else if q.bufferEnabled then
      Arrival(q.(buffer := q.buffer + data), [])
    else
      Arrival(q, [])
  }

  /** A request made on an idle queue is answered by the next event, with the buffer and that event's data. */
  lemma GetThenArrive(q: Queue, data: string)
    requires Valid(q) && q.waiters == []
    ensures var g := Get(q);
      var a := Arrive(g.next, data);
      && a.delivered == [Delivery(g.waiter, q.buffer + data)]
      && a.next.buffer == [] && a.next.waiters == []
  {
  }

  /**
   Every pending request is answered by the same event with the same text:
   two requests made before one input both receive that input. Requests are
   not served one event each.
   */
  lemma AllWaitersSharePayload(q: Queue, data: string)
    requires |q.waiters| > 0
    ensures var a := Arrive(q, data);
      forall i, j :: 0 <= i < |a.delivered| && 0 <= j < |a.delivered| ==>
        a.delivered[i].payload == a.delivered[j].payload
  {
  }

  /** The data of all events in order. */
  function Concat(ds: seq<string>): string
  {
    if ds == [] then [] else ds[0] + Concat(ds[1..])
  }

  /** The queue after a series of input events. */
  function ArriveAll(q: Queue, ds: seq<string>): Queue
    decreases |ds|
  {
    if ds == [] then q else ArriveAll(Arrive(q, ds[0]).next, ds[1..])
  }

  /** With buffering on and no request pending, the buffer gathers every event's data, in order. */
  lemma {:induction false} BufferGathersInOrder(q: Queue, ds: seq<string>)
    requires q.bufferEnabled && q.waiters == []
    ensures ArriveAll(q, ds).buffer == q.buffer + Concat(ds)
    ensures ArriveAll(q, ds).waiters == []
    decreases |ds|
  {
    if ds != [] {
      var q1 := Arrive(q, ds[0]).next;
      BufferGathersInOrder(q1, ds[1..]);
      assert q.buffer + ds[0] + Concat(ds[1..]) == q.buffer + Concat(ds);
    }
  }

  /** With buffering off and no request pending, input events change nothing at all. */
  lemma {:induction false} UnbufferedInputIsDropped(q: Queue, ds: seq<string>)
    requires !q.bufferEnabled && q.waiters == []
    ensures ArriveAll(q, ds) == q
    decreases |ds|
  {
    if ds != [] {
      UnbufferedInputIsDropped(Arrive(q, ds[0]).next, ds[1..]);
    }
  }

  /**
   The buffer and the request list can both be non-empty at once: with
   buffering on, text kept before a request stays in the buffer after it.
   */
  lemma BufferAndWaitersCoexist()
    ensures var q := Arrive(Init(true), "a").next;
      var g := Get(q);
      g.next.buffer == "a" && |g.next.waiters| == 1
  {
  }
}
