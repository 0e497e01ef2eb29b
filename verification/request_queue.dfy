/** The linked list of pending requests of socket_pool/pool.c, socket_pool/socketPool.h and
    examen/server-pool.c. `T` is what a request carries: a number, or a number and a socket. */
module RequestQueue {

  class Request<T> {
    const payload: T
    var next: Request?<T>

    constructor (payload: T)
      ensures this.payload == payload && this.next == null
    {
      this.payload, this.next := payload, null;
    }
  }

  function Payloads<T>(spine: seq<Request<T>>): (s: seq<T>)
    ensures |s| == |spine|
  {
    seq(|spine|, i requires 0 <= i < |spine| => spine[i].payload)
  }

  class Queue<T> {
    var requests: Request?<T>
    var last_request: Request?<T>
    var num_requests: int
    ghost var spine: seq<Request<T>> // the nodes, in list order

    /** The list is the spine: acyclic, linked in order, ending in null at last_request. */
    ghost predicate Valid()
      reads this, spine
    {
      && num_requests == |spine|
      && (forall i, j :: 0 <= i < j < |spine| ==> spine[i] != spine[j])
      && (forall i :: 0 <= i < |spine| - 1 ==> spine[i].next == spine[i + 1])
      && (spine != [] ==> spine[|spine| - 1].next == null)
      && requests == (if spine == [] then null else spine[0])
      && last_request == (if spine == [] then null else spine[|spine| - 1])
    }

    ghost function Contents(): (s: seq<T>)
      reads this
    {
      Payloads(spine)
    }

    constructor ()
      ensures Valid() && Contents() == []
    {
      requests, last_request, num_requests, spine := null, null, 0, [];
    }

    method AddRequest(payload: T)
      requires Valid()
      modifies this, last_request
      ensures Valid() && Contents() == old(Contents()) + [payload]
      ensures last_request != null && fresh(last_request) && spine == old(spine) + [last_request]
      ensures num_requests == old(num_requests) + 1
    {
      var a_request := new Request(payload);
      if num_requests == 0 {
        requests := a_request;
        last_request := a_request;
      } else {
        last_request.next := a_request;
        last_request := a_request;
      }
      num_requests := num_requests + 1;
      spine := spine + [a_request];
    }

    /** Removes and returns the first request, or returns null when there is none. */
    method GetRequest() returns (a_request: Request?<T>)
      requires Valid()
      modifies this
      ensures Valid()
      ensures a_request == null <==> old(Contents()) == []
      ensures a_request == null ==> Contents() == [] && unchanged(this)
      ensures a_request != null ==>
                && [a_request.payload] + Contents() == old(Contents())
                && a_request == old(spine)[0] && spine == old(spine)[1..]
                && num_requests == old(num_requests) - 1
    {
      if num_requests > 0 {
        a_request := requests;
        requests := a_request.next;
        if requests == null {
          last_request := null;
        }
        num_requests := num_requests - 1;
        spine := spine[1..];
      } else {
        a_request := null;
      }
    }

    /** The list is acyclic: following `next` from the i-th node, for as long as one likes,
        visits the nodes behind it once each and ends. */
    lemma {:induction false} WalkEnds(i: nat, n: nat)
      requires Valid() && i < |spine| && n >= |spine| - i
      ensures NodesFrom(spine[i], n) == spine[i..]
      decreases |spine| - i
    {
      if i + 1 < |spine| {
        WalkEnds(i + 1, n - 1);
        assert spine[i..] == [spine[i]] + spine[i + 1..];
      } else {
        assert NodesFrom(spine[i].next, n - 1) == [];
      }
    }
  }

  /** The first `n` nodes met by following `next`. */
  ghost function NodesFrom<T>(node: Request?<T>, n: nat): (nodes: seq<Request<T>>)
    reads *
  {
    if node == null || n == 0 then [] else [node] + NodesFrom(node.next, n - 1)
  }

  // ---- Any interleaving of the two operations ----

  datatype Call<T> = Add(payload: T) | Get

  /** What the calls leave pending, and what the Gets returned (skipping the nulls). */
  function Pending<T>(calls: seq<Call<T>>, pending: seq<T>): (s: seq<T>)
    decreases |calls|
  {
    if calls == [] then pending
    else if calls[0].Add? then Pending(calls[1..], pending + [calls[0].payload])
    else Pending(calls[1..], if pending == [] then [] else pending[1..])
  }

  function Taken<T>(calls: seq<Call<T>>, pending: seq<T>): (s: seq<T>)
    decreases |calls|
  {
    if calls == [] then []
    else if calls[0].Add? then Taken(calls[1..], pending + [calls[0].payload])
    else if pending == [] then Taken(calls[1..], [])
    else [pending[0]] + Taken(calls[1..], pending[1..])
  }

  function Adds<T>(calls: seq<Call<T>>): (s: seq<T>) {
    if calls == [] then []
    else (if calls[0].Add? then [calls[0].payload] else []) + Adds(calls[1..])
  }

  /** First in, first out, nothing lost or repeated: what was taken, then what is pending, is
      what was there at first, then what was added. */
  lemma {:induction false} FirstInFirstOut<T>(calls: seq<Call<T>>, pending: seq<T>)
    ensures Taken(calls, pending) + Pending(calls, pending) == pending + Adds(calls)
    decreases |calls|
  {
    if calls != [] {
      var rest := calls[1..];
      if calls[0].Add? {
        FirstInFirstOut(rest, pending + [calls[0].payload]);
      } else if pending == [] {
        FirstInFirstOut(rest, []);
      } else {
        FirstInFirstOut(rest, pending[1..]);
        assert Taken(calls, pending) + Pending(calls, pending)
            == [pending[0]] + (Taken(rest, pending[1..]) + Pending(rest, pending[1..]));
        assert pending == [pending[0]] + pending[1..];
      }
    }
  }

  /** One call more: an addition goes behind what is pending, and a Get takes the first of it. */
  lemma {:induction false} OneMoreCall<T>(calls: seq<Call<T>>, call: Call<T>, pending: seq<T>)
    ensures var before, after := Pending(calls, pending), Pending(calls + [call], pending);
            var taken, more := Taken(calls, pending), Taken(calls + [call], pending);
            if call.Add? then after == before + [call.payload] && more == taken
            else if before == [] then after == [] && more == taken
            else after == before[1..] && more == taken + [before[0]]
    decreases |calls|
  {
    if calls == [] {
      assert calls + [call] == [call];
    } else {
      var rest := calls[1..];
      assert (calls + [call])[1..] == rest + [call];
      if calls[0].Add? {
        OneMoreCall(rest, call, pending + [calls[0].payload]);
      } else {
        OneMoreCall(rest, call, if pending == [] then [] else pending[1..]);
      }
    }
  }

  /** Performs the calls on an empty queue. */
  method Perform<T>(calls: seq<Call<T>>) returns (queue: Queue<T>, taken: seq<T>)
    ensures queue.Valid() && queue.Contents() == Pending(calls, [])
    ensures taken == Taken(calls, [])
    ensures taken + queue.Contents() == Adds(calls)
  {
    queue := new Queue();
    taken := [];
    for k := 0 to |calls|
      invariant queue.Valid() && fresh(queue) && forall i :: 0 <= i < |queue.spine| ==> fresh(queue.spine[i])
      invariant Pending(calls[k..], queue.Contents()) == Pending(calls, [])
      invariant taken + Taken(calls[k..], queue.Contents()) == Taken(calls, [])
    {
      assert calls[k..][0] == calls[k] && calls[k..][1..] == calls[k + 1..];
      match calls[k] {
        case Add(payload) =>
          queue.AddRequest(payload);
        case Get =>
          ghost var before := queue.Contents();
          var a_request := queue.GetRequest();
          if a_request != null {
            assert before[0] == a_request.payload && before[1..] == queue.Contents();
            taken := taken + [a_request.payload];
          }
      }
    }
    FirstInFirstOut(calls, []);
  }
}
