/** The UDP chat of examen/udp-server.c: it keeps a list of the clients it has heard from,
    one per port, and passes each message on to the others. */
module ChatRelay {

  /** Where a datagram comes from. */
  datatype Endpoint = Endpoint(address: int, port: int)

  // ---- The list ----

  class Node {
    const cliente: Endpoint
    const port: int
    var next: Node?

    constructor (c: Endpoint, p: int)
      ensures cliente == c && port == p && next == null
    {
      cliente, port, next := c, p, null;
    }
  }

  function Clients(spine: seq<Node>): (s: seq<Endpoint>)
    ensures |s| == |spine|
  {
    seq(|spine|, i requires 0 <= i < |spine| => spine[i].cliente)
  }

  class List {
    var root: Node?
    var size: int
    ghost var spine: seq<Node> // the nodes, in list order

    ghost predicate Valid()
      reads this, spine
    {
      && size == |spine|
      && root == (if spine == [] then null else spine[0])
      && (forall i, j :: 0 <= i < j < |spine| ==> spine[i] != spine[j])
      && (forall i :: 0 <= i < |spine| - 1 ==> spine[i].next == spine[i + 1])
      && (spine != [] ==> spine[|spine| - 1].next == null)
      && (forall i :: 0 <= i < |spine| ==> spine[i].port == spine[i].cliente.port)
    }

    ghost function Contents(): (s: seq<Endpoint>)
      reads this
    {
      Clients(spine)
    }

    constructor ()
      ensures Valid() && Contents() == [] && size == 0
    {
      root, size, spine := null, 0, [];
    }

    method AddToList(nToAdd: Node)
      requires Valid() && nToAdd !in spine && nToAdd.port == nToAdd.cliente.port
      modifies this, nToAdd
      ensures Valid() && spine == [nToAdd] + old(spine)
      ensures Contents() == [nToAdd.cliente] + old(Contents())
    {
      nToAdd.next := root;
      root := nToAdd;
      size := size + 1;
      spine := [nToAdd] + spine;
    }

    method CheckIfAddressIsAdded(p: int) returns (isAdded: bool)
      requires Valid()
      ensures isAdded <==> exists c :: c in Contents() && c.port == p
    {
      isAdded := false;
      var n := root;
      ghost var k := 0;
      while n != null
        invariant 0 <= k <= |spine| && n == (if k < |spine| then spine[k] else null)
        invariant forall i :: 0 <= i < k ==> spine[i].port != p
        invariant !isAdded
        decreases |spine| - k
      {
        if n.port == p {
          isAdded := true;
          assert Contents()[k] in Contents();
          return;
        }
        n := n.next;
        k := k + 1;
      }
    }

    /** The loop of acceptMessages: one send for each node with another port. */
    method SendToOthers(port: int) returns (recipients: seq<Endpoint>)
      requires Valid()
      ensures recipients == Others(Contents(), port)
    {
      ghost var list := Contents();
      recipients := [];
      var n := root;
      ghost var k := 0;
      while n != null
        invariant 0 <= k <= |spine| && n == (if k < |spine| then spine[k] else null)
        invariant recipients + OthersFrom(list, k, port) == Others(list, port)
        decreases |spine| - k
      {
        assert n.cliente == list[k] && n.port == list[k].port;
        if n.port != port {
          recipients := recipients + [n.cliente];
        }
        assert recipients + OthersFrom(list, k + 1, port) == Others(list, port);
        n := n.next;
        k := k + 1;
      }
    }

    /** Registers a sender whose port is not in the list yet. */
    method Register(sender: Endpoint)
      requires Valid()
      modifies this
      ensures Valid() && Contents() == Registered(old(Contents()), sender)
    {
      var isAdded := CheckIfAddressIsAdded(sender.port);
      if !isAdded {
        var node := new Node(sender, sender.port);
        AddToList(node);
      }
    }

    /** acceptMessages, for a message from `sender`: to whom it is sent, in order. */
    method AcceptMessage(sender: Endpoint) returns (recipients: seq<Endpoint>)
      requires Valid()
      modifies this
      ensures Valid() && Contents() == Registered(old(Contents()), sender)
      ensures recipients == Others(Contents(), sender.port)
    {
      Register(sender);
      recipients := [];
      if size >= 2 {
        recipients := SendToOthers(sender.port);
      } else {
        RegisteredKnows(old(Contents()), sender);
        AloneHearsNothing(Contents(), sender);
      }
    }
  }

  // ---- One message, on values ----

  predicate Knows(list: seq<Endpoint>, port: int) {
    exists c :: c in list && c.port == port
  }

  function Registered(list: seq<Endpoint>, sender: Endpoint): (l: seq<Endpoint>) {
    if Knows(list, sender.port) then list else [sender] + list
  }

  /** The listed clients with another port, in list order. */
  function Others(list: seq<Endpoint>, port: int): (s: seq<Endpoint>) {
    OthersFrom(list, 0, port)
  }

  function OthersFrom(list: seq<Endpoint>, k: nat, port: int): (s: seq<Endpoint>)
    requires k <= |list|
    decreases |list| - k
  {
    if k == |list| then []
    else (if list[k].port != port then [list[k]] else []) + OthersFrom(list, k + 1, port)
  }

  /** The guard `size >= 2` changes nothing: a list of one holds only the sender's port. */
  lemma AloneHearsNothing(list: seq<Endpoint>, sender: Endpoint)
    requires |list| < 2 && Knows(list, sender.port)
    ensures Others(list, sender.port) == []
  {
    var c :| c in list && c.port == sender.port;
    assert list[0] == c && OthersFrom(list, 1, sender.port) == [];
  }

  lemma RegisteredKnows(list: seq<Endpoint>, sender: Endpoint)
    ensures Knows(Registered(list, sender), sender.port)
  {
    assert sender in [sender] + list;
  }

  // ---- Whole runs ----

  /** The list after these messages. */
  function After(history: seq<Endpoint>): (l: seq<Endpoint>) {
    if history == [] then []
    else Registered(After(history[..|history| - 1]), history[|history| - 1])
  }

  /** To whom the last message of the history is sent. */
  function Recipients(history: seq<Endpoint>): (r: seq<Endpoint>)
    requires history != []
  {
    Others(After(history), history[|history| - 1].port)
  }

  lemma AfterStep(history: seq<Endpoint>, k: nat)
    requires k < |history|
    ensures After(history[..k + 1]) == Registered(After(history[..k]), history[k])
    ensures Recipients(history[..k + 1]) == Others(After(history[..k + 1]), history[k].port)
  {
    assert history[..k + 1][..k] == history[..k];
  }

  /** What the first k messages send. */
  predicate SentFor(messages: seq<Endpoint>, sent: seq<seq<Endpoint>>, k: nat) {
    |sent| == k <= |messages| && forall i :: 0 <= i < k ==> sent[i] == Recipients(messages[..i + 1])
  }

  lemma SentOneMore(messages: seq<Endpoint>, sent: seq<seq<Endpoint>>, k: nat, recipients: seq<Endpoint>)
    requires SentFor(messages, sent, k) && k < |messages| && recipients == Recipients(messages[..k + 1])
    ensures SentFor(messages, sent + [recipients], k + 1)
  {
  }

  /** main's loop over the messages it will receive. */
  method Serve(messages: seq<Endpoint>) returns (list: List, sent: seq<seq<Endpoint>>)
    ensures list.Valid() && list.Contents() == After(messages) && list.size == |After(messages)|
    ensures SentFor(messages, sent, |messages|)
  {
    list := new List();
    sent := [];
    for k := 0 to |messages|
      invariant list.Valid() && fresh(list) && list.Contents() == After(messages[..k])
      invariant SentFor(messages, sent, k)
    {
      AfterStep(messages, k);
      var recipients := list.AcceptMessage(messages[k]);
      SentOneMore(messages, sent, k, recipients);
      sent := sent + [recipients];
    }
    assert messages[..|messages|] == messages;
  }

  /** The i-th message is the first from its port. */
  ghost predicate IsFirst(history: seq<Endpoint>, i: nat)
    requires i < |history|
  {
    forall j :: 0 <= j < i ==> history[j].port != history[i].port
  }

  /** The first message of each port, latest first: what the list should hold, said without
      the list. */
  ghost function FirstArrivals(history: seq<Endpoint>): (s: seq<Endpoint>) {
    if history == [] then []
    else (if IsFirst(history, |history| - 1) then [history[|history| - 1]] else [])
         + FirstArrivals(history[..|history| - 1])
  }

  ghost predicate Distinct(list: seq<Endpoint>) {
    forall i, j :: 0 <= i < j < |list| ==> list[i].port != list[j].port
  }

  ghost predicate Heard(history: seq<Endpoint>, port: int) {
    exists i :: 0 <= i < |history| && history[i].port == port
  }

  lemma KnowsCons(c: Endpoint, list: seq<Endpoint>, port: int)
    ensures Knows([c] + list, port) <==> c.port == port || Knows(list, port)
  {
    assert c in [c] + list;
    if Knows(list, port) {
      var d :| d in list && d.port == port;
      assert d in [c] + list;
    }
  }

  lemma HeardSnoc(history: seq<Endpoint>, port: int)
    requires history != []
    ensures Heard(history, port) <==> Heard(history[..|history| - 1], port) || history[|history| - 1].port == port
    ensures IsFirst(history, |history| - 1) <==> !Heard(history[..|history| - 1], history[|history| - 1].port)
  {
    var front := history[..|history| - 1];
    assert forall i :: 0 <= i < |front| ==> front[i] == history[i];
    if Heard(front, port) {
      var i :| 0 <= i < |front| && front[i].port == port;
      assert history[i].port == port;
    }
  }

  lemma {:induction false} ArrivalsHaveThePorts(history: seq<Endpoint>, port: int)
    ensures Knows(FirstArrivals(history), port) <==> Heard(history, port)
    decreases |history|
  {
    if history != [] {
      var front, last := history[..|history| - 1], history[|history| - 1];
      ArrivalsHaveThePorts(front, port);
      HeardSnoc(history, port);
      if IsFirst(history, |history| - 1) {
        KnowsCons(last, FirstArrivals(front), port);
      } else {
        assert FirstArrivals(history) == FirstArrivals(front);
      }
    }
  }

  /** After any history the list is the first arrivals, one for each port. */
  lemma {:induction false} ListIsFirstArrivals(history: seq<Endpoint>)
    ensures After(history) == FirstArrivals(history) && Distinct(After(history))
    decreases |history|
  {
    if history != [] {
      var n := |history| - 1;
      var front, last := history[..n], history[n];
      ListIsFirstArrivals(front);
      ArrivalsHaveThePorts(front, last.port);
      HeardSnoc(history, last.port);
    }
  }

  lemma {:induction false} OthersExactly(list: seq<Endpoint>, k: nat, port: int)
    requires Distinct(list) && k <= |list|
    ensures forall c :: c in OthersFrom(list, k, port) <==> ListedFrom(list, k, c) && c.port != port
    ensures Distinct(OthersFrom(list, k, port))
    decreases |list| - k
  {
    if k < |list| {
      OthersExactly(list, k + 1, port);
      ListedOrNext(list, k);
    }
  }

  /** `c` is in the list, at index k or behind it. */
  ghost predicate ListedFrom(list: seq<Endpoint>, k: nat, c: Endpoint) {
    exists i :: k <= i < |list| && list[i] == c
  }

  lemma ListedOrNext(list: seq<Endpoint>, k: nat)
    requires Distinct(list) && k < |list|
    ensures forall c :: ListedFrom(list, k, c) <==> c == list[k] || ListedFrom(list, k + 1, c)
    ensures forall c :: ListedFrom(list, k + 1, c) ==> c.port != list[k].port
  {
  }

  /** `c` was the first endpoint heard on its port. */
  ghost predicate FirstHeard(history: seq<Endpoint>, c: Endpoint) {
    exists i :: 0 <= i < |history| && history[i] == c && IsFirst(history, i)
  }

  lemma FirstHeardSnoc(history: seq<Endpoint>, c: Endpoint)
    requires history != []
    ensures FirstHeard(history, c) <==>
            FirstHeard(history[..|history| - 1], c)
            || (history[|history| - 1] == c && IsFirst(history, |history| - 1))
  {
    var front := history[..|history| - 1];
    assert forall i :: 0 <= i < |front| ==> front[i] == history[i];
    assert forall i: nat :: i < |front| ==> (IsFirst(front, i) <==> IsFirst(history, i));
    if FirstHeard(front, c) {
      var i: nat :| i < |front| && front[i] == c && IsFirst(front, i);
      assert history[i] == c && IsFirst(history, i);
    }
  }

  lemma {:induction false} InArrivals(history: seq<Endpoint>, c: Endpoint)
    ensures c in FirstArrivals(history) <==> FirstHeard(history, c)
    decreases |history|
  {
    if history != [] {
      InArrivals(history[..|history| - 1], c);
      FirstHeardSnoc(history, c);
    }
  }

  /** The last message goes once to the first endpoint heard on each other port, and to no
      one else; in particular never to the sender. */
  lemma RecipientsExactly(history: seq<Endpoint>)
    requires history != []
    ensures var sender := history[|history| - 1];
            && Distinct(Recipients(history))
            && forall c :: c in Recipients(history) <==>
                 c.port != sender.port && FirstHeard(history, c)
  {
    ListIsFirstArrivals(history);
    OthersExactly(After(history), 0, history[|history| - 1].port);
    forall c
      ensures c in After(history) <==> FirstHeard(history, c)
    {
      InArrivals(history, c);
    }
  }

  lemma {:induction false} OthersAt(list: seq<Endpoint>, k: nat, port: int, i: nat) returns (p: nat)
    requires k <= |list| && i < |OthersFrom(list, k, port)|
    ensures k <= p < |list| && list[p] == OthersFrom(list, k, port)[i]
    decreases |list| - k
  {
    if list[k].port == port {
      p := OthersAt(list, k + 1, port, i);
    } else if i == 0 {
      p := k;
    } else {
      p := OthersAt(list, k + 1, port, i - 1);
    }
  }

  lemma {:induction false} OthersInOrder(list: seq<Endpoint>, k: nat, port: int, i: nat, j: nat)
    returns (p: nat, q: nat)
    requires k <= |list| && i < j < |OthersFrom(list, k, port)|
    ensures k <= p < q < |list|
    ensures list[p] == OthersFrom(list, k, port)[i] && list[q] == OthersFrom(list, k, port)[j]
    decreases |list| - k
  {
    if list[k].port == port {
      p, q := OthersInOrder(list, k + 1, port, i, j);
    } else if i == 0 {
      p := k;
      q := OthersAt(list, k + 1, port, j - 1);
    } else {
      p, q := OthersInOrder(list, k + 1, port, i - 1, j - 1);
    }
  }

  lemma {:induction false} ArrivalsInOrder(history: seq<Endpoint>, p: nat, q: nat, a: nat, b: nat)
    requires p < q < |FirstArrivals(history)| && a < |history| && b < |history|
    requires history[a] == FirstArrivals(history)[p] && IsFirst(history, a)
    requires history[b] == FirstArrivals(history)[q] && IsFirst(history, b)
    ensures a > b
    decreases |history|
  {
    ArrivalInFront(history, p, a);
    ArrivalInFront(history, q, b);
    var own := OwnArrival(history);
    if p >= own {
      ArrivalsInOrder(history[..|history| - 1], p - own, q - own, a, b);
    }
  }

  /** 1 if the last message is the first from its port, 0 if not. */
  ghost function OwnArrival(history: seq<Endpoint>): (n: nat)
    requires history != []
  {
    if IsFirst(history, |history| - 1) then 1 else 0
  }

  /** Where an arrival comes from: the last message, or the messages before it. */
  lemma ArrivalInFront(history: seq<Endpoint>, p: nat, a: nat)
    requires p < |FirstArrivals(history)| && a < |history|
    requires history[a] == FirstArrivals(history)[p] && IsFirst(history, a)
    ensures var front, own := history[..|history| - 1], OwnArrival(history);
            if p < own then a == |history| - 1
            else a < |front| && p - own < |FirstArrivals(front)|
                 && FirstArrivals(front)[p - own] == front[a] && IsFirst(front, a)
  {
    ListIsFirstArrivals(history);
    assert Distinct(FirstArrivals(history));
    assert OwnArrival(history) == 1 ==> FirstArrivals(history)[0] == history[|history| - 1];
  }

  /** Of two recipients the one that was heard of later is sent to first. */
  lemma RecipientsLatestFirst(history: seq<Endpoint>, i: nat, j: nat, a: nat, b: nat)
    requires history != [] && i < j < |Recipients(history)| && a < |history| && b < |history|
    requires history[a] == Recipients(history)[i] && IsFirst(history, a)
    requires history[b] == Recipients(history)[j] && IsFirst(history, b)
    ensures a > b
  {
    ListIsFirstArrivals(history);
    var p, q := OthersInOrder(After(history), 0, history[|history| - 1].port, i, j);
    ArrivalsInOrder(history, p, q, a, b);
  }

  /** What a chat promises: every message reaches everyone else heard so far. */
  ghost predicate ReachesEveryone(history: seq<Endpoint>)
    requires history != []
  {
    forall i :: 0 <= i < |history| && history[i] != history[|history| - 1] ==> history[i] in Recipients(history)
  }

  ghost predicate PortsTellApart(history: seq<Endpoint>) {
    forall i, j :: 0 <= i < |history| && 0 <= j < |history| && history[i].port == history[j].port ==>
      history[i] == history[j]
  }

  /** Every message of a history reaches everyone else exactly when no two clients share a
      port: the list looks at the port alone. */
  lemma RelayIffPortsDiffer(history: seq<Endpoint>)
    ensures (forall k :: 1 <= k <= |history| ==> ReachesEveryone(history[..k])) <==> PortsTellApart(history)
  {
    if PortsTellApart(history) {
      forall k | 1 <= k <= |history|
        ensures ReachesEveryone(history[..k])
      {
        ApartReachesEveryone(history[..k]);
      }
    } else {
      var i, j :| 0 <= i < |history| && 0 <= j < |history| && history[i].port == history[j].port
                  && history[i] != history[j];
      SharedPortMisses(history, if i < j then i else j, if i < j then j else i);
    }
  }

  lemma {:induction false} EarliestOfPort(history: seq<Endpoint>, i: nat) returns (j: nat)
    requires i < |history|
    ensures j <= i && history[j].port == history[i].port && IsFirst(history, j)
    decreases i
  {
    if IsFirst(history, i) {
      j := i;
    } else {
      var k :| 0 <= k < i && history[k].port == history[i].port;
      j := EarliestOfPort(history, k);
    }
  }

  lemma ApartReachesEveryone(history: seq<Endpoint>)
    requires history != [] && PortsTellApart(history)
    ensures ReachesEveryone(history)
  {
    RecipientsExactly(history);
    forall i | 0 <= i < |history| && history[i] != history[|history| - 1]
      ensures history[i] in Recipients(history)
    {
      var j := EarliestOfPort(history, i);
      assert history[j] == history[i] && FirstHeard(history, history[i]);
    }
  }

  lemma SharedPortMisses(history: seq<Endpoint>, i: nat, j: nat)
    requires i < j < |history| && history[i].port == history[j].port && history[i] != history[j]
    ensures !ReachesEveryone(history[..j + 1])
  {
    var heard := history[..j + 1];
    RecipientsExactly(heard);
    assert heard[i] == history[i] && heard[|heard| - 1] == history[j];
    assert heard[i] !in Recipients(heard);
  }
}
