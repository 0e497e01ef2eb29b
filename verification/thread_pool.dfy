/** The producer and the worker threads of socket_pool/pool.c and examen/server-pool.c,
    statement by statement: a recursive mutex, a condition variable and a shared queue. */
module ThreadPool {

  /** Where a worker is in handle_requests_loop and, below it, get_request. */
  datatype WorkerPc =
    | Start      // about to lock the mutex for the first time
    | Check      // `if (num_requests > 0)`
    | GetLock    // get_request: about to lock the mutex again
    | Pop        // get_request: about to unlink the first request
    | Decrement  // get_request: about to decrease num_requests
    | GetUnlock  // get_request: about to unlock
    | Handle     // about to run handle_request and free the request
    | CallWait   // about to call pthread_cond_wait
    | Waiting    // blocked on the condition variable
    | Wakened    // inside pthread_cond_wait, about to lock the mutex again

  /** Where the producer is in add_request; Next is the head of its own loop. */
  datatype ProducerPc = Next | Lock | Link | Count | Unlock | Signal

  datatype Owner = Nobody | Producer | Worker(id: nat)

  /** A request: its number or its socket, and whether handle_request ends for it. In pool.c
      it always does; in the servers it waits in `read` for as long as the client sends
      nothing and does not hang up. */
  datatype Job = Job(number: int, ends: bool)

  /** A worker's program counter and its `a_request`: nothing (NULL) or one request. */
  datatype Thread = Thread(pc: WorkerPc, hand: seq<Job>)

  /** `jobs` is what the producer will add (request numbers, or accepted sockets), `made` how
      many rounds it has finished, `log` what has been handled (and closed), in order.
      `recursive` is the kind of the mutex: the source declares a recursive one, the other
      kind is the normal one, on which a thread that locks it twice waits for itself. */
  datatype State = State(
    recursive: bool, jobs: seq<Job>, made: nat, producer: ProducerPc, workers: seq<Thread>,
    owner: Owner, depth: int, queue: seq<Job>, num: int, log: seq<Job>)

  datatype Step =
    | ProducerStep           // any producer statement but the signal
    | SignalWakes(id: nat)   // pthread_cond_signal takes a thread off the wait set
    | SignalsNobody          // ... or finds it empty
    | WorkerStep(id: nat)
    | Spurious(id: nat)      // pthread_cond_wait returns without a signal

  function Init(recursive: bool, jobs: seq<Job>, n: nat): (s: State) {
    State(recursive, jobs, 0, Next, seq(n, _ => Thread(Start, [])), Nobody, 0, [], 0, [])
  }

  // ---- The mutex ----

  predicate CanLock(s: State, me: Owner) {
    s.owner.Nobody? || (s.recursive && s.owner == me)
  }

  function Locked(s: State, me: Owner): (s': State) {
    s.(owner := me, depth := s.depth + 1)
  }

  function Unlocked(s: State): (s': State) {
    s.(owner := if s.depth == 1 then Nobody else s.owner, depth := s.depth - 1)
  }

  // ---- The statements ----

  function Move(s: State, id: nat, pc: WorkerPc): (s': State)
    requires id < |s.workers|
  {
    s.(workers := s.workers[id := s.workers[id].(pc := pc)])
  }

  predicate WorkerEnabled(s: State, id: nat) {
    id < |s.workers| &&
    match s.workers[id].pc
    case Start | Wakened => s.owner.Nobody?
    case GetLock => CanLock(s, Worker(id))
    case Pop => s.num > 0 ==> s.queue != [] // `requests->next` needs a request
    case Handle => s.workers[id].hand == [] || s.workers[id].hand[0].ends
    case Waiting => false
    case _ => true
  }

  function WorkerApply(s: State, id: nat): (s': State)
    requires WorkerEnabled(s, id)
  {
    var w := s.workers[id];
    match w.pc
    case Start => Move(Locked(s, Worker(id)), id, Check)
    case Check => Move(s, id, if s.num > 0 then GetLock else CallWait)
    case GetLock => Move(Locked(s, Worker(id)), id, Pop)
    case Pop =>
      if s.num > 0 then s.(workers := s.workers[id := Thread(Decrement, [s.queue[0]])], queue := s.queue[1..])
      else s.(workers := s.workers[id := Thread(GetUnlock, [])])
    case Decrement => Move(s, id, GetUnlock).(num := s.num - 1)
    case GetUnlock => Move(Unlocked(s), id, Handle)
    case Handle => s.(workers := s.workers[id := Thread(Check, [])], log := s.log + w.hand)
    case CallWait => Move(Unlocked(s), id, Waiting)
    case Wakened => Move(Locked(s, Worker(id)), id, Check)
    case Waiting => assert false; s
  }

  predicate ProducerEnabled(s: State) {
    match s.producer
    case Next => s.made < |s.jobs|
    case Lock => CanLock(s, Producer)
    case Link => s.made < |s.jobs| && (s.num != 0 ==> s.queue != []) // `last_request->next` needs a request
    case Signal => false // see SignalWakes and SignalsNobody
    case _ => true
  }

  function ProducerApply(s: State): (s': State)
    requires ProducerEnabled(s)
  {
    match s.producer
    case Next => s.(producer := Lock)
    case Lock => Locked(s, Producer).(producer := Link)
    case Link => s.(producer := Count, queue := if s.num == 0 then [s.jobs[s.made]] else s.queue + [s.jobs[s.made]])
    case Count => s.(producer := Unlock, num := s.num + 1)
    case Unlock => Unlocked(s).(producer := Signal)
    case Signal => assert false; s
  }

  predicate IsWaiting(s: State, id: nat) {
    id < |s.workers| && s.workers[id].pc == Waiting
  }

  predicate AllWaiting(s: State) {
    forall id :: 0 <= id < |s.workers| ==> s.workers[id].pc == Waiting
  }

  predicate Enabled(s: State, step: Step) {
    match step
    case ProducerStep => ProducerEnabled(s)
    case SignalWakes(id) => s.producer == Signal && IsWaiting(s, id)
    case SignalsNobody => s.producer == Signal && forall id :: 0 <= id < |s.workers| ==> !IsWaiting(s, id)
    case WorkerStep(id) => WorkerEnabled(s, id)
    case Spurious(id) => IsWaiting(s, id)
  }

  function Apply(s: State, step: Step): (s': State)
    requires Enabled(s, step)
  {
    match step
    case ProducerStep => ProducerApply(s)
    case SignalWakes(id) => Move(s, id, Wakened).(producer := Next, made := s.made + 1)
    case SignalsNobody => s.(producer := Next, made := s.made + 1)
    case WorkerStep(id) => WorkerApply(s, id)
    case Spurious(id) => Move(s, id, Wakened)
  }

  ghost predicate IsRun(s: State, steps: seq<Step>)
    decreases |steps|, 0
  {
    steps == [] || (var front := steps[..|steps| - 1];
                    IsRun(s, front) && Enabled(After(s, front), steps[|steps| - 1]))
  }

  ghost function After(s: State, steps: seq<Step>): (s': State)
    requires IsRun(s, steps)
    decreases |steps|, 1
  {
    if steps == [] then s else Apply(After(s, steps[..|steps| - 1]), steps[|steps| - 1])
  }

  // ---- The invariant ----

  /** How deep a worker at `pc` holds the mutex. */
  function DepthAt(pc: WorkerPc): (d: nat) {
    match pc
    case Start | Waiting | Wakened => 0
    case Pop | Decrement | GetUnlock => 2
    case _ => 1
  }

  predicate ProducerHolds(pc: ProducerPc) {
    pc.Link? || pc.Count? || pc.Unlock?
  }

  ghost predicate MutexInv(s: State) {
    && (forall id :: 0 <= id < |s.workers| ==> (DepthAt(s.workers[id].pc) > 0 <==> s.owner == Worker(id)))
    && (s.owner.Worker? ==> s.owner.id < |s.workers| && s.depth == DepthAt(s.workers[s.owner.id].pc))
    && (ProducerHolds(s.producer) <==> s.owner.Producer?)
    && (s.owner.Producer? ==> s.depth == 1)
    && (s.owner.Nobody? ==> s.depth == 0)
  }

  /** The request that has left the queue and has not been handled, if any. */
  function InHand(s: State): (h: seq<Job>) {
    if s.owner.Worker? && s.owner.id < |s.workers| then s.workers[s.owner.id].hand else []
  }

  function Added(s: State): (n: nat) {
    s.made + if s.producer.Count? || s.producer.Unlock? || s.producer.Signal? then 1 else 0
  }

  predicate HandOk(w: Thread) {
    |w.hand| == if w.pc.Decrement? || w.pc.GetUnlock? || w.pc.Handle? then 1 else 0
  }

  /** What the invariant says of one worker. */
  ghost predicate ThreadOk(w: Thread, num: int) {
    HandOk(w) && (w.pc.GetLock? || w.pc.Pop? ==> num > 0) && (w.pc.CallWait? ==> num == 0)
  }

  /** How far num_requests is ahead of the queue. */
  function Lag(s: State): (d: int) {
    if s.producer.Count? then -1
    else if s.owner.Worker? && s.owner.id < |s.workers| && s.workers[s.owner.id].pc.Decrement? then 1
    else 0
  }

  ghost predicate QueueInv(s: State) {
    && Added(s) <= |s.jobs|
    && (s.producer.Lock? || s.producer.Link? ==> s.made < |s.jobs|)
    && s.log + InHand(s) + s.queue == s.jobs[..Added(s)]
    && s.num == |s.queue| + Lag(s)
    && (forall id :: 0 <= id < |s.workers| ==> ThreadOk(s.workers[id], s.num))
  }

  /** No lost wake-up: a pending request has a worker that is not blocked, or the producer is
      about to signal. */
  ghost predicate WakeInv(s: State) {
    s.num > 0 ==>
      (exists id :: 0 <= id < |s.workers| && !IsWaiting(s, id)) || s.producer.Unlock? || s.producer.Signal?
  }

  /** Between the second lock of the mutex and the end of the handler. */
  predicate HasTaken(pc: WorkerPc) {
    pc.Pop? || pc.Decrement? || pc.GetUnlock? || pc.Handle?
  }

  ghost predicate AllEnd(jobs: seq<Job>) {
    forall i :: 0 <= i < |jobs| ==> jobs[i].ends
  }

  /** Only handlers that end reach the log, and none does without a recursive mutex. */
  ghost predicate LogInv(s: State) {
    && AllEnd(s.log)
    && (s.recursive || (s.log == [] && forall id :: 0 <= id < |s.workers| ==> !HasTaken(s.workers[id].pc)))
  }

  ghost predicate Inv(s: State) {
    |s.workers| >= 1 && MutexInv(s) && QueueInv(s) && WakeInv(s) && LogInv(s)
  }

  lemma InitInv(recursive: bool, jobs: seq<Job>, n: nat)
    requires n >= 1
    ensures Inv(Init(recursive, jobs, n))
  {
  }

  lemma WorkerKeepsMutex(s: State, id: nat)
    requires MutexInv(s) && WorkerEnabled(s, id)
    ensures MutexInv(WorkerApply(s, id))
  {
    var s' := WorkerApply(s, id);
    forall j | 0 <= j < |s'.workers|
      ensures DepthAt(s'.workers[j].pc) > 0 <==> s'.owner == Worker(j)
    {
      assert j != id ==> s'.workers[j] == s.workers[j];
    }
  }

  /** A worker between locking and waiting is the one that holds the mutex. */
  lemma OthersUnlocked(s: State, id: nat, j: nat)
    requires MutexInv(s) && id < |s.workers| && j < |s.workers| && j != id
    requires DepthAt(s.workers[id].pc) > 0
    ensures DepthAt(s.workers[j].pc) == 0 && s.owner == Worker(id)
  {
  }

  lemma WorkerKeepsThreads(s: State, id: nat)
    requires MutexInv(s) && QueueInv(s) && WorkerEnabled(s, id)
    ensures var s' := WorkerApply(s, id);
            forall j :: 0 <= j < |s'.workers| ==> ThreadOk(s'.workers[j], s'.num)
  {
    var s', w := WorkerApply(s, id), s.workers[id];
    assert ThreadOk(s'.workers[id], s'.num);
    forall j | 0 <= j < |s'.workers| && j != id
      ensures ThreadOk(s'.workers[j], s'.num)
    {
      assert s'.workers[j] == s.workers[j] && ThreadOk(s.workers[j], s.num);
      if w.pc.Decrement? {
        OthersUnlocked(s, id, j);
      }
    }
  }

  lemma WorkerKeepsQueue(s: State, id: nat)
    requires MutexInv(s) && QueueInv(s) && WorkerEnabled(s, id)
    ensures QueueInv(WorkerApply(s, id))
  {
    WorkerKeepsThreads(s, id);
    WorkerKeepsOrder(s, id);
  }

  lemma WorkerKeepsOrder(s: State, id: nat)
    requires MutexInv(s) && QueueInv(s) && WorkerEnabled(s, id)
    ensures var s' := WorkerApply(s, id);
            s'.log + InHand(s') + s'.queue == s.log + InHand(s) + s.queue && s'.num == |s'.queue| + Lag(s')
  {
    var s', w := WorkerApply(s, id), s.workers[id];
    match w.pc {
      case Pop =>
        assert s.queue == [s.queue[0]] + s.queue[1..];
        assert InHand(s) == [] && InHand(s') == [s.queue[0]];
      case Handle =>
        assert InHand(s) == w.hand && InHand(s') == [];
      case Start | Check | GetLock | Decrement | GetUnlock | CallWait | Wakened =>
        assert InHand(s') == InHand(s);
      case Waiting =>
    }
  }

  lemma WorkerKeepsLog(s: State, id: nat)
    requires MutexInv(s) && QueueInv(s) && LogInv(s) && WorkerEnabled(s, id)
    ensures LogInv(WorkerApply(s, id))
  {
    var s', w := WorkerApply(s, id), s.workers[id];
    assert w.pc.GetLock? ==> s.owner == Worker(id);
    forall j | 0 <= j < |s'.workers| && !s.recursive
      ensures !HasTaken(s'.workers[j].pc)
    {
      assert j != id ==> s'.workers[j] == s.workers[j];
    }
  }

  lemma WorkerKeepsInv(s: State, id: nat)
    requires Inv(s) && WorkerEnabled(s, id)
    ensures Inv(WorkerApply(s, id))
  {
    WorkerKeepsLog(s, id);
    WorkerKeepsMutex(s, id);
    WorkerKeepsQueue(s, id);
    var s' := WorkerApply(s, id);
    assert s'.workers[id].pc == Waiting || !IsWaiting(s', id);
  }

  lemma ProducerKeepsQueue(s: State)
    requires MutexInv(s) && QueueInv(s) && ProducerEnabled(s)
    ensures QueueInv(ProducerApply(s))
  {
    var s' := ProducerApply(s);
    assert InHand(s') == InHand(s);
    if s.producer.Link? {
      assert s.num == 0 ==> s.queue == [];
      assert s.log + InHand(s) + (s.queue + [s.jobs[s.made]]) == s.jobs[..s.made] + [s.jobs[s.made]];
    }
    if s.producer.Count? {
      forall id | 0 <= id < |s.workers|
        ensures ThreadOk(s'.workers[id], s'.num)
      {
        assert ThreadOk(s.workers[id], s.num) && DepthAt(s.workers[id].pc) == 0;
      }
    }
  }

  lemma ProducerKeepsInv(s: State)
    requires Inv(s) && ProducerEnabled(s)
    ensures Inv(ProducerApply(s))
  {
    ProducerKeepsQueue(s);
    assert forall id :: IsWaiting(ProducerApply(s), id) == IsWaiting(s, id);
  }

  predicate Wakes(step: Step) {
    step.SignalWakes? || step.SignalsNobody? || step.Spurious?
  }

  lemma WakingKeepsMutex(s: State, step: Step)
    requires MutexInv(s) && Enabled(s, step) && Wakes(step)
    ensures MutexInv(Apply(s, step)) && InHand(Apply(s, step)) == InHand(s)
  {
  }

  lemma WakingKeepsQueue(s: State, step: Step)
    requires MutexInv(s) && QueueInv(s) && Enabled(s, step) && Wakes(step)
    ensures QueueInv(Apply(s, step))
  {
    WakingKeepsMutex(s, step);
  }

  lemma WakingKeepsLog(s: State, step: Step)
    requires LogInv(s) && Enabled(s, step) && Wakes(step)
    ensures LogInv(Apply(s, step))
  {
  }

  lemma WakingKeepsInv(s: State, step: Step)
    requires Inv(s) && Enabled(s, step) && Wakes(step)
    ensures Inv(Apply(s, step))
  {
    WakingKeepsMutex(s, step);
    WakingKeepsQueue(s, step);
    WakingKeepsLog(s, step);
    var s' := Apply(s, step);
    if step.SignalsNobody? {
      assert !IsWaiting(s, 0) && !IsWaiting(s', 0);
    } else {
      assert !IsWaiting(s', step.id);
    }
  }

  lemma StepKeepsInv(s: State, step: Step)
    requires Inv(s) && Enabled(s, step)
    ensures Inv(Apply(s, step))
  {
    match step {
      case ProducerStep => ProducerKeepsInv(s);
      case WorkerStep(id) => WorkerKeepsInv(s, id);
      case _ => WakingKeepsInv(s, step);
    }
  }

  lemma StepKeepsSetting(s: State, step: Step)
    requires Enabled(s, step)
    ensures Apply(s, step).jobs == s.jobs && Apply(s, step).recursive == s.recursive
    ensures |Apply(s, step).workers| == |s.workers|
  {
  }

  lemma {:induction false} RunKeepsInv(s: State, steps: seq<Step>)
    requires Inv(s) && IsRun(s, steps)
    ensures Inv(After(s, steps))
    ensures After(s, steps).jobs == s.jobs && After(s, steps).recursive == s.recursive
    ensures |After(s, steps).workers| == |s.workers|
    decreases |steps|
  {
    if steps != [] {
      var front, last := steps[..|steps| - 1], steps[|steps| - 1];
      RunKeepsInv(s, front);
      var s' := After(s, front);
      StepKeepsInv(s', last);
      StepKeepsSetting(s', last);
    }
  }

  // ---- Safety over whole runs ----

  /** The state reached from the start by `steps`, with n workers. */
  ghost predicate Reaches(recursive: bool, jobs: seq<Job>, n: nat, steps: seq<Step>, s: State) {
    IsRun(Init(recursive, jobs, n), steps) && s == After(Init(recursive, jobs, n), steps)
  }

  lemma ReachedInv(recursive: bool, jobs: seq<Job>, n: nat, steps: seq<Step>, s: State)
    requires n >= 1 && Reaches(recursive, jobs, n, steps, s)
    ensures Inv(s) && s.jobs == jobs && s.recursive == recursive && |s.workers| == n
  {
    InitInv(recursive, jobs, n);
    RunKeepsInv(Init(recursive, jobs, n), steps);
  }

  /** In order and exactly once: at every moment the handled requests, the one in hand and
      the queued ones are, in this order, the requests added so far. */
  lemma OrderRun(recursive: bool, jobs: seq<Job>, n: nat, steps: seq<Step>, s: State)
    requires n >= 1 && Reaches(recursive, jobs, n, steps, s)
    ensures Added(s) <= |jobs| && s.log + InHand(s) + s.queue == jobs[..Added(s)]
    ensures s.log == jobs[..|s.log|]
    ensures forall id :: 0 <= id < |s.workers| && s.workers[id].hand != [] ==>
              s.owner == Worker(id) && |s.log| < |jobs| && s.workers[id].hand == [jobs[|s.log|]]
  {
    ReachedInv(recursive, jobs, n, steps, s);
    var all := s.log + InHand(s) + s.queue;
    assert all[..|s.log|] == s.log;
    forall id | 0 <= id < |s.workers| && s.workers[id].hand != []
      ensures s.owner == Worker(id) && |s.log| < |jobs| && s.workers[id].hand == [jobs[|s.log|]]
    {
      assert HandOk(s.workers[id]) && DepthAt(s.workers[id].pc) > 0;
      assert InHand(s) == [s.workers[id].hand[0]];
      assert all[|s.log|] == s.workers[id].hand[0];
    }
  }

  /** Where an accepted socket can be; WithProducer is between accept and the list. */
  datatype Place = NotAccepted | WithProducer | Queued | InAHand | Closed

  /** How many sockets accept has returned. */
  function Accepted(s: State): (n: nat) {
    if s.producer.Next? then s.made else s.made + 1
  }

  /** Where the p-th accepted socket is. */
  function PlaceOf(s: State, p: nat): (place: Place) {
    PlaceAmong(|s.log|, |InHand(s)|, |s.queue|, Accepted(s), p)
  }

  function PlaceAmong(closed: nat, inHand: nat, queued: nat, accepted: nat, p: nat): (place: Place) {
    if p < closed then Closed
    else if p < closed + inHand then InAHand
    else if p < closed + inHand + queued then Queued
    else if p < accepted then WithProducer
    else NotAccepted
  }

  /** One place further on. */
  predicate MovesOn(from: Place, to: Place) {
    (from, to) in {(NotAccepted, WithProducer), (WithProducer, Queued), (Queued, InAHand), (InAHand, Closed)}
  }

  /** Conservation of sockets: each accepted one is in one place, found there under its own
      number, and a step only moves sockets one place on: one that is closed stays closed. */
  lemma SocketConservation(recursive: bool, jobs: seq<Job>, n: nat, steps: seq<Step>, s: State, p: nat)
    requires n >= 1 && Reaches(recursive, jobs, n, steps, s)
    ensures PlaceOf(s, p) == NotAccepted <==> p >= Accepted(s)
    ensures PlaceOf(s, p) != NotAccepted ==> p < |jobs|
    ensures PlaceOf(s, p) == Closed ==> s.log[p] == jobs[p]
    ensures PlaceOf(s, p) == InAHand ==> p == |s.log| && InHand(s) == [jobs[p]]
    ensures PlaceOf(s, p) == Queued ==> s.queue[p - |s.log| - |InHand(s)|] == jobs[p]
    ensures PlaceOf(s, p) == WithProducer ==> p == s.made && (s.producer.Lock? || s.producer.Link?)
    ensures forall step :: Enabled(s, step) ==> s.log <= Apply(s, step).log
    ensures forall step :: Enabled(s, step) ==>
              PlaceOf(Apply(s, step), p) == PlaceOf(s, p) || MovesOn(PlaceOf(s, p), PlaceOf(Apply(s, step), p))
  {
    ReachedInv(recursive, jobs, n, steps, s);
    var all := s.log + InHand(s) + s.queue;
    assert |InHand(s)| <= 1;
    assert p < |all| ==> all[p] == jobs[p];
    forall step | Enabled(s, step)
      ensures s.log <= Apply(s, step).log
      ensures PlaceOf(Apply(s, step), p) == PlaceOf(s, p) || MovesOn(PlaceOf(s, p), PlaceOf(Apply(s, step), p))
    {
      StepMovesOne(s, step, p);
    }
  }

  lemma StepMovesOne(s: State, step: Step, p: nat)
    requires Inv(s) && Enabled(s, step)
    ensures s.log <= Apply(s, step).log
    ensures PlaceOf(Apply(s, step), p) == PlaceOf(s, p) || MovesOn(PlaceOf(s, p), PlaceOf(Apply(s, step), p))
  {
    CountsBound(s);
    match step {
      case ProducerStep => ProducerMovesOne(s);
      case WorkerStep(id) => WorkerMovesOne(s, id, Apply(s, step));
      case _ => WakingKeepsMutex(s, step);
    }
    CountsMove(s, Apply(s, step), p);
  }

  lemma CountsBound(s: State)
    requires MutexInv(s) && QueueInv(s)
    ensures |s.log| + |InHand(s)| + |s.queue| == Added(s) && |InHand(s)| <= 1
  {
    assert |s.log + InHand(s) + s.queue| == Added(s);
  }

  /** The producer accepts a socket, puts the accepted one into the list, or moves none. */
  lemma ProducerMovesOne(s: State)
    requires MutexInv(s) && QueueInv(s) && ProducerEnabled(s)
    ensures var s' := ProducerApply(s);
            && s'.log == s.log && InHand(s') == InHand(s)
            && (|| (s'.queue == s.queue && Accepted(s') == Accepted(s))
                || (s'.queue == s.queue && Accepted(s) == Added(s) && Accepted(s') == Added(s) + 1)
                || (|s'.queue| == |s.queue| + 1 && Accepted(s') == Accepted(s) == Added(s) + 1))
  {
  }

  /** A worker's step keeps what it and the queue hold, takes one, or closes the one it has. */
  lemma WorkerMovesOne(s: State, id: nat, s': State)
    requires MutexInv(s) && QueueInv(s) && WorkerEnabled(s, id) && s' == WorkerApply(s, id)
    ensures Accepted(s') == Accepted(s)
    ensures || (s'.log == s.log && InHand(s') == InHand(s) && s'.queue == s.queue)
            || (s'.log == s.log && InHand(s) == [] && s.queue != []
                && InHand(s') == s.queue[..1] && s'.queue == s.queue[1..])
            || (s'.log == s.log + InHand(s) && InHand(s') == [] && |InHand(s)| == 1 && s'.queue == s.queue)
  {
    var w := s.workers[id];
    assert HandOk(w);
    if DepthAt(w.pc) > 0 {
      assert s.owner == Worker(id);
    }
  }

  /** Between two states that differ by one of these moves, no socket skips a place. */
  lemma CountsMove(s: State, s': State, p: nat)
    requires |s.log| + |InHand(s)| + |s.queue| == Added(s)
    requires || (&& |s'.log| == |s.log| && |InHand(s')| == |InHand(s)|
                 && (|| (|s'.queue| == |s.queue| && Accepted(s') == Accepted(s))
                     || (|s'.queue| == |s.queue| && Accepted(s) == Added(s) && Accepted(s') == Added(s) + 1)
                     || (|s'.queue| == |s.queue| + 1 && Accepted(s') == Accepted(s) == Added(s) + 1)))
             || (&& Accepted(s') == Accepted(s) && |s'.log| == |s.log|
                 && |InHand(s)| == 0 && |InHand(s')| == 1 && |s'.queue| + 1 == |s.queue|)
             || (&& Accepted(s') == Accepted(s) && |s'.log| == |s.log| + 1
                 && |InHand(s)| == 1 && |InHand(s')| == 0 && |s'.queue| == |s.queue|)
    ensures PlaceOf(s', p) == PlaceOf(s, p) || MovesOn(PlaceOf(s, p), PlaceOf(s', p))
  {
  }

  /** The recursive lock: one owner at a time, at depth 1, or 2 inside get_request, which
      gives the depth back; pthread_cond_wait is only called at depth 1, so it does release
      the mutex; and no two handlers overlap. */
  lemma LockDiscipline(recursive: bool, jobs: seq<Job>, n: nat, steps: seq<Step>, s: State)
    requires n >= 1 && Reaches(recursive, jobs, n, steps, s)
    ensures 0 <= s.depth <= 2 && (s.depth == 0 <==> s.owner.Nobody?)
    ensures forall id :: 0 <= id < |s.workers| && DepthAt(s.workers[id].pc) > 0 ==>
              s.owner == Worker(id) && s.depth == DepthAt(s.workers[id].pc)
    ensures s.producer.Link? || s.producer.Count? || s.producer.Unlock? ==> s.owner.Producer? && s.depth == 1
    ensures forall i, j :: 0 <= i < j < |s.workers| ==> !(s.workers[i].pc.Handle? && s.workers[j].pc.Handle?)
    ensures forall id: nat :: Enabled(s, WorkerStep(id)) && s.workers[id].pc.CallWait? ==>
              Apply(s, WorkerStep(id)).owner.Nobody? && Apply(s, WorkerStep(id)).depth == 0
  {
    ReachedInv(recursive, jobs, n, steps, s);
    forall id: nat | Enabled(s, WorkerStep(id)) && s.workers[id].pc.CallWait?
      ensures Apply(s, WorkerStep(id)).owner.Nobody? && Apply(s, WorkerStep(id)).depth == 0
    {
      assert s.owner == Worker(id);
    }
  }

  /** No lost wake-up, for any number of workers and with spurious wake-ups. */
  lemma NoLostWakeup(recursive: bool, jobs: seq<Job>, n: nat, steps: seq<Step>, s: State)
    requires n >= 1 && Reaches(recursive, jobs, n, steps, s)
    ensures s.num > 0 && AllWaiting(s) ==> s.producer.Unlock? || s.producer.Signal?
    ensures s.num > 0 && AllWaiting(s) && s.owner.Nobody? ==> s.producer.Signal?
  {
    ReachedInv(recursive, jobs, n, steps, s);
    if s.num > 0 && !s.producer.Unlock? && !s.producer.Signal? {
      var id :| 0 <= id < |s.workers| && !IsWaiting(s, id);
      assert s.workers[id].pc != Waiting;
    }
  }

  // ---- Who can move ----

  /** In a reached state a worker is held up by three things only: the condition variable, the
      mutex when it starts or wakes up, and a handler that does not end. */
  lemma WorkerMoves(s: State, id: nat)
    requires Inv(s) && s.recursive && id < |s.workers|
    ensures var w := s.workers[id];
            WorkerEnabled(s, id) <==>
              && w.pc != Waiting
              && (w.pc == Start || w.pc == Wakened ==> s.owner == Nobody)
              && (w.pc == Handle ==> forall i :: 0 <= i < |w.hand| ==> w.hand[i].ends)
  {
    assert ThreadOk(s.workers[id], s.num);
  }

  /** The producer is held up by the mutex, or has no more to add; when it signals, any thread
      that waits may be the one woken, and each may wake up at any time without a signal. */
  lemma ProducerMoves(s: State)
    requires Inv(s)
    ensures ProducerEnabled(s) <==>
              && s.producer != Signal
              && (s.producer == Next ==> s.made < |s.jobs|)
              && (s.producer == Lock ==> s.owner == Nobody)
    ensures forall id: nat :: IsWaiting(s, id) ==>
              && Enabled(s, Spurious(id))
              && Apply(s, Spurious(id)) == Move(s, id, Wakened)
              && (s.producer == Signal ==> Enabled(s, SignalWakes(id)))
  {
  }

  // ---- The critical sections ----

  /** While a thread holds the mutex, no step of another one touches what it protects, so
      the statements of a critical section act as one. */
  lemma SectionIsExclusive(s: State, step: Step)
    requires Inv(s) && Enabled(s, step) && !s.owner.Nobody?
    requires s.owner.Worker? ==> step != WorkerStep(s.owner.id)
    requires s.owner.Producer? ==> step != ProducerStep
    ensures var s' := Apply(s, step);
            && s'.queue == s.queue && s'.num == s.num && s'.log == s.log
            && s'.owner == s.owner && s'.depth == s.depth
            && (s.owner.Worker? ==> s'.workers[s.owner.id] == s.workers[s.owner.id])
            && (s.owner.Producer? ==> s'.producer == s.producer)
  {
    match step {
      case WorkerStep(id) => OnlyOwnerWorks(s, id);
      case ProducerStep => OutsideItsSection(s);
      case _ => OwnerIsAwake(s);
    }
  }

  /** While the mutex is taken no worker can move but its owner. */
  lemma OnlyOwnerWorks(s: State, id: nat)
    requires MutexInv(s) && WorkerEnabled(s, id) && !s.owner.Nobody?
    ensures s.owner == Worker(id)
  {
  }

  /** While a worker has the mutex the producer can only start its next round. */
  lemma OutsideItsSection(s: State)
    requires MutexInv(s) && ProducerEnabled(s) && s.owner.Worker?
    ensures s.producer == Next
  {
  }

  lemma OwnerIsAwake(s: State)
    requires MutexInv(s)
    ensures s.owner.Worker? ==> s.workers[s.owner.id].pc != Waiting
    ensures s.owner.Producer? ==> s.producer != Signal
  {
  }

  /** add_request, from its lock to its unlock: it appends the request and raises the counter. */
  lemma AddRequestAppends(s: State)
    requires Inv(s) && s.owner.Nobody? && s.producer == Lock
    ensures s.made < |s.jobs| && ProducerEnabled(s)
    ensures var s1 := ProducerApply(s);
            && ProducerEnabled(s1)
            && var s2 := ProducerApply(s1);
            && ProducerEnabled(s2)
            && var s3 := ProducerApply(s2);
            && ProducerEnabled(s3)
            && ProducerApply(s3) == s.(producer := Signal, queue := s.queue + [s.jobs[s.made]], num := s.num + 1)
  {
    assert s.num == |s.queue|;
    LinkAppends(ProducerApply(s));
  }

  lemma LinkAppends(s: State)
    requires s.producer == Link && ProducerEnabled(s) && s.num == |s.queue|
    ensures ProducerApply(s) == s.(producer := Count, queue := s.queue + [s.jobs[s.made]])
  {
    assert s.queue == [] ==> s.queue + [s.jobs[s.made]] == [s.jobs[s.made]];
  }

  /** get_request, from its lock to its unlock: it takes the first request and gives the
      mutex back as deep as its caller held it. */
  lemma GetRequestPops(s: State, id: nat)
    requires Inv(s) && s.recursive && id < |s.workers| && s.workers[id].pc == GetLock
    ensures s.queue != [] && WorkerEnabled(s, id)
    ensures var s1 := WorkerApply(s, id);
            && WorkerEnabled(s1, id) && s1.depth == s.depth + 1
            && var s2 := WorkerApply(s1, id);
            && WorkerEnabled(s2, id)
            && var s3 := WorkerApply(s2, id);
            && WorkerEnabled(s3, id)
            && WorkerApply(s3, id) ==
               s.(workers := s.workers[id := Thread(Handle, [s.queue[0]])], queue := s.queue[1..], num := s.num - 1)
  {
    assert ThreadOk(s.workers[id], s.num) && s.owner == Worker(id);
    var s4 := WorkerApply(WorkerApply(WorkerApply(WorkerApply(s, id), id), id), id);
    assert s4.workers == s.workers[id := Thread(Handle, [s.queue[0]])];
  }

  // ---- Progress ----

  /** Nothing left to do: every request handled, every worker waiting. */
  ghost predicate Drained(s: State) {
    && s.producer == Next && s.made == |s.jobs|
    && s.queue == [] && s.num == 0 && s.log == s.jobs
    && AllWaiting(s)
  }

  /** No thread can move unless some pthread_cond_wait returns without a signal. */
  ghost predicate Stuck(s: State) {
    forall step :: Enabled(s, step) ==> step.Spurious?
  }

  lemma DrainedIsStuck(s: State, step: Step)
    requires Drained(s) && Enabled(s, step)
    ensures step.Spurious?
  {
  }

  /** A handler that never ends has the mutex. */
  ghost predicate Blocked(s: State) {
    && s.owner.Worker? && s.owner.id < |s.workers|
    && s.workers[s.owner.id].pc == Handle
    && |InHand(s)| == 1 && !InHand(s)[0].ends
  }

  lemma NoJobsNoRequests(s: State)
    requires QueueInv(s) && s.jobs == []
    ensures s.num <= 0 && InHand(s) == []
  {
    assert |s.log + InHand(s) + s.queue| == 0;
  }

  lemma SomeStep(s: State) returns (step: Step)
    requires Inv(s) && (s.recursive || s.jobs == []) && !Drained(s) && !Blocked(s)
    ensures Enabled(s, step) && !step.Spurious?
  {
    match s.owner {
      case Worker(id) =>
        if s.jobs == [] {
          NoJobsNoRequests(s);
        }
        assert ThreadOk(s.workers[id], s.num);
        step := WorkerStep(id);
      case Producer =>
        step := ProducerStep;
      case Nobody =>
        if id: nat :| id < |s.workers| && s.workers[id].pc != Waiting {
          step := WorkerStep(id);
        } else if s.producer.Signal? {
          assert IsWaiting(s, 0);
          step := SignalWakes(0);
        } else {
          IdleMeansEmpty(s);
          step := ProducerStep;
        }
    }
  }

  /** With the recursive mutex, nothing can move only when all is done or a handler that
      never ends has the mutex. */
  lemma StuckCases(s: State)
    requires Inv(s) && (s.recursive || s.jobs == [])
    ensures Stuck(s) ==> Drained(s) || Blocked(s)
  {
    if !Drained(s) && !Blocked(s) {
      var step := SomeStep(s);
      assert Enabled(s, step) && !step.Spurious?;
    }
  }

  /** When every handler ends, the states in which nothing can move are the drained ones. */
  lemma StuckIffDrained(s: State)
    requires Inv(s) && s.recursive && AllEnd(s.jobs)
    ensures Stuck(s) <==> Drained(s)
  {
    if Drained(s) {
      forall step | Enabled(s, step)
        ensures step.Spurious?
      {
        DrainedIsStuck(s, step);
      }
    } else if Stuck(s) {
      StuckCases(s);
      HandIsNext(s);
    }
  }

  /** A request in hand is the one behind the log. */
  lemma HandIsNext(s: State)
    requires QueueInv(s) && |InHand(s)| == 1
    ensures |s.log| < |s.jobs| && InHand(s)[0] == s.jobs[|s.log|] && s.log == s.jobs[..|s.log|]
  {
    var all := s.log + InHand(s) + s.queue;
    assert all[|s.log|] == InHand(s)[0] && all[..|s.log|] == s.log;
  }

  /** The index of the first request whose handler never ends, or the number of requests. */
  function FirstSilent(jobs: seq<Job>, from: nat): (p: nat)
    requires from <= |jobs|
    ensures from <= p <= |jobs|
    ensures p < |jobs| ==> !jobs[p].ends
    ensures forall i :: from <= i < p ==> jobs[i].ends
    decreases |jobs| - from
  {
    if from == |jobs| || !jobs[from].ends then from else FirstSilent(jobs, from + 1)
  }

  /** Wherever the program gets stuck, it has handled the requests before the first one whose
      handler never ends; and if there is such a one, a worker has it in hand. */
  lemma StuckAfter(s: State)
    requires Inv(s) && s.recursive && Stuck(s)
    ensures var p := FirstSilent(s.jobs, 0);
            && s.log == s.jobs[..p]
            && (p < |s.jobs| ==> Blocked(s) && InHand(s) == [s.jobs[p]])
            && (p == |s.jobs| ==> Drained(s))
  {
    var p := FirstSilent(s.jobs, 0);
    StuckCases(s);
    if Blocked(s) {
      HandIsNext(s);
      assert forall i :: 0 <= i < |s.log| ==> s.jobs[i] == s.log[i] && s.jobs[i].ends;
    } else {
      assert s.log == s.jobs;
    }
  }

  lemma IdleMeansEmpty(s: State)
    requires Inv(s) && s.owner.Nobody? && !s.producer.Signal?
    requires AllWaiting(s)
    ensures s.queue == [] && s.num == 0 && s.log == s.jobs[..s.made]
  {
    assert s.log + [] + s.queue == s.log;
  }

  // ---- Termination ----

  function Rank(pc: WorkerPc): (r: nat) {
    match pc
    case Waiting => 0
    case CallWait => 1
    case Pop => 2
    case GetLock => 3
    case Check => 4
    case Start | Wakened | Handle => 5
    case GetUnlock => 6
    case Decrement => 7
  }

  function Ranks(ws: seq<Thread>): (r: nat) {
    if ws == [] then 0 else Rank(ws[0].pc) + Ranks(ws[1..])
  }

  function ProducerWork(pc: ProducerPc): (w: nat)
    ensures w <= 11
  {
    match pc
    case Next => 0
    case Lock => 1
    case Link => 2
    case Count => 9
    case Unlock => 10
    case Signal => 11
  }

  /** A bound on the steps still to come when no wake-up is spurious. */
  function Work(s: State): (w: int) {
    20 * (|s.jobs| - s.made) - ProducerWork(s.producer) + 6 * |s.queue| + Ranks(s.workers)
  }

  lemma {:induction false} RanksUpdate(ws: seq<Thread>, id: nat, w: Thread)
    requires id < |ws|
    ensures Ranks(ws[id := w]) == Ranks(ws) - Rank(ws[id].pc) + Rank(w.pc)
  {
    var ws' := ws[id := w];
    if id == 0 {
      assert ws'[1..] == ws[1..];
    } else {
      assert ws'[1..] == ws[1..][id - 1 := w];
      RanksUpdate(ws[1..], id - 1, w);
    }
  }

  lemma {:induction false} InitialRanks(n: nat)
    ensures Ranks(seq(n, _ => Thread(Start, []))) == 5 * n
  {
    var ws := seq(n, _ => Thread(Start, []));
    if n > 0 {
      assert ws[1..] == seq(n - 1, _ => Thread(Start, []));
      InitialRanks(n - 1);
    }
  }

  lemma WorkerUsesWork(s: State, id: nat)
    requires MutexInv(s) && QueueInv(s) && WorkerEnabled(s, id)
    ensures Work(WorkerApply(s, id)) < Work(s)
  {
    var s' := WorkerApply(s, id);
    assert ThreadOk(s.workers[id], s.num);
    RanksUpdate(s.workers, id, s'.workers[id]);
    assert s'.workers == s.workers[id := s'.workers[id]];
  }

  lemma WakingUsesWork(s: State, id: nat)
    requires IsWaiting(s, id)
    ensures Ranks(Move(s, id, Wakened).workers) == Ranks(s.workers) + 5
  {
    RanksUpdate(s.workers, id, s.workers[id].(pc := Wakened));
  }

  /** Every step but a spurious wake-up, which costs 5, uses up work. */
  lemma StepUsesWork(s: State, step: Step)
    requires Inv(s) && Enabled(s, step)
    ensures Work(Apply(s, step)) <= if step.Spurious? then Work(s) + 5 else Work(s) - 1
  {
    match step {
      case WorkerStep(id) => WorkerUsesWork(s, id);
      case SignalWakes(id) => WakingUsesWork(s, id);
      case Spurious(id) => WakingUsesWork(s, id);
      case _ =>
    }
  }

  function SpuriousIn(steps: seq<Step>): (k: nat) {
    if steps == [] then 0
    else SpuriousIn(steps[..|steps| - 1]) + if steps[|steps| - 1].Spurious? then 1 else 0
  }

  lemma {:induction false} RunUsesWork(s: State, steps: seq<Step>)
    requires Inv(s) && IsRun(s, steps)
    ensures |steps| + Work(After(s, steps)) <= Work(s) + 6 * SpuriousIn(steps)
    decreases |steps|
  {
    if steps != [] {
      var front, last := steps[..|steps| - 1], steps[|steps| - 1];
      RunUsesWork(s, front);
      RunKeepsInv(s, front);
      StepUsesWork(After(s, front), last);
    }
  }

  /** Every run is short: at most 20 steps per request and 5 per worker, and 6 more for each
      spurious wake-up in it. */
  lemma RunLength(recursive: bool, jobs: seq<Job>, n: nat, steps: seq<Step>, s: State)
    requires n >= 1 && Reaches(recursive, jobs, n, steps, s)
    ensures |steps| <= 20 * |jobs| + 5 * n + 6 * SpuriousIn(steps)
  {
    InitInv(recursive, jobs, n);
    ReachedInv(recursive, jobs, n, steps, s);
    RunUsesWork(Init(recursive, jobs, n), steps);
    InitialRanks(n);
    WorkNonNegative(s);
  }

  /** A run that cannot go on has handled, in order, the requests before the first one whose
      handler never ends: all of them when every handler ends, and then the mutex is free,
      nothing is pending and all workers wait. */
  lemma Drain(jobs: seq<Job>, n: nat, steps: seq<Step>, s: State)
    requires n >= 1 && Reaches(true, jobs, n, steps, s)
    ensures Stuck(s) ==> s.log == jobs[..FirstSilent(jobs, 0)]
    ensures Stuck(s) && FirstSilent(jobs, 0) < |jobs| ==> Blocked(s) && InHand(s) == [jobs[FirstSilent(jobs, 0)]]
    ensures AllEnd(jobs) ==> (Stuck(s) <==> s.producer == Next && s.made == |jobs| && AllWaiting(s))
    ensures AllEnd(jobs) && Stuck(s) ==> s.log == jobs && s.queue == [] && s.num == 0 && s.owner.Nobody?
  {
    ReachedInv(true, jobs, n, steps, s);
    if Stuck(s) {
      StuckAfter(s);
    }
    if AllEnd(jobs) {
      StuckWhenAllEnd(s);
    }
  }

  lemma StuckWhenAllEnd(s: State)
    requires Inv(s) && s.recursive && AllEnd(s.jobs)
    ensures Stuck(s) <==> s.producer == Next && s.made == |s.jobs| && AllWaiting(s)
    ensures Stuck(s) ==> s.log == s.jobs && s.queue == [] && s.num == 0 && s.owner.Nobody?
  {
    StuckIffDrained(s);
    if s.producer == Next && s.made == |s.jobs| && AllWaiting(s) {
      assert s.owner.Nobody?;
      IdleMeansEmpty(s);
      assert s.jobs[..s.made] == s.jobs;
    }
  }

  lemma WorkNonNegative(s: State)
    requires QueueInv(s)
    ensures Work(s) >= 0
  {
  }

  lemma RunExtends(s: State, steps: seq<Step>, step: Step)
    requires IsRun(s, steps) && Enabled(After(s, steps), step)
    ensures IsRun(s, steps + [step]) && After(s, steps + [step]) == Apply(After(s, steps), step)
  {
    assert (steps + [step])[..|steps|] == steps;
  }

  /** Every run can be continued, without spurious wake-ups, until nothing can move. */
  lemma {:induction false} RunsUntilStuck(recursive: bool, jobs: seq<Job>, n: nat, steps: seq<Step>, s: State)
    returns (more: seq<Step>, end: State)
    requires n >= 1 && Reaches(recursive, jobs, n, steps, s)
    ensures Reaches(recursive, jobs, n, more, end) && Stuck(end)
    ensures steps <= more && SpuriousIn(more) == SpuriousIn(steps)
    decreases Work(s)
  {
    if Stuck(s) {
      more, end := steps, s;
    } else {
      var step :| Enabled(s, step) && !step.Spurious?;
      RunExtends(Init(recursive, jobs, n), steps, step);
      ReachedInv(recursive, jobs, n, steps, s);
      StepUsesWork(s, step);
      WorkNonNegative(s);
      assert (steps + [step])[..|steps|] == steps;
      more, end := RunsUntilStuck(recursive, jobs, n, steps + [step], Apply(s, step));
    }
  }

  // ---- What progress depends on ----

  /** Without a recursive mutex no request is ever handled, in any run. */
  lemma NothingHandledWithoutRecursion(jobs: seq<Job>, n: nat, steps: seq<Step>, s: State)
    requires n >= 1 && Reaches(false, jobs, n, steps, s)
    ensures s.log == [] && InHand(s) == []
  {
    ReachedInv(false, jobs, n, steps, s);
  }

  /** Some run gets stuck with work left: the workers wait for themselves, or a handler waits
      for its client with the mutex held. */
  lemma StuckWithWorkLeft(recursive: bool, jobs: seq<Job>, n: nat) returns (steps: seq<Step>, s: State)
    requires n >= 1 && jobs != [] && !(recursive && AllEnd(jobs))
    ensures Reaches(recursive, jobs, n, steps, s) && Stuck(s) && !Drained(s)
  {
    steps, s := RunsUntilStuck(recursive, jobs, n, [], Init(recursive, jobs, n));
    ReachedInv(recursive, jobs, n, steps, s);
    if !recursive {
      NothingHandledWithoutRecursion(jobs, n, steps, s);
    }
  }

  /** The program only gets stuck with its work done exactly when the mutex is recursive and
      every handler ends, or there is no work at all. */
  lemma DrainsExactly(recursive: bool, jobs: seq<Job>, n: nat)
    requires n >= 1
    ensures (forall steps, s :: Reaches(recursive, jobs, n, steps, s) && Stuck(s) ==> Drained(s))
            <==> jobs == [] || (recursive && AllEnd(jobs))
  {
    if jobs == [] || (recursive && AllEnd(jobs)) {
      forall steps, s | Reaches(recursive, jobs, n, steps, s) && Stuck(s)
        ensures Drained(s)
      {
        ReachedInv(recursive, jobs, n, steps, s);
        StuckCases(s);
        if Blocked(s) {
          HandIsNext(s);
        }
      }
    } else {
      var steps, s := StuckWithWorkLeft(recursive, jobs, n);
      assert Reaches(recursive, jobs, n, steps, s) && Stuck(s) && !Drained(s);
    }
  }
}
