/**
  The reconnect supervisor: connection threads that connect, register, wait and back off; one worker
  that serves their registrations from a locked queue and answers through promises; and the ordered
  shutdown. Every interleaving of these threads is a run. Sleeps, timeouts and the outcomes of
  connect and registration are arbitrary choices.
 */
module Supervisor {

  const INIT_BACKOFF_MS: nat := 1000
  const MAX_BACKOFF_MS: nat := 32000

  type Tid = nat
  type Id = nat
  type Int64 = x: int | -0x8000_0000_0000_0000 <= x < 0x8000_0000_0000_0000

  /** What a promise delivers. A failure may carry the server's requested delay in seconds. */
  datatype Outcome = Outcome(ok: bool, retryAfter: Int64)

  // ---------------------------------------------------------------- backoff

  function Min(a: int, b: int): int {
    if a <= b then a else b
  }

  function Pow2(k: nat): (r: nat)
    ensures r >= 1
  {
    if k == 0 then 1 else 2 * Pow2(k - 1)
  }

  /** The backoff after `k` doublings, in closed form. */
  function Backoff(k: nat): nat {
    Min(INIT_BACKOFF_MS * Pow2(k), MAX_BACKOFF_MS)
  }

  function Doubled(backoff: nat): nat {
    Min(backoff * 2, MAX_BACKOFF_MS)
  }

  function WaitMs(retryAfter: Int64, backoff: nat): int {
    if retryAfter > 0 then Min(retryAfter, MAX_BACKOFF_MS / 1000) * 1000 else backoff
  }

  lemma DoubledIsNextBackoff(k: nat)
    ensures Doubled(Backoff(k)) == Backoff(k + 1) && INIT_BACKOFF_MS <= Backoff(k) <= MAX_BACKOFF_MS
  {
    assert Pow2(k + 1) == 2 * Pow2(k);
  }

  /**
    A requested delay is honoured up to the cap and never shortened below a second, whatever 64-bit
    value the server sends; no intermediate value leaves 32 bits.
   */
  lemma WaitsAreBounded(retryAfter: Int64, k: nat)
    ensures var w := WaitMs(retryAfter, Backoff(k));
            && INIT_BACKOFF_MS <= w <= MAX_BACKOFF_MS
            && (retryAfter > 0 ==> w == 1000 * retryAfter || (w == MAX_BACKOFF_MS && w < 1000 * retryAfter))
    ensures Backoff(k) * 2 < 0x8000_0000
  {
    DoubledIsNextBackoff(k);
  }

  // ---------------------------------------------------------------- the threads

  datatype Place =
    | Head                          // the loop condition
    | Connecting
    | Waiting(id: Id)               // in fut.get()
    | Healthy                       // between fetch_add and fetch_sub
    | Dropped(disconnected: bool)   // after fetch_sub
    | Sleeping(ms: int)
    | Exited

  /** `doublings` counts the doublings of `backoff` since the last successful registration. */
  datatype Thread = Thread(at: Place, backoff: nat, doublings: nat)

  datatype Worker = Looking | Registering(id: Id) | Draining | WorkerExited

  /** `shutdown_all`: joining the connection threads, then joining the worker. */
  datatype Main = Running | Joining | JoiningWorker | Finished

  datatype System = System(
    threads: map<Tid, Thread>,
    okCount: int,
    stop: bool,                     // g_stop
    owners: seq<Tid>,               // who pushed item 0, 1, 2, ...
    queue: seq<Id>,
    settled: seq<Id>,               // promises set, in order
    results: map<Id, Outcome>,
    worker: Worker,
    workerStop: bool,               // kj_stop
    main: Main,
    aborted: nat,                   // promises set by the final drain
    fault: bool)                    // a promise was set twice

  datatype Event =
    | Signal
    | Begin(t: Tid)
    | Quit(t: Tid)
    | ConnectFails(t: Tid)
    | Submit(t: Tid)
    | Receive(t: Tid)
    | Drop(t: Tid, disconnected: bool)
    | Decide(t: Tid)
    | Wake(t: Tid)
    | Pick
    | Settle(outcome: Outcome)
    | SeeStop
    | Drain
    | Shutdown
    | Joined
    | WorkerJoined

  ghost predicate At(s: System, t: Tid, p: Place) {
    t in s.threads && s.threads[t].at == p
  }

  ghost predicate AllExited(s: System) {
    forall t | t in s.threads :: s.threads[t].at == Exited
  }

  ghost predicate Enabled(s: System, e: Event) {
    match e
    case Signal => true
    case Begin(t) => At(s, t, Head) && !s.stop
    case Quit(t) => At(s, t, Head) && s.stop
    case ConnectFails(t) => At(s, t, Connecting)
    case Submit(t) => At(s, t, Connecting)
    case Receive(t) => t in s.threads && s.threads[t].at.Waiting? && s.threads[t].at.id in s.results
    case Drop(t, disconnected) => At(s, t, Healthy) && (disconnected || s.stop)
    case Decide(t) => t in s.threads && s.threads[t].at.Dropped?
    case Wake(t) => t in s.threads && s.threads[t].at.Sleeping?
    case Pick => s.worker == Looking && s.queue != []
    case Settle(_) => s.worker.Registering?
    case SeeStop => s.worker == Looking && s.queue == [] && s.workerStop
    case Drain => s.worker == Draining
    case Shutdown => s.main == Running
    case Joined => s.main == Joining && AllExited(s)
    case WorkerJoined => s.main == JoiningWorker && s.worker == WorkerExited
  }

  function Go(s: System, t: Tid, p: Place): System
    requires t in s.threads
  {
    s.(threads := s.threads[t := s.threads[t].(at := p)])
  }

  /** What a thread does with the outcome of its registration. */
  function AfterRegistration(s: System, t: Tid, o: Outcome): System
    requires t in s.threads
  {
    if o.ok then s.(threads := s.threads[t := Thread(Healthy, INIT_BACKOFF_MS, 0)], okCount := s.okCount + 1)
    else Go(s, t, Sleeping(WaitMs(o.retryAfter, s.threads[t].backoff)))
  }

  ghost function Next(s: System, e: Event): System
    requires Enabled(s, e)
  {
    match e
    case Signal => s.(stop := true)
    case Begin(t) => Go(s, t, Connecting)
    case Quit(t) => Go(s, t, Exited)
    case ConnectFails(t) => Go(s, t, Sleeping(s.threads[t].backoff))
    case Submit(t) => Go(s, t, Waiting(|s.owners|)).(queue := s.queue + [|s.owners|], owners := s.owners + [t])
    case Receive(t) => AfterRegistration(s, t, s.results[s.threads[t].at.id])
    case Drop(t, disconnected) => Go(s, t, Dropped(disconnected)).(okCount := s.okCount - 1)
    case Decide(t) =>
      if s.threads[t].at.disconnected && !s.stop then Go(s, t, Sleeping(s.threads[t].backoff)) else Go(s, t, Head)
    case Wake(t) =>
      s.(threads := s.threads[t := Thread(Head, Doubled(s.threads[t].backoff), s.threads[t].doublings + 1)])
    case Pick => s.(worker := Registering(s.queue[0]), queue := s.queue[1..])
    case Settle(o) =>
      s.(settled := s.settled + [s.worker.id], results := s.results[s.worker.id := o],
         fault := s.fault || s.worker.id in s.results, worker := Looking)
    case SeeStop => s.(worker := Draining)
    case Drain =>
      s.(settled := s.settled + s.queue,
         results := s.results + map id | id in s.queue :: Outcome(false, 0),
         fault := s.fault || exists id :: id in s.queue && id in s.results,
         aborted := s.aborted + |s.queue|, queue := [], worker := WorkerExited)
    case Shutdown => s.(stop := true, main := Joining)
    case Joined => s.(workerStop := true, main := JoiningWorker)
    case WorkerJoined => s.(main := Finished)
  }

  ghost predicate Initial(s: System) {
    && s == System(s.threads, 0, false, [], [], [], map[], Looking, false, Running, 0, false)
    && forall t | t in s.threads :: s.threads[t] == Thread(Head, INIT_BACKOFF_MS, 0)
  }

  ghost predicate Run(ss: seq<System>, es: seq<Event>) {
    && |ss| == |es| + 1 && Initial(ss[0])
    && forall i | 0 <= i < |es| :: Enabled(ss[i], es[i]) && ss[i + 1] == Next(ss[i], es[i])
  }

  // ---------------------------------------------------------------- what every step keeps

  function InHand(w: Worker): seq<Id> {
    if w.Registering? then [w.id] else []
  }

  /** Every item in the order of its push, as far as it has got: settled, in the worker's hands, queued. */
  function Line(s: System): seq<Id> {
    s.settled + InHand(s.worker) + s.queue
  }

  function UpTo(n: nat): seq<Id> {
    seq(n, i => i)
  }

  ghost predicate QueueOk(s: System) {
    && Line(s) == UpTo(|s.owners|)
    && (forall id: Id :: id in s.results <==> id < |s.settled|)
    && (forall id: Id | |s.settled| <= id < |s.owners| :: At(s, s.owners[id], Waiting(id)))
    && !s.fault && s.aborted == 0
  }

  predicate ThreadOk(s: System, t: Tid, x: Thread) {
    && x.backoff == Backoff(x.doublings)
    && (x.at.Waiting? ==> x.at.id < |s.owners| && s.owners[x.at.id] == t)
    && (x.at.Sleeping? ==> INIT_BACKOFF_MS <= x.at.ms <= MAX_BACKOFF_MS)
  }

  ghost predicate ThreadsOk(s: System) {
    forall t {:trigger ThreadOk(s, t, s.threads[t])} | t in s.threads :: ThreadOk(s, t, s.threads[t])
  }

  ghost predicate ShutdownOk(s: System) {
    && (s.main != Running ==> s.stop)
    && (s.workerStop <==> s.main == JoiningWorker || s.main == Finished)
    && (s.workerStop ==> AllExited(s))
    && (s.worker == Draining || s.worker == WorkerExited ==> s.workerStop)
    && (s.main == Finished ==> s.worker == WorkerExited)
  }

  ghost function HealthyThreads(threads: map<Tid, Thread>): set<Tid> {
    set t | t in threads && threads[t].at == Healthy
  }

  ghost predicate Inv(s: System) {
    QueueOk(s) && ThreadsOk(s) && ShutdownOk(s) && s.okCount == |HealthyThreads(s.threads)|
  }

  lemma InitialInv(s: System)
    requires Initial(s)
    ensures Inv(s)
  {
    assert HealthyThreads(s.threads) == {};
  }

  /** Once all threads have exited no item is left anywhere but among the settled ones. */
  lemma NothingLeft(s: System)
    requires QueueOk(s) && AllExited(s)
    ensures s.queue == [] && !s.worker.Registering? && |s.settled| == |s.owners|
  {
    assert |Line(s)| == |s.owners|;
    assert |s.settled| < |s.owners| ==> At(s, s.owners[|s.settled|], Waiting(|s.settled|));
  }

  // ---------------------------------------------------------------- one step

  lemma CountUnchanged(s: System, t: Tid, x: Thread)
    requires t in s.threads && (s.threads[t].at == Healthy <==> x.at == Healthy)
    ensures HealthyThreads(s.threads[t := x]) == HealthyThreads(s.threads)
  {
  }

  lemma CountUp(s: System, t: Tid, x: Thread)
    requires t in s.threads && s.threads[t].at != Healthy && x.at == Healthy
    ensures |HealthyThreads(s.threads[t := x])| == |HealthyThreads(s.threads)| + 1
  {
    var before := HealthyThreads(s.threads);
    assert t !in before;
    assert HealthyThreads(s.threads[t := x]) == before + {t};
  }

  lemma CountDown(s: System, t: Tid, x: Thread)
    requires t in s.threads && s.threads[t].at == Healthy && x.at != Healthy
    ensures |HealthyThreads(s.threads[t := x])| == |HealthyThreads(s.threads)| - 1
  {
    var rest := HealthyThreads(s.threads[t := x]);
    assert t !in rest;
    assert HealthyThreads(s.threads) == rest + {t};
  }

  /** A thread's own step, away from the queue: only its entry and the count may change. */
  lemma ThreadStep(s: System, t: Tid, x: Thread, count: int)
    requires Inv(s) && t in s.threads && s.threads[t].at != Exited
    requires ThreadOk(s, t, x) && !x.at.Waiting?
    requires s.threads[t].at.Waiting? ==> s.threads[t].at.id in s.results
    requires count == |HealthyThreads(s.threads[t := x])|
    ensures Inv(s.(threads := s.threads[t := x], okCount := count))
  {
    var s' := s.(threads := s.threads[t := x], okCount := count);
    assert ThreadOk(s, t, s.threads[t]);
    forall id: Id | |s.settled| <= id < |s.owners|
      ensures At(s', s'.owners[id], Waiting(id))
    {
      assert At(s, s.owners[id], Waiting(id));
    }
    forall u | u in s'.threads
      ensures ThreadOk(s', u, s'.threads[u])
    {
      if u != t {
        assert ThreadOk(s, u, s.threads[u]);
      }
    }
  }

  lemma SubmitKeepsInv(s: System, t: Tid)
    requires Inv(s) && Enabled(s, Submit(t))
    ensures Inv(Next(s, Submit(t)))
  {
    var s' := Next(s, Submit(t));
    CountUnchanged(s, t, s'.threads[t]);
    assert UpTo(|s'.owners|) == UpTo(|s.owners|) + [|s.owners|];
    assert Line(s') == Line(s) + [|s.owners|];
    forall id: Id | |s'.settled| <= id < |s'.owners|
      ensures At(s', s'.owners[id], Waiting(id))
    {
      if id < |s.owners| {
        assert At(s, s.owners[id], Waiting(id));
      }
    }
    assert ThreadOk(s, t, s.threads[t]);
    forall u | u in s'.threads
      ensures ThreadOk(s', u, s'.threads[u])
    {
      if u != t {
        assert ThreadOk(s, u, s.threads[u]);
      }
    }
  }

  /** The worker's steps leave the threads alone. */
  lemma SameThreads(s: System, s': System)
    requires ThreadsOk(s) && s'.threads == s.threads && s'.owners == s.owners
    ensures ThreadsOk(s') && (AllExited(s') <==> AllExited(s))
    ensures forall t, p :: At(s', t, p) <==> At(s, t, p)
  {
    assert forall t | t in s.threads :: ThreadOk(s, t, s.threads[t]);
    forall t | t in s'.threads
      ensures ThreadOk(s', t, s'.threads[t])
    {
      assert ThreadOk(s, t, s.threads[t]);
    }
  }

  lemma PickKeepsInv(s: System)
    requires Inv(s) && Enabled(s, Pick)
    ensures Inv(Next(s, Pick))
  {
    SameThreads(s, Next(s, Pick));
    assert Line(Next(s, Pick)) == Line(s);
  }

  /** What the worker settles is the oldest item not yet settled, and was not settled before. */
  lemma SettleKeepsInv(s: System, o: Outcome)
    requires Inv(s) && Enabled(s, Settle(o))
    ensures Inv(Next(s, Settle(o))) && s.worker.id == |s.settled|
  {
    SameThreads(s, Next(s, Settle(o)));
    assert Line(Next(s, Settle(o))) == Line(s);
    assert Line(s)[|s.settled|] == s.worker.id;
  }

  /** The final drain finds an empty queue. */
  lemma DrainKeepsInv(s: System)
    requires Inv(s) && Enabled(s, Drain)
    ensures Inv(Next(s, Drain)) && s.queue == []
  {
    NothingLeft(s);
    SameThreads(s, Next(s, Drain));
    assert Next(s, Drain).results == s.results;
    assert Line(Next(s, Drain)) == Line(s);
  }

  lemma ReceiveKeepsInv(s: System, t: Tid)
    requires Inv(s) && Enabled(s, Receive(t))
    ensures Inv(Next(s, Receive(t)))
  {
    var x := s.threads[t];
    var s' := Next(s, Receive(t));
    assert ThreadOk(s, t, x);
    DoubledIsNextBackoff(x.doublings);
    DoubledIsNextBackoff(0);
    if s.results[x.at.id].ok {
      CountUp(s, t, s'.threads[t]);
    } else {
      CountUnchanged(s, t, s'.threads[t]);
    }
    ThreadStep(s, t, s'.threads[t], s'.okCount);
  }

  lemma NextKeepsInv(s: System, e: Event)
    requires Inv(s) && Enabled(s, e)
    ensures Inv(Next(s, e))
  {
    var s' := Next(s, e);
    match e
    case Submit(t) => SubmitKeepsInv(s, t);
    case Receive(t) => ReceiveKeepsInv(s, t);
    case Pick => PickKeepsInv(s);
    case Settle(o) => SettleKeepsInv(s, o);
    case Drain => DrainKeepsInv(s);
    case Begin(t) => OwnStepKeepsInv(s, e, t);
    case Quit(t) => OwnStepKeepsInv(s, e, t);
    case ConnectFails(t) => OwnStepKeepsInv(s, e, t);
    case Drop(t, _) => OwnStepKeepsInv(s, e, t);
    case Decide(t) => OwnStepKeepsInv(s, e, t);
    case Wake(t) => OwnStepKeepsInv(s, e, t);
    case _ =>
      SameThreads(s, s');
      assert Line(s') == Line(s);
  }

  /** The steps of a thread that touch neither the queue nor a promise. */
  lemma OwnStepKeepsInv(s: System, e: Event, t: Tid)
    requires Inv(s) && Enabled(s, e)
    requires e == Begin(t) || e == Quit(t) || e == ConnectFails(t) || e == Decide(t) || e == Wake(t)
             || (e.Drop? && e.t == t)
    ensures Inv(Next(s, e))
  {
    var x := s.threads[t];
    var s' := Next(s, e);
    assert ThreadOk(s, t, x);
    DoubledIsNextBackoff(x.doublings);
    if e.Drop? {
      CountDown(s, t, s'.threads[t]);
    } else {
      CountUnchanged(s, t, s'.threads[t]);
    }
    ThreadStep(s, t, s'.threads[t], s'.okCount);
  }

  // ---------------------------------------------------------------- every run

  lemma {:induction false} EveryRun(ss: seq<System>, es: seq<Event>, i: nat)
    requires Run(ss, es) && i < |ss|
    ensures Inv(ss[i])
  {
    if i == 0 {
      InitialInv(ss[0]);
    } else {
      EveryRun(ss, es, i - 1);
      NextKeepsInv(ss[i - 1], es[i - 1]);
    }
  }

  /**
    Registrations are settled in the order they were pushed, each exactly once, none by the final
    drain; what is not settled yet is in the worker's hands or in the queue.
   */
  lemma ExactlyOnceInOrder(ss: seq<System>, es: seq<Event>, i: nat)
    requires Run(ss, es) && i < |ss|
    ensures ss[i].settled + InHand(ss[i].worker) + ss[i].queue == UpTo(|ss[i].owners|)
    ensures ss[i].settled == UpTo(|ss[i].settled|)
    ensures forall id: Id :: id in ss[i].results <==> id in ss[i].settled
    ensures !ss[i].fault && ss[i].aborted == 0
  {
    EveryRun(ss, es, i);
    var s := ss[i];
    forall k | 0 <= k < |s.settled|
      ensures s.settled[k] == k
    {
      assert Line(s)[k] == k;
    }
    forall id: Id
      ensures id in s.results <==> id in s.settled
    {
      assert id < |s.settled| ==> s.settled[id] == id;
    }
  }

  /** Only the worker's registrations set promises: the final drain has none left to set. */
  lemma ResultsAfter(s: System, e: Event)
    requires Inv(s) && Enabled(s, e)
    ensures Next(s, e).results == if e.Settle? then s.results[s.worker.id := e.outcome] else s.results
  {
    if e == Drain {
      DrainKeepsInv(s);
      assert Next(s, e).results == s.results;
    }
  }

  /** A promise holds what the worker's registration of that very item produced. */
  lemma {:induction false} ResultIsTheWorkers(ss: seq<System>, es: seq<Event>, i: nat, id: Id)
    requires Run(ss, es) && i < |ss| && id in ss[i].results
    ensures exists j :: 0 <= j < i && ss[j].worker == Registering(id) && es[j] == Settle(ss[i].results[id])
  {
    assert i > 0;
    EveryRun(ss, es, i - 1);
    ResultsAfter(ss[i - 1], es[i - 1]);
    if es[i - 1].Settle? && ss[i - 1].worker.id == id {
      assert ss[i - 1].worker == Registering(id) && es[i - 1] == Settle(ss[i].results[id]);
    } else {
      ResultIsTheWorkers(ss, es, i - 1, id);
    }
  }

  /** The thread that receives an outcome is the one that pushed the item. */
  lemma ReceivesItsOwn(ss: seq<System>, es: seq<Event>, i: nat, t: Tid)
    requires Run(ss, es) && i < |es| && es[i] == Receive(t)
    ensures var id := ss[i].threads[t].at.id;
            && id < |ss[i].owners| && ss[i].owners[id] == t
            && exists j :: 0 <= j < i && ss[j].worker == Registering(id) && es[j] == Settle(ss[i].results[id])
  {
    EveryRun(ss, es, i);
    assert ThreadOk(ss[i], t, ss[i].threads[t]);
    ResultIsTheWorkers(ss, es, i, ss[i].threads[t].at.id);
  }

  /** A thread blocked in `fut.get()` has its answer, or the worker is busy, or can pick the next item. */
  lemma NeverStranded(ss: seq<System>, es: seq<Event>, i: nat, t: Tid)
    requires Run(ss, es) && i < |ss| && t in ss[i].threads && ss[i].threads[t].at.Waiting?
    ensures Enabled(ss[i], Receive(t)) || ss[i].worker.Registering? || Enabled(ss[i], Pick)
    ensures ss[i].worker == Looking || ss[i].worker.Registering?
    ensures !ss[i].workerStop
  {
    EveryRun(ss, es, i);
    var s := ss[i];
    assert ThreadOk(s, t, s.threads[t]);
    assert |Line(s)| == |s.owners|;
  }

  lemma SubsetSize(a: set<Tid>, b: set<Tid>)
    requires a <= b
    ensures |a| <= |b|
  {
    assert b == a + (b - a);
  }

  /** Threads neither appear nor disappear, so the count ranges over what main started. */
  lemma SameKeys(s: System, e: Event)
    requires Enabled(s, e)
    ensures Next(s, e).threads.Keys == s.threads.Keys
  {
  }

  lemma {:induction false} SameThreadsThroughout(ss: seq<System>, es: seq<Event>, i: nat)
    requires Run(ss, es) && i < |ss|
    ensures ss[i].threads.Keys == ss[0].threads.Keys
  {
    if i > 0 {
      SameThreadsThroughout(ss, es, i - 1);
      SameKeys(ss[i - 1], es[i - 1]);
    }
  }

  /** `ok_count` is the number of threads between their increment and their decrement: 0 to 4 of them
      with the four threads of main. */
  lemma OkCountIsHealthy(ss: seq<System>, es: seq<Event>, i: nat)
    requires Run(ss, es) && i < |ss|
    ensures ss[i].okCount == |HealthyThreads(ss[i].threads)|
    ensures 0 <= ss[i].okCount <= |ss[0].threads|
  {
    EveryRun(ss, es, i);
    SameThreadsThroughout(ss, es, i);
    SubsetSize(HealthyThreads(ss[i].threads), ss[0].threads.Keys);
  }

  /** Every sleep is between one and thirty-two seconds, and the backoff is the closed form. */
  lemma SleepsAreBounded(ss: seq<System>, es: seq<Event>, i: nat, t: Tid)
    requires Run(ss, es) && i < |ss| && t in ss[i].threads
    ensures ss[i].threads[t].backoff == Backoff(ss[i].threads[t].doublings)
    ensures ss[i].threads[t].at.Sleeping? ==> INIT_BACKOFF_MS <= ss[i].threads[t].at.ms <= MAX_BACKOFF_MS
  {
    EveryRun(ss, es, i);
    assert ThreadOk(ss[i], t, ss[i].threads[t]);
  }

  /** When main has joined everything, no thread runs, nothing is queued and every promise was set. */
  lemma ShutdownIsComplete(ss: seq<System>, es: seq<Event>, i: nat)
    requires Run(ss, es) && i < |ss| && ss[i].main == Finished
    ensures AllExited(ss[i]) && ss[i].worker == WorkerExited && ss[i].queue == [] && ss[i].okCount == 0
    ensures ss[i].settled == UpTo(|ss[i].owners|)
  {
    EveryRun(ss, es, i);
    NothingLeft(ss[i]);
    ExactlyOnceInOrder(ss, es, i);
    assert HealthyThreads(ss[i].threads) == {};
  }
}
