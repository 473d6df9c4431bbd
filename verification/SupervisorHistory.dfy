/**
  What the supervisor's threads do, told from the events of a run alone: where a thread is follows from
  its own last event, its health from the outcome it was given, and its backoff from its setbacks since
  its last successful registration.
 */
module SupervisorHistory {
  import opened Supervisor

  // ---------------------------------------------------------------- a thread's own events

  predicate Own(e: Event, t: Tid) {
    match e
    case Begin(u) => u == t
    case Quit(u) => u == t
    case ConnectFails(u) => u == t
    case Submit(u) => u == t
    case Receive(u) => u == t
    case Drop(u, _) => u == t
    case Decide(u) => u == t
    case Wake(u) => u == t
    case _ => false
  }

  /** Event `k` is the last one of `t` before state `i`. */
  ghost predicate IsLast(es: seq<Event>, i: nat, t: Tid, k: nat)
    requires i <= |es|
  {
    k < i && Own(es[k], t) && forall j | k < j < i :: !Own(es[j], t)
  }

  ghost predicate NoneYet(es: seq<Event>, i: nat, t: Tid)
    requires i <= |es|
  {
    forall j | 0 <= j < i :: !Own(es[j], t)
  }

  /** Nobody else touches a thread. */
  lemma OthersLeaveAlone(s: System, e: Event, t: Tid)
    requires Enabled(s, e) && !Own(e, t) && t in s.threads
    ensures t in Next(s, e).threads && Next(s, e).threads[t] == s.threads[t]
  {
  }

  /** The wait after a failed registration: the requested seconds, at most 32, or else the backoff. */
  predicate IsWait(ms: int, retryAfter: Int64, backoff: nat) {
    ms == if retryAfter > 32 then 32000 else if retryAfter > 0 then 1000 * retryAfter else backoff
  }

  /** Where an own event leads. */
  ghost predicate Leads(s: System, e: Event, t: Tid, at: Place)
    requires t in s.threads
  {
    match e
    case Begin(_) => at == Connecting
    case Quit(_) => at == Exited
    case ConnectFails(_) => at == Sleeping(s.threads[t].backoff)
    case Submit(_) => at == Waiting(|s.owners|)
    case Receive(_) =>
      && s.threads[t].at.Waiting? && s.threads[t].at.id in s.results
      && var o := s.results[s.threads[t].at.id];
      if o.ok then at == Healthy else at.Sleeping? && IsWait(at.ms, o.retryAfter, s.threads[t].backoff)
    case Drop(_, disconnected) => at == Dropped(disconnected)
    case Decide(_) =>
      at == if s.threads[t].at == Dropped(true) && !s.stop then Sleeping(s.threads[t].backoff) else Head
    case Wake(_) => at == Head
    case _ => false
  }

  lemma OwnEventLeads(s: System, e: Event, t: Tid)
    requires Enabled(s, e) && Own(e, t)
    ensures t in s.threads && t in Next(s, e).threads && Leads(s, e, t, Next(s, e).threads[t].at)
  {
  }

  /** A thread is at the loop head before its first event, and later where its last event led. */
  ghost predicate PlaceKnown(ss: seq<System>, es: seq<Event>, i: nat, t: Tid)
    requires i <= |es| < |ss|
  {
    && t in ss[i].threads
    && (NoneYet(es, i, t) ==> ss[i].threads[t] == Thread(Head, 1000, 0))
    && (forall k: nat | IsLast(es, i, t, k) :: t in ss[k].threads && Leads(ss[k], es[k], t, ss[i].threads[t].at))
    && (NoneYet(es, i, t) || exists k: nat :: IsLast(es, i, t, k))
  }

  lemma LastGrows(es: seq<Event>, i: nat, n: nat, t: Tid)
    requires n == i + 1 <= |es|
    ensures Own(es[i], t) ==> !NoneYet(es, n, t) && IsLast(es, n, t, i) && forall k: nat | IsLast(es, n, t, k) :: k == i
    ensures !Own(es[i], t) ==> NoneYet(es, n, t) == NoneYet(es, i, t)
    ensures !Own(es[i], t) ==> forall k: nat :: IsLast(es, n, t, k) <==> IsLast(es, i, t, k)
  {
  }

  lemma PlaceStaysKnown(ss: seq<System>, es: seq<Event>, i: nat, t: Tid)
    requires i < |es| && |ss| == |es| + 1 && Enabled(ss[i], es[i]) && ss[i + 1] == Next(ss[i], es[i])
    requires PlaceKnown(ss, es, i, t)
    ensures PlaceKnown(ss, es, i + 1, t)
  {
    LastGrows(es, i, i + 1, t);
    if Own(es[i], t) {
      OwnEventLeads(ss[i], es[i], t);
      assert IsLast(es, i + 1, t, i);
    } else {
      OthersLeaveAlone(ss[i], es[i], t);
      if !NoneYet(es, i, t) {
        var k: nat :| IsLast(es, i, t, k);
        assert IsLast(es, i + 1, t, k);
      }
    }
  }

  lemma {:induction false} PlaceFromLastEvent(ss: seq<System>, es: seq<Event>, i: nat, t: Tid)
    requires Run(ss, es) && i < |ss| && t in ss[0].threads
    ensures PlaceKnown(ss, es, i, t)
  {
    if i > 0 {
      PlaceFromLastEvent(ss, es, i - 1, t);
      PlaceStaysKnown(ss, es, i - 1, t);
    }
  }

  // ---------------------------------------------------------------- health

  /** The outcome that reaches the thread at event `k`. */
  ghost predicate Delivers(ss: seq<System>, k: nat, t: Tid, o: Outcome)
    requires k < |ss|
  {
    && t in ss[k].threads && ss[k].threads[t].at.Waiting? && ss[k].threads[t].at.id in ss[k].results
    && ss[k].results[ss[k].threads[t].at.id] == o
  }

  /**
    What a thread does with the outcome of its registration. The outcome is the worker's for the item the
    thread pushed; the thread becomes healthy, and is counted, exactly if it is ok, and sleeps otherwise.
   */
  lemma ReceiveMeans(ss: seq<System>, es: seq<Event>, i: nat, t: Tid) returns (j: nat, o: Outcome)
    requires Run(ss, es) && i < |es| && es[i] == Receive(t)
    ensures j < i && ss[j].worker.Registering? && es[j] == Settle(o)
    ensures ss[j].worker.id < |ss[i].owners| && ss[i].owners[ss[j].worker.id] == t
    ensures Delivers(ss, i, t, o)
    ensures At(ss[i + 1], t, Healthy) <==> o.ok
    ensures ss[i + 1].okCount == ss[i].okCount + if o.ok then 1 else 0
    ensures o.ok ==> ss[i + 1].threads[t].backoff == 1000
    ensures !o.ok ==> ss[i + 1].threads[t].at.Sleeping?
                      && IsWait(ss[i + 1].threads[t].at.ms, o.retryAfter, ss[i].threads[t].backoff)
  {
    assert Enabled(ss[i], es[i]) && ss[i + 1] == Next(ss[i], es[i]);
    ReceivesItsOwn(ss, es, i, t);
    var id := ss[i].threads[t].at.id;
    o := ss[i].results[id];
    j :| 0 <= j < i && ss[j].worker == Registering(id) && es[j] == Settle(o);
  }

  /** The thread's last event is the receipt of an ok outcome. */
  ghost predicate RegisteredLast(ss: seq<System>, es: seq<Event>, i: nat, t: Tid)
    requires i <= |es| < |ss|
  {
    exists k: nat, o: Outcome :: IsLast(es, i, t, k) && es[k] == Receive(t) && Delivers(ss, k, t, o) && o.ok
  }

  lemma HealthyExactlyIfRegistered(ss: seq<System>, es: seq<Event>, i: nat, t: Tid)
    requires Run(ss, es) && i < |ss| && t in ss[0].threads
    ensures At(ss[i], t, Healthy) <==> RegisteredLast(ss, es, i, t)
  {
    PlaceFromLastEvent(ss, es, i, t);
    if At(ss[i], t, Healthy) {
      var k: nat :| IsLast(es, i, t, k);
      assert Leads(ss[k], es[k], t, Healthy);
      assert Delivers(ss, k, t, ss[k].results[ss[k].threads[t].at.id]);
    }
    if RegisteredLast(ss, es, i, t) {
      var k: nat, o: Outcome :| IsLast(es, i, t, k) && es[k] == Receive(t) && Delivers(ss, k, t, o) && o.ok;
      assert Leads(ss[k], es[k], t, ss[i].threads[t].at);
    }
  }

  /** `ok_count` counts the threads whose last event is the receipt of an ok outcome. */
  lemma OkCountFromEvents(ss: seq<System>, es: seq<Event>, i: nat)
    requires Run(ss, es) && i < |ss|
    ensures ss[i].okCount == |set t | t in ss[0].threads && RegisteredLast(ss, es, i, t)|
  {
    OkCountIsHealthy(ss, es, i);
    SameThreadsThroughout(ss, es, i);
    forall t | t in ss[0].threads
      ensures t in HealthyThreads(ss[i].threads) <==> RegisteredLast(ss, es, i, t)
    {
      assert t in ss[i].threads.Keys;
      HealthyExactlyIfRegistered(ss, es, i, t);
    }
    assert forall t :: t in ss[i].threads <==> t in ss[i].threads.Keys;
    assert HealthyThreads(ss[i].threads) == set t | t in ss[0].threads && RegisteredLast(ss, es, i, t);
  }

  // ---------------------------------------------------------------- backoff

  /** A failed connect, a failed registration, or a disconnect that is not part of a shutdown. */
  ghost predicate IsSetback(ss: seq<System>, es: seq<Event>, i: nat, t: Tid)
    requires i < |es| < |ss|
  {
    || es[i] == ConnectFails(t)
    || (es[i] == Receive(t) && exists o :: Delivers(ss, i, t, o) && !o.ok)
    || (es[i] == Decide(t) && At(ss[i], t, Dropped(true)) && !ss[i].stop)
  }

  ghost predicate IsSuccess(ss: seq<System>, es: seq<Event>, i: nat, t: Tid)
    requires i < |es| < |ss|
  {
    es[i] == Receive(t) && exists o :: Delivers(ss, i, t, o) && o.ok
  }

  /** The setbacks of `t` since its last successful registration. */
  ghost function Setbacks(ss: seq<System>, es: seq<Event>, i: nat, t: Tid): nat
    requires i <= |es| < |ss|
  {
    if i == 0 || IsSuccess(ss, es, i - 1, t) then 0
    else Setbacks(ss, es, i - 1, t) + if IsSetback(ss, es, i - 1, t) then 1 else 0
  }

  /** The doubling of a setback comes after its sleep. */
  ghost predicate Doubles(ss: seq<System>, es: seq<Event>, i: nat, t: Tid)
    requires i < |ss| == |es| + 1 && t in ss[i].threads
  {
    Setbacks(ss, es, i, t) == ss[i].threads[t].doublings + if ss[i].threads[t].at.Sleeping? then 1 else 0
  }

  lemma OwnEventDoubles(ss: seq<System>, es: seq<Event>, i: nat, t: Tid)
    requires i < |es| && |ss| == |es| + 1 && Enabled(ss[i], es[i]) && ss[i + 1] == Next(ss[i], es[i])
    requires Own(es[i], t) && t in ss[i].threads && t in ss[i + 1].threads && Doubles(ss, es, i, t)
    ensures Doubles(ss, es, i + 1, t)
  {
    if es[i] == Receive(t) {
      assert Delivers(ss, i, t, ss[i].results[ss[i].threads[t].at.id]);
    }
  }

  lemma {:induction false} DoublingsAreSetbacks(ss: seq<System>, es: seq<Event>, i: nat, t: Tid)
    requires Run(ss, es) && i < |ss| && t in ss[0].threads
    ensures t in ss[i].threads && Doubles(ss, es, i, t)
  {
    if i > 0 {
      DoublingsAreSetbacks(ss, es, i - 1, t);
      var s, e := ss[i - 1], es[i - 1];
      assert Enabled(s, e) && ss[i] == Next(s, e);
      if Own(e, t) {
        OwnEventLeads(s, e, t);
        OwnEventDoubles(ss, es, i - 1, t);
      } else {
        OthersLeaveAlone(s, e, t);
      }
    }
  }

  lemma BackoffInNumbers(k: nat)
    ensures Backoff(k) == if k == 0 then 1000 else if k == 1 then 2000 else if k == 2 then 4000
                          else if k == 3 then 8000 else if k == 4 then 16000 else 32000
  {
    assert Pow2(1) == 2 && Pow2(2) == 4 && Pow2(3) == 8 && Pow2(4) == 16;
    if k >= 5 {
      PowGrows(k);
    }
  }

  lemma {:induction false} PowGrows(k: nat)
    requires k >= 5
    ensures Pow2(k) >= 32
  {
    if k == 5 {
      assert Pow2(4) == 16;
    } else {
      PowGrows(k - 1);
    }
  }

  /**
    How long a thread sleeps after a setback: 1, 2, 4, 8, 16 and then 32 seconds for its first, second, ...
    setback since its last success, unless the server asked for a delay.
   */
  lemma SleepAfterSetback(ss: seq<System>, es: seq<Event>, i: nat, t: Tid)
    requires Run(ss, es) && i < |es| && t in ss[0].threads && IsSetback(ss, es, i, t)
    ensures At(ss[i + 1], t, ss[i + 1].threads[t].at) && ss[i + 1].threads[t].at.Sleeping?
    ensures es[i] == ConnectFails(t) || es[i] == Decide(t) ==>
              ss[i + 1].threads[t].at.ms == Backoff(Setbacks(ss, es, i, t))
    ensures es[i] == Receive(t) ==>
              forall o | Delivers(ss, i, t, o) ::
                IsWait(ss[i + 1].threads[t].at.ms, o.retryAfter, Backoff(Setbacks(ss, es, i, t)))
  {
    EveryRun(ss, es, i);
    assert Enabled(ss[i], es[i]) && ss[i + 1] == Next(ss[i], es[i]);
    OwnEventLeads(ss[i], es[i], t);
    DoublingsAreSetbacks(ss, es, i, t);
    assert ThreadOk(ss[i], t, ss[i].threads[t]);
  }
}
