/**
  The ordered shutdown of the supervisor cannot deadlock and cannot go on for ever: until main has
  joined everything some step can be taken, and once `g_stop` is set only so many steps are left,
  whatever the scheduler does. A wait whose condition holds is taken to be left eventually; the
  missed notifications of `g_wakeup_cv` are outside this claim.
 */
module SupervisorShutdown {
  import opened Supervisor

  // ---------------------------------------------------------------- some step is always possible

  /** A thread that main waits for can take a step itself, or the worker can. */
  lemma ThreadCanMove(s: System, t: Tid) returns (e: Event)
    requires Inv(s) && s.stop && !s.workerStop && t in s.threads && s.threads[t].at != Exited
    ensures e != Signal && Enabled(s, e)
  {
    assert ThreadOk(s, t, s.threads[t]);
    match s.threads[t].at
    case Head => e := Quit(t);
    case Connecting => e := ConnectFails(t);
    case Healthy => e := Drop(t, false);
    case Dropped(_) => e := Decide(t);
    case Sleeping(_) => e := Wake(t);
    case Waiting(id) =>
      if id in s.results {
        e := Receive(t);
      } else if s.worker.Registering? {
        e := Settle(Outcome(false, 0));
      } else {
        assert |Line(s)| == |s.owners|;
        e := Pick;
      }
  }

  lemma WorkerCanMove(s: System) returns (e: Event)
    requires Inv(s) && s.main == JoiningWorker
    ensures e != Signal && Enabled(s, e)
  {
    NothingLeft(s);
    e := match s.worker
      case Looking => SeeStop
      case Registering(_) => Pick
      case Draining => Drain
      case WorkerExited => WorkerJoined;
  }

  /** No deadlock: threads wait for promises, main for threads and then for the worker, never in a circle. */
  lemma NeverStuck(ss: seq<System>, es: seq<Event>, i: nat) returns (e: Event)
    requires Run(ss, es) && i < |ss| && ss[i].main != Finished
    ensures e != Signal && Enabled(ss[i], e)
  {
    EveryRun(ss, es, i);
    var s := ss[i];
    if s.main == Running {
      e := Shutdown;
    } else if s.main == JoiningWorker {
      e := WorkerCanMove(s);
    } else if AllExited(s) {
      e := Joined;
    } else {
      var t :| t in s.threads && s.threads[t].at != Exited;
      e := ThreadCanMove(s, t);
    }
  }

  // ---------------------------------------------------------------- how many steps are left

  /** A bound on the steps a thread still takes after the stop; one push brings work for the worker. */
  function ThreadSteps(p: Place): nat {
    match p
    case Exited => 0
    case Head => 1
    case Sleeping(_) => 2
    case Dropped(_) => 3
    case Healthy => 4
    case Waiting(_) => 5
    case Connecting => 8
  }

  function WorkerSteps(w: Worker): nat {
    match w
    case WorkerExited => 0
    case Draining => 1
    case Looking => 2
    case Registering(_) => 3
  }

  function MainSteps(m: Main): nat {
    match m
    case Finished => 0
    case JoiningWorker => 1
    case Joining => 2
    case Running => 3
  }

  /** `ts` lists the threads, each once. */
  ghost predicate Lists(ts: seq<Tid>, threads: map<Tid, Thread>) {
    && (forall t :: t in ts <==> t in threads)
    && (forall i, j | 0 <= i < j < |ts| :: ts[i] != ts[j])
  }

  function Total(threads: map<Tid, Thread>, ts: seq<Tid>): nat
    requires forall t | t in ts :: t in threads
  {
    if ts == [] then 0 else ThreadSteps(threads[ts[0]].at) + Total(threads, ts[1..])
  }

  function StepsLeft(s: System, ts: seq<Tid>): nat
    requires forall t | t in ts :: t in s.threads
  {
    Total(s.threads, ts) + 2 * |s.queue| + WorkerSteps(s.worker) + MainSteps(s.main)
  }

  lemma {:induction false} TotalUpdate(threads: map<Tid, Thread>, ts: seq<Tid>, t: Tid, x: Thread)
    requires forall u | u in ts :: u in threads
    requires forall i, j | 0 <= i < j < |ts| :: ts[i] != ts[j]
    requires t in threads
    ensures Total(threads[t := x], ts) ==
            Total(threads, ts) + if t in ts then ThreadSteps(x.at) - ThreadSteps(threads[t].at) else 0
  {
    if ts != [] {
      TotalUpdate(threads, ts[1..], t, x);
      assert t in ts <==> t == ts[0] || t in ts[1..];
    }
  }

  /** A step of thread `t` leads to a place with fewer steps left, even with the item it may push. */
  lemma ThreadStepIsUsedUp(s: System, e: Event, t: Tid, ts: seq<Tid>)
    requires s.stop && Enabled(s, e) && Lists(ts, s.threads)
    requires e == Quit(t) || e == ConnectFails(t) || e == Submit(t) || e == Receive(t) || e == Decide(t) || e == Wake(t)
             || (e.Drop? && e.t == t)
    ensures Next(s, e).stop && Lists(ts, Next(s, e).threads)
    ensures StepsLeft(Next(s, e), ts) < StepsLeft(s, ts)
  {
    var x := Next(s, e).threads[t];
    assert Next(s, e).threads == s.threads[t := x];
    TotalUpdate(s.threads, ts, t, x);
    assert ThreadSteps(x.at) + (if e.Submit? then 2 else 0) < ThreadSteps(s.threads[t].at);
  }

  lemma OtherStepIsUsedUp(s: System, e: Event, ts: seq<Tid>)
    requires s.stop && Enabled(s, e) && Lists(ts, s.threads)
    requires e == Pick || e.Settle? || e == SeeStop || e == Drain || e == Shutdown || e == Joined || e == WorkerJoined
    ensures Next(s, e).stop && Lists(ts, Next(s, e).threads)
    ensures StepsLeft(Next(s, e), ts) < StepsLeft(s, ts)
  {
  }

  /** After the stop every step but a further signal uses up at least one of the steps left. */
  lemma StepIsUsedUp(s: System, e: Event, ts: seq<Tid>)
    requires s.stop && e != Signal && Enabled(s, e) && Lists(ts, s.threads)
    ensures Next(s, e).stop && Lists(ts, Next(s, e).threads)
    ensures StepsLeft(Next(s, e), ts) < StepsLeft(s, ts)
  {
    match e
    case Quit(t) => ThreadStepIsUsedUp(s, e, t, ts);
    case ConnectFails(t) => ThreadStepIsUsedUp(s, e, t, ts);
    case Submit(t) => ThreadStepIsUsedUp(s, e, t, ts);
    case Receive(t) => ThreadStepIsUsedUp(s, e, t, ts);
    case Drop(t, _) => ThreadStepIsUsedUp(s, e, t, ts);
    case Decide(t) => ThreadStepIsUsedUp(s, e, t, ts);
    case Wake(t) => ThreadStepIsUsedUp(s, e, t, ts);
    case _ => OtherStepIsUsedUp(s, e, ts);
  }

  /** After the stop a run takes at most `StepsLeft` further steps, whoever is scheduled when. */
  lemma {:induction false} ShutdownIsBounded(ss: seq<System>, es: seq<Event>, i: nat, j: nat, ts: seq<Tid>)
    requires Run(ss, es) && i <= j < |ss| && ss[i].stop && Lists(ts, ss[i].threads)
    requires forall k | i <= k < j :: es[k] != Signal
    ensures ss[j].stop && Lists(ts, ss[j].threads)
    ensures j - i <= StepsLeft(ss[i], ts) - StepsLeft(ss[j], ts)
    decreases j - i
  {
    if i < j {
      ShutdownIsBounded(ss, es, i, j - 1, ts);
      StepIsUsedUp(ss[j - 1], es[j - 1], ts);
    }
  }

  /**
    Every run that is stopped and taken as far as it goes ends with main having joined everything and
    every promise set, and it gets there within the steps that were left at the stop.
   */
  lemma ShutdownCompletes(ss: seq<System>, es: seq<Event>, i: nat, ts: seq<Tid>)
    requires Run(ss, es) && i < |ss| && ss[i].stop && Lists(ts, ss[i].threads)
    requires forall k | i <= k < |es| :: es[k] != Signal
    requires forall e :: Enabled(ss[|es|], e) ==> e == Signal
    ensures |es| - i <= StepsLeft(ss[i], ts)
    ensures ss[|es|].main == Finished && AllExited(ss[|es|]) && ss[|es|].settled == UpTo(|ss[|es|].owners|)
  {
    ShutdownIsBounded(ss, es, i, |es|, ts);
    if ss[|es|].main != Finished {
      var e := NeverStuck(ss, es, |es|);
    }
    ShutdownIsComplete(ss, es, |es|);
  }
}
