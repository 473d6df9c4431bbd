/**
  The 8-byte atomics emulated over one 32-bit spinlock word. Any number of threads run the three
  stubs in any interleaving; each 8-byte copy is two separate 4-byte accesses, in either order.
  Every run is matched, step for step, by a run of an object whose operations are single atomic
  steps between their call and their return.
 */
module Atomics {
  import opened Wrappers

  type U32 = x: int | 0 <= x < 0x1_0000_0000
  type U64 = x: int | 0 <= x < 0x1_0000_0000_0000_0000

  type Addr = nat
  type Tid = nat

  datatype Halves = Halves(lo: U32, hi: U32)

  function Join(h: Halves): U64 {
    h.hi * 0x1_0000_0000 + h.lo
  }

  function Split(v: U64): (h: Halves)
    ensures Join(h) == v
  {
    Halves(v % 0x1_0000_0000, v / 0x1_0000_0000)
  }

  function Plus(a: U64, b: U64): U64 {
    (a + b) % 0x1_0000_0000_0000_0000
  }

  datatype Op =
    | CompareAndSwap(addr: Addr, oldVal: U64, newVal: U64)
    | FetchAndAdd(addr: Addr, val: U64)
    | AddAndFetch(addr: Addr, val: U64)

  /** What an outside observer sees of a step. */
  datatype Label = Call(t: Tid, op: Op) | Return(t: Tid, op: Op, result: U64) | Internal

  // ---------------------------------------------------------------- the atomic object

  function NewValue(op: Op, cur: U64): U64 {
    match op
    case CompareAndSwap(_, o, n) => if cur == o then n else cur
    case FetchAndAdd(_, v) => Plus(cur, v)
    case AddAndFetch(_, v) => Plus(cur, v)
  }

  function ReturnValue(op: Op, cur: U64): U64 {
    if op.AddAndFetch? then NewValue(op, cur) else cur
  }

  datatype APc = AIdle | Pending(op: Op) | Done(op: Op, result: U64)
  datatype Applied = Applied(t: Tid, op: Op, result: U64)
  datatype AState = AState(mem: map<Addr, U64>, threads: map<Tid, APc>, log: seq<Applied>)

  ghost predicate ACall(a: AState, t: Tid, op: Op, a': AState) {
    t in a.threads && a.threads[t] == AIdle && op.addr in a.mem
    && a' == a.(threads := a.threads[t := Pending(op)])
  }

  /** The whole operation, in one step. */
  ghost predicate Apply(a: AState, t: Tid, a': AState) {
    t in a.threads && a.threads[t].Pending? && a.threads[t].op.addr in a.mem
    && var op := a.threads[t].op;
    var cur := a.mem[op.addr];
    a' == AState(a.mem[op.addr := NewValue(op, cur)],
                 a.threads[t := Done(op, ReturnValue(op, cur))],
                 a.log + [Applied(t, op, ReturnValue(op, cur))])
  }

  ghost predicate AReturn(a: AState, t: Tid, op: Op, result: U64, a': AState) {
    t in a.threads && a.threads[t] == Done(op, result) && a' == a.(threads := a.threads[t := AIdle])
  }

  ghost predicate AStep(a: AState, l: Label, a': AState) {
    match l
    case Call(t, op) => ACall(a, t, op, a')
    case Return(t, op, r) => AReturn(a, t, op, r, a')
    case Internal => a' == a || exists t :: Apply(a, t, a')
  }

  ghost predicate ARun(aa: seq<AState>, ls: seq<Label>) {
    |aa| == |ls| + 1 && forall i {:trigger aa[i], ls[i]} | 0 <= i < |ls| :: AStep(aa[i], ls[i], aa[i + 1])
  }

  // ---------------------------------------------------------------- the stubs

  datatype Pc =
    | Idle
    | Acquiring(op: Op)
    | Loading(op: Op, lo: Option<U32>, hi: Option<U32>)
    | Storing(op: Op, cur: U64, next: U64, loDone: bool, hiDone: bool)
    | Releasing(op: Op, cur: U64, result: U64)
    | Returning(op: Op, result: U64)

  datatype State = State(lock: int, mem: map<Addr, Halves>, threads: map<Tid, Pc>)

  function Goto(s: State, t: Tid, pc: Pc): State {
    s.(threads := s.threads[t := pc])
  }

  function Write(s: State, x: Addr, h: Halves): State {
    s.(mem := s.mem[x := h])
  }

  ghost predicate Begin(s: State, t: Tid, op: Op, s': State) {
    t in s.threads && s.threads[t] == Idle && op.addr in s.mem && s' == Goto(s, t, Acquiring(op))
  }

  /** One compare-and-exchange of the lock word, from 0 to 1. */
  ghost predicate Acquire(s: State, t: Tid, s': State) {
    t in s.threads && s.threads[t].Acquiring?
    && s' == if s.lock == 0 then Goto(s.(lock := 1), t, Loading(s.threads[t].op, None, None)) else s
  }

  /** Half of `memcpy(&cur, ptr, 8)`. */
  ghost predicate LoadHalf(s: State, t: Tid, s': State) {
    t in s.threads && s.threads[t].Loading? && s.threads[t].op.addr in s.mem
    && var pc := s.threads[t];
    || (pc.lo.None? && s' == Goto(s, t, pc.(lo := Some(s.mem[pc.op.addr].lo))))
    || (pc.hi.None? && s' == Goto(s, t, pc.(hi := Some(s.mem[pc.op.addr].hi))))
  }

  /** What the stub does with the loaded value: compare, or add modulo 2 to the 64. */
  ghost predicate Compute(s: State, t: Tid, s': State) {
    t in s.threads && s.threads[t].Loading? && s.threads[t].lo.Some? && s.threads[t].hi.Some?
    && var op := s.threads[t].op;
    var cur := Join(Halves(s.threads[t].lo.value, s.threads[t].hi.value));
    s' == Goto(s, t,
               match op
               case CompareAndSwap(_, o, n) =>
                 if cur == o then Storing(op, cur, n, false, false) else Releasing(op, cur, cur)
               case FetchAndAdd(_, v) => Storing(op, cur, Plus(cur, v), false, false)
               case AddAndFetch(_, v) => Storing(op, cur, Plus(cur, v), false, false))
  }

  /** Half of `memcpy(ptr, &next, 8)`. */
  ghost predicate StoreHalf(s: State, t: Tid, s': State) {
    t in s.threads && s.threads[t].Storing? && s.threads[t].op.addr in s.mem
    && var pc := s.threads[t];
    var x := pc.op.addr;
    || (!pc.loDone && s' == Goto(Write(s, x, s.mem[x].(lo := Split(pc.next).lo)), t, pc.(loDone := true)))
    || (!pc.hiDone && s' == Goto(Write(s, x, s.mem[x].(hi := Split(pc.next).hi)), t, pc.(hiDone := true)))
  }

  ghost predicate FinishStore(s: State, t: Tid, s': State) {
    t in s.threads && s.threads[t].Storing? && s.threads[t].loDone && s.threads[t].hiDone
    && var pc := s.threads[t];
    s' == Goto(s, t, Releasing(pc.op, pc.cur, if pc.op.AddAndFetch? then pc.next else pc.cur))
  }

  ghost predicate Release(s: State, t: Tid, s': State) {
    t in s.threads && s.threads[t].Releasing?
    && s' == Goto(s.(lock := 0), t, Returning(s.threads[t].op, s.threads[t].result))
  }

  ghost predicate End(s: State, t: Tid, op: Op, result: U64, s': State) {
    t in s.threads && s.threads[t] == Returning(op, result) && s' == Goto(s, t, Idle)
  }

  ghost predicate InternalStep(s: State, t: Tid, s': State) {
    || Acquire(s, t, s')
    || LoadHalf(s, t, s')
    || Compute(s, t, s')
    || StoreHalf(s, t, s')
    || FinishStore(s, t, s')
    || Release(s, t, s')
  }

  ghost predicate Step(s: State, l: Label, s': State) {
    match l
    case Call(t, op) => Begin(s, t, op, s')
    case Return(t, op, r) => End(s, t, op, r, s')
    case Internal => exists t :: InternalStep(s, t, s')
  }

  ghost predicate Init(s: State) {
    s.lock == 0 && forall t | t in s.threads :: s.threads[t] == Idle
  }

  ghost predicate Run(ss: seq<State>, ls: seq<Label>) {
    |ss| == |ls| + 1 && Init(ss[0])
    && forall i {:trigger ss[i], ls[i]} | 0 <= i < |ls| :: Step(ss[i], ls[i], ss[i + 1])
  }

  // ---------------------------------------------------------------- the simulation

  predicate Holding(pc: Pc) {
    pc.Loading? || pc.Storing? || pc.Releasing?
  }

  /** The lock word is 1 exactly while one thread, and only one, is inside. */
  ghost predicate MutualExclusion(s: State) {
    && (s.lock == 0 || s.lock == 1)
    && (forall t, u | t in s.threads && u in s.threads && Holding(s.threads[t]) && Holding(s.threads[u]) :: t == u)
    && (s.lock == 0 ==> forall t | t in s.threads :: !Holding(s.threads[t]))
    && (s.lock == 1 ==> exists t :: t in s.threads && Holding(s.threads[t]))
  }

  function Outline(pc: Pc): APc {
    match pc
    case Idle => AIdle
    case Acquiring(op) => Pending(op)
    case Loading(op, _, _) => Pending(op)
    case Storing(op, _, _, _, _) => Pending(op)
    case Releasing(op, _, _) => Pending(op)
    case Returning(op, r) => Done(op, r)
  }

  /** The abstract value of a cell while `pc` is inside: what was there when it came in. */
  ghost predicate Inside(pc: Pc, h: Halves, v: U64) {
    match pc
    case Loading(_, lo, hi) => v == Join(h) && (lo.Some? ==> lo.value == h.lo) && (hi.Some? ==> hi.value == h.hi)
    case Storing(op, cur, next, loDone, hiDone) =>
      && v == cur && next == NewValue(op, cur)
      && h.lo == (if loDone then Split(next) else Split(cur)).lo
      && h.hi == (if hiDone then Split(next) else Split(cur)).hi
    case Releasing(op, cur, result) => v == cur && Join(h) == NewValue(op, cur) && result == ReturnValue(op, cur)
    case _ => true
  }

  ghost predicate Busy(s: State, x: Addr) {
    exists t :: t in s.threads && Holding(s.threads[t]) && s.threads[t].op.addr == x
  }

  /** The simulation relation: the abstract memory changes at the release of the lock. */
  ghost predicate Matches(s: State, a: AState) {
    && a.threads.Keys == s.threads.Keys && a.mem.Keys == s.mem.Keys
    && (forall t | t in s.threads :: a.threads[t] == Outline(s.threads[t]))
    && (forall t | t in s.threads && !s.threads[t].Idle? :: s.threads[t].op.addr in s.mem)
    && (forall t | t in s.threads && Holding(s.threads[t]) ::
          Inside(s.threads[t], s.mem[s.threads[t].op.addr], a.mem[s.threads[t].op.addr]))
    && (forall x | x in s.mem :: Busy(s, x) || a.mem[x] == Join(s.mem[x]))
  }

  lemma SplitOfJoin(h: Halves)
    ensures Split(Join(h)) == h
  {
  }

  ghost predicate Related(s: State, a: AState) {
    MutualExclusion(s) && Matches(s, a)
  }

  /** A step taken outside the critical section. */
  lemma OutsideMatches(s: State, t: Tid, s': State, a: AState, a': AState)
    requires Related(s, a) && t in s.threads && t in s'.threads
    requires !Holding(s.threads[t]) && !Holding(s'.threads[t]) && s' == Goto(s, t, s'.threads[t])
    requires !s'.threads[t].Idle? ==> s'.threads[t].op.addr in s.mem
    requires a' == a.(threads := a.threads[t := Outline(s'.threads[t])])
    ensures Related(s', a')
  {
    forall x
      ensures Busy(s', x) <==> Busy(s, x)
    {
      if Busy(s, x) {
        var u :| u in s.threads && Holding(s.threads[u]) && s.threads[u].op.addr == x;
        assert u in s'.threads && s'.threads[u] == s.threads[u];
      }
    }
    if s.lock == 1 {
      var u :| u in s.threads && Holding(s.threads[u]);
      assert u in s'.threads && s'.threads[u] == s.threads[u];
    }
  }

  lemma AcquireMatches(s: State, t: Tid, s': State, a: AState)
    requires Related(s, a) && Acquire(s, t, s')
    ensures Related(s', a)
  {
    if s.lock == 0 {
      assert Holding(s'.threads[t]);
      assert forall x :: Busy(s, x) ==> false;
    }
  }

  /** A step taken inside the critical section, touching no cell but its own. */
  lemma InsideMatches(s: State, t: Tid, s': State, a: AState)
    requires Related(s, a)
    requires t in s.threads && Holding(s.threads[t])
    requires t in s'.threads && Holding(s'.threads[t]) && s'.threads[t].op == s.threads[t].op
    requires s'.lock == s.lock && s'.threads == s.threads[t := s'.threads[t]]
    requires s.threads[t].op.addr in s'.mem && s'.mem == s.mem[s.threads[t].op.addr := s'.mem[s.threads[t].op.addr]]
    requires Inside(s'.threads[t], s'.mem[s.threads[t].op.addr], a.mem[s.threads[t].op.addr])
    ensures Related(s', a)
  {
    var x := s.threads[t].op.addr;
    assert Busy(s', x);
    assert forall y :: Busy(s, y) ==> y == x;
  }

  lemma LoadMatches(s: State, t: Tid, s': State, a: AState)
    requires Related(s, a) && LoadHalf(s, t, s')
    ensures Related(s', a)
  {
    InsideMatches(s, t, s', a);
  }

  lemma ComputeMatches(s: State, t: Tid, s': State, a: AState)
    requires Related(s, a) && Compute(s, t, s')
    ensures Related(s', a)
  {
    SplitOfJoin(s.mem[s.threads[t].op.addr]);
    InsideMatches(s, t, s', a);
  }

  lemma StoreMatches(s: State, t: Tid, s': State, a: AState)
    requires Related(s, a) && StoreHalf(s, t, s')
    ensures Related(s', a)
  {
    InsideMatches(s, t, s', a);
  }

  lemma FinishMatches(s: State, t: Tid, s': State, a: AState)
    requires Related(s, a) && FinishStore(s, t, s')
    ensures Related(s', a)
  {
    var pc := s.threads[t];
    assert s.mem[pc.op.addr] == Split(pc.next);
    InsideMatches(s, t, s', a);
  }

  /** The operation takes effect, as one step, when the lock is given back. */
  lemma ReleaseMatches(s: State, t: Tid, s': State, a: AState) returns (a': AState)
    requires Related(s, a) && Release(s, t, s')
    ensures Related(s', a') && Apply(a, t, a')
  {
    var op := s.threads[t].op;
    var cur := a.mem[op.addr];
    a' := AState(a.mem[op.addr := NewValue(op, cur)],
                 a.threads[t := Done(op, ReturnValue(op, cur))],
                 a.log + [Applied(t, op, ReturnValue(op, cur))]);
    assert Holding(s.threads[t]);
    forall x | x in s'.mem
      ensures a'.mem[x] == Join(s'.mem[x])
    {
      assert Busy(s, x) ==> x == op.addr;
    }
  }

  lemma StepMatches(s: State, l: Label, s': State, a: AState) returns (a': AState)
    requires Related(s, a) && Step(s, l, s')
    ensures Related(s', a') && AStep(a, l, a')
  {
    match l
    case Call(t, op) =>
      a' := a.(threads := a.threads[t := Pending(op)]);
      OutsideMatches(s, t, s', a, a');
    case Return(t, op, r) =>
      a' := a.(threads := a.threads[t := AIdle]);
      OutsideMatches(s, t, s', a, a');
    case Internal =>
      a' := a;
      var t :| InternalStep(s, t, s');
      if Acquire(s, t, s') {
        AcquireMatches(s, t, s', a);
      } else if LoadHalf(s, t, s') {
        LoadMatches(s, t, s', a);
      } else if Compute(s, t, s') {
        ComputeMatches(s, t, s', a);
      } else if StoreHalf(s, t, s') {
        StoreMatches(s, t, s', a);
      } else if FinishStore(s, t, s') {
        FinishMatches(s, t, s', a);
      } else {
        a' := ReleaseMatches(s, t, s', a);
      }
  }

  // ---------------------------------------------------------------- whole runs

  ghost predicate AInit(a: AState) {
    a.log == [] && forall t | t in a.threads :: a.threads[t] == AIdle
  }

  ghost function Start(s: State): AState {
    AState(map x | x in s.mem :: Join(s.mem[x]), map t | t in s.threads :: AIdle, [])
  }

  lemma StartMatches(s: State)
    requires Init(s)
    ensures Related(s, Start(s)) && AInit(Start(s))
  {
  }

  /** Every run of the stubs is, label for label, a run of the atomic object. */
  lemma {:induction false} Simulate(ss: seq<State>, ls: seq<Label>) returns (aa: seq<AState>)
    requires Run(ss, ls)
    ensures ARun(aa, ls) && aa[0] == Start(ss[0])
    ensures forall i | 0 <= i < |ss| :: Related(ss[i], aa[i])
    decreases |ls|
  {
    if ls == [] {
      StartMatches(ss[0]);
      aa := [Start(ss[0])];
    } else {
      var n := |ls| - 1;
      RunPrefix(ss, ls);
      aa := Simulate(ss[..n + 1], ls[..n]);
      var now := aa[n];
      assert ss[..n + 1][n] == ss[n] && Related(ss[n], now);
      var next := StepMatches(ss[n], ls[n], ss[n + 1], now);
      ARunExtends(aa, ls[..n], ls[n], next);
      assert ls[..n] + [ls[n]] == ls;
      RelatedExtends(ss, aa, next);
      aa := aa + [next];
    }
  }

  lemma RunPrefix(ss: seq<State>, ls: seq<Label>)
    requires Run(ss, ls) && ls != []
    ensures Run(ss[..|ls|], ls[..|ls| - 1])
  {
  }

  lemma ARunExtends(aa: seq<AState>, ls: seq<Label>, l: Label, a: AState)
    requires ARun(aa, ls) && AStep(aa[|ls|], l, a)
    ensures ARun(aa + [a], ls + [l])
  {
  }

  lemma RelatedExtends(ss: seq<State>, aa: seq<AState>, a: AState)
    requires |ss| == |aa| + 1 && (forall i | 0 <= i < |aa| :: Related(ss[..|aa|][i], aa[i])) && Related(ss[|aa|], a)
    ensures forall i | 0 <= i < |ss| :: Related(ss[i], (aa + [a])[i])
  {
    forall i | 0 <= i < |ss|
      ensures Related(ss[i], (aa + [a])[i])
    {
      if i < |aa| {
        assert Related(ss[..|aa|][i], aa[i]);
      }
    }
  }

  /** The memory after the logged operations, one after the other. */
  ghost function Replay(mem: map<Addr, U64>, log: seq<Applied>): map<Addr, U64> {
    if log == [] then mem
    else
      var m := Replay(mem, log[..|log| - 1]);
      var op := log[|log| - 1].op;
      if op.addr in m then m[op.addr := NewValue(op, m[op.addr])] else m
  }

  /** Each logged operation returned what it returns when executed alone, in log order. */
  ghost predicate LegalLog(mem: map<Addr, U64>, log: seq<Applied>) {
    log == []
    || (var init, last := log[..|log| - 1], log[|log| - 1];
        && LegalLog(mem, init)
        && last.op.addr in Replay(mem, init)
        && last.result == ReturnValue(last.op, Replay(mem, init)[last.op.addr]))
  }

  lemma {:induction false} LogIsLegal(aa: seq<AState>, ls: seq<Label>, i: nat)
    requires ARun(aa, ls) && AInit(aa[0]) && i < |aa|
    ensures LegalLog(aa[0].mem, aa[i].log) && Replay(aa[0].mem, aa[i].log) == aa[i].mem
  {
    if i > 0 {
      LogIsLegal(aa, ls, i - 1);
      assert AStep(aa[i - 1], ls[i - 1], aa[i]);
      if aa[i].log != aa[i - 1].log {
        assert aa[i].log[..|aa[i].log| - 1] == aa[i - 1].log;
      }
    }
  }

  /** What an operation means: its result and the memory it leaves, given the memory it finds. */
  ghost predicate Does(op: Op, result: U64, before: map<Addr, U64>, now: map<Addr, U64>) {
    var x := op.addr;
    && x in before && now.Keys == before.Keys
    && (forall y | y in before && y != x :: now[y] == before[y])
    && match op
       case CompareAndSwap(_, expected, replacement) =>
         result == before[x] && now[x] == if before[x] == expected then replacement else before[x]
       case FetchAndAdd(_, v) => result == before[x] && now[x] == (before[x] + v) % 0x1_0000_0000_0000_0000
       case AddAndFetch(_, v) => result == now[x] && now[x] == (before[x] + v) % 0x1_0000_0000_0000_0000
  }

  /** The logged operations, executed one after the other, take the memory through `mems`. */
  ghost predicate SequentialHistory(mems: seq<map<Addr, U64>>, log: seq<Applied>) {
    && |mems| == |log| + 1
    && forall k {:trigger log[k]} | 0 <= k < |log| :: Does(log[k].op, log[k].result, mems[k], mems[k + 1])
  }

  ghost function History(mem: map<Addr, U64>, log: seq<Applied>): (mems: seq<map<Addr, U64>>)
    ensures |mems| == |log| + 1 && mems[0] == mem && mems[|log|] == Replay(mem, log)
  {
    if log == [] then [mem] else History(mem, log[..|log| - 1]) + [Replay(mem, log)]
  }

  lemma {:induction false} LegalIsSequential(mem: map<Addr, U64>, log: seq<Applied>)
    requires LegalLog(mem, log)
    ensures SequentialHistory(History(mem, log), log)
  {
    if log != [] {
      var n := |log| - 1;
      LegalIsSequential(mem, log[..n]);
      var mems := History(mem, log[..n]);
      LegalEffect(Replay(mem, log[..n]), log[n].op);
      assert History(mem, log) == mems + [Replay(mem, log)];
      forall k | 0 <= k < |log|
        ensures Does(log[k].op, log[k].result, History(mem, log)[k], History(mem, log)[k + 1])
      {
        assert k < n ==> log[..n][k] == log[k];
      }
    }
  }

  lemma LegalEffect(mem: map<Addr, U64>, op: Op)
    requires op.addr in mem
    ensures Does(op, ReturnValue(op, mem[op.addr]), mem, mem[op.addr := NewValue(op, mem[op.addr])])
  {
  }

  /**
    The main theorem: the emulation is linearizable, and the memory is whole while the lock is free.
    In every state of every run the effects so far form a sequential history that starts in the first
    memory and, whenever the lock is free, ends in the present one.
   */
  lemma Linearizable(ss: seq<State>, ls: seq<Label>) returns (aa: seq<AState>)
    requires Run(ss, ls)
    ensures ARun(aa, ls) && AInit(aa[0])
    ensures forall i | 0 <= i < |ss| :: MutualExclusion(ss[i])
    ensures forall i | 0 <= i < |ss| :: SequentialHistory(History(aa[0].mem, aa[i].log), aa[i].log)
    ensures aa[0].mem.Keys == ss[0].mem.Keys && forall x | x in ss[0].mem :: aa[0].mem[x] == Join(ss[0].mem[x])
    ensures forall i | 0 <= i < |ss| && ss[i].lock == 0 ::
              && History(aa[0].mem, aa[i].log)[|aa[i].log|].Keys == ss[i].mem.Keys
              && forall x | x in ss[i].mem :: Join(ss[i].mem[x]) == History(aa[0].mem, aa[i].log)[|aa[i].log|][x]
  {
    aa := Simulate(ss, ls);
    StartMatches(ss[0]);
    forall i | 0 <= i < |ss|
      ensures MutualExclusion(ss[i]) && SequentialHistory(History(aa[0].mem, aa[i].log), aa[i].log)
      ensures ss[i].lock == 0 ==>
                && History(aa[0].mem, aa[i].log)[|aa[i].log|].Keys == ss[i].mem.Keys
                && forall x | x in ss[i].mem :: Join(ss[i].mem[x]) == History(aa[0].mem, aa[i].log)[|aa[i].log|][x]
    {
      assert Related(ss[i], aa[i]);
      LogIsLegal(aa, ls, i);
      LegalIsSequential(aa[0].mem, aa[i].log);
      if ss[i].lock == 0 {
        FreeMatches(ss[i], aa[i]);
      }
    }
  }

  lemma FreeMatches(s: State, a: AState)
    requires Related(s, a) && s.lock == 0
    ensures a.mem.Keys == s.mem.Keys && forall x | x in s.mem :: a.mem[x] == Join(s.mem[x])
  {
    assert forall x :: !Busy(s, x);
  }

  // ---------------------------------------------------------------- where an operation takes effect

  ghost predicate Mentions(l: Label, t: Tid) {
    match l
    case Call(u, _) => u == t
    case Return(u, _, _) => u == t
    case Internal => false
  }

  ghost predicate TookEffect(before: AState, now: AState, t: Tid, op: Op, result: U64) {
    exists k :: |before.log| <= k < |now.log| && now.log[k] == Applied(t, op, result)
  }

  /** An operation's place in the log lies between its call and its return. */
  lemma {:induction false} EffectBetweenCallAndReturn(aa: seq<AState>, ls: seq<Label>, i: nat, j: nat, t: Tid, op: Op)
    requires ARun(aa, ls) && i < j < |aa| && ls[i] == Call(t, op)
    requires forall k | i < k < j :: !Mentions(ls[k], t)
    ensures aa[i].log <= aa[j].log && t in aa[j].threads
    ensures aa[j].threads[t] == Pending(op)
            || (aa[j].threads[t].Done? && aa[j].threads[t].op == op
                && TookEffect(aa[i], aa[j], t, op, aa[j].threads[t].result))
  {
    if j == i + 1 {
      assert AStep(aa[i], ls[i], aa[j]);
    } else {
      EffectBetweenCallAndReturn(aa, ls, i, j - 1, t, op);
      assert AStep(aa[j - 1], ls[j - 1], aa[j]) && !Mentions(ls[j - 1], t);
      assert aa[j - 1].log <= aa[j].log;
      if aa[j - 1].threads[t] == Pending(op) {
        if aa[j].threads[t] != Pending(op) {
          var u :| Apply(aa[j - 1], u, aa[j]);
          assert u == t;
          assert aa[j].log[|aa[j - 1].log|] == Applied(t, op, aa[j].threads[t].result);
        }
      } else {
        var k :| |aa[i].log| <= k < |aa[j - 1].log| && aa[j - 1].log[k] == Applied(t, op, aa[j - 1].threads[t].result);
        assert aa[j].log[k] == aa[j - 1].log[k];
      }
    }
  }

  // ---------------------------------------------------------------- no update is lost

  ghost predicate OnlyAdds(log: seq<Applied>, x: Addr) {
    forall i | 0 <= i < |log| && log[i].op.addr == x :: !log[i].op.CompareAndSwap?
  }

  /** The sum of what was added to cell `x`. */
  ghost function Added(log: seq<Applied>, x: Addr): nat {
    if log == [] then 0
    else
      var op := log[|log| - 1].op;
      Added(log[..|log| - 1], x) + if op.addr == x && !op.CompareAndSwap? then op.val else 0
  }

  /** A cell that was only added to holds its first value plus all that was added. */
  lemma {:induction false} AddsInLog(mem: map<Addr, U64>, log: seq<Applied>, x: Addr)
    requires x in mem && OnlyAdds(log, x)
    ensures x in Replay(mem, log)
    ensures Replay(mem, log)[x] == (mem[x] + Added(log, x)) % 0x1_0000_0000_0000_0000
  {
    if log != [] {
      var init, op := log[..|log| - 1], log[|log| - 1].op;
      AddsInLog(mem, init, x);
      if op.addr == x {
        AddModulo(mem[x] + Added(init, x), op.val);
      }
    }
  }

  lemma AddModulo(a: nat, b: nat)
    ensures (a % 0x1_0000_0000_0000_0000 + b) % 0x1_0000_0000_0000_0000 == (a + b) % 0x1_0000_0000_0000_0000
  {
  }

  /** No call of the first `i` labels is a compare-and-swap on `x`. */
  ghost predicate OnlyAddsCalled(ls: seq<Label>, i: nat, x: Addr)
    requires i <= |ls|
  {
    forall k | 0 <= k < i && ls[k].Call? && ls[k].op.addr == x :: !ls[k].op.CompareAndSwap?
  }

  /** What an operation adds to cell `x`. */
  function Addend(op: Op, x: Addr): nat {
    if op.addr == x && !op.CompareAndSwap? then op.val else 0
  }

  /** The sum of what the calls among the first `i` labels add to cell `x`. */
  ghost function AddedByCalls(ls: seq<Label>, i: nat, x: Addr): nat
    requires i <= |ls|
  {
    if i == 0 then 0
    else AddedByCalls(ls, i - 1, x) + if ls[i - 1].Call? then Addend(ls[i - 1].op, x) else 0
  }

  function PendingAddend(pc: APc, x: Addr): nat {
    if pc.Pending? then Addend(pc.op, x) else 0
  }

  /** `ts` lists the threads, each once. */
  ghost predicate Lists(ts: seq<Tid>, threads: map<Tid, APc>) {
    && (forall t :: t in ts <==> t in threads)
    && (forall i, j | 0 <= i < j < |ts| :: ts[i] != ts[j])
  }

  /** The sum of what was called but has not taken effect yet. */
  ghost function AddsPending(threads: map<Tid, APc>, ts: seq<Tid>, x: Addr): nat
    requires forall t | t in ts :: t in threads
  {
    if ts == [] then 0 else PendingAddend(threads[ts[0]], x) + AddsPending(threads, ts[1..], x)
  }

  lemma {:induction false} PendingUpdate(threads: map<Tid, APc>, ts: seq<Tid>, x: Addr, t: Tid, pc: APc)
    requires forall u | u in ts :: u in threads
    requires forall i, j | 0 <= i < j < |ts| :: ts[i] != ts[j]
    requires t in threads
    ensures AddsPending(threads[t := pc], ts, x) ==
            AddsPending(threads, ts, x) + if t in ts then PendingAddend(pc, x) - PendingAddend(threads[t], x) else 0
  {
    if ts != [] {
      PendingUpdate(threads, ts[1..], x, t, pc);
      assert t in ts <==> t == ts[0] || t in ts[1..];
    }
  }

  lemma {:induction false} ListOf(tids: set<Tid>) returns (ts: seq<Tid>)
    ensures forall t :: t in ts <==> t in tids
    ensures forall i, j | 0 <= i < j < |ts| :: ts[i] != ts[j]
    decreases |tids|
  {
    if tids == {} {
      ts := [];
    } else {
      var t :| t in tids;
      var rest := ListOf(tids - {t});
      ts := [t] + rest;
    }
  }

  /** An addition of the atomic object is pending from its call until its effect, and then in the log. */
  lemma StepAccounts(a: AState, l: Label, a': AState, ts: seq<Tid>, x: Addr)
    requires AStep(a, l, a') && Lists(ts, a.threads)
    ensures Lists(ts, a'.threads)
    ensures Added(a'.log, x) + AddsPending(a'.threads, ts, x) ==
            Added(a.log, x) + AddsPending(a.threads, ts, x) + if l.Call? then Addend(l.op, x) else 0
  {
    match l
    case Call(t, op) => PendingUpdate(a.threads, ts, x, t, Pending(op));
    case Return(t, _, _) => PendingUpdate(a.threads, ts, x, t, AIdle);
    case Internal =>
      if a' != a {
        var t :| Apply(a, t, a');
        PendingUpdate(a.threads, ts, x, t, a'.threads[t]);
        assert a'.log[..|a'.log| - 1] == a.log;
      }
  }

  lemma {:induction false} NothingPending(threads: map<Tid, APc>, ts: seq<Tid>, x: Addr)
    requires forall t | t in ts :: t in threads && !threads[t].Pending?
    ensures AddsPending(threads, ts, x) == 0
  {
    if ts != [] {
      NothingPending(threads, ts[1..], x);
    }
  }

  lemma {:induction false} CallsAreAccounted(aa: seq<AState>, ls: seq<Label>, i: nat, ts: seq<Tid>, x: Addr)
    requires ARun(aa, ls) && AInit(aa[0]) && i < |aa| && Lists(ts, aa[0].threads)
    ensures Lists(ts, aa[i].threads)
    ensures AddedByCalls(ls, i, x) == Added(aa[i].log, x) + AddsPending(aa[i].threads, ts, x)
  {
    if i == 0 {
      NothingPending(aa[0].threads, ts, x);
    } else {
      CallsAreAccounted(aa, ls, i - 1, ts, x);
      StepAccounts(aa[i - 1], ls[i - 1], aa[i], ts, x);
    }
  }

  /** Without a compare-and-swap called on `x`, none is pending on it and none is in the log. */
  lemma {:induction false} OnlyAddsLogged(aa: seq<AState>, ls: seq<Label>, i: nat, x: Addr)
    requires ARun(aa, ls) && AInit(aa[0]) && i < |aa| && OnlyAddsCalled(ls, i, x)
    ensures OnlyAdds(aa[i].log, x)
    ensures forall t | t in aa[i].threads && aa[i].threads[t].Pending? && aa[i].threads[t].op.addr == x ::
              !aa[i].threads[t].op.CompareAndSwap?
  {
    if i > 0 {
      OnlyAddsLogged(aa, ls, i - 1, x);
      assert AStep(aa[i - 1], ls[i - 1], aa[i]);
    }
  }

  /** When no operation is pending, all that was called is in the log. */
  lemma AllCallsLogged(aa: seq<AState>, ls: seq<Label>, i: nat, x: Addr)
    requires ARun(aa, ls) && AInit(aa[0]) && i < |aa|
    requires forall t | t in aa[i].threads :: !aa[i].threads[t].Pending?
    ensures AddedByCalls(ls, i, x) == Added(aa[i].log, x)
  {
    var ts := ListOf(aa[0].threads.Keys);
    CallsAreAccounted(aa, ls, i, ts, x);
    NothingPending(aa[i].threads, ts, x);
  }

  lemma AtomicAdditions(aa: seq<AState>, ls: seq<Label>, i: nat, x: Addr, sum: nat)
    requires ARun(aa, ls) && AInit(aa[0]) && i < |aa| && x in aa[0].mem && OnlyAddsCalled(ls, i, x)
    requires sum == Added(aa[i].log, x)
    ensures x in aa[i].mem && aa[i].mem[x] == (aa[0].mem[x] + sum) % 0x1_0000_0000_0000_0000
  {
    OnlyAddsLogged(aa, ls, i, x);
    LogIsLegal(aa, ls, i);
    AddsInLog(aa[0].mem, aa[i].log, x);
  }

  /** While every thread is idle nothing is pending and memory is whole. */
  lemma IdleMatches(s: State, a: AState)
    requires Related(s, a) && forall t | t in s.threads :: s.threads[t] == Idle
    ensures forall t | t in a.threads :: !a.threads[t].Pending?
    ensures a.mem.Keys == s.mem.Keys && forall x | x in s.mem :: a.mem[x] == Join(s.mem[x])
  {
    assert forall x :: !Busy(s, x);
  }

  /** A run of the atomic object that is whole wherever the run of the stubs has all threads idle. */
  lemma SimulateIdle(ss: seq<State>, ls: seq<Label>, i: nat) returns (aa: seq<AState>)
    requires Run(ss, ls) && i < |ss| && forall t | t in ss[i].threads :: ss[i].threads[t] == Idle
    ensures ARun(aa, ls) && |aa| == |ss| && AInit(aa[0])
    ensures forall t | t in aa[i].threads :: !aa[i].threads[t].Pending?
    ensures aa[i].mem.Keys == ss[i].mem.Keys && forall x | x in ss[i].mem :: aa[i].mem[x] == Join(ss[i].mem[x])
    ensures aa[0].mem.Keys == ss[0].mem.Keys && forall x | x in ss[0].mem :: aa[0].mem[x] == Join(ss[0].mem[x])
  {
    aa := Simulate(ss, ls);
    StartMatches(ss[0]);
    IdleMatches(ss[i], aa[i]);
  }

  /**
    Concurrent additions lose nothing. After any run, when every thread is idle again, a cell on which
    no compare-and-swap was called holds its first value plus the sum of all that was added by calls.
   */
  lemma NoAdditionIsLost(ss: seq<State>, ls: seq<Label>, i: nat, x: Addr)
    requires Run(ss, ls) && i < |ss| && x in ss[0].mem && OnlyAddsCalled(ls, i, x)
    requires forall t | t in ss[i].threads :: ss[i].threads[t] == Idle
    ensures x in ss[i].mem
    ensures Join(ss[i].mem[x]) == (Join(ss[0].mem[x]) + AddedByCalls(ls, i, x)) % 0x1_0000_0000_0000_0000
  {
    var aa := SimulateIdle(ss, ls, i);
    AllCallsLogged(aa, ls, i, x);
    AtomicAdditions(aa, ls, i, x, AddedByCalls(ls, i, x));
  }

  // ---------------------------------------------------------------- at most one swap wins

  predicate IsSwap(op: Op, x: Addr, expected: U64) {
    op.CompareAndSwap? && op.oldVal == expected && op.newVal != expected
  }

  /** The calls on `x` among the first `i` labels all try to replace `expected` by something else. */
  ghost predicate OnlySwapsCalled(ls: seq<Label>, i: nat, x: Addr, expected: U64)
    requires i <= |ls|
  {
    forall k | 0 <= k < i && ls[k].Call? && ls[k].op.addr == x :: IsSwap(ls[k].op, x, expected)
  }

  /** A compare-and-swap has won if it returns the value it expected. */
  predicate WinReturned(l: Label, x: Addr, expected: U64) {
    l.Return? && l.op.addr == x && l.result == expected
  }

  ghost predicate WinHeld(a: AState, t: Tid, x: Addr, expected: U64) {
    t in a.threads && a.threads[t].Done? && a.threads[t].op.addr == x && a.threads[t].result == expected
  }

  ghost predicate NoneReturned(ls: seq<Label>, i: nat, x: Addr, expected: U64)
    requires i <= |ls|
  {
    forall k | 0 <= k < i :: !WinReturned(ls[k], x, expected)
  }

  ghost predicate OneReturned(ls: seq<Label>, i: nat, x: Addr, expected: U64)
    requires i <= |ls|
  {
    forall j, k | 0 <= j < k < i :: !(WinReturned(ls[j], x, expected) && WinReturned(ls[k], x, expected))
  }

  /** The one win is still in memory, or held by one thread, or returned. */
  ghost predicate OneWin(a: AState, ls: seq<Label>, i: nat, x: Addr, expected: U64)
    requires i <= |ls|
  {
    && x in a.mem
    && (forall t | t in a.threads && a.threads[t].Pending? && a.threads[t].op.addr == x ::
          IsSwap(a.threads[t].op, x, expected))
    && (a.mem[x] == expected ==> NoneReturned(ls, i, x, expected) && forall t :: !WinHeld(a, t, x, expected))
    && (forall t, u | WinHeld(a, t, x, expected) && WinHeld(a, u, x, expected) :: t == u)
    && (forall t | WinHeld(a, t, x, expected) :: NoneReturned(ls, i, x, expected))
    && OneReturned(ls, i, x, expected)
  }

  lemma ReturnedSoFar(ls: seq<Label>, i: nat, x: Addr, expected: U64)
    requires i < |ls|
    ensures NoneReturned(ls, i + 1, x, expected)
            <==> NoneReturned(ls, i, x, expected) && !WinReturned(ls[i], x, expected)
    ensures OneReturned(ls, i + 1, x, expected)
            <==> OneReturned(ls, i, x, expected) && (WinReturned(ls[i], x, expected) ==> NoneReturned(ls, i, x, expected))
  {
  }

  lemma OneWinStays(a: AState, ls: seq<Label>, i: nat, a': AState, x: Addr, expected: U64)
    requires i < |ls| && AStep(a, ls[i], a') && OneWin(a, ls, i, x, expected)
    requires ls[i].Call? && ls[i].op.addr == x ==> IsSwap(ls[i].op, x, expected)
    ensures OneWin(a', ls, i + 1, x, expected)
  {
    ReturnedSoFar(ls, i, x, expected);
    match ls[i]
    case Call(t, op) =>
      assert forall u :: WinHeld(a', u, x, expected) ==> WinHeld(a, u, x, expected);
    case Return(t, op, r) =>
      assert WinReturned(ls[i], x, expected) <==> WinHeld(a, t, x, expected);
      assert forall u :: WinHeld(a', u, x, expected) ==> WinHeld(a, u, x, expected) && u != t;
    case Internal =>
      if a' != a {
        var t :| Apply(a, t, a');
        assert forall u :: WinHeld(a', u, x, expected) ==> u == t || WinHeld(a, u, x, expected);
      }
  }

  lemma {:induction false} OneWinThroughout(aa: seq<AState>, ls: seq<Label>, i: nat, x: Addr, expected: U64)
    requires ARun(aa, ls) && AInit(aa[0]) && i < |aa| && x in aa[0].mem && OnlySwapsCalled(ls, i, x, expected)
    ensures OneWin(aa[i], ls, i, x, expected)
  {
    if i > 0 {
      OneWinThroughout(aa, ls, i - 1, x, expected);
      OneWinStays(aa[i - 1], ls, i - 1, aa[i], x, expected);
    }
  }

  /**
    Of any number of concurrent calls that all try to replace the same value of a cell, with no other
    call on it, at most one returns that value, that is, takes effect.
   */
  lemma AtMostOneSwapWins(ss: seq<State>, ls: seq<Label>, x: Addr, expected: U64, j: nat, k: nat)
    requires Run(ss, ls) && x in ss[0].mem && OnlySwapsCalled(ls, |ls|, x, expected)
    requires j < |ls| && k < |ls| && WinReturned(ls[j], x, expected) && WinReturned(ls[k], x, expected)
    ensures j == k
  {
    var aa := Simulate(ss, ls);
    StartMatches(ss[0]);
    OneWinThroughout(aa, ls, |ls|, x, expected);
  }
}
