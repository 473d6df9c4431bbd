/**
  The lifetime of the disconnect handler. The handler writes to `disc_fired`, a variable on the
  stack of a connection thread, and is called by msquic workers. One connection thread, the main
  thread's `close` calls and any number of callbacks on any number of connections interleave. The
  two safeguards of the source, `close_mu_` and a ConnectionClose that drains callbacks, are
  parameters: with both, no call comes too late; without either one, some run has a late call.
 */
module HandlerLifetime {
  import opened Wrappers

  type Conn = nat
  type Call = nat

  /** `locks`: `close_mu_` excludes. `drains`: ConnectionClose waits for the callbacks in flight. */
  datatype Safeguards = Safeguards(locks: bool, drains: bool)

  datatype Who = MainThread | ConnThread

  /** A connection handle; once taken by a closer it still delivers callbacks until closed. */
  datatype Handle = Live | Closing(who: Who) | Dead

  /** Where a thread is inside `close()`. */
  datatype Phase = Idle | Locked | Waiting(conn: Conn) | Reset

  /** Where the connection thread is: `Fresh` is inside the loop, after `close` and before `connect`. */
  datatype Place = Start | Loop | Fresh | Leaving | Returned

  /** A callback inside `fire_disconnect_locked_`. */
  datatype Callback = Entered(conn: Conn) | Copied(conn: Conn, handler: bool) | Gone

  datatype System = System(
    handles: map<Conn, Handle>,
    connection: Option<Conn>,       // `connection_`
    opening: Option<Conn>,          // opened by connect, not yet stored in `connection_`
    installed: bool,                // `disconnect_handler_` refers to `disc_fired`
    holder: Option<Who>,            // of `close_mu_`
    main: Phase,
    thread: Phase,
    place: Place,
    calls: map<Call, Callback>,
    late: bool)                     // the handler was called after the thread function returned

  datatype Event =
    | Install                       // set_disconnect_handler at the top of the thread
    | Open(c: Conn)                 // ConnectionOpen
    | Store                         // connection_ = wrap(raw)
    | Leave                         // the loop ends; set_disconnect_handler(nullptr)
    | Lock(w: Who)
    | Take(w: Who)                  // ConnectionShutdown, and connection_.reset() up to ConnectionClose
    | Closed(w: Who)                // ConnectionClose returns
    | Unlock(w: Who)                // the connection thread returns after its last one
    | Enter(k: Call, c: Conn)
    | Copy(k: Call, wanted: bool)   // under state_mu_; `wanted`: first shutdown after a handshake
    | Fire(k: Call)
    | Exit(k: Call)

  function PhaseOf(s: System, w: Who): Phase {
    if w == MainThread then s.main else s.thread
  }

  function SetPhase(s: System, w: Who, p: Phase): System {
    if w == MainThread then s.(main := p) else s.(thread := p)
  }

  predicate InFlight(k: Callback, c: Conn) {
    !k.Gone? && k.conn == c
  }

  predicate Quiet(s: System, c: Conn) {
    forall k | k in s.calls :: !InFlight(s.calls[k], c)
  }

  predicate Enabled(g: Safeguards, s: System, e: Event) {
    match e
    case Install => s.place == Start
    case Open(c) => s.place == Fresh && s.thread == Idle && s.opening == None && c !in s.handles
    case Store => s.opening.Some?
    case Leave => (s.place == Loop || s.place == Fresh) && s.thread == Idle && s.opening == None
    case Lock(w) =>
      && PhaseOf(s, w) == Idle && (g.locks ==> s.holder == None)
      && (w == ConnThread ==> s.opening == None && s.place != Start && s.place != Returned)
    case Take(w) => PhaseOf(s, w) == Locked
    case Closed(w) => PhaseOf(s, w).Waiting? && (g.drains ==> Quiet(s, PhaseOf(s, w).conn))
    case Unlock(w) => PhaseOf(s, w) == Reset
    case Enter(k, c) => k !in s.calls && c in s.handles && s.handles[c] != Dead
    case Copy(k, _) => k in s.calls && s.calls[k].Entered?
    case Fire(k) => k in s.calls && s.calls[k].Copied? && s.calls[k].handler
    case Exit(k) => k in s.calls && s.calls[k].Copied? && !s.calls[k].handler
  }

  const NONE := Safeguards(false, false)

  function Next(s: System, e: Event): System
    requires Enabled(NONE, s, e)
  {
    match e
    case Install => s.(installed := true, place := Loop)
    case Open(c) => s.(handles := s.handles[c := Live], opening := Some(c))
    case Store => s.(connection := s.opening, opening := None, place := Loop)
    case Leave => s.(installed := false, place := Leaving)
    case Lock(w) => SetPhase(s, w, Locked).(holder := Some(w))
    case Take(w) =>
      if s.connection == None then SetPhase(s, w, Reset)
      else SetPhase(s, w, Waiting(s.connection.value)).(
        connection := None, handles := s.handles[s.connection.value := Closing(w)])
    case Closed(w) => SetPhase(s, w, Reset).(handles := s.handles[PhaseOf(s, w).conn := Dead])
    case Unlock(w) =>
      SetPhase(s, w, Idle).(
        holder := None,
        place := if w == MainThread then s.place else if s.place == Leaving then Returned else Fresh)
    case Enter(k, c) => s.(calls := s.calls[k := Entered(c)])
    case Copy(k, wanted) => s.(calls := s.calls[k := Copied(s.calls[k].conn, wanted && s.installed)])
    case Fire(k) => s.(calls := s.calls[k := Copied(s.calls[k].conn, false)], late := s.late || s.place == Returned)
    case Exit(k) => s.(calls := s.calls[k := Gone])
  }

  const INITIAL: System := System(map[], None, None, false, None, Idle, Idle, Start, map[], false)

  /** Some run arrives at `s` after `n` events. */
  ghost predicate Reachable(g: Safeguards, s: System, n: nat)
    decreases n
  {
    if n == 0 then s == INITIAL
    else exists p: System, e: Event :: Reachable(g, p, n - 1) && Enabled(g, p, e) && s == Next(p, e)
  }

  const BOTH := Safeguards(true, true)

  // ---------------------------------------------------------------- what every step keeps

  /** A live handle is owned by `connection_` or by connect; a closing one by the thread that waits for it. */
  predicate HandleOk(s: System, c: Conn, h: Handle) {
    match h
    case Live => s.connection == Some(c) || s.opening == Some(c)
    case Closing(w) => PhaseOf(s, w) == Waiting(c)
    case Dead => true
  }

  predicate CallbackOk(s: System, k: Callback) {
    k.Gone? || (k.conn in s.handles && s.handles[k.conn] != Dead)
  }

  predicate PhaseOk(s: System, w: Who) {
    && (PhaseOf(s, w) == Idle <==> s.holder != Some(w))
    && (PhaseOf(s, w).Waiting? ==>
          PhaseOf(s, w).conn in s.handles && s.handles[PhaseOf(s, w).conn] == Closing(w))
  }

  predicate ThreadOk(s: System) {
    && (s.place == Start ==> s.thread == Idle)
    && (s.opening.Some? ==> s.place == Fresh && s.thread == Idle)
    && (s.place == Fresh && s.thread == Idle ==> s.connection == None)
    && (s.opening.Some? ==> s.opening.value in s.handles && s.handles[s.opening.value] == Live)
    && (s.connection.Some? ==> s.connection.value in s.handles && s.handles[s.connection.value] == Live)
    && (s.thread.Waiting? || s.thread == Reset ==> s.connection == None)
    && (s.place == Returned ==> s.connection == None && s.thread == Idle && !s.main.Waiting?)
  }

  ghost predicate Inv(s: System) {
    && !s.late
    && (s.installed <==> s.place == Loop || s.place == Fresh)
    && PhaseOk(s, MainThread) && PhaseOk(s, ConnThread) && ThreadOk(s)
    && (forall c {:trigger HandleOk(s, c, s.handles[c])} | c in s.handles :: HandleOk(s, c, s.handles[c]))
    && (forall k {:trigger CallbackOk(s, s.calls[k])} | k in s.calls :: CallbackOk(s, s.calls[k]))
  }

  /** Only a closer's own steps and the thread's opening change who answers for a handle. */
  lemma NextKeepsHandles(s: System, e: Event)
    requires Inv(s) && Enabled(BOTH, s, e)
    ensures forall c | c in Next(s, e).handles :: HandleOk(Next(s, e), c, Next(s, e).handles[c])
  {
    var s' := Next(s, e);
    forall c | c in s'.handles
      ensures HandleOk(s', c, s'.handles[c])
    {
      if c in s.handles {
        assert HandleOk(s, c, s.handles[c]);
      }
    }
  }

  lemma NextKeepsCallbacks(s: System, e: Event)
    requires Inv(s) && Enabled(BOTH, s, e)
    ensures forall k | k in Next(s, e).calls :: CallbackOk(Next(s, e), Next(s, e).calls[k])
  {
    var s' := Next(s, e);
    forall k | k in s'.calls
      ensures CallbackOk(s', s'.calls[k])
    {
      if k in s.calls {
        assert CallbackOk(s, s.calls[k]);
      }
    }
  }

  /** Once the thread function has returned every handle is closed, so no callback is in flight. */
  lemma AllOver(s: System)
    requires Inv(s) && s.place == Returned
    ensures forall c | c in s.handles :: s.handles[c] == Dead
    ensures forall k | k in s.calls :: s.calls[k].Gone?
  {
    assert forall c | c in s.handles :: HandleOk(s, c, s.handles[c]);
    assert forall k | k in s.calls :: CallbackOk(s, s.calls[k]);
  }

  lemma NextKeepsInv(s: System, e: Event)
    requires Inv(s) && Enabled(BOTH, s, e)
    ensures Inv(Next(s, e))
  {
    NextKeepsHandles(s, e);
    NextKeepsCallbacks(s, e);
    if s.place == Returned {
      AllOver(s);
    }
  }

  /**
    Over every run with both safeguards the handler is never called after the thread function
    returned, not even by a callback that copied it before it was cleared; and from then on every
    connection is closed and every callback is over.
   */
  lemma {:induction false} EveryRun(s: System, n: nat)
    requires Reachable(BOTH, s, n)
    decreases n
    ensures Inv(s) && !s.late
    ensures s.place == Returned ==> forall k | k in s.calls :: s.calls[k].Gone?
    ensures s.place == Returned ==> forall c | c in s.handles :: s.handles[c] == Dead
  {
    if n > 0 {
      var p, e :| Reachable(BOTH, p, n - 1) && Enabled(BOTH, p, e) && s == Next(p, e);
      EveryRun(p, n - 1);
      NextKeepsInv(p, e);
    }
    if s.place == Returned {
      AllOver(s);
    }
  }

  /** A callback takes the handler along exactly while the thread is in its loop, and then it must call it. */
  lemma CopiedInTheLoop(s: System, n: nat, k: Call, wanted: bool)
    requires Reachable(BOTH, s, n) && Enabled(BOTH, s, Copy(k, wanted))
    ensures var s' := Next(s, Copy(k, wanted));
            && (Enabled(BOTH, s', Fire(k)) <==> wanted && (s.place == Loop || s.place == Fresh))
            && (Enabled(BOTH, s', Exit(k)) <==> !Enabled(BOTH, s', Fire(k)))
  {
    EveryRun(s, n);
  }

  // ---------------------------------------------------------------- both safeguards are needed

  lemma Step(g: Safeguards, s: System, n: nat, e: Event) returns (t: System, m: nat)
    requires Reachable(g, s, n) && Enabled(g, s, e)
    ensures t == Next(s, e) && Reachable(g, t, m)
  {
    t, m := Next(s, e), n + 1;
  }

  /** The thread has installed its handler and made its first `close`. */
  lemma FirstClose(g: Safeguards) returns (s: System, n: nat)
    ensures Reachable(g, s, n)
    ensures s == System(map[], None, None, true, None, Idle, Idle, Fresh, map[], false)
  {
    s, n := Step(g, INITIAL, 0, Install);
    s, n := Step(g, s, n, Lock(ConnThread));
    s, n := Step(g, s, n, Take(ConnThread));
    s, n := Step(g, s, n, Unlock(ConnThread));
  }

  /** One connection is opened and stored, and a callback on it has copied the handler. */
  lemma HandlerCopied(g: Safeguards) returns (s: System, n: nat)
    ensures Reachable(g, s, n)
    ensures s == System(map[0 := Live], Some(0), None, true, None, Idle, Idle, Loop, map[0 := Copied(0, true)], false)
  {
    s, n := FirstClose(g);
    s, n := Step(g, s, n, Open(0));
    s, n := Step(g, s, n, Store);
    s, n := Step(g, s, n, Enter(0, 0));
    s, n := Step(g, s, n, Copy(0, true));
  }

  /** A ConnectionClose that does not wait lets the thread return under the callback. */
  lemma LateWithoutDraining(g: Safeguards) returns (s: System, n: nat)
    requires !g.drains
    ensures s.late && Reachable(g, s, n)
  {
    s, n := HandlerCopied(g);
    s, n := Step(g, s, n, Leave);
    s, n := Step(g, s, n, Lock(ConnThread));
    s, n := Step(g, s, n, Take(ConnThread));
    s, n := Step(g, s, n, Closed(ConnThread));
    s, n := Step(g, s, n, Unlock(ConnThread));
    s, n := Step(g, s, n, Fire(0));
  }

  /** Without `close_mu_` the thread finds the handle already taken by main, and returns under the callback. */
  lemma LateWithoutMutex(g: Safeguards) returns (s: System, n: nat)
    requires !g.locks
    ensures s.late && Reachable(g, s, n)
  {
    s, n := HandlerCopied(g);
    s, n := Step(g, s, n, Lock(MainThread));
    s, n := Step(g, s, n, Take(MainThread));
    s, n := Step(g, s, n, Leave);
    s, n := Step(g, s, n, Lock(ConnThread));
    s, n := Step(g, s, n, Take(ConnThread));
    s, n := Step(g, s, n, Unlock(ConnThread));
    s, n := Step(g, s, n, Fire(0));
  }

  /** A late call is possible exactly when a safeguard is missing. */
  lemma LateExactlyWithoutASafeguard(g: Safeguards)
    ensures (exists s, n: nat :: Reachable(g, s, n) && s.late) <==> !(g.locks && g.drains)
  {
    if g == BOTH {
      forall s, n: nat | Reachable(g, s, n)
        ensures !s.late
      {
        EveryRun(s, n);
      }
    } else if !g.drains {
      var s, n := LateWithoutDraining(g);
      assert Reachable(g, s, n) && s.late;
    } else {
      var s, n := LateWithoutMutex(g);
      assert Reachable(g, s, n) && s.late;
    }
  }
}
