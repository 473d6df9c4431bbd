/**
  Calls on a client's connection from other threads. `send_packet` on the router's thread and
  `register_connection` on the worker read `connection_` without the client's cooperation and call
  msquic with what they read, while the client's own calls go on as in `QuicHandles`. Such a call can
  come too late; the theorem says exactly when.
 */
module ConnectionUse {
  import opened Wrappers
  import H = QuicHandles

  type UserId = nat

  /** A user of a connection: past the guard `if (!connection_) return`, then past `connection_.get()`. */
  datatype Use = Away | Checked(c: H.ClientId) | Got(c: H.ClientId, handle: Option<H.Handle>)

  /** `late`: some call was made on no handle or on a dead one. */
  datatype World = World(sys: H.System, uses: map<UserId, Use>, late: bool)

  datatype Event =
    | Own(e: H.Event)                     // the clients' own calls
    | Check(u: UserId, c: H.ClientId)
    | Get(u: UserId)
    | Invoke(u: UserId)                   // DatagramSend or StreamOpen

  predicate Enabled(w: World, e: Event) {
    match e
    case Own(own) => H.Enabled(w.sys, own)
    case Check(u, c) =>
      u in w.uses && w.uses[u] == Away && c in w.sys.clients && w.sys.clients[c].connection.Some?
    case Get(u) => u in w.uses && w.uses[u].Checked? && w.uses[u].c in w.sys.clients
    case Invoke(u) => u in w.uses && w.uses[u].Got?
  }

  /** msquic is there and the handle is one that is open. */
  predicate Proper(l: H.Lib, handle: Option<H.Handle>) {
    l.table && handle.Some? && handle.value in l.live
  }

  function Next(w: World, e: Event): World
    requires Enabled(w, e)
  {
    match e
    case Own(own) => w.(sys := H.Next(w.sys, own))
    case Check(u, c) => w.(uses := w.uses[u := Checked(c)])
    case Get(u) => w.(uses := w.uses[u := Got(w.uses[u].c, w.sys.clients[w.uses[u].c].connection)])
    case Invoke(u) => w.(uses := w.uses[u := Away], late := w.late || !Proper(w.sys.lib, w.uses[u].handle))
  }

  ghost predicate Run(ww: seq<World>, es: seq<Event>) {
    && |ww| == |es| + 1 && H.Init(ww[0].sys) && !ww[0].late
    && (forall u | u in ww[0].uses :: ww[0].uses[u] == Away)
    && forall i {:trigger ww[i], es[i]} | 0 <= i < |es| :: Enabled(ww[i], es[i]) && ww[i + 1] == Next(ww[i], es[i])
  }

  // ---------------------------------------------------------------- when a handle dies

  lemma {:induction false} OwnCallsStayProper(ww: seq<World>, es: seq<Event>, i: nat)
    requires Run(ww, es) && i < |ww|
    ensures H.Inv(ww[i].sys)
  {
    if i == 0 {
      assert H.Holders(ww[0].sys.clients) == {};
    } else {
      OwnCallsStayProper(ww, es, i - 1);
      var w, e := ww[i - 1], es[i - 1];
      assert ww[i] == Next(w, e);
      if e.Own? {
        H.NextKeepsInv(w.sys, e.e);
      }
    }
  }

  /** The step of `close` that closes the connection of `c`. */
  predicate Closes(w: World, e: Event, c: H.ClientId) {
    && e == Own(H.Turn(c)) && c in w.sys.todo && w.sys.todo[c] != []
    && w.sys.todo[c][0] == H.Reset(H.Connection)
  }

  /** Until then the field keeps its handle: `connect` never replaces a connection. */
  lemma FieldStays(w: World, e: Event, c: H.ClientId)
    requires H.Inv(w.sys) && Enabled(w, e) && c in w.sys.clients && w.sys.clients[c].connection.Some?
    requires !Closes(w, e, c)
    ensures c in Next(w, e).sys.clients && Next(w, e).sys.clients[c].connection == w.sys.clients[c].connection
  {
    if e == Own(H.Turn(c)) {
      assert H.Safe(H.HoldsOf(w.sys.clients[c]), w.sys.todo[c]);
    }
  }

  lemma FieldIsProper(s: H.System, c: H.ClientId)
    requires H.Inv(s) && c in s.clients && s.clients[c].connection.Some?
    ensures Proper(s.lib, s.clients[c].connection) && s.clients[c].connection.value < s.lib.next
  {
    assert H.FieldHeld(s.lib, s.clients, c, H.Connection);
    H.HolderIsCounted(s.lib, s.clients, c);
  }

  /** The handle is dead from then on. */
  predicate IsDead(l: H.Lib, h: H.Handle) {
    h < l.next && h !in l.live
  }

  lemma ClosingKills(w: World, e: Event, c: H.ClientId)
    requires H.Inv(w.sys) && Enabled(w, e) && Closes(w, e, c)
    requires c in w.sys.clients && w.sys.clients[c].connection.Some?
    ensures IsDead(Next(w, e).sys.lib, w.sys.clients[c].connection.value)
  {
    FieldIsProper(w.sys, c);
  }

  lemma DoLeavesDead(l: H.Lib, me: H.Client, c: H.ClientId, op: H.Op, h: H.Handle)
    requires IsDead(l, h)
    ensures IsDead(H.Do(l, me, c, op).lib, h)
  {
  }

  lemma DeadStays(w: World, e: Event, h: H.Handle)
    requires Enabled(w, e) && IsDead(w.sys.lib, h)
    ensures IsDead(Next(w, e).sys.lib, h)
  {
    if e.Own? && e.e.Turn? {
      var c := e.e.c;
      DoLeavesDead(w.sys.lib, w.sys.clients[c], c, w.sys.todo[c][0], h);
    }
  }

  // ---------------------------------------------------------------- exactly when a call is late

  predicate Moves(e: Event, u: UserId) {
    !e.Own? && e.u == u
  }

  /** Some event from `g` on, before `j`, closes the connection of `c`. */
  ghost predicate ClosedBetween(ww: seq<World>, es: seq<Event>, g: nat, j: nat, c: H.ClientId)
    requires j <= |es| <= |ww|
  {
    exists k: nat :: g < k < j && Closes(ww[k], es[k], c)
  }

  lemma OneMoreEvent(ww: seq<World>, es: seq<Event>, g: nat, j: nat, c: H.ClientId)
    requires g < j < |es| < |ww|
    ensures ClosedBetween(ww, es, g, j + 1, c) <==> ClosedBetween(ww, es, g, j, c) || Closes(ww[j], es[j], c)
  {
  }

  /** User `u` still has the handle `h` of client `c`, which is dead if it was closed and in its field if not. */
  predicate Since(w: World, u: UserId, c: H.ClientId, h: H.Handle, closed: bool) {
    && u in w.uses && w.uses[u] == Got(c, Some(h)) && c in w.sys.clients
    && if closed then IsDead(w.sys.lib, h) else w.sys.clients[c].connection == Some(h)
  }

  lemma SinceStep(w: World, e: Event, u: UserId, c: H.ClientId, h: H.Handle, closed: bool)
    requires H.Inv(w.sys) && Enabled(w, e) && !Moves(e, u) && Since(w, u, c, h, closed)
    ensures Since(Next(w, e), u, c, h, closed || Closes(w, e, c))
  {
    if closed {
      DeadStays(w, e, h);
    } else if Closes(w, e, c) {
      ClosingKills(w, e, c);
    } else {
      FieldStays(w, e, c);
    }
  }

  lemma GetSince(ww: seq<World>, es: seq<Event>, g: nat, u: UserId, c: H.ClientId, h: H.Handle)
    requires Run(ww, es) && g < |es| && es[g] == Get(u) && Enabled(ww[g], es[g]) && ww[g].uses[u].c == c
    requires ww[g].sys.clients[c].connection == Some(h)
    ensures Since(ww[g + 1], u, c, h, false)
  {
    assert ww[g + 1] == Next(ww[g], es[g]);
  }

  lemma SinceNext(ww: seq<World>, es: seq<Event>, j: nat, u: UserId, c: H.ClientId, h: H.Handle, closed: bool)
    requires Run(ww, es) && j < |es| && Since(ww[j], u, c, h, closed) && !Moves(es[j], u)
    ensures Since(ww[j + 1], u, c, h, closed || Closes(ww[j], es[j], c))
  {
    assert ww[j + 1] == Next(ww[j], es[j]) && Enabled(ww[j], es[j]);
    OwnCallsStayProper(ww, es, j);
    SinceStep(ww[j], es[j], u, c, h, closed);
  }

  /** What has become of the handle that user `u` read at event `g`. */
  lemma {:induction false} HandleSince(ww: seq<World>, es: seq<Event>, g: nat, j: nat, u: UserId, c: H.ClientId, h: H.Handle)
    requires Run(ww, es) && g < j < |ww| && es[g] == Get(u) && Enabled(ww[g], es[g]) && ww[g].uses[u].c == c
    requires ww[g].sys.clients[c].connection == Some(h)
    requires forall k | g < k < j :: !Moves(es[k], u)
    ensures Since(ww[j], u, c, h, ClosedBetween(ww, es, g, j, c))
    decreases j
  {
    if j == g + 1 {
      GetSince(ww, es, g, u, c, h);
    } else {
      HandleSince(ww, es, g, j - 1, u, c, h);
      var closed := ClosedBetween(ww, es, g, j - 1, c);
      OneMoreEvent(ww, es, g, j - 1, c);
      SinceNext(ww, es, j - 1, u, c, h, closed);
    }
  }

  /**
    A call from another thread is late exactly when `connection_` was already empty as its handle was
    read, or a `close` of that client has closed the connection since. Without either it is on an open
    handle, with the API table there, whatever else any thread does.
   */
  lemma LateExactlyIfClosed(ww: seq<World>, es: seq<Event>, g: nat, j: nat, u: UserId)
    requires Run(ww, es) && g < j < |es| && es[g] == Get(u) && es[j] == Invoke(u)
    requires forall k | g < k < j :: !Moves(es[k], u)
    ensures u in ww[g].uses && ww[g].uses[u].Checked? && ww[g].uses[u].c in ww[g].sys.clients
    ensures u in ww[j].uses && ww[j].uses[u].Got?
    ensures var c := ww[g].uses[u].c;
            !Proper(ww[j].sys.lib, ww[j].uses[u].handle)
            <==> ww[g].sys.clients[c].connection.None? || ClosedBetween(ww, es, g, j, c)
  {
    assert Enabled(ww[g], es[g]) && Enabled(ww[j], es[j]);
    var c := ww[g].uses[u].c;
    if ww[g].sys.clients[c].connection.Some? {
      HandleSince(ww, es, g, j, u, c, ww[g].sys.clients[c].connection.value);
      OwnCallsStayProper(ww, es, j);
      if !ClosedBetween(ww, es, g, j, c) {
        FieldIsProper(ww[j].sys, c);
      }
    } else {
      NothingRead(ww, es, g, j, u);
    }
  }

  lemma {:induction false} NothingRead(ww: seq<World>, es: seq<Event>, g: nat, j: nat, u: UserId)
    requires Run(ww, es) && g < j < |ww| && es[g] == Get(u) && Enabled(ww[g], es[g])
    requires ww[g].sys.clients[ww[g].uses[u].c].connection == None
    requires forall k | g < k < j :: !Moves(es[k], u)
    ensures u in ww[j].uses && ww[j].uses[u] == Got(ww[g].uses[u].c, None)
    decreases j
  {
    assert ww[j] == Next(ww[j - 1], es[j - 1]);
    if j > g + 1 {
      NothingRead(ww, es, g, j - 1, u);
      assert !Moves(es[j - 1], u);
    }
  }

  // ---------------------------------------------------------------- it does happen

  lemma Extend(ww: seq<World>, es: seq<Event>, e: Event) returns (xx: seq<World>, fs: seq<Event>)
    requires Run(ww, es) && Enabled(ww[|es|], e)
    ensures Run(xx, fs) && xx[|fs|] == Next(ww[|es|], e)
  {
    xx, fs := ww + [Next(ww[|es|], e)], es + [e];
    forall i | 0 <= i < |fs|
      ensures Enabled(xx[i], fs[i]) && xx[i + 1] == Next(xx[i], fs[i])
    {
      if i < |es| {
        assert Enabled(ww[i], es[i]);
      }
    }
  }

  /** Any idle user can be made late for a connected, idle client: it reads the handle, and then `close` runs. */
  lemma LateCall(ww: seq<World>, es: seq<Event>, u: UserId, c: H.ClientId) returns (xx: seq<World>, fs: seq<Event>)
    requires Run(ww, es) && u in ww[|es|].uses && ww[|es|].uses[u] == Away
    requires c in ww[|es|].sys.clients && ww[|es|].sys.clients[c].connection.Some?
    requires c in ww[|es|].sys.todo && ww[|es|].sys.todo[c] == []
    ensures Run(xx, fs) && xx[|fs|].late
  {
    var h := ww[|es|].sys.clients[c].connection.value;
    xx, fs := Extend(ww, es, Check(u, c));
    xx, fs := Extend(xx, fs, Get(u));
    xx, fs := Extend(xx, fs, Own(H.CloseOnly(c)));
    assert Since(xx[|fs|], u, c, h, false) && xx[|fs|].sys.todo[c] == H.CLOSE;
    xx, fs := ShutdownAndReset(xx, fs, u, c, h);
    xx, fs := Extend(xx, fs, Invoke(u));
  }

  /** One step of the client's own call, while a user has its handle. */
  lemma TurnSince(ww: seq<World>, es: seq<Event>, u: UserId, c: H.ClientId, h: H.Handle)
    returns (xx: seq<World>, fs: seq<Event>)
    requires Run(ww, es) && Enabled(ww[|es|], Own(H.Turn(c))) && Since(ww[|es|], u, c, h, false)
    ensures Run(xx, fs) && xx[|fs|] == Next(ww[|es|], Own(H.Turn(c)))
    ensures Since(xx[|fs|], u, c, h, Closes(ww[|es|], Own(H.Turn(c)), c))
  {
    OwnCallsStayProper(ww, es, |es|);
    SinceStep(ww[|es|], Own(H.Turn(c)), u, c, h, false);
    xx, fs := Extend(ww, es, Own(H.Turn(c)));
  }

  /** The first two steps of `close`. */
  lemma ShutdownAndReset(ww: seq<World>, es: seq<Event>, u: UserId, c: H.ClientId, h: H.Handle)
    returns (xx: seq<World>, fs: seq<Event>)
    requires Run(ww, es) && Since(ww[|es|], u, c, h, false)
    requires c in ww[|es|].sys.todo && ww[|es|].sys.todo[c] == H.CLOSE
    ensures Run(xx, fs) && Since(xx[|fs|], u, c, h, true)
  {
    xx, fs := TurnSince(ww, es, u, c, h);
    assert xx[|fs|].sys.todo[c] == H.CLOSE[1..];
    xx, fs := TurnSince(xx, fs, u, c, h);
  }

  /** A client's call, run to its end with nothing in between. */
  lemma {:induction false} CallRuns(ww: seq<World>, es: seq<Event>, c: H.ClientId) returns (xx: seq<World>, fs: seq<Event>)
    requires Run(ww, es) && c in ww[|es|].sys.clients && c in ww[|es|].sys.todo
    ensures Run(xx, fs)
    ensures var s := ww[|es|].sys;
            var o := H.Exec(s.lib, s.clients[c], c, s.todo[c]);
            xx[|fs|] == ww[|es|].(sys := H.System(o.lib, s.clients[c := o.me], s.todo[c := []]))
    decreases |ww[|es|].sys.todo[c]|
  {
    var s := ww[|es|].sys;
    if s.todo[c] == [] {
      xx, fs := ww, es;
      assert s.clients[c := s.clients[c]] == s.clients && s.todo[c := []] == s.todo;
    } else {
      xx, fs := Extend(ww, es, Own(H.Turn(c)));
      var t := xx[|fs|].sys;
      xx, fs := CallRuns(xx, fs, c);
      var o := H.Exec(t.lib, t.clients[c], c, t.todo[c]);
      assert t.clients[c := o.me] == s.clients[c := o.me] && t.todo[c := []] == s.todo[c := []];
    }
  }

  lemma CloseOfNothing(c: H.ClientId)
    ensures H.Exec(H.EMPTY, H.FRESH, c, H.CLOSE) == H.Outcome(H.EMPTY, H.FRESH, true)
  {
    assert H.CLOSE[1..][1..] == [H.Reset(H.Configuration), H.Reset(H.Registration)];
    assert [H.Reset(H.Configuration), H.Reset(H.Registration)][1..] == [H.Reset(H.Registration)];
  }

  /** From the very start: one client connects, and a call on its connection is late. */
  lemma LateCallHappens() returns (ww: seq<World>, es: seq<Event>)
    ensures Run(ww, es) && ww[|es|].late
  {
    var all := H.Env(true, true, true, true, true, true, true);
    ww, es := [World(H.System(H.EMPTY, map[0 := H.FRESH], map[0 := []]), map[0 := Away], false)], [];
    ww, es := Extend(ww, es, Own(H.Cycle(0, all)));
    ww, es := CallRuns(ww, es, 0);
    H.ExecAppend(H.EMPTY, H.FRESH, 0, H.CLOSE, H.ConnectOps(all));
    CloseOfNothing(0);
    H.FirstConnect(0, all);
    assert H.HoldsOf(ww[|es|].sys.clients[0]).conn;
    ww, es := LateCall(ww, es, 0, 0);
  }
}
