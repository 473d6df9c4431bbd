/**
  The reference-counted msquic API table and the three nested handles of each client. Any number of
  clients interleave at the granularity of single msquic calls, and every call that can fail may
  fail. `Lib.fault` records any use of msquic that its contract forbids: a call without the table, a
  call on a dead handle, a close out of order, or MsQuicClose with handles still open.
 */
module QuicHandles {
  import opened Wrappers

  type Handle = nat
  type ClientId = nat

  datatype Kind = Registration | Configuration | Connection

  /** A handle, the client that opened it, and the handles that must outlive it. */
  datatype Info = Info(kind: Kind, owner: ClientId, deps: set<Handle>)

  // ---------------------------------------------------------------- msquic and the API table

  datatype Lib = Lib(
    refcount: int,
    table: bool,                  // g_msquic is not null
    live: map<Handle, Info>,
    history: map<Handle, Info>,   // every handle ever opened
    closed: seq<Handle>,          // closes, in order
    next: Handle,
    fault: bool)

  /** A call through the table that uses the given handles. */
  function Call(l: Lib, handles: set<Handle>): Lib {
    l.(fault := l.fault || !l.table || !(handles <= l.live.Keys))
  }

  function Open(l: Lib, i: Info): Lib {
    Call(l, i.deps).(live := l.live[l.next := i], history := l.history[l.next := i], next := l.next + 1)
  }

  /** No live handle depends on `h`. */
  predicate Childless(l: Lib, h: Handle) {
    forall k | k in l.live :: h !in l.live[k].deps
  }

  function Close(l: Lib, h: Handle, kind: Kind): Lib {
    Call(l, {h}).(live := l.live - {h}, closed := l.closed + [h],
                  fault := Call(l, {h}).fault || !Childless(l, h) || (h in l.live && l.live[h].kind != kind))
  }

  /** `HandleDeleter`: nothing for a null handle, nothing without the table. */
  function Deleter(l: Lib, h: Option<Handle>, kind: Kind): Lib {
    if h.None? || !l.table then l else Close(l, h.value, kind)
  }

  /** `api_table_init`; `ok` is the outcome of MsQuicOpen2, should it be called. */
  function ApiTableInit(l: Lib, ok: bool): (r: (Lib, bool)) {
    if l.refcount == 0 then
      if ok then (l.(refcount := 1, table := true), true) else (l, false)
    else (l.(refcount := l.refcount + 1), true)
  }

  /** `api_table_release`. */
  function ApiTableRelease(l: Lib): Lib {
    if l.refcount == 1
    then Call(l, {}).(refcount := 0, table := false, fault := Call(l, {}).fault || l.live != map[])
    else l.(refcount := l.refcount - 1)
  }

  // ---------------------------------------------------------------- one client

  datatype Client = Client(
    apiHeld: bool,
    registration: Option<Handle>,
    configuration: Option<Handle>,
    connection: Option<Handle>)

  const FRESH := Client(false, None, None, None)

  function Field(me: Client, k: Kind): Option<Handle> {
    match k
    case Registration => me.registration
    case Configuration => me.configuration
    case Connection => me.connection
  }

  function SetField(me: Client, k: Kind, h: Option<Handle>): Client {
    match k
    case Registration => me.(registration := h)
    case Configuration => me.(configuration := h)
    case Connection => me.(connection := h)
  }

  /** The msquic-visible steps of the client's methods, with the outcome of each fallible call. */
  datatype Op =
    | InitApi(ok: bool)
    | OpenRegistration(ok: bool)
    | OpenConfiguration(ok: bool)
    | LoadCredential(ok: bool)
    | OpenConnection(ok: bool)
    | Resolve(ok: bool)
    | SetRemote
    | Start(ok: bool)
    | Shutdown
    | Reset(kind: Kind)
    | ReleaseApi

  /** The outcomes met by one call of `connect`. */
  datatype Env = Env(
    api: bool, registration: bool, configuration: bool, credential: bool, connection: bool, dns: bool, start: bool)

  function ConnectOps(e: Env): seq<Op> {
    [InitApi(e.api), OpenRegistration(e.registration), OpenConfiguration(e.configuration), LoadCredential(e.credential),
     OpenConnection(e.connection), Resolve(e.dns), SetRemote, Start(e.start)]
  }

  const CLOSE: seq<Op> := [Shutdown, Reset(Connection), Reset(Configuration), Reset(Registration)]

  const DESTROY: seq<Op> := CLOSE + [ReleaseApi]

  function Set(h: Option<Handle>): set<Handle> {
    if h.Some? then {h.value} else {}
  }

  /** What a step leaves; `go` is false when the method returns early. */
  datatype Outcome = Outcome(lib: Lib, me: Client, go: bool)

  /** Assigning a freshly opened handle to its `UniqueHandle`, which deletes the previous one. */
  function OpenInto(l: Lib, me: Client, c: ClientId, k: Kind, deps: set<Handle>, ok: bool): Outcome {
    if ok
    then Outcome(Deleter(Open(l, Info(k, c, deps)), Field(me, k), k), SetField(me, k, Some(l.next)), true)
    else Outcome(Call(l, deps), me, false)
  }

  function Do(l: Lib, me: Client, c: ClientId, op: Op): Outcome {
    match op
    case InitApi(ok) =>
      if me.apiHeld then Outcome(l, me, true)
      else var (l', held) := ApiTableInit(l, ok); Outcome(l', me.(apiHeld := held), held)
    case OpenRegistration(ok) => OpenInto(l, me, c, Registration, {}, ok)
    case OpenConfiguration(ok) => OpenInto(l, me, c, Configuration, Set(me.registration), ok)
    case LoadCredential(ok) => Outcome(Call(l, Set(me.configuration)), me, ok)
    case OpenConnection(ok) => OpenInto(l, me, c, Connection, Set(me.registration) + Set(me.configuration), ok)
    case Resolve(ok) => Outcome(l, me, ok)
    case SetRemote => Outcome(Call(l, Set(me.connection)), me, true)
    case Start(ok) => Outcome(Call(l, Set(me.connection) + Set(me.configuration)), me, ok)
    case Shutdown => Outcome(if me.connection.Some? then Call(l, Set(me.connection)) else l, me, true)
    case Reset(k) => Outcome(Deleter(l, Field(me, k), k), SetField(me, k, None), true)
    case ReleaseApi => Outcome(if me.apiHeld then ApiTableRelease(l) else l, me.(apiHeld := false), true)
  }

  // ---------------------------------------------------------------- many clients

  datatype System = System(lib: Lib, clients: map<ClientId, Client>, todo: map<ClientId, seq<Op>>)

  datatype Event =
    | Cycle(c: ClientId, env: Env)  // the supervisor's close() followed by connect()
    | CloseOnly(c: ClientId)
    | Destroy(c: ClientId)
    | Turn(c: ClientId)             // the next msquic-visible step of the client's current call

  predicate Enabled(s: System, e: Event) {
    e.c in s.clients && e.c in s.todo && (e.Turn? <==> s.todo[e.c] != [])
  }

  function Next(s: System, e: Event): System
    requires Enabled(s, e)
  {
    match e
    case Cycle(c, env) => s.(todo := s.todo[c := CLOSE + ConnectOps(env)])
    case CloseOnly(c) => s.(todo := s.todo[c := CLOSE])
    case Destroy(c) => s.(todo := s.todo[c := DESTROY])
    case Turn(c) =>
      var o := Do(s.lib, s.clients[c], c, s.todo[c][0]);
      System(o.lib, s.clients[c := o.me], s.todo[c := if o.go then s.todo[c][1..] else []])
  }

  ghost predicate Init(s: System) {
    && s.lib == Lib(0, false, map[], map[], [], 0, false)
    && s.clients.Keys == s.todo.Keys
    && (forall c | c in s.clients :: s.clients[c] == FRESH && s.todo[c] == [])
  }

  ghost predicate Run(ss: seq<System>, es: seq<Event>) {
    |ss| == |es| + 1 && Init(ss[0])
    && forall i | 0 <= i < |es| :: Enabled(ss[i], es[i]) && ss[i + 1] == Next(ss[i], es[i])
  }

  // ---------------------------------------------------------------- which programs are safe

  /** Which of its four resources a client holds. */
  datatype Holds = Holds(api: bool, reg: bool, cfg: bool, conn: bool)

  function HoldsOf(me: Client): Holds {
    Holds(me.apiHeld, me.registration.Some?, me.configuration.Some?, me.connection.Some?)
  }

  /** A step's demand on what is held, and its effect when it succeeds. */
  predicate Allowed(x: Holds, op: Op) {
    match op
    case InitApi(_) => true
    case OpenRegistration(_) => x.api && !x.reg && !x.cfg && !x.conn
    case OpenConfiguration(_) => x.api && x.reg && !x.cfg && !x.conn
    case LoadCredential(_) => x.api && x.cfg
    case OpenConnection(_) => x.api && x.reg && x.cfg && !x.conn
    case Resolve(_) => true
    case SetRemote => x.api && x.conn
    case Start(_) => x.api && x.conn && x.cfg
    case Shutdown => true
    case Reset(k) => (k == Configuration ==> !x.conn) && (k == Registration ==> !x.conn && !x.cfg)
    case ReleaseApi => !x.reg && !x.cfg && !x.conn
  }

  function Effect(x: Holds, op: Op): Holds {
    match op
    case InitApi(_) => x.(api := true)
    case OpenRegistration(_) => x.(reg := true)
    case OpenConfiguration(_) => x.(cfg := true)
    case OpenConnection(_) => x.(conn := true)
    case Reset(Registration) => x.(reg := false)
    case Reset(Configuration) => x.(cfg := false)
    case Reset(Connection) => x.(conn := false)
    case ReleaseApi => x.(api := false)
    case _ => x
  }

  function OpenOp(k: Kind): Op {
    match k
    case Registration => OpenRegistration(true)
    case Configuration => OpenConfiguration(true)
    case Connection => OpenConnection(true)
  }

  predicate Safe(x: Holds, ops: seq<Op>)
    decreases |ops|
  {
    ops == [] || (Allowed(x, ops[0]) && Safe(Effect(x, ops[0]), ops[1..]))
  }

  // ---------------------------------------------------------------- the invariant

  ghost function Holders(clients: map<ClientId, Client>): set<ClientId> {
    set c | c in clients && clients[c].apiHeld
  }

  /** What a handle of kind `k` depends on. */
  function DepsOf(me: Client, k: Kind): set<Handle> {
    match k
    case Registration => {}
    case Configuration => Set(me.registration)
    case Connection => Set(me.registration) + Set(me.configuration)
  }

  /** A connection implies a configuration, which implies a registration. */
  predicate Nested(me: Client) {
    (me.connection.Some? ==> me.configuration.Some?) && (me.configuration.Some? ==> me.registration.Some?)
  }

  /** The API table is there exactly while some client holds it. */
  ghost predicate Counted(l: Lib, clients: map<ClientId, Client>) {
    l.refcount == |Holders(clients)| && (l.table <==> l.refcount > 0)
  }

  ghost predicate HandleHeld(l: Lib, clients: map<ClientId, Client>, h: Handle)
    requires h in l.live
  {
    var i := l.live[h];
    i.owner in clients && Field(clients[i.owner], i.kind) == Some(h) && i.deps == DepsOf(clients[i.owner], i.kind)
  }

  ghost predicate FieldHeld(l: Lib, clients: map<ClientId, Client>, c: ClientId, k: Kind)
    requires c in clients
  {
    match Field(clients[c], k)
    case None => true
    case Some(h) => clients[c].apiHeld && h in l.live && l.live[h].kind == k && l.live[h].owner == c
  }

  /** The live handles are exactly those in the clients' fields, each in one field. */
  ghost predicate Held(l: Lib, clients: map<ClientId, Client>) {
    && (forall c | c in clients :: Nested(clients[c]))
    && (forall h | h in l.live :: HandleHeld(l, clients, h))
    && (forall c, k | c in clients :: FieldHeld(l, clients, c, k))
  }

  /** Every handle ever opened is either live or closed, and was closed at most once, dependants first. */
  ghost predicate Accounted(l: Lib) {
    && (forall h: Handle :: h in l.history <==> h < l.next)
    && (forall h: Handle :: h in l.history <==> h in l.live || h in l.closed)
    && (forall h | h in l.live :: h !in l.closed && l.history[h] == l.live[h])
    && (forall h | h in l.live :: l.live[h].deps <= l.live.Keys)
    && (forall i, j | 0 <= i < j < |l.closed| :: l.closed[i] != l.closed[j])
    && (forall i, j | 0 <= i < j < |l.closed| && l.closed[j] in l.history :: l.closed[i] !in l.history[l.closed[j]].deps)
  }

  ghost predicate Good(l: Lib, clients: map<ClientId, Client>) {
    !l.fault && Counted(l, clients) && Held(l, clients) && Accounted(l)
  }

  ghost predicate Inv(s: System) {
    && Good(s.lib, s.clients) && s.clients.Keys == s.todo.Keys
    && (forall c | c in s.clients :: Safe(HoldsOf(s.clients[c]), s.todo[c]))
  }

  lemma SameHolders(clients: map<ClientId, Client>, c: ClientId, me: Client)
    requires c in clients && me.apiHeld == clients[c].apiHeld
    ensures Holders(clients[c := me]) == Holders(clients)
  {
  }

  lemma HolderIsCounted(l: Lib, clients: map<ClientId, Client>, c: ClientId)
    requires Counted(l, clients) && c in clients && clients[c].apiHeld
    ensures l.table
  {
    assert c in Holders(clients);
    if |Holders(clients)| == 0 {
      assert false;
    }
  }

  lemma OpenKeeps(l: Lib, clients: map<ClientId, Client>, c: ClientId, k: Kind, deps: set<Handle>)
    requires Good(l, clients) && c in clients && clients[c].apiHeld && Field(clients[c], k).None?
    requires deps == DepsOf(clients[c], k)
    requires Allowed(HoldsOf(clients[c]), OpenOp(k))
    ensures Good(Open(l, Info(k, c, deps)), clients[c := SetField(clients[c], k, Some(l.next))])
  {
    HolderIsCounted(l, clients, c);
    SameHolders(clients, c, SetField(clients[c], k, Some(l.next)));
    DepsAreLive(l, clients, c, k);
    OpenStaysHeld(l, clients, c, k);
    OpenStaysAccounted(l, Info(k, c, deps));
  }

  lemma DepsAreLive(l: Lib, clients: map<ClientId, Client>, c: ClientId, k: Kind)
    requires Held(l, clients) && c in clients
    ensures DepsOf(clients[c], k) <= l.live.Keys
  {
    assert FieldHeld(l, clients, c, Registration) && FieldHeld(l, clients, c, Configuration);
  }

  lemma OpenStaysHeld(l: Lib, clients: map<ClientId, Client>, c: ClientId, k: Kind)
    requires Held(l, clients) && l.next !in l.live && c in clients && clients[c].apiHeld && Field(clients[c], k).None?
    requires Allowed(HoldsOf(clients[c]), OpenOp(k))
    ensures Held(Open(l, Info(k, c, DepsOf(clients[c], k))), clients[c := SetField(clients[c], k, Some(l.next))])
  {
    var me' := SetField(clients[c], k, Some(l.next));
    var l' := Open(l, Info(k, c, DepsOf(clients[c], k)));
    var clients' := clients[c := me'];
    forall h | h in l'.live
      ensures HandleHeld(l', clients', h)
    {
      if h != l.next {
        assert HandleHeld(l, clients, h);
      }
    }
    forall d, k' | d in clients'
      ensures FieldHeld(l', clients', d, k')
    {
      assert FieldHeld(l, clients, d, k');
    }
  }

  lemma OpenStaysAccounted(l: Lib, i: Info)
    requires Accounted(l) && i.deps <= l.live.Keys
    ensures Accounted(Open(l, i))
  {
  }

  lemma NoDependants(l: Lib, clients: map<ClientId, Client>, c: ClientId, k: Kind, h: Handle)
    requires Held(l, clients) && c in clients && Field(clients[c], k) == Some(h)
    requires Allowed(HoldsOf(clients[c]), Reset(k))
    ensures Childless(l, h)
  {
    forall g | g in l.live
      ensures h !in l.live[g].deps
    {
      var o := l.live[g].owner;
      assert HandleHeld(l, clients, g);
      assert FieldHeld(l, clients, o, Registration) && FieldHeld(l, clients, o, Configuration);
      assert FieldHeld(l, clients, c, k);
    }
  }

  lemma CloseKeeps(l: Lib, clients: map<ClientId, Client>, c: ClientId, k: Kind, h: Handle)
    requires Good(l, clients) && c in clients && Field(clients[c], k) == Some(h)
    requires Allowed(HoldsOf(clients[c]), Reset(k))
    ensures Good(Close(l, h, k), clients[c := SetField(clients[c], k, None)])
  {
    var me' := SetField(clients[c], k, None);
    assert FieldHeld(l, clients, c, k);
    HolderIsCounted(l, clients, c);
    SameHolders(clients, c, me');
    NoDependants(l, clients, c, k, h);
    assert FieldHeld(l, clients, c, k);
    CloseStaysHeld(l, clients, c, k, h);
    CloseStaysAccounted(l, k, h);
  }

  lemma CloseStaysHeld(l: Lib, clients: map<ClientId, Client>, c: ClientId, k: Kind, h: Handle)
    requires Held(l, clients) && c in clients && Field(clients[c], k) == Some(h) && Childless(l, h)
    requires Allowed(HoldsOf(clients[c]), Reset(k))
    ensures Held(Close(l, h, k), clients[c := SetField(clients[c], k, None)])
  {
    var me' := SetField(clients[c], k, None);
    var l' := Close(l, h, k);
    var clients' := clients[c := me'];
    assert FieldHeld(l, clients, c, k);
    forall g | g in l'.live
      ensures HandleHeld(l', clients', g)
    {
      assert HandleHeld(l, clients, g);
    }
    forall d, k' | d in clients'
      ensures FieldHeld(l', clients', d, k')
    {
      assert FieldHeld(l, clients, d, k');
      assert HandleHeld(l, clients, h);
    }
  }

  lemma CloseStaysAccounted(l: Lib, k: Kind, h: Handle)
    requires Accounted(l) && h in l.live && Childless(l, h)
    ensures Accounted(Close(l, h, k))
  {
  }

  lemma InitKeeps(l: Lib, clients: map<ClientId, Client>, c: ClientId, ok: bool)
    requires Good(l, clients) && c in clients && !clients[c].apiHeld
    ensures var (l', held) := ApiTableInit(l, ok); Good(l', clients[c := clients[c].(apiHeld := held)])
  {
    var (l', held) := ApiTableInit(l, ok);
    var clients' := clients[c := clients[c].(apiHeld := held)];
    if held {
      assert Holders(clients') == Holders(clients) + {c};
      ApiFieldStaysHeld(l, l', clients, c, true);
    } else {
      assert clients' == clients;
    }
  }

  lemma ApiFieldStaysHeld(l: Lib, l': Lib, clients: map<ClientId, Client>, c: ClientId, held: bool)
    requires Held(l, clients) && c in clients && l'.live == l.live
    requires held || Allowed(HoldsOf(clients[c]), ReleaseApi)
    ensures Held(l', clients[c := clients[c].(apiHeld := held)])
  {
    var clients' := clients[c := clients[c].(apiHeld := held)];
    forall h | h in l'.live
      ensures HandleHeld(l', clients', h)
    {
      assert HandleHeld(l, clients, h);
    }
    forall d, k | d in clients'
      ensures FieldHeld(l', clients', d, k)
    {
      assert FieldHeld(l, clients, d, k);
    }
  }

  lemma ReleaseKeeps(l: Lib, clients: map<ClientId, Client>, c: ClientId)
    requires Good(l, clients) && c in clients && clients[c].apiHeld
    requires Allowed(HoldsOf(clients[c]), ReleaseApi)
    ensures Good(ApiTableRelease(l), clients[c := clients[c].(apiHeld := false)])
  {
    var clients' := clients[c := clients[c].(apiHeld := false)];
    HolderIsCounted(l, clients, c);
    assert Holders(clients') == Holders(clients) - {c} && c in Holders(clients);
    ApiFieldStaysHeld(l, ApiTableRelease(l), clients, c, false);
    if l.refcount == 1 {
      NothingLive(ApiTableRelease(l), clients');
    }
  }

  lemma NothingLive(l: Lib, clients: map<ClientId, Client>)
    requires Held(l, clients) && |Holders(clients)| == 0
    ensures l.live == map[]
  {
    assert Holders(clients) == {};
    forall h | h in l.live
      ensures l.live[h].owner in Holders(clients)
    {
      assert HandleHeld(l, clients, h);
      assert FieldHeld(l, clients, l.live[h].owner, l.live[h].kind);
    }
  }

  /** A call on handles that the client holds is never a fault. */
  lemma CallKeeps(l: Lib, clients: map<ClientId, Client>, c: ClientId, handles: set<Handle>)
    requires Good(l, clients) && c in clients && clients[c].apiHeld
    requires handles <= Set(clients[c].registration) + Set(clients[c].configuration) + Set(clients[c].connection)
    ensures Call(l, handles) == l
  {
    HolderIsCounted(l, clients, c);
    assert FieldHeld(l, clients, c, Registration) && FieldHeld(l, clients, c, Configuration);
    assert FieldHeld(l, clients, c, Connection);
  }

  /** One step, allowed by what the client holds, keeps msquic in order. */
  lemma DoKeeps(l: Lib, clients: map<ClientId, Client>, c: ClientId, op: Op)
    requires Good(l, clients) && c in clients && Allowed(HoldsOf(clients[c]), op)
    ensures var o := Do(l, clients[c], c, op);
            Good(o.lib, clients[c := o.me]) && (o.go ==> HoldsOf(o.me) == Effect(HoldsOf(clients[c]), op))
  {
    var me := clients[c];
    assert clients[c := me] == clients;
    match op
    case InitApi(ok) => if !me.apiHeld { InitKeeps(l, clients, c, ok); }
    case OpenRegistration(ok) => OpenOrCallKeeps(l, clients, c, Registration, ok);
    case OpenConfiguration(ok) => OpenOrCallKeeps(l, clients, c, Configuration, ok);
    case LoadCredential(_) => CallKeeps(l, clients, c, Set(me.configuration));
    case OpenConnection(ok) => OpenOrCallKeeps(l, clients, c, Connection, ok);
    case Resolve(_) =>
    case SetRemote => CallKeeps(l, clients, c, Set(me.connection));
    case Start(_) => CallKeeps(l, clients, c, Set(me.connection) + Set(me.configuration));
    case Shutdown =>
      if me.connection.Some? {
        assert FieldHeld(l, clients, c, Connection);
        CallKeeps(l, clients, c, Set(me.connection));
      }
    case Reset(k) => ResetKeeps(l, clients, c, k);
    case ReleaseApi => if me.apiHeld { ReleaseKeeps(l, clients, c); }
  }

  lemma OpenOrCallKeeps(l: Lib, clients: map<ClientId, Client>, c: ClientId, k: Kind, ok: bool)
    requires Good(l, clients) && c in clients && Allowed(HoldsOf(clients[c]), OpenOp(k))
    ensures var o := OpenInto(l, clients[c], c, k, DepsOf(clients[c], k), ok);
            Good(o.lib, clients[c := o.me]) && o.go == ok
            && (ok ==> HoldsOf(o.me) == Effect(HoldsOf(clients[c]), OpenOp(k)))
  {
    if ok {
      OpenKeeps(l, clients, c, k, DepsOf(clients[c], k));
    } else {
      CallKeeps(l, clients, c, DepsOf(clients[c], k));
      assert clients[c := clients[c]] == clients;
    }
  }

  lemma ResetKeeps(l: Lib, clients: map<ClientId, Client>, c: ClientId, k: Kind)
    requires Good(l, clients) && c in clients && Allowed(HoldsOf(clients[c]), Reset(k))
    ensures Good(Deleter(l, Field(clients[c], k), k), clients[c := SetField(clients[c], k, None)])
    ensures HoldsOf(SetField(clients[c], k, None)) == Effect(HoldsOf(clients[c]), Reset(k))
  {
    if Field(clients[c], k).Some? {
      assert FieldHeld(l, clients, c, k);
      HolderIsCounted(l, clients, c);
      CloseKeeps(l, clients, c, k, Field(clients[c], k).value);
    } else {
      assert SetField(clients[c], k, None) == clients[c];
      assert clients[c := clients[c]] == clients;
    }
  }

  // ---------------------------------------------------------------- every run of every client

  lemma SafeCons(x: Holds, op: Op, rest: seq<Op>)
    requires Allowed(x, op) && Safe(Effect(x, op), rest)
    ensures Safe(x, [op] + rest)
  {
    assert ([op] + rest)[1..] == rest;
  }

  lemma CloseIsSafe(x: Holds, rest: seq<Op>)
    requires Safe(Holds(x.api, false, false, false), rest)
    ensures Safe(x, CLOSE + rest)
  {
    SafeCons(Holds(x.api, x.reg, false, false), Reset(Registration), rest);
    var ops := [Reset(Registration)] + rest;
    SafeCons(Holds(x.api, x.reg, x.cfg, false), Reset(Configuration), ops);
    ops := [Reset(Configuration)] + ops;
    SafeCons(x, Reset(Connection), ops);
    ops := [Reset(Connection)] + ops;
    SafeCons(x, Shutdown, ops);
    assert CLOSE + rest == [Shutdown] + ops;
  }

  /** `connect` after its registration was opened. */
  function ConnectTail(e: Env): seq<Op> {
    [OpenConfiguration(e.configuration), LoadCredential(e.credential), OpenConnection(e.connection),
     Resolve(e.dns), SetRemote, Start(e.start)]
  }

  lemma ConnectTailIsSafe(e: Env)
    ensures Safe(Holds(true, true, false, false), ConnectTail(e))
  {
    var y := Holds(true, true, true, true);
    SafeCons(y, Start(e.start), []);
    var ops := [Start(e.start)] + [];
    SafeCons(y, SetRemote, ops);
    ops := [SetRemote] + ops;
    SafeCons(y, Resolve(e.dns), ops);
    ops := [Resolve(e.dns)] + ops;
    SafeCons(y.(conn := false), OpenConnection(e.connection), ops);
    ops := [OpenConnection(e.connection)] + ops;
    SafeCons(y.(conn := false), LoadCredential(e.credential), ops);
    ops := [LoadCredential(e.credential)] + ops;
    SafeCons(Holds(true, true, false, false), OpenConfiguration(e.configuration), ops);
    assert ConnectTail(e) == [OpenConfiguration(e.configuration)] + ops;
  }

  lemma ConnectIsSafe(x: Holds, e: Env)
    requires !x.reg && !x.cfg && !x.conn
    ensures Safe(x, ConnectOps(e))
  {
    ConnectTailIsSafe(e);
    SafeCons(Holds(true, false, false, false), OpenRegistration(e.registration), ConnectTail(e));
    SafeCons(x, InitApi(e.api), [OpenRegistration(e.registration)] + ConnectTail(e));
    assert ConnectOps(e) == [InitApi(e.api)] + ([OpenRegistration(e.registration)] + ConnectTail(e));
  }

  lemma NextKeepsInv(s: System, e: Event)
    requires Inv(s) && Enabled(s, e)
    ensures Inv(Next(s, e))
  {
    var x := HoldsOf(s.clients[e.c]);
    match e
    case Cycle(c, env) =>
      ConnectIsSafe(Holds(x.api, false, false, false), env);
      CloseIsSafe(x, ConnectOps(env));
    case CloseOnly(c) =>
      CloseIsSafe(x, []);
      assert CLOSE + [] == CLOSE;
    case Destroy(c) =>
      assert Safe(Holds(x.api, false, false, false), [ReleaseApi]);
      CloseIsSafe(x, [ReleaseApi]);
    case Turn(c) =>
      DoKeeps(s.lib, s.clients, c, s.todo[c][0]);
  }

  /** Whatever fails, in whatever interleaving of any number of clients, msquic is never misused. */
  lemma {:induction false} EveryRun(ss: seq<System>, es: seq<Event>, i: nat)
    requires Run(ss, es) && i < |ss|
    ensures Inv(ss[i])
  {
    if i == 0 {
      assert Holders(ss[0].clients) == {};
    } else {
      EveryRun(ss, es, i - 1);
      NextKeepsInv(ss[i - 1], es[i - 1]);
    }
  }

  predicate Usable(l: Lib, h: Option<Handle>, k: Kind) {
    l.table && h.Some? && h.value in l.live && l.live[h.value].kind == k
  }

  /** What msquic may ask of the caller of each step, without reference to `fault`. */
  ghost predicate IsProper(l: Lib, me: Client, op: Op) {
    match op
    case OpenRegistration(_) => l.table
    case OpenConfiguration(_) => Usable(l, me.registration, Registration)
    case LoadCredential(_) => Usable(l, me.configuration, Configuration)
    case OpenConnection(_) => Usable(l, me.registration, Registration) && Usable(l, me.configuration, Configuration)
    case SetRemote => Usable(l, me.connection, Connection)
    case Start(_) => Usable(l, me.connection, Connection) && Usable(l, me.configuration, Configuration)
    case Shutdown => me.connection.Some? ==> Usable(l, me.connection, Connection)
    case Reset(k) =>
      Field(me, k).Some? ==> Usable(l, Field(me, k), k) && forall h | h in l.live :: Field(me, k).value !in l.live[h].deps
    case ReleaseApi => me.apiHeld ==> l.table && l.refcount > 0 && (l.refcount == 1 ==> l.live == map[])
    case _ => true
  }

  lemma FieldsAreUsable(l: Lib, clients: map<ClientId, Client>, c: ClientId, k: Kind)
    requires Counted(l, clients) && Held(l, clients) && c in clients && Field(clients[c], k).Some?
    ensures Usable(l, Field(clients[c], k), k)
  {
    assert FieldHeld(l, clients, c, k);
    HolderIsCounted(l, clients, c);
  }

  lemma AllowedIsProper(l: Lib, clients: map<ClientId, Client>, c: ClientId, op: Op)
    requires Good(l, clients) && c in clients && Allowed(HoldsOf(clients[c]), op)
    ensures IsProper(l, clients[c], op)
  {
    var me := clients[c];
    if me.apiHeld {
      HolderIsCounted(l, clients, c);
      assert c in Holders(clients);
    }
    if me.registration.Some? {
      FieldsAreUsable(l, clients, c, Registration);
    }
    if me.configuration.Some? {
      FieldsAreUsable(l, clients, c, Configuration);
    }
    if me.connection.Some? {
      FieldsAreUsable(l, clients, c, Connection);
    }
    if op.Reset? && Field(me, op.kind).Some? {
      NoDependants(l, clients, c, op.kind, Field(me, op.kind).value);
    }
    if op == ReleaseApi && me.apiHeld {
      ReleaseIsLast(l, clients, c);
    }
  }

  /** The last holder gives the API back only when no handle is open. */
  lemma ReleaseIsLast(l: Lib, clients: map<ClientId, Client>, c: ClientId)
    requires Good(l, clients) && c in clients && clients[c].apiHeld && Allowed(HoldsOf(clients[c]), ReleaseApi)
    ensures l.refcount > 0 && (l.refcount == 1 ==> l.live == map[])
  {
    var rest := clients[c := clients[c].(apiHeld := false)];
    assert Holders(rest) == Holders(clients) - {c} && c in Holders(clients);
    ApiFieldStaysHeld(l, l, clients, c, false);
    if l.refcount == 1 {
      NothingLive(l, rest);
    }
  }

  /** Every msquic call of every run is made with the table there and on open handles of the right kind. */
  lemma EveryCallIsProper(ss: seq<System>, es: seq<Event>, i: nat, c: ClientId)
    requires Run(ss, es) && i < |es| && es[i] == Turn(c)
    ensures IsProper(ss[i].lib, ss[i].clients[c], ss[i].todo[c][0])
  {
    EveryRun(ss, es, i);
    AllowedIsProper(ss[i].lib, ss[i].clients, c, ss[i].todo[c][0]);
  }

  /** What a connected client holds: its three handles are open, each on those opened before it. */
  lemma HandlesAreNested(ss: seq<System>, es: seq<Event>, i: nat, c: ClientId)
    requires Run(ss, es) && i < |ss| && c in ss[i].clients && ss[i].clients[c].connection.Some?
    ensures var l, me := ss[i].lib, ss[i].clients[c];
            && me.registration.Some? && me.configuration.Some?
            && var reg, cfg, conn := me.registration.value, me.configuration.value, me.connection.value;
            && reg in l.live && l.live[reg] == Info(Registration, c, {})
            && cfg in l.live && l.live[cfg] == Info(Configuration, c, {reg})
            && conn in l.live && l.live[conn] == Info(Connection, c, {reg, cfg})
  {
    EveryRun(ss, es, i);
    var l, me := ss[i].lib, ss[i].clients[c];
    assert FieldHeld(l, ss[i].clients, c, Registration) && FieldHeld(l, ss[i].clients, c, Configuration);
    assert FieldHeld(l, ss[i].clients, c, Connection);
    assert HandleHeld(l, ss[i].clients, me.registration.value) && HandleHeld(l, ss[i].clients, me.configuration.value);
    assert HandleHeld(l, ss[i].clients, me.connection.value);
  }

  /** A destroyed client holds nothing, and every handle it ever opened has been closed exactly once. */
  lemma DestroyedClient(ss: seq<System>, es: seq<Event>, i: nat, c: ClientId)
    requires Run(ss, es) && i < |es| && es[i] == Turn(c) && ss[i].todo[c][0] == ReleaseApi
    ensures ss[i + 1].clients[c] == FRESH
    ensures var l := ss[i + 1].lib;
            forall h | h in l.history && l.history[h].owner == c :: h in l.closed
  {
    EveryRun(ss, es, i);
    EveryRun(ss, es, i + 1);
    var l, clients := ss[i + 1].lib, ss[i + 1].clients;
    forall h | h in l.live
      ensures l.live[h].owner != c
    {
      assert HandleHeld(l, clients, h);
    }
  }

  /** When no client holds the API any more, everything opened is closed and the library is too. */
  lemma AllReleased(ss: seq<System>, es: seq<Event>, i: nat)
    requires Run(ss, es) && i < |ss| && Holders(ss[i].clients) == {}
    ensures var l := ss[i].lib;
            !l.table && l.refcount == 0 && l.live == map[] && forall h: Handle :: h in l.closed <==> h < l.next
  {
    EveryRun(ss, es, i);
    NothingLive(ss[i].lib, ss[i].clients);
  }

  // ---------------------------------------------------------------- one call at a time

  /** Runs the steps of one call to its end or to its early return. */
  function Exec(l: Lib, me: Client, c: ClientId, ops: seq<Op>): Outcome
    decreases |ops|
  {
    if ops == [] then Outcome(l, me, true)
    else
      var o := Do(l, me, c, ops[0]);
      if o.go then Exec(o.lib, o.me, c, ops[1..]) else o
  }

  lemma {:induction false} ExecKeeps(l: Lib, clients: map<ClientId, Client>, c: ClientId, ops: seq<Op>)
    requires Good(l, clients) && c in clients && Safe(HoldsOf(clients[c]), ops)
    ensures var o := Exec(l, clients[c], c, ops);
            Good(o.lib, clients[c := o.me])
    decreases |ops|
  {
    if ops == [] {
      assert clients[c := clients[c]] == clients;
    } else {
      DoKeeps(l, clients, c, ops[0]);
      var o := Do(l, clients[c], c, ops[0]);
      if o.go {
        ExecKeeps(o.lib, clients[c := o.me], c, ops[1..]);
        var p := Exec(o.lib, o.me, c, ops[1..]);
        assert clients[c := o.me][c := p.me] == clients[c := p.me];
      }
    }
  }

  lemma {:induction false} ExecAppend(l: Lib, me: Client, c: ClientId, ops: seq<Op>, more: seq<Op>)
    ensures var o := Exec(l, me, c, ops);
            Exec(l, me, c, ops + more) == if o.go then Exec(o.lib, o.me, c, more) else o
    decreases |ops|
  {
    if ops == [] {
      assert ops + more == more;
    } else {
      assert (ops + more)[1..] == ops[1..] + more;
      var o := Do(l, me, c, ops[0]);
      if o.go {
        ExecAppend(o.lib, o.me, c, ops[1..], more);
      }
    }
  }

  /** From a good state the supervisor's cycle uses msquic properly, whatever fails. */
  lemma CycleIsProper(l: Lib, clients: map<ClientId, Client>, c: ClientId, e: Env)
    requires Good(l, clients) && c in clients
    ensures var o := Exec(l, clients[c], c, CLOSE + ConnectOps(e)); Good(o.lib, clients[c := o.me])
  {
    var x := HoldsOf(clients[c]);
    ConnectIsSafe(Holds(x.api, false, false, false), e);
    CloseIsSafe(x, ConnectOps(e));
    ExecKeeps(l, clients, c, CLOSE + ConnectOps(e));
  }

  /** And so does the destructor. */
  lemma DestroyIsProper(l: Lib, clients: map<ClientId, Client>, c: ClientId)
    requires Good(l, clients) && c in clients
    ensures var o := Exec(l, clients[c], c, DESTROY); Good(o.lib, clients[c := o.me])
  {
    var x := HoldsOf(clients[c]);
    SafeCons(Holds(x.api, false, false, false), ReleaseApi, []);
    assert [ReleaseApi] + [] == [ReleaseApi];
    CloseIsSafe(x, [ReleaseApi]);
    ExecKeeps(l, clients, c, DESTROY);
  }

  lemma {:induction false} FaultStays(l: Lib, me: Client, c: ClientId, ops: seq<Op>)
    requires l.fault
    ensures Exec(l, me, c, ops).lib.fault
    decreases |ops|
  {
    if ops != [] {
      var o := Do(l, me, c, ops[0]);
      if o.go {
        FaultStays(o.lib, o.me, c, ops[1..]);
      }
    }
  }

  lemma CloseAndOpenCommute(l: Lib, h: Handle, i: Info)
    requires h in l.live && h != l.next && i.deps == {} && !l.fault && l.table && Childless(l, h) && l.live[h].kind == i.kind
    ensures Close(Open(l, i), h, i.kind) == Open(Close(l, h, i.kind), i)
  {
    assert l.live[l.next := i] - {h} == (l.live - {h})[l.next := i];
    assert Childless(Open(l, i), h);
  }

  lemma RegistrationIsClosable(l: Lib, clients: map<ClientId, Client>, c: ClientId, h: Handle)
    requires Good(l, clients) && c in clients
    requires clients[c].registration == Some(h) && clients[c].configuration.None?
    ensures clients[c].apiHeld && l.table && h in l.live && h != l.next && l.live[h].kind == Registration && Childless(l, h)
  {
    assert FieldHeld(l, clients, c, Registration);
    HolderIsCounted(l, clients, c);
    NoDependants(l, clients, c, Registration, h);
  }

  lemma ReplacingIsCloseThenOpen(l: Lib, clients: map<ClientId, Client>, c: ClientId, h: Handle)
    requires Good(l, clients) && c in clients
    requires clients[c].registration == Some(h) && clients[c].configuration.None?
    ensures OpenInto(l, clients[c], c, Registration, {}, true) ==
            Outcome(Open(Close(l, h, Registration), Info(Registration, c, {})),
                    clients[c].(registration := Some(l.next)), true)
  {
    RegistrationIsClosable(l, clients, c, h);
    CloseAndOpenCommute(l, h, Info(Registration, c, {}));
  }

  lemma OpenFirstKeeps(l: Lib, clients: map<ClientId, Client>, c: ClientId)
    requires Good(l, clients) && c in clients && HoldsOf(clients[c]) == Holds(true, false, false, false)
    ensures Good(Open(l, Info(Registration, c, {})), clients[c := clients[c].(registration := Some(l.next))])
  {
    OpenKeeps(l, clients, c, Registration, {});
  }

  lemma CloseRegistrationKeeps(l: Lib, clients: map<ClientId, Client>, c: ClientId, h: Handle)
    requires Good(l, clients) && c in clients
    requires clients[c].registration == Some(h) && clients[c].configuration.None?
    ensures HoldsOf(clients[c]) == Holds(true, true, false, false)
    ensures Good(Close(l, h, Registration), clients[c := clients[c].(registration := None)])
    ensures Close(l, h, Registration).next == l.next
  {
    assert FieldHeld(l, clients, c, Registration) && Nested(clients[c]);
    CloseKeeps(l, clients, c, Registration, h);
  }

  /** Opening a registration over an old one that has no dependants is closing and then opening. */
  lemma ReplaceRegistration(l: Lib, clients: map<ClientId, Client>, c: ClientId)
    requires Good(l, clients) && c in clients && clients[c].registration.Some? && clients[c].configuration.None?
    ensures var o := OpenInto(l, clients[c], c, Registration, {}, true);
            Good(o.lib, clients[c := o.me]) && HoldsOf(o.me) == Holds(true, true, false, false)
  {
    var me, h := clients[c], clients[c].registration.value;
    var between := clients[c := me.(registration := None)];
    CloseRegistrationKeeps(l, clients, c, h);
    OpenFirstKeeps(Close(l, h, Registration), between, c);
    assert between[c := me.(registration := Some(l.next))] == clients[c := me.(registration := Some(l.next))];
    ReplacingIsCloseThenOpen(l, clients, c, h);
  }

  /**
    `connect` without a preceding `close`: msquic is misused exactly when a configuration is still
    held and a new registration is opened, because the old registration is then closed too early.
   */
  lemma ReconnectWithoutClose(l: Lib, clients: map<ClientId, Client>, c: ClientId, e: Env)
    requires Good(l, clients) && c in clients
    ensures Exec(l, clients[c], c, ConnectOps(e)).lib.fault <==> clients[c].configuration.Some? && e.registration
  {
    var me := clients[c];
    assert FieldHeld(l, clients, c, Registration) && FieldHeld(l, clients, c, Configuration);
    if me.registration.None? {
      ConnectIsSafe(HoldsOf(me), e);
      ExecKeeps(l, clients, c, ConnectOps(e));
    } else {
      var ops := [OpenRegistration(e.registration)] + ConnectTail(e);
      assert ConnectOps(e)[1..] == ops && ops[1..] == ConnectTail(e);
      assert Exec(l, me, c, ConnectOps(e)) == Exec(l, me, c, ops);
      var o := OpenInto(l, me, c, Registration, {}, e.registration);
      if !e.registration {
        CallKeeps(l, clients, c, {});
      } else if me.configuration.None? {
        ReplaceRegistration(l, clients, c);
        ConnectTailIsSafe(e);
        ExecKeeps(o.lib, clients[c := o.me], c, ConnectTail(e));
      } else {
        HolderIsCounted(l, clients, c);
        assert HandleHeld(l, clients, me.configuration.value);
        assert me.registration.value in Open(l, Info(Registration, c, {})).live[me.configuration.value].deps;
        FaultStays(o.lib, o.me, c, ConnectTail(e));
      }
    }
  }

  // ---------------------------------------------------------------- what connect and close do

  lemma ExecStep(l: Lib, me: Client, c: ClientId, op: Op, rest: seq<Op>)
    ensures var o := Do(l, me, c, op);
            Exec(l, me, c, [op] + rest) == if o.go then Exec(o.lib, o.me, c, rest) else o
  {
    assert ([op] + rest)[1..] == rest;
  }

  function LastOps(e: Env): seq<Op> {
    [Resolve(e.dns), SetRemote, Start(e.start)]
  }

  /** The last steps of `connect` change no field. */
  lemma LastSteps(l: Lib, me: Client, c: ClientId, e: Env)
    ensures Exec(l, me, c, LastOps(e)).me == me
    ensures Exec(l, me, c, LastOps(e)).go <==> e.dns && e.start
  {
    ExecStep(l, me, c, Resolve(e.dns), [SetRemote, Start(e.start)]);
    var l' := Call(l, Set(me.connection));
    ExecStep(l, me, c, SetRemote, [Start(e.start)]);
    ExecStep(l', me, c, Start(e.start), []);
    assert [Start(e.start)] + [] == [Start(e.start)];
    assert [SetRemote] + [Start(e.start)] == [SetRemote, Start(e.start)];
    assert [Resolve(e.dns)] + [SetRemote, Start(e.start)] == LastOps(e);
  }

  lemma TailStarts(l: Lib, me: Client, c: ClientId, e: Env)
    ensures Exec(l, me, c, ConnectTail(e)).go
            <==> e.configuration && e.credential && e.connection && e.dns && e.start
  {
    var open := [OpenConnection(e.connection)] + LastOps(e);
    ExecStep(l, me, c, OpenConfiguration(e.configuration), [LoadCredential(e.credential)] + open);
    assert ConnectTail(e) == [OpenConfiguration(e.configuration)] + ([LoadCredential(e.credential)] + open);
    if e.configuration {
      var o := OpenInto(l, me, c, Configuration, Set(me.registration), true);
      ExecStep(o.lib, o.me, c, LoadCredential(e.credential), open);
      if e.credential {
        var l' := Call(o.lib, Set(o.me.configuration));
        ExecStep(l', o.me, c, OpenConnection(e.connection), LastOps(e));
        var p := OpenInto(l', o.me, c, Connection, Set(o.me.registration) + Set(o.me.configuration), true);
        LastSteps(p.lib, p.me, c, e);
      }
    }
  }

  /** `connect` gets to wait for the handshake exactly when every call that can fail succeeded. */
  lemma StartsIfAllSucceed(l: Lib, me: Client, c: ClientId, e: Env)
    ensures Exec(l, me, c, ConnectOps(e)).go
            <==> (me.apiHeld || l.refcount != 0 || e.api) && e.registration && e.configuration && e.credential
                 && e.connection && e.dns && e.start
  {
    var ops := [OpenRegistration(e.registration)] + ConnectTail(e);
    assert ConnectOps(e) == [InitApi(e.api)] + ops;
    ExecStep(l, me, c, InitApi(e.api), ops);
    var o := Do(l, me, c, InitApi(e.api));
    if o.go {
      ExecStep(o.lib, o.me, c, OpenRegistration(e.registration), ConnectTail(e));
      if e.registration {
        var p := OpenInto(o.lib, o.me, c, Registration, {}, true);
        TailStarts(p.lib, p.me, c, e);
      }
    }
  }

  /** The place of a step in a program. */
  ghost predicate Before(ops: seq<Op>, a: Op, b: Op) {
    exists i, j :: 0 <= i < j < |ops| && ops[i] == a && ops[j] == b
  }

  /**
    The order of the calls that msquic does not check: credentials are loaded into the configuration and
    the remote address is set on the connection before it is started, and a connection is shut down before
    it is closed.
   */
  lemma OrderOfCalls(e: Env)
    ensures Before(ConnectOps(e), OpenConfiguration(e.configuration), LoadCredential(e.credential))
    ensures Before(ConnectOps(e), LoadCredential(e.credential), Start(e.start))
    ensures Before(ConnectOps(e), OpenConnection(e.connection), SetRemote)
    ensures Before(ConnectOps(e), SetRemote, Start(e.start))
    ensures Before(CLOSE, Shutdown, Reset(Connection))
    ensures forall i, j | 0 <= i < j < |ConnectOps(e)| :: ConnectOps(e)[i] != ConnectOps(e)[j]
  {
    var ops := ConnectOps(e);
    assert ops[2] == OpenConfiguration(e.configuration) && ops[3] == LoadCredential(e.credential);
    assert ops[4] == OpenConnection(e.connection) && ops[6] == SetRemote && ops[7] == Start(e.start);
    assert CLOSE[0] == Shutdown && CLOSE[1] == Reset(Connection);
  }

  // ---------------------------------------------------------------- from the empty library

  const EMPTY: Lib := Lib(0, false, map[], map[], [], 0, false)

  lemma EmptyIsGood(c: ClientId)
    ensures Good(EMPTY, map[c := FRESH])
  {
    assert Holders(map[c := FRESH]) == {};
  }

  lemma TailHolds(l: Lib, me: Client, c: ClientId, e: Env)
    requires me.apiHeld && me.registration.Some? && me.configuration.None? && me.connection.None?
    ensures HoldsOf(Exec(l, me, c, ConnectTail(e)).me) ==
            Holds(true, true, e.configuration, e.configuration && e.credential && e.connection)
  {
    var last := LastOps(e);
    var open := [OpenConnection(e.connection)] + last;
    ExecStep(l, me, c, OpenConfiguration(e.configuration), [LoadCredential(e.credential)] + open);
    assert ConnectTail(e) == [OpenConfiguration(e.configuration)] + ([LoadCredential(e.credential)] + open);
    if e.configuration {
      var o := OpenInto(l, me, c, Configuration, Set(me.registration), true);
      ExecStep(o.lib, o.me, c, LoadCredential(e.credential), open);
      if e.credential {
        var l' := Call(o.lib, Set(o.me.configuration));
        ExecStep(l', o.me, c, OpenConnection(e.connection), last);
        var p := OpenInto(l', o.me, c, Connection, Set(o.me.registration) + Set(o.me.configuration), true);
        LastSteps(p.lib, p.me, c, e);
      }
    }
  }

  lemma OnlyClientKeeps(l: Lib, me: Client, c: ClientId, ops: seq<Op>)
    requires Good(l, map[c := me]) && Safe(HoldsOf(me), ops)
    ensures var o := Exec(l, me, c, ops); Good(o.lib, map[c := o.me])
  {
    var clients := map[c := me];
    ExecKeeps(l, clients, c, ops);
    var o := Exec(l, me, c, ops);
    assert clients[c := o.me] == map[c := o.me];
  }

  lemma FirstConnectIsGood(c: ClientId, e: Env)
    ensures var o := Exec(EMPTY, FRESH, c, ConnectOps(e)); Good(o.lib, map[c := o.me])
  {
    EmptyIsGood(c);
    ConnectIsSafe(HoldsOf(FRESH), e);
    OnlyClientKeeps(EMPTY, FRESH, c, ConnectOps(e));
  }

  /** What a first `connect` holds when it returns, whether it failed or not. */
  lemma FirstConnect(c: ClientId, e: Env)
    ensures HoldsOf(Exec(EMPTY, FRESH, c, ConnectOps(e)).me) ==
            Holds(e.api, e.api && e.registration, e.api && e.registration && e.configuration,
                  e.api && e.registration && e.configuration && e.credential && e.connection)
  {
    var ops := [OpenRegistration(e.registration)] + ConnectTail(e);
    assert ConnectOps(e) == [InitApi(e.api)] + ops;
    ExecStep(EMPTY, FRESH, c, InitApi(e.api), ops);
    if e.api {
      var l, me := ApiTableInit(EMPTY, true).0, FRESH.(apiHeld := true);
      ExecStep(l, me, c, OpenRegistration(e.registration), ConnectTail(e));
      if e.registration {
        var p := OpenInto(l, me, c, Registration, {}, true);
        TailHolds(p.lib, p.me, c, e);
      }
    }
  }

  /**
    The misuse does occur: two calls of `connect` in a row, from the empty library, misuse msquic exactly
    when the first one got as far as its configuration and the second one opens its registration.
   */
  lemma TwoConnects(c: ClientId, e: Env, f: Env)
    ensures var o := Exec(EMPTY, FRESH, c, ConnectOps(e));
            Exec(o.lib, o.me, c, ConnectOps(f)).lib.fault
            <==> e.api && e.registration && e.configuration && f.registration
  {
    FirstConnectIsGood(c, e);
    FirstConnect(c, e);
    var o := Exec(EMPTY, FRESH, c, ConnectOps(e));
    ReconnectWithoutClose(o.lib, map[c := o.me], c, f);
    assert o.me.configuration.Some? <==> HoldsOf(o.me).cfg;
  }
}
