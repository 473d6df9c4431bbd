/**
  The client object itself: `connect`, `close` and the destructor as methods over the fields that
  hold the handles, each proved to perform exactly the msquic steps of its program in
  `QuicHandles`, with the early returns of the source.
 */
module QuicClient {
  import opened Wrappers
  import opened QuicHandles

  /** The process-wide API table with its reference count, and msquic behind it. */
  class ApiTable {
    var lib: Lib

    constructor ()
      ensures lib == Lib(0, false, map[], map[], [], 0, false)
    {
      lib := Lib(0, false, map[], map[], [], 0, false);
    }

    /** `api_table_init`, under its mutex. */
    method Init(openOk: bool) returns (ok: bool)
      modifies this
      ensures (lib, ok) == ApiTableInit(old(lib), openOk)
    {
      lib := lib.(refcount := lib.refcount + 1);
      if lib.refcount - 1 == 0 {
        if !openOk {
          lib := lib.(refcount := lib.refcount - 1);
          return false;
        }
        lib := lib.(table := true);
      }
      return true;
    }

    /** `api_table_release`, under its mutex. */
    method Release()
      modifies this
      ensures lib == ApiTableRelease(old(lib))
    {
      lib := lib.(refcount := lib.refcount - 1);
      if lib.refcount + 1 == 1 {
        lib := Call(lib, {}).(fault := Call(lib, {}).fault || lib.live != map[]);
        lib := lib.(table := false);
      }
    }
  }

  class QuicClientImpl {
    const id: ClientId
    const api: ApiTable
    var apiHeld: bool
    var registration: Option<Handle>
    var configuration: Option<Handle>
    var connection: Option<Handle>

    ghost function Me(): Client
      reads this
    {
      Client(apiHeld, registration, configuration, connection)
    }

    constructor (id: ClientId, api: ApiTable)
      ensures this.id == id && this.api == api && Me() == FRESH
    {
      this.id, this.api := id, api;
      apiHeld, registration, configuration, connection := false, None, None, None;
    }

    /** A successful open call: the raw handle is wrapped and assigned, deleting what was there. */
    method Adopt(k: Kind, deps: set<Handle>)
      modifies this, api
      ensures var o := OpenInto(old(api.lib), old(Me()), id, k, deps, true); api.lib == o.lib && Me() == o.me
    {
      var raw := api.lib.next;
      api.lib := Open(api.lib, Info(k, id, deps));
      match k {
        case Registration =>
          var previous := registration;
          registration := Some(raw);
          api.lib := Deleter(api.lib, previous, k);
        case Configuration =>
          var previous := configuration;
          configuration := Some(raw);
          api.lib := Deleter(api.lib, previous, k);
        case Connection =>
          var previous := connection;
          connection := Some(raw);
          api.lib := Deleter(api.lib, previous, k);
      }
    }

    /** `connect`, up to the point where it starts to wait for the handshake. */
    method Connect(e: Env) returns (started: bool)
      modifies this, api
      ensures var o := Exec(old(api.lib), old(Me()), id, ConnectOps(e));
              api.lib == o.lib && Me() == o.me && started == o.go
      ensures started <==> (old(apiHeld) || old(api.lib).refcount != 0 || e.api) && e.registration && e.configuration
                           && e.credential && e.connection && e.dns && e.start
    {
      StartsIfAllSucceed(api.lib, Me(), id, e);
      ghost var rest := [OpenRegistration(e.registration)] + ConnectTail(e);
      assert ConnectOps(e) == [InitApi(e.api)] + rest;
      ExecStep(api.lib, Me(), id, InitApi(e.api), rest);
      if !apiHeld {
        var held := api.Init(e.api);
        if !held {
          return false;
        }
        apiHeld := true;
      }
      started := OpenFirst(e);
    }

    /** `connect`, from the registration on. */
    method OpenFirst(e: Env) returns (started: bool)
      modifies this, api
      ensures var o := Exec(old(api.lib), old(Me()), id, [OpenRegistration(e.registration)] + ConnectTail(e));
              api.lib == o.lib && Me() == o.me && started == o.go
    {
      ExecStep(api.lib, Me(), id, OpenRegistration(e.registration), ConnectTail(e));
      if !e.registration {
        api.lib := Call(api.lib, {});
        return false;
      }
      Adopt(Registration, {});
      started := OpenRest(e);
    }

    /** The rest of `connect`, once the registration is open. */
    method OpenRest(e: Env) returns (started: bool)
      modifies this, api
      ensures var o := Exec(old(api.lib), old(Me()), id, ConnectTail(e));
              api.lib == o.lib && Me() == o.me && started == o.go
    {
      ghost var l0, me0, ops := api.lib, Me(), ConnectTail(e);
      if !e.configuration {
        api.lib := Call(api.lib, Set(registration));
        return false;
      }
      Adopt(Configuration, Set(registration));
      api.lib := Call(api.lib, Set(configuration));
      assert ops[1..][1..] == ops[2..];
      if !e.credential {
        return false;
      }
      assert Exec(l0, me0, id, ops) == Exec(api.lib, Me(), id, ops[2..]);
      assert ops[2..] == [OpenConnection(e.connection), Resolve(e.dns), SetRemote, Start(e.start)];
      started := OpenLast(e);
    }

    method OpenLast(e: Env) returns (started: bool)
      modifies this, api
      ensures var o := Exec(old(api.lib), old(Me()), id,
                            [OpenConnection(e.connection), Resolve(e.dns), SetRemote, Start(e.start)]);
              api.lib == o.lib && Me() == o.me && started == o.go
    {
      ghost var l0, me0 := api.lib, Me();
      ghost var ops := [OpenConnection(e.connection), Resolve(e.dns), SetRemote, Start(e.start)];
      if !e.connection {
        api.lib := Call(api.lib, Set(registration) + Set(configuration));
        return false;
      }
      Adopt(Connection, Set(registration) + Set(configuration));
      assert ops[1..][1..] == [SetRemote, Start(e.start)];
      if !e.dns {
        return false;
      }
      assert Exec(l0, me0, id, ops) == Exec(api.lib, Me(), id, [SetRemote, Start(e.start)]);
      started := StartConnection(e.start);
    }

    method StartConnection(ok: bool) returns (started: bool)
      modifies api
      ensures var o := Exec(old(api.lib), Me(), id, [SetRemote, Start(ok)]);
              api.lib == o.lib && Me() == o.me && started == o.go
    {
      ghost var l0, ops := api.lib, [SetRemote, Start(ok)];
      api.lib := Call(api.lib, Set(connection));
      assert ops[1..] == [Start(ok)] && [Start(ok)][1..] == [];
      assert Exec(l0, Me(), id, ops) == Exec(api.lib, Me(), id, [Start(ok)]);
      ghost var o := Do(api.lib, Me(), id, Start(ok));
      assert Exec(api.lib, Me(), id, [Start(ok)]) == o;
      api.lib := Call(api.lib, Set(connection) + Set(configuration));
      return ok;
    }

    /** `close`. */
    method CloseAll()
      modifies this, api
      ensures var o := Exec(old(api.lib), old(Me()), id, CLOSE);
              api.lib == o.lib && Me() == o.me && Me() == Client(apiHeld, None, None, None) && o.go
    {
      ghost var l0, me0 := api.lib, Me();
      if connection.Some? {
        api.lib := Call(api.lib, Set(connection));
      }
      var previous := connection;
      connection := None;
      api.lib := Deleter(api.lib, previous, Connection);
      assert CLOSE[1..][1..] == [Reset(Configuration), Reset(Registration)];
      assert Exec(l0, me0, id, CLOSE) == Exec(api.lib, Me(), id, [Reset(Configuration), Reset(Registration)]);
      ghost var l1, me1 := api.lib, Me();
      previous := configuration;
      configuration := None;
      api.lib := Deleter(api.lib, previous, Configuration);
      assert [Reset(Configuration), Reset(Registration)][1..] == [Reset(Registration)];
      assert Exec(l1, me1, id, [Reset(Configuration), Reset(Registration)])
          == Exec(api.lib, Me(), id, [Reset(Registration)]);
      previous := registration;
      registration := None;
      api.lib := Deleter(api.lib, previous, Registration);
    }

    /** `~QuicClientImpl`. */
    method Destroy()
      modifies this, api
      ensures var o := Exec(old(api.lib), old(Me()), id, DESTROY); api.lib == o.lib && Me() == o.me == FRESH
      ensures forall clients {:trigger Good(old(api.lib), clients)} |
                Good(old(api.lib), clients) && id in clients && clients[id] == old(Me()) ::
                Good(api.lib, clients[id := FRESH])
    {
      ghost var l0, me0 := api.lib, Me();
      CloseAll();
      ExecAppend(l0, me0, id, CLOSE, [ReleaseApi]);
      ghost var l1, me1 := api.lib, Me();
      assert [ReleaseApi][1..] == [];
      if apiHeld {
        api.Release();
        apiHeld := false;
      }
      assert Exec(l1, me1, id, [ReleaseApi]) == Outcome(api.lib, Me(), true);
      forall clients | Good(l0, clients) && id in clients && clients[id] == me0
        ensures Good(api.lib, clients[id := FRESH])
      {
        DestroyIsProper(l0, clients, id);
      }
    }

    /** One turn of the supervisor: `close`, then `connect`. */
    method Reconnect(e: Env) returns (started: bool)
      modifies this, api
      ensures var o := Exec(old(api.lib), old(Me()), id, CLOSE + ConnectOps(e));
              api.lib == o.lib && Me() == o.me && started == o.go
      ensures forall clients {:trigger Good(old(api.lib), clients)} |
                Good(old(api.lib), clients) && id in clients && clients[id] == old(Me()) ::
                Good(api.lib, clients[id := Me()])
    {
      ghost var l0, me0 := api.lib, Me();
      ExecAppend(api.lib, Me(), id, CLOSE, ConnectOps(e));
      CloseAll();
      started := Connect(e);
      forall clients | Good(l0, clients) && id in clients && clients[id] == me0
        ensures Good(api.lib, clients[id := Me()])
      {
        CycleIsProper(l0, clients, id, e);
      }
    }
  }
}
