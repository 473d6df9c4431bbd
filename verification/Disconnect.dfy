/**
  The disconnect notification: the flags of one client, and how often the handler fires between two
  resets, for any order of events.
 */
module Disconnect {
  datatype Event = Connected | ShutDown | Install(handler: bool)

  /** `handshake_done_`, `handshake_ok_`, `disc_notified_`, and whether a handler is installed. */
  datatype Flags = Flags(done: bool, ok: bool, notified: bool, handler: bool)

  class ClientFlags {
    var handshakeDone: bool
    var handshakeOk: bool
    var discNotified: bool
    var handler: bool

    function Get(): Flags
      reads this
    {
      Flags(handshakeDone, handshakeOk, discNotified, handler)
    }

    constructor ()
      ensures Get() == Flags(false, false, false, false)
    {
      handshakeDone, handshakeOk, discNotified, handler := false, false, false, false;
    }

    /** The reset at the head of `connect`. */
    method Reset()
      modifies this
      ensures Get() == Flags(false, false, false, old(handler))
    {
      handshakeDone := false;
      handshakeOk := false;
      discNotified := false;
    }

    method OnConnected()
      modifies this
      ensures (Get(), false) == After(old(Get()), Connected)
    {
      handshakeOk := true;
      handshakeDone := true;
    }

    /** `fire_disconnect_locked_`; `fire` says whether a handler was copied, and is then called. */
    method FireDisconnect() returns (fire: bool)
      modifies this
      ensures (Get(), fire) == After(old(Get()), ShutDown)
    {
      fire := false;
      handshakeDone := true;
      if handshakeOk && !discNotified {
        discNotified := true;
        fire := handler;
      }
    }

    method SetHandler(h: bool)
      modifies this
      ensures (Get(), false) == After(old(Get()), Install(h))
    {
      handler := h;
    }
  }

  /** One event: the new flags, and whether the handler fires. */
  function After(f: Flags, e: Event): (Flags, bool) {
    match e
    case Connected => (f.(done := true, ok := true), false)
    case ShutDown =>
      if f.ok && !f.notified then (f.(done := true, notified := true), f.handler) else (f.(done := true), false)
    case Install(h) => (f.(handler := h), false)
  }

  function FlagsAfter(f: Flags, es: seq<Event>): Flags {
    if es == [] then f else After(FlagsAfter(f, es[..|es| - 1]), es[|es| - 1]).0
  }

  function Fires(f: Flags, es: seq<Event>): nat {
    if es == [] then 0
    else Fires(f, es[..|es| - 1]) + if After(FlagsAfter(f, es[..|es| - 1]), es[|es| - 1]).1 then 1 else 0
  }

  /** Event `i` is the first shutdown that follows a completed handshake. */
  ghost predicate IsDrop(es: seq<Event>, i: nat)
    requires i < |es|
  {
    es[i] == ShutDown && Connected in es[..i]
  }

  ghost predicate IsFirstDrop(es: seq<Event>, i: nat)
    requires i < |es|
  {
    IsDrop(es, i) && forall j: nat | j < i :: !IsDrop(es, j)
  }

  /** The handler in force before event `i`. */
  function HandlerBefore(h: bool, es: seq<Event>, i: nat): bool
    requires i <= |es|
  {
    if i == 0 then h else if es[i - 1].Install? then es[i - 1].handler else HandlerBefore(h, es, i - 1)
  }

  lemma {:induction false} FlagsMeaning(f: Flags, es: seq<Event>)
    requires !f.done && !f.ok && !f.notified
    ensures FlagsAfter(f, es).ok <==> Connected in es
    ensures FlagsAfter(f, es).done <==> Connected in es || ShutDown in es
    ensures FlagsAfter(f, es).notified <==> exists i: nat :: i < |es| && IsDrop(es, i)
    ensures FlagsAfter(f, es).handler == HandlerBefore(f.handler, es, |es|)
  {
    if es != [] {
      var n := |es| - 1;
      FlagsMeaning(f, es[..n]);
      assert es == es[..n] + [es[n]];
      HandlerPrefix(f.handler, es, n, n);
      forall i: nat | i < n
        ensures IsDrop(es[..n], i) <==> IsDrop(es, i)
      {
        assert es[..n][..i] == es[..i];
      }
      if exists i: nat :: i < n && IsDrop(es[..n], i) {
        var i: nat :| i < n && IsDrop(es[..n], i);
        assert IsDrop(es, i);
      }
      assert IsDrop(es, n) <==> es[n] == ShutDown && Connected in es[..n];
    }
  }

  lemma {:induction false} HandlerPrefix(h: bool, es: seq<Event>, n: nat, i: nat)
    requires i <= n <= |es|
    ensures HandlerBefore(h, es[..n], i) == HandlerBefore(h, es, i)
  {
    if i > 0 {
      HandlerPrefix(h, es, n, i - 1);
    }
  }

  /**
    Between two resets the handler fires at most once, never before the handshake completed, and it
    does fire exactly when a handler is installed at the first shutdown after that.
   */
  lemma {:induction false} FiresOnce(f: Flags, es: seq<Event>)
    requires !f.done && !f.ok && !f.notified
    ensures Fires(f, es) <= 1
    ensures Fires(f, es) == 1 <==> exists i: nat :: i < |es| && IsFirstDrop(es, i) && HandlerBefore(f.handler, es, i)
  {
    if es != [] {
      var n := |es| - 1;
      FiresOnce(f, es[..n]);
      FlagsMeaning(f, es[..n]);
      HandlerPrefix(f.handler, es, n, n);
      forall i: nat | i < n
        ensures IsFirstDrop(es[..n], i) <==> IsFirstDrop(es, i)
        ensures HandlerBefore(f.handler, es[..n], i) == HandlerBefore(f.handler, es, i)
      {
        DropPrefix(es, n, i);
        HandlerPrefix(f.handler, es, n, i);
      }
      FirstDropAtEnd(es);
      NoFiringBeforeDrop(f, es[..n]);
    }
  }

  lemma DropPrefix(es: seq<Event>, n: nat, i: nat)
    requires i < n <= |es|
    ensures IsFirstDrop(es[..n], i) <==> IsFirstDrop(es, i)
  {
    forall j: nat | j <= i
      ensures IsDrop(es[..n], j) <==> IsDrop(es, j)
    {
      assert es[..n][..j] == es[..j];
    }
  }

  lemma FirstDropAtEnd(es: seq<Event>)
    requires es != []
    ensures var n := |es| - 1;
            IsFirstDrop(es, n) <==> IsDrop(es, n) && !exists i: nat :: i < n && IsDrop(es[..n], i)
  {
    var n := |es| - 1;
    forall i: nat | i < n
      ensures IsDrop(es[..n], i) <==> IsDrop(es, i)
    {
      assert es[..n][..i] == es[..i];
    }
  }

  lemma {:induction false} NoFiringBeforeDrop(f: Flags, es: seq<Event>)
    requires !f.done && !f.ok && !f.notified
    ensures Fires(f, es) > 0 ==> FlagsAfter(f, es).notified
  {
    if es != [] {
      NoFiringBeforeDrop(f, es[..|es| - 1]);
    }
  }

  /** Event by event: it fires at the first shutdown after the handshake, if a handler is installed there. */
  lemma FiresExactlyThere(f: Flags, es: seq<Event>, i: nat)
    requires !f.done && !f.ok && !f.notified && i < |es|
    ensures After(FlagsAfter(f, es[..i]), es[i]).1 <==> IsFirstDrop(es, i) && HandlerBefore(f.handler, es, i)
  {
    var head := es[..i + 1];
    assert head[..i] == es[..i] && head[i] == es[i];
    FlagsMeaning(f, es[..i]);
    FirstDropAtEnd(head);
    DropPrefix(es, i + 1, i);
    HandlerPrefix(f.handler, es, i, i);
    assert IsDrop(es, i) <==> es[i] == ShutDown && Connected in es[..i];
    assert IsDrop(head, i) <==> IsDrop(es, i);
  }
}
