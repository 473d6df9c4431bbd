/**
  Send contexts that cross the C boundary: datagrams reclaimed on SENT or CANCELED, stream writes
  reclaimed on SEND_COMPLETE. Any number of senders and callbacks interleave with an msquic that
  follows the lifecycle documented beside the callbacks. A `Fault` records any use of a context
  that is no longer on the heap; no run reaches one.
 */
module SendContexts {

  type Id = nat
  type Tid = nat

  datatype Kind = Datagram | StreamWrite

  datatype Status = Sent | Canceled | Acknowledged | AcknowledgedSpurious | LostSuspect | LostDiscarded | SendComplete

  // ---------------------------------------------------------------- the two callbacks

  /** The states on which the callbacks take the context back. */
  predicate Reclaims(k: Kind, st: Status) {
    match k
    case Datagram => st == Sent || st == Canceled
    case StreamWrite => st == SendComplete
  }

  // ---------------------------------------------------------------- what msquic may report

  /** msquic's own view of an accepted send. */
  datatype Life = Queued(kind: Kind) | OnTheWire | Finished

  /** The documented lifecycle: one final hand-over per send, then only information about sent datagrams. */
  predicate MayReport(l: Life, st: Status) {
    match l
    case Queued(k) => if k == Datagram then st == Sent || st == Canceled else st == SendComplete
    case OnTheWire =>
      st == Acknowledged || st == AcknowledgedSpurious || st == LostSuspect || st == LostDiscarded
    case Finished => false
  }

  function LifeAfter(l: Life, st: Status): Life {
    if l == Queued(Datagram) && st == Sent then OnTheWire
    else if l.Queued? then Finished
    else l
  }

  // ---------------------------------------------------------------- the system

  /** A sender: building a context, inside the send call, or holding the context of a failed call. */
  datatype Sender = Free | Building(id: Id, kind: Kind) | Calling(id: Id, kind: Kind) | Accepted | Refused(id: Id)

  datatype System = System(
    heap: set<Id>,                  // contexts allocated and not deleted
    deleted: seq<Id>,               // deletions, in order
    next: Id,                       // the next allocation
    senders: map<Tid, Sender>,
    msquic: map<Id, Life>,          // sends msquic has accepted
    fault: bool)

  datatype Event =
    | Allocate(t: Tid, kind: Kind)
    | Throw(t: Tid)                 // an exception while the context is being built
    | Enter(t: Tid)                 // release() and the call into msquic
    | Accept(t: Tid)                // msquic takes the send; callbacks may follow before the call returns
    | Refuse(t: Tid)                // msquic fails the call
    | Finish(t: Tid)                // the sender's call returned
    | Report(id: Id, st: Status)    // a callback from msquic

  function Delete(s: System, id: Id): System {
    s.(heap := s.heap - {id}, deleted := s.deleted + [id], fault := s.fault || id !in s.heap)
  }

  predicate Enabled(s: System, e: Event) {
    match e
    case Allocate(t, _) => t in s.senders && s.senders[t] == Free
    case Throw(t) => t in s.senders && s.senders[t].Building?
    case Enter(t) => t in s.senders && s.senders[t].Building?
    case Accept(t) => t in s.senders && s.senders[t].Calling?
    case Refuse(t) => t in s.senders && s.senders[t].Calling?
    case Finish(t) => t in s.senders && (s.senders[t].Accepted? || s.senders[t].Refused?)
    case Report(id, st) => id in s.msquic && MayReport(s.msquic[id], st)
  }

  function Put(s: System, t: Tid, x: Sender): System {
    s.(senders := s.senders[t := x])
  }

  /** The callback of an accepted send; `kind` is which of the two callbacks runs. */
  function Callback(s: System, id: Id, kind: Kind, st: Status): System {
    if Reclaims(kind, st) then Delete(s, id) else s
  }

  /** Reports after the hand-over exist for datagrams only. */
  function KindOf(l: Life): Kind {
    if l.Queued? then l.kind else Datagram
  }

  function Next(s: System, e: Event): System
    requires Enabled(s, e)
  {
    match e
    case Allocate(t, k) => Put(s, t, Building(s.next, k)).(heap := s.heap + {s.next}, next := s.next + 1)
    case Throw(t) => Put(Delete(s, s.senders[t].id), t, Free)
    case Enter(t) => Put(s, t, Calling(s.senders[t].id, s.senders[t].kind))
    case Accept(t) =>
      Put(s, t, Accepted).(msquic := s.msquic[s.senders[t].id := Queued(s.senders[t].kind)],
                           fault := s.fault || s.senders[t].id !in s.heap)
    case Refuse(t) => Put(s, t, Refused(s.senders[t].id))
    case Finish(t) =>
      if s.senders[t].Refused? then Put(Delete(s, s.senders[t].id), t, Free) else Put(s, t, Free)
    case Report(id, st) =>
      Callback(s, id, KindOf(s.msquic[id]), st).(msquic := s.msquic[id := LifeAfter(s.msquic[id], st)])
  }

  ghost predicate Run(ss: seq<System>, es: seq<Event>) {
    && |ss| == |es| + 1
    && ss[0].heap == {} && ss[0].deleted == [] && ss[0].msquic == map[] && !ss[0].fault && ss[0].next == 0
    && (forall t | t in ss[0].senders :: ss[0].senders[t] == Free)
    && (forall i | 0 <= i < |es| :: Enabled(ss[i], es[i]) && ss[i + 1] == Next(ss[i], es[i]))
  }

  // ---------------------------------------------------------------- conservation

  predicate Owns(x: Sender, id: Id) {
    (x.Building? || x.Calling? || x.Refused?) && x.id == id
  }

  ghost predicate OwnedBySender(s: System, id: Id) {
    exists t :: t in s.senders && Owns(s.senders[t], id)
  }

  predicate InFlight(s: System, id: Id) {
    id in s.msquic && s.msquic[id].Queued?
  }

  ghost predicate Inv(s: System) {
    && !s.fault
    // each context is owned once: by one sender, or by msquic
    && (forall t, u, id | t in s.senders && u in s.senders && Owns(s.senders[t], id) && Owns(s.senders[u], id) :: t == u)
    && (forall t, id | t in s.senders && Owns(s.senders[t], id) :: id !in s.msquic)
    // the heap holds exactly the owned contexts
    && (forall id :: id in s.heap <==> OwnedBySender(s, id) || InFlight(s, id))
    // every context ever allocated is live or deleted, never both, and deleted at most once
    && (forall id: Id :: id in s.heap || id in s.deleted <==> id < s.next)
    && (forall id | id in s.heap :: id !in s.deleted)
    && (forall i, j | 0 <= i < j < |s.deleted| :: s.deleted[i] != s.deleted[j])
    && (forall id | id in s.msquic :: id < s.next)
  }

  /** A sender's step: what it owned is handed on as stated, and every other sender is untouched. */
  lemma OthersOwn(s: System, t: Tid, s': System, id: Id)
    requires t in s.senders && t in s'.senders && s'.senders == s.senders[t := s'.senders[t]]
    requires !Owns(s.senders[t], id) && !Owns(s'.senders[t], id)
    ensures OwnedBySender(s', id) <==> OwnedBySender(s, id)
  {
    if OwnedBySender(s, id) {
      var u :| u in s.senders && Owns(s.senders[u], id);
      assert u in s'.senders && s'.senders[u] == s.senders[u];
    }
  }

  lemma AllocateKeepsInv(s: System, t: Tid, k: Kind)
    requires Inv(s) && Enabled(s, Allocate(t, k))
    ensures Inv(Next(s, Allocate(t, k)))
  {
    var s' := Next(s, Allocate(t, k));
    forall id
      ensures id in s'.heap <==> OwnedBySender(s', id) || InFlight(s', id)
    {
      if id == s.next {
        assert Owns(s'.senders[t], id);
      } else {
        OthersOwn(s, t, s', id);
      }
    }
  }

  /** Deleting a context that a sender owns. */
  lemma ReclaimKeepsInv(s: System, t: Tid)
    requires Inv(s) && t in s.senders && (s.senders[t].Building? || s.senders[t].Refused?)
    ensures Inv(Put(Delete(s, s.senders[t].id), t, Free))
  {
    var mine := s.senders[t].id;
    var s' := Put(Delete(s, mine), t, Free);
    assert Owns(s.senders[t], mine);
    forall id
      ensures id in s'.heap <==> OwnedBySender(s', id) || InFlight(s', id)
    {
      if id != mine {
        OthersOwn(s, t, s', id);
      }
    }
  }

  lemma EnterKeepsInv(s: System, t: Tid, x: Sender)
    requires Inv(s) && t in s.senders && (s.senders[t].Building? || s.senders[t].Calling?)
    requires (x.Calling? || x.Refused?) && x.id == s.senders[t].id
    ensures Inv(Put(s, t, x))
  {
    var mine := s.senders[t].id;
    var s' := Put(s, t, x);
    forall id
      ensures OwnedBySender(s', id) <==> OwnedBySender(s, id)
    {
      if id == mine {
        assert Owns(s.senders[t], id) && Owns(s'.senders[t], id);
      } else {
        OthersOwn(s, t, s', id);
      }
    }
  }

  lemma AcceptKeepsInv(s: System, t: Tid)
    requires Inv(s) && Enabled(s, Accept(t))
    ensures Inv(Next(s, Accept(t)))
  {
    var mine := s.senders[t].id;
    var s' := Next(s, Accept(t));
    assert Owns(s.senders[t], mine) && mine in s.heap;
    forall id
      ensures id in s'.heap <==> OwnedBySender(s', id) || InFlight(s', id)
    {
      if id != mine {
        OthersOwn(s, t, s', id);
      }
    }
  }

  lemma FinishKeepsInv(s: System, t: Tid)
    requires Inv(s) && t in s.senders && s.senders[t].Accepted?
    ensures Inv(Put(s, t, Free))
  {
    forall id
      ensures OwnedBySender(Put(s, t, Free), id) <==> OwnedBySender(s, id)
    {
      OthersOwn(s, t, Put(s, t, Free), id);
    }
  }

  lemma ReportKeepsInv(s: System, id: Id, st: Status)
    requires Inv(s) && Enabled(s, Report(id, st))
    ensures Inv(Next(s, Report(id, st)))
  {
    var s' := Next(s, Report(id, st));
    assert !OwnedBySender(s, id);
    forall other
      ensures other in s'.heap <==> OwnedBySender(s', other) || InFlight(s', other)
    {
      assert OwnedBySender(s', other) <==> OwnedBySender(s, other);
    }
  }

  lemma NextKeepsInv(s: System, e: Event)
    requires Inv(s) && Enabled(s, e)
    ensures Inv(Next(s, e))
  {
    match e
    case Allocate(t, k) => AllocateKeepsInv(s, t, k);
    case Throw(t) => ReclaimKeepsInv(s, t);
    case Enter(t) => EnterKeepsInv(s, t, Calling(s.senders[t].id, s.senders[t].kind));
    case Accept(t) => AcceptKeepsInv(s, t);
    case Refuse(t) => EnterKeepsInv(s, t, Refused(s.senders[t].id));
    case Finish(t) => if s.senders[t].Refused? { ReclaimKeepsInv(s, t); } else { FinishKeepsInv(s, t); }
    case Report(id, st) => ReportKeepsInv(s, id, st);
  }

  /**
    Over every run: no context is used or deleted after its deletion, each is deleted at most once,
    and what is live is exactly what a sender still holds or msquic has not yet handed back.
   */
  lemma {:induction false} EveryRun(ss: seq<System>, es: seq<Event>, i: nat)
    requires Run(ss, es) && i < |ss|
    ensures Inv(ss[i])
  {
    if i > 0 {
      EveryRun(ss, es, i - 1);
      NextKeepsInv(ss[i - 1], es[i - 1]);
    }
  }

  /** Once the senders have returned and msquic has reported on every send, nothing has leaked. */
  lemma NothingLeaks(ss: seq<System>, es: seq<Event>, i: nat)
    requires Run(ss, es) && i < |ss|
    requires forall t | t in ss[i].senders :: ss[i].senders[t].Free? || ss[i].senders[t].Accepted?
    requires forall id :: !InFlight(ss[i], id)
    ensures ss[i].heap == {} && forall id: Id :: id in ss[i].deleted <==> id < ss[i].next
  {
    EveryRun(ss, es, i);
    assert forall id :: !OwnedBySender(ss[i], id);
  }

  /** Reports about a datagram already on the wire leave the heap alone. */
  lemma InformationalReports(s: System, id: Id, st: Status)
    requires Enabled(s, Report(id, st)) && s.msquic[id] == OnTheWire
    ensures Next(s, Report(id, st)) == s
  {
    assert s.msquic[id := LifeAfter(s.msquic[id], st)] == s.msquic;
  }

  /** Any hand-over of a send in flight may come next, and it frees exactly that send's context. */
  lemma HandOverFrees(s: System, id: Id, st: Status)
    requires Inv(s) && InFlight(s, id)
    ensures Enabled(s, Report(id, st)) <==>
            (if s.msquic[id].kind == Datagram then st == Sent || st == Canceled else st == SendComplete)
    ensures Enabled(s, Report(id, st)) ==>
              var s' := Next(s, Report(id, st));
              s'.heap == s.heap - {id} && s'.deleted == s.deleted + [id] && !s'.fault && !InFlight(s', id)
  {
    assert id in s.heap;
  }

  // ---------------------------------------------------------------- from the events

  /** msquic has taken the send with context `id`. */
  ghost predicate WasAccepted(ss: seq<System>, es: seq<Event>, i: nat, id: Id)
    requires i <= |es| < |ss|
  {
    exists k: nat :: k < i && es[k].Accept? && AcceptsContext(ss[k], es[k].t, id)
  }

  predicate AcceptsContext(s: System, t: Tid, id: Id) {
    t in s.senders && s.senders[t].Calling? && s.senders[t].id == id
  }

  /** msquic has reported SENT, CANCELED or SEND_COMPLETE for it. */
  ghost predicate WasHandedBack(es: seq<Event>, i: nat, id: Id)
    requires i <= |es|
  {
    exists k: nat :: k < i && HandsBack(es[k], id)
  }

  predicate HandsBack(e: Event, id: Id) {
    e.Report? && e.id == id && (e.st == Sent || e.st == Canceled || e.st == SendComplete)
  }

  lemma OneMoreEvent(ss: seq<System>, es: seq<Event>, i: nat, id: Id)
    requires i < |es| < |ss|
    ensures WasAccepted(ss, es, i + 1, id)
            <==> WasAccepted(ss, es, i, id) || (es[i].Accept? && AcceptsContext(ss[i], es[i].t, id))
    ensures WasHandedBack(es, i + 1, id) <==> WasHandedBack(es, i, id) || HandsBack(es[i], id)
  {
  }

  ghost predicate Told(ss: seq<System>, es: seq<Event>, i: nat, id: Id)
    requires i <= |es| < |ss|
  {
    && (id in ss[i].msquic <==> WasAccepted(ss, es, i, id))
    && (WasHandedBack(es, i, id) <==> id in ss[i].msquic && !ss[i].msquic[id].Queued?)
  }

  lemma ToldStep(ss: seq<System>, es: seq<Event>, i: nat, id: Id)
    requires i < |es| < |ss| && Inv(ss[i]) && Enabled(ss[i], es[i]) && ss[i + 1] == Next(ss[i], es[i])
    requires Told(ss, es, i, id)
    ensures Told(ss, es, i + 1, id)
  {
    OneMoreEvent(ss, es, i, id);
    MsquicStep(ss[i], es[i], id);
  }

  lemma {:induction false} MsquicFromEvents(ss: seq<System>, es: seq<Event>, i: nat, id: Id)
    requires Run(ss, es) && i < |ss|
    ensures Told(ss, es, i, id)
  {
    if i > 0 {
      MsquicFromEvents(ss, es, i - 1, id);
      EveryRun(ss, es, i - 1);
      ToldStep(ss, es, i - 1, id);
    }
  }

  lemma MsquicStep(s: System, e: Event, id: Id)
    requires Inv(s) && Enabled(s, e)
    ensures id in Next(s, e).msquic <==> id in s.msquic || (e.Accept? && AcceptsContext(s, e.t, id))
    ensures id in Next(s, e).msquic && !Next(s, e).msquic[id].Queued?
            <==> (id in s.msquic && !s.msquic[id].Queued?) || HandsBack(e, id)
  {
    if e.Accept? {
      assert Owns(s.senders[e.t], s.senders[e.t].id);
    }
  }

  /**
    Conservation, from the events of the run alone: msquic holds exactly the contexts of accepted sends
    for which it has reported neither SENT nor CANCELED nor SEND_COMPLETE, and the heap holds these and
    what senders still own.
   */
  lemma LiveFromEvents(ss: seq<System>, es: seq<Event>, i: nat, id: Id)
    requires Run(ss, es) && i < |ss|
    ensures InFlight(ss[i], id) <==> WasAccepted(ss, es, i, id) && !WasHandedBack(es, i, id)
    ensures id in ss[i].heap <==>
            OwnedBySender(ss[i], id) || (WasAccepted(ss, es, i, id) && !WasHandedBack(es, i, id))
  {
    MsquicFromEvents(ss, es, i, id);
    EveryRun(ss, es, i);
  }
}
