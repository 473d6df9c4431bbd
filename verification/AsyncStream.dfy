/**
  The receive side of `MsquicAsyncStream`. The class keeps received bytes in a queue of chunks with
  offsets; its critical sections are proved to act on one flat byte sequence. Those same sections
  are then the steps of an interleaving of msquic callbacks with a single outstanding reader.
 */
module AsyncStream {
  import opened Wrappers
  import opened BitOps

  // ---------------------------------------------------------------- the stream as a byte sequence

  /** Bytes not yet read, the end-of-stream mark, and whether a fulfiller is parked. */
  datatype Stream = Stream(pending: seq<Byte>, eof: bool, parked: bool)

  function Min(a: nat, b: nat): (m: nat)
    ensures m <= a && m <= b && (m == a || m == b)
  {
    if a <= b then a else b
  }

  /** What a read is allowed to complete on. */
  predicate Ready(s: Stream) {
    s.pending != [] || s.eof
  }

  function Taken(s: Stream, max: nat): seq<Byte> {
    s.pending[..Min(max, |s.pending|)]
  }

  function Drained(s: Stream, max: nat): Stream {
    s.(pending := s.pending[Min(max, |s.pending|)..])
  }

  function AfterReceive(s: Stream, bytes: seq<Byte>, fin: bool): Stream {
    Stream(s.pending + bytes, s.eof || fin, false)
  }

  function AfterAbort(s: Stream): Stream {
    Stream(s.pending, true, false)
  }

  // ---------------------------------------------------------------- the chunk queue

  datatype Chunk = Chunk(data: seq<Byte>, off: nat)

  /** Every queued chunk still has bytes to give. */
  ghost predicate AllOpen(queue: seq<Chunk>) {
    forall i | 0 <= i < |queue| :: queue[i].off < |queue[i].data|
  }

  ghost function Flat(queue: seq<Chunk>): seq<Byte>
    requires AllOpen(queue)
  {
    if queue == [] then [] else queue[0].data[queue[0].off..] + Flat(queue[1..])
  }

  ghost function Concat(buffers: seq<seq<Byte>>): seq<Byte> {
    if buffers == [] then [] else Concat(buffers[..|buffers| - 1]) + buffers[|buffers| - 1]
  }

  /** All bytes of the buffers, one buffer after the other. */
  lemma {:induction false} ConcatJoins(xs: seq<seq<Byte>>, ys: seq<seq<Byte>>)
    ensures Concat(xs + ys) == Concat(xs) + Concat(ys)
    ensures Concat([]) == [] && forall b :: Concat([b]) == b
  {
    forall b: seq<Byte>
      ensures Concat([b]) == b
    {
      assert [b][..0] == [];
    }
    if ys == [] {
      assert xs + ys == xs;
    } else {
      ConcatJoins(xs, ys[..|ys| - 1]);
      assert (xs + ys)[..|xs + ys| - 1] == xs + ys[..|ys| - 1];
    }
  }

  lemma {:induction false} FlatAppend(queue: seq<Chunk>, c: Chunk)
    requires AllOpen(queue) && c.off < |c.data|
    ensures AllOpen(queue + [c]) && Flat(queue + [c]) == Flat(queue) + c.data[c.off..]
  {
    if queue == [] {
      assert queue + [c] == [c] && [c][1..] == [];
    } else {
      var first, rest, more := queue[0].data[queue[0].off..], queue[1..], c.data[c.off..];
      FlatAppend(rest, c);
      assert (queue + [c])[1..] == rest + [c];
      Associates(first, Flat(rest), more);
    }
  }

  lemma Associates(a: seq<Byte>, b: seq<Byte>, c: seq<Byte>)
    ensures a + (b + c) == a + b + c
  {
  }

  lemma FlatIsEmpty(queue: seq<Chunk>)
    requires AllOpen(queue)
    ensures Flat(queue) == [] <==> queue == []
  {
  }

  class MsquicAsyncStream {
    var queue: seq<Chunk>
    var eof: bool
    var wakeup: bool  // `read_wakeup_` holds a fulfiller

    ghost predicate Valid()
      reads this
    {
      AllOpen(queue)
    }

    ghost function Abs(): Stream
      requires Valid()
      reads this
    {
      Stream(Flat(queue), eof, wakeup)
    }

    constructor ()
      ensures Valid() && Abs() == Stream([], false, false)
    {
      queue, eof, wakeup := [], false, false;
    }

    /** One turn of the loop of `drainLocked`. */
    method TakeFromFront(dst: array<Byte>, copied: nat, maxBytes: nat) returns (take: nat)
      requires Valid() && copied < maxBytes <= dst.Length && queue != []
      modifies this`queue, dst
      ensures Valid() && 0 < take <= maxBytes - copied && take <= |old(Flat(queue))|
      ensures Flat(queue) == old(Flat(queue))[take..]
      ensures dst[..copied + take] == old(dst[..copied]) + old(Flat(queue))[..take]
      ensures dst[copied + take..] == old(dst[copied + take..])
    {
      var front := queue[0];
      var avail := |front.data| - front.off;
      take := Min(avail, maxBytes - copied);
      ghost var rest := Flat(queue[1..]);
      assert Flat(queue) == front.data[front.off..] + rest;
      forall j | 0 <= j < take {
        dst[copied + j] := front.data[front.off + j];
      }
      front := front.(off := front.off + take);
      if front.off == |front.data| {
        queue := queue[1..];
      } else {
        queue := [front] + queue[1..];
        assert queue[1..] == old(queue)[1..];
      }
    }

    /** `drainLocked`: copies the oldest bytes, as many as fit. */
    method DrainLocked(dst: array<Byte>, maxBytes: nat) returns (copied: nat)
      requires Valid() && maxBytes <= dst.Length
      modifies this`queue, dst
      ensures Valid() && Abs() == Drained(old(Abs()), maxBytes)
      ensures copied == Min(maxBytes, |old(Abs()).pending|) && dst[..copied] == Taken(old(Abs()), maxBytes)
      ensures dst[..copied] + Abs().pending == old(Abs()).pending && eof == old(eof) && wakeup == old(wakeup)
      ensures dst[copied..] == old(dst[copied..])
    {
      copied := 0;
      while copied < maxBytes && queue != []
        invariant Valid() && copied <= maxBytes && copied <= |old(Flat(queue))|
        invariant Flat(queue) == old(Flat(queue))[copied..]
        invariant dst[..copied] == old(Flat(queue))[..copied]
        invariant dst[copied..] == old(dst[copied..])
        decreases maxBytes - copied
      {
        ghost var was := dst[copied..];
        var take := TakeFromFront(dst, copied, maxBytes);
        assert dst[copied + take..] == was[take..];
        copied := copied + take;
      }
      FlatIsEmpty(queue);
    }

    /** Either critical section of `tryRead`; the second one parks a fulfiller when nothing is there. */
    method TryReadSection(dst: array<Byte>, maxBytes: nat, park: bool) returns (n: Option<nat>)
      requires Valid() && maxBytes <= dst.Length
      modifies this, dst
      ensures Valid()
      ensures Ready(old(Abs())) ==>
                && Abs() == Drained(old(Abs()), maxBytes)
                && n == Some(Min(maxBytes, |old(Abs()).pending|)) && dst[..n.value] == Taken(old(Abs()), maxBytes)
      ensures !Ready(old(Abs())) ==> n == None && Abs() == old(Abs()).(parked := park || old(Abs()).parked)
      ensures n.Some? <==> old(Abs()).pending != [] || old(eof)
    {
      FlatIsEmpty(queue);
      if queue != [] || eof {
        var copied := DrainLocked(dst, maxBytes);
        return Some(copied);
      }
      if park {
        wakeup := true;
      }
      return None;
    }

    /** The RECEIVE event; `fire` is the fulfiller taken out under the lock, to be fulfilled after it. */
    method OnReceive(buffers: seq<seq<Byte>>, fin: bool) returns (fire: bool)
      requires Valid()
      modifies this
      ensures Valid() && Abs() == AfterReceive(old(Abs()), Concat(buffers), fin)
      ensures Abs().pending == old(Abs()).pending + Concat(buffers)
      ensures eof == (old(eof) || fin) && !wakeup && fire == old(wakeup)
    {
      var i := 0;
      while i < |buffers|
        invariant i <= |buffers| && Valid() && eof == old(eof) && wakeup == old(wakeup)
        invariant Flat(queue) == old(Flat(queue)) + Concat(buffers[..i])
      {
        var b := buffers[i];
        assert buffers[..i + 1][..i] == buffers[..i];
        if |b| > 0 {
          FlatAppend(queue, Chunk(b, 0));
          queue := queue + [Chunk(b, 0)];
        }
        i := i + 1;
      }
      assert buffers[..i] == buffers;
      if fin {
        eof := true;
      }
      fire := wakeup;
      wakeup := false;
    }

    /** The PEER_SEND_ABORTED, PEER_RECEIVE_ABORTED and SHUTDOWN_COMPLETE events. */
    method OnAborted() returns (fire: bool)
      requires Valid()
      modifies this
      ensures Valid() && Abs() == AfterAbort(old(Abs()))
      ensures Abs().pending == old(Abs()).pending && eof && !wakeup && fire == old(wakeup)
    {
      eof := true;
      fire := wakeup;
      wakeup := false;
    }
  }

  // ---------------------------------------------------------------- callbacks against one reader

  /** Where the single outstanding read is: between its two sections, parked, or about to retry. */
  datatype Reader = NoRead | BetweenChecks(max: nat) | Waiting(max: nat) | Resumed(max: nat)

  datatype Completed = Completed(max: nat, bytes: seq<Byte>)

  /** `inHand` counts the fulfillers that callbacks have taken but not yet fulfilled. */
  datatype System = System(stream: Stream, reader: Reader, inHand: nat, received: seq<Byte>, finished: seq<Completed>)

  datatype Event =
    | Begin(max: nat)                       // tryRead is called: its first section
    | Recheck                               // the second section
    | Receive(bytes: seq<Byte>, fin: bool)  // the locked part of a RECEIVE event
    | Abort                                 // the locked part of an abort or shutdown event
    | Fulfill                               // the callback fulfils what it took
    | Resume                                // the continuation calls tryRead again: its first section

  function Complete(s: System, max: nat): System {
    s.(stream := Drained(s.stream, max), reader := NoRead, finished := s.finished + [Completed(max, Taken(s.stream, max))])
  }

  function FirstSection(s: System, max: nat): System {
    if Ready(s.stream) then Complete(s, max) else s.(reader := BetweenChecks(max))
  }

  function TakeWakeup(s: System, after: Stream): System {
    s.(stream := after, inHand := s.inHand + if s.stream.parked then 1 else 0)
  }

  /** The next state, if the event can happen. */
  function Next(s: System, e: Event): Option<System> {
    match e
    case Begin(max) => if s.reader == NoRead then Some(FirstSection(s, max)) else None
    case Recheck =>
      if !s.reader.BetweenChecks? then None
      else if Ready(s.stream) then Some(Complete(s, s.reader.max))
      else Some(s.(stream := s.stream.(parked := true), reader := Waiting(s.reader.max)))
    case Receive(bytes, fin) =>
      Some(TakeWakeup(s, AfterReceive(s.stream, bytes, fin)).(received := s.received + bytes))
    case Abort => Some(TakeWakeup(s, AfterAbort(s.stream)))
    case Fulfill =>
      if s.inHand == 0 then None
      else Some(s.(inHand := s.inHand - 1,
                   reader := if s.reader.Waiting? then Resumed(s.reader.max) else s.reader))
    case Resume => if s.reader.Resumed? then Some(FirstSection(s, s.reader.max)) else None
  }

  const START := System(Stream([], false, false), NoRead, 0, [], [])

  /** The state after a run; None if some event of it could not happen. */
  ghost function After(run: seq<Event>): Option<System> {
    if run == [] then Some(START)
    else
      match After(run[..|run| - 1])
      case Some(s) => Next(s, run[|run| - 1])
      case None => None
  }

  ghost function Returned(finished: seq<Completed>): seq<Byte> {
    if finished == [] then [] else Returned(finished[..|finished| - 1]) + finished[|finished| - 1].bytes
  }

  ghost predicate Inv(s: System) {
    // no byte lost, duplicated or reordered
    && Returned(s.finished) + s.stream.pending == s.received
    // a waiting reader has exactly one fulfiller, parked in the stream or in a callback's hand
    && (s.reader.Waiting? ==> s.inHand + (if s.stream.parked then 1 else 0) == 1)
    && (!s.reader.Waiting? ==> s.inHand == 0 && !s.stream.parked)
    // a parked fulfiller means there is nothing to read
    && (s.stream.parked ==> !Ready(s.stream))
  }

  lemma ReturnedGrows(finished: seq<Completed>, c: Completed)
    ensures Returned(finished + [c]) == Returned(finished) + c.bytes
  {
    assert (finished + [c])[..|finished|] == finished;
  }

  lemma CompleteKeepsBytes(s: System, max: nat)
    requires Returned(s.finished) + s.stream.pending == s.received
    ensures Returned(Complete(s, max).finished) + Complete(s, max).stream.pending == s.received
  {
    ReturnedGrows(s.finished, Completed(max, Taken(s.stream, max)));
    assert Taken(s.stream, max) + Drained(s.stream, max).pending == s.stream.pending;
  }

  lemma NextKeepsInv(s: System, e: Event)
    requires Inv(s) && Next(s, e).Some?
    ensures Inv(Next(s, e).value)
  {
    match e
    case Begin(max) => CompleteKeepsBytes(s, max);
    case Recheck => CompleteKeepsBytes(s, s.reader.max);
    case Receive(bytes, _) =>
      assert Returned(s.finished) + (s.stream.pending + bytes) == s.received + bytes;
    case Abort =>
    case Fulfill =>
    case Resume => CompleteKeepsBytes(s, s.reader.max);
  }

  /** Over every run: the bytes returned and the bytes still queued are the bytes received, in order. */
  lemma {:induction false} EveryRun(run: seq<Event>)
    requires After(run).Some?
    ensures Inv(After(run).value)
  {
    if run != [] {
      EveryRun(run[..|run| - 1]);
      NextKeepsInv(After(run[..|run| - 1]).value, run[|run| - 1]);
    }
  }

  // ---------------------------------------------------------------- the state, from the events

  /** The end of the stream, or an abort, is among the events. */
  ghost predicate Ended(run: seq<Event>) {
    exists i: nat :: i < |run| && (run[i] == Abort || (run[i].Receive? && run[i].fin))
  }

  /** The bytes of the RECEIVE events, in order. */
  ghost function Arrived(run: seq<Event>): seq<Byte> {
    if run == [] then []
    else
      var e := run[|run| - 1];
      Arrived(run[..|run| - 1]) + if e.Receive? then e.bytes else []
  }

  /** `maxBytes` of the latest call of `tryRead`. */
  ghost function LatestMax(run: seq<Event>): nat {
    if run == [] then 0
    else if run[|run| - 1].Begin? then run[|run| - 1].max
    else LatestMax(run[..|run| - 1])
  }

  lemma EndedGrows(run: seq<Event>)
    requires run != []
    ensures var e := run[|run| - 1];
            Ended(run) <==> Ended(run[..|run| - 1]) || e == Abort || (e.Receive? && e.fin)
  {
    var init := run[..|run| - 1];
    if Ended(init) {
      var i: nat :| i < |init| && (init[i] == Abort || (init[i].Receive? && init[i].fin));
      assert run[i] == init[i];
    }
    if Ended(run) {
      var i: nat :| i < |run| && (run[i] == Abort || (run[i].Receive? && run[i].fin));
      assert i < |init| ==> init[i] == run[i];
    }
  }

  predicate ReadsUpTo(reader: Reader, max: nat) {
    match reader
    case NoRead => true
    case BetweenChecks(m) => m == max
    case Waiting(m) => m == max
    case Resumed(m) => m == max
  }

  /**
    The end of stream is marked exactly when a FIN, an abort or a shutdown has arrived; what was received
    is what the events brought; an outstanding read is the latest one called.
   */
  lemma {:induction false} StateFromEvents(run: seq<Event>)
    requires After(run).Some?
    ensures var s := After(run).value;
            && (s.stream.eof <==> Ended(run))
            && Returned(s.finished) + s.stream.pending == Arrived(run)
            && ReadsUpTo(s.reader, LatestMax(run))
  {
    EveryRun(run);
    EventsAccount(run);
  }

  lemma {:induction false} EventsAccount(run: seq<Event>)
    requires After(run).Some?
    ensures var s := After(run).value;
            (s.stream.eof <==> Ended(run)) && s.received == Arrived(run) && ReadsUpTo(s.reader, LatestMax(run))
  {
    if run != [] {
      EventsAccount(run[..|run| - 1]);
      EndedGrows(run);
    }
  }

  /** The read completes with the oldest bytes, as many as it asked for. */
  ghost predicate Completes(s: System, next: Option<System>, max: nat) {
    && next.Some? && next.value.reader == NoRead
    && exists n: nat :: n <= |s.stream.pending| && (n == max || (n < max && n == |s.stream.pending|))
         && next.value.finished == s.finished + [Completed(max, s.stream.pending[..n])]
  }

  lemma ReadyCompletes(s: System, max: nat)
    requires Ready(s.stream)
    ensures Completes(s, Some(FirstSection(s, max)), max)
  {
    var n := Min(max, |s.stream.pending|);
    assert Taken(s.stream, max) == s.stream.pending[..n];
  }

  /**
    A read outstanding when data, a FIN or an abort arrives completes with its own next steps: the
    recheck, or, if it waits, the call of its fulfiller and the continuation.
   */
  lemma OutstandingReadCompletes(run: seq<Event>, e: Event)
    requires After(run).Some? && After(run).value.reader != NoRead
    requires e == Abort || (e.Receive? && (e.fin || e.bytes != []))
    ensures Next(After(run).value, e).Some?
    ensures var s := Next(After(run).value, e).value;
            match After(run).value.reader
            case BetweenChecks(max) => Completes(s, Next(s, Recheck), max)
            case Resumed(max) => Completes(s, Next(s, Resume), max)
            case Waiting(max) =>
              var fired := Next(s, Fulfill);
              fired.Some? && fired.value.stream == s.stream && Completes(fired.value, Next(fired.value, Resume), max)
            case NoRead => true
  {
    EveryRun(run);
    var s := Next(After(run).value, e).value;
    match s.reader
    case BetweenChecks(max) => ReadyCompletes(s, max);
    case Resumed(max) => ReadyCompletes(s, max);
    case Waiting(max) => ReadyCompletes(Next(s, Fulfill).value, max);
    case NoRead =>
  }

  /**
    No lost wakeup: whenever a reader waits although there is something to read, some callback holds
    its fulfiller, and fulfilling it lets the read complete with the oldest bytes.
   */
  lemma NoLostWakeup(run: seq<Event>)
    requires After(run).Some? && After(run).value.reader.Waiting? && Ready(After(run).value.stream)
    ensures var s := After(run).value;
            var fired := Next(s, Fulfill);
            && fired.Some?
            && Next(fired.value, Resume) == Some(Complete(fired.value, s.reader.max))
            && Taken(fired.value.stream, s.reader.max) == Taken(s.stream, s.reader.max)
  {
    EveryRun(run);
  }

  /** A waiting reader is woken by the next event of either kind, if it was not woken before. */
  lemma EventTakesWakeup(run: seq<Event>, e: Event)
    requires After(run).Some? && After(run).value.reader.Waiting? && (e.Receive? || e.Abort?)
    ensures Next(After(run).value, e).Some? && Next(After(run).value, e).value.inHand == 1
  {
    EveryRun(run);
  }

  /** A read returns as much as is there, and nothing only at the end of the stream. */
  lemma ReadCompletes(run: seq<Event>, e: Event)
    requires After(run).Some? && Next(After(run).value, e).Some?
    requires |Next(After(run).value, e).value.finished| != |After(run).value.finished|
    ensures var s, s' := After(run).value, Next(After(run).value, e).value;
            var c := s'.finished[|s'.finished| - 1];
            && s'.finished == s.finished + [c]
            && c.bytes == s.stream.pending[..Min(c.max, |s.stream.pending|)]
            && (c.bytes == [] && c.max > 0 ==> s.stream.eof && s.stream.pending == [])
            && s'.reader == NoRead && !s'.stream.parked && s'.inHand == 0
            && c.max == LatestMax(run + [e])
  {
    EveryRun(run);
    EventsAccount(run);
    assert (run + [e])[..|run|] == run;
  }
}
