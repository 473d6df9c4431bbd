/**
  The router's reader loop, run against an arbitrary script of poll and read outcomes. What reaches
  the sink is characterised without the loop: the packets read before the loop exits, filtered by
  what the linear scan of the inserted routes says about their destination.
 */
module Router {
  import opened Wrappers
  import opened BitOps
  import opened Address
  import opened Lpm

  const PACKET_MTU: nat := 1500

  datatype Action = Drop | ToTunnel | ToTun

  type Packet = seq<Byte>

  // ---------------------------------------------------------------- the environment

  /** One call of `read_packet`: the bytes waiting in the device, or a failure. */
  datatype Read = Bytes(data: Packet) | ReadFailed(transient: bool)

  /** One call of `poll`; `transient` stands for EINTR (and EAGAIN for a read). */
  datatype Poll = PollFailed(transient: bool) | TimedOut | Woken | Readable(read: Read)

  /** One turn of the loop: the value of `running_` it sees, and then the outcome of `poll`. */
  datatype Turn = Turn(running: bool, poll: Poll)

  // ---------------------------------------------------------------- the policy

  /** The kernel copies at most the buffer's capacity. */
  function Truncated(p: Packet): (r: Packet)
    ensures |r| <= PACKET_MTU && r <= p
  {
    if |p| <= PACKET_MTU then p else p[..PACKET_MTU]
  }

  type Nibble = x: int | 0 <= x < 0x10
  type Bytes2 = s: seq<Byte> | |s| == 2 witness [0, 0]
  type Bytes3 = s: seq<Byte> | |s| == 3 witness [0, 0, 0]
  type Bytes4 = s: seq<Byte> | |s| == 4 witness [0, 0, 0, 0]

  /** The fixed headers of RFC 791, section 3.1, and RFC 8200, section 3, field by field. */
  datatype Header =
    | Ip4(headerLength: Nibble, serviceType: Byte, totalLength: Bytes2, identification: Bytes2, flagsAndOffset: Bytes2,
          timeToLive: Byte, protocol: Byte, checksum: Bytes2, source4: Bytes4, destination4: Bytes4)
    | Ip6(trafficClass: Nibble, flowLabel: Bytes3, payloadLength: Bytes2, nextHeader: Byte, hopLimit: Byte,
          source6: Bytes16, destination6: Bytes16)

  function Octets(h: Header): (b: seq<Byte>)
    ensures |b| == if h.Ip4? then 20 else 40
  {
    match h
    case Ip4(hl, tos, tl, id, fo, ttl, pr, ck, src, dst) =>
      [0x40 + hl, tos] + tl + id + fo + [ttl, pr] + ck + src + dst
    case Ip6(tc, fl, pl, nh, lim, src, dst) => [0x60 + tc] + fl + pl + [nh, lim] + src + dst
  }

  function DestinationOf(h: Header): IpAddr {
    match h
    case Ip4(_, _, _, _, _, _, _, _, _, dst) => IpAddr(V4, dst + [0, 0, 0, 0, 0, 0, 0, 0, 0, 0, 0, 0])
    case Ip6(_, _, _, _, _, _, dst) => IpAddr(V6, dst)
  }

  /** The packet starts with a header of either version. */
  ghost predicate HasHeader(p: Packet) {
    exists h :: Octets(h) <= p
  }

  /** The route chosen for an address: the action of its longest, most recent match. */
  ghost predicate Routed(routes: seq<(Cidr, Action)>, dst: IpAddr, act: Action)
    requires AllValid(routes)
  {
    exists i: nat :: i < |routes| && IsLongestMatch(routes, dst, i) && routes[i].1 == act
  }

  ghost predicate GoesToTunnel(routes: seq<(Cidr, Action)>, p: Packet)
    requires AllValid(routes)
  {
    exists h :: Octets(h) <= p && Routed(routes, DestinationOf(h), ToTunnel)
  }

  /** Where the code looks. */
  function Destination(p: Packet): Option<IpAddr> {
    if |p| >= 20 && p[0] / 16 == 4 then Some(IpAddr(V4, p[16..20] + seq(12, _ => 0)))
    else if |p| >= 40 && p[0] / 16 == 6 then Some(IpAddr(V6, p[24..40]))
    else None
  }

  lemma DestinationIsTheHeaders(p: Packet, h: Header)
    requires Octets(h) <= p
    ensures Destination(p) == Some(DestinationOf(h))
  {
    var b := Octets(h);
    assert p[0] == b[0];
    if h.Ip4? {
      assert p[16..20] == b[16..20] == h.destination4;
      assert seq(12, _ => 0) == [0, 0, 0, 0, 0, 0, 0, 0, 0, 0, 0, 0];
    } else {
      assert p[24..40] == b[24..40] == h.destination6;
    }
  }

  lemma HeaderIsThere4(p: Packet)
    requires |p| >= 20 && p[0] / 16 == 4
    ensures HasHeader(p)
  {
    var h := Ip4(p[0] % 16, p[1], p[2..4], p[4..6], p[6..8], p[8], p[9], p[10..12], p[12..16], p[16..20]);
    assert Octets(h) == p[..20];
  }

  lemma HeaderIsThere6(p: Packet)
    requires |p| >= 40 && p[0] / 16 == 6
    ensures HasHeader(p)
  {
    var h := Ip6(p[0] % 16, p[1..4], p[4..6], p[6], p[7], p[8..24], p[24..40]);
    assert Octets(h) == p[..40];
  }

  ghost predicate EndsLoop(t: Turn) {
    || !t.running
    || t.poll == PollFailed(false)
    || t.poll.Woken?
    || t.poll == Readable(ReadFailed(false))
    || (t.poll.Readable? && t.poll.read.Bytes? && t.poll.read.data == [])
  }

  /** The packet a turn reads, if it reads one. */
  ghost function ReadIn(t: Turn): seq<Packet> {
    if t.poll.Readable? && t.poll.read.Bytes? then [Truncated(t.poll.read.data)] else []
  }

  /** The packets read before the loop ends, in order. */
  ghost function ReadBeforeExit(turns: seq<Turn>): seq<Packet> {
    if turns == [] || EndsLoop(turns[0]) then [] else ReadIn(turns[0]) + ReadBeforeExit(turns[1..])
  }

  /** After `i` turns without an exit, `read` holds all that was read. */
  ghost predicate ReadSoFar(turns: seq<Turn>, i: nat, read: seq<Packet>) {
    i <= |turns| && ReadBeforeExit(turns) == read + ReadBeforeExit(turns[i..])
  }

  lemma ReadMore(turns: seq<Turn>, i: nat, read: seq<Packet>)
    requires ReadSoFar(turns, i, read) && i < |turns| && !EndsLoop(turns[i])
    ensures ReadSoFar(turns, i + 1, read + ReadIn(turns[i]))
  {
    assert turns[i..][1..] == turns[i + 1..];
  }

  lemma ReadAll(turns: seq<Turn>, i: nat, read: seq<Packet>)
    requires ReadSoFar(turns, i, read) && (i == |turns| || EndsLoop(turns[i]))
    ensures read == ReadBeforeExit(turns)
  {
  }

  /** Timeouts, EINTR and EAGAIN contribute nothing, wherever they occur. */
  lemma {:induction false} IdleTurnsDoNotMatter(before: seq<Turn>, t: Turn, after: seq<Turn>)
    requires t == Turn(true, TimedOut) || t == Turn(true, PollFailed(true)) || t == Turn(true, Readable(ReadFailed(true)))
    ensures ReadBeforeExit(before + [t] + after) == ReadBeforeExit(before + after)
  {
    if before == [] {
      assert before + [t] + after == [t] + after && before + after == after;
      assert ([t] + after)[1..] == after;
    } else {
      IdleTurnsDoNotMatter(before[1..], t, after);
      assert (before + [t] + after)[1..] == before[1..] + [t] + after;
      assert (before + after)[1..] == before[1..] + after;
    }
  }

  /** A stop, the wake pipe, a failed poll or read, or an empty read ends the loop: nothing after it is read. */
  lemma {:induction false} ExitTurnsEndIt(before: seq<Turn>, t: Turn, after: seq<Turn>)
    requires !t.running || t.poll == PollFailed(false) || t.poll == Woken
             || t.poll == Readable(ReadFailed(false)) || t.poll == Readable(Bytes([]))
    ensures ReadBeforeExit(before + [t] + after) == ReadBeforeExit(before)
  {
    if before == [] {
      assert before + [t] + after == [t] + after;
    } else {
      ExitTurnsEndIt(before[1..], t, after);
      assert (before + [t] + after)[1..] == before[1..] + [t] + after;
    }
  }

  lemma FourJoined(a: seq<Packet>, b: seq<Packet>, c: seq<Packet>, d: seq<Packet>)
    ensures a + (b + c + d) == a + b + c + d
  {
  }

  /** Any other read adds its packet, cut to the buffer, unless the loop has ended before. */
  lemma {:induction false} PacketTurnsCount(before: seq<Turn>, p: Packet, after: seq<Turn>)
    requires p != [] && forall t | t in before :: !EndsLoop(t)
    ensures ReadBeforeExit(before + [Turn(true, Readable(Bytes(p)))] + after) ==
            ReadBeforeExit(before) + [if |p| <= 1500 then p else p[..1500]] + ReadBeforeExit(after)
  {
    var t := Turn(true, Readable(Bytes(p)));
    if before == [] {
      assert before + [t] + after == [t] + after && ([t] + after)[1..] == after;
    } else {
      PacketTurnsCount(before[1..], p, after);
      assert before[0] in before && (before + [t] + after)[1..] == before[1..] + [t] + after;
      FourJoined(ReadIn(before[0]), ReadBeforeExit(before[1..]), ReadIn(t), ReadBeforeExit(after));
    }
  }

  ghost function Selected(routes: seq<(Cidr, Action)>, p: Packet): seq<Packet>
    requires AllValid(routes)
  {
    if GoesToTunnel(routes, p) then [p] else []
  }

  ghost function OnlyToTunnel(routes: seq<(Cidr, Action)>, packets: seq<Packet>): seq<Packet>
    requires AllValid(routes)
  {
    if packets == [] then []
    else OnlyToTunnel(routes, packets[..|packets| - 1]) + Selected(routes, packets[|packets| - 1])
  }

  lemma OneMorePacket(routes: seq<(Cidr, Action)>, packets: seq<Packet>, p: Packet)
    requires AllValid(routes)
    ensures OnlyToTunnel(routes, packets + [p]) == OnlyToTunnel(routes, packets) + Selected(routes, p)
  {
    assert (packets + [p])[..|packets|] == packets;
  }

  lemma HeaderRead(p: Packet)
    ensures Destination(p).Some? <==> HasHeader(p)
    ensures forall h | Octets(h) <= p :: Destination(p) == Some(DestinationOf(h))
  {
    if Destination(p).Some? {
      if p[0] / 16 == 4 {
        HeaderIsThere4(p);
      } else {
        HeaderIsThere6(p);
      }
    }
    forall h | Octets(h) <= p
      ensures Destination(p) == Some(DestinationOf(h))
    {
      DestinationIsTheHeaders(p, h);
    }
  }

  /** What a lookup's answer says about the route. */
  lemma AnswerIsRoute(routes: seq<(Cidr, Action)>, dst: IpAddr, act: Option<Action>, other: Action)
    requires AllValid(routes)
    requires act.None? ==> forall j | 0 <= j < |routes| :: !Covers(routes[j].0, dst)
    requires act.Some? ==> exists i: nat | i < |routes| :: IsLongestMatch(routes, dst, i) && act.value == routes[i].1
    ensures act == Some(other) <==> Routed(routes, dst, other)
  {
    if act.Some? && Routed(routes, dst, other) {
      var i: nat :| i < |routes| && IsLongestMatch(routes, dst, i) && act.value == routes[i].1;
      var j: nat :| j < |routes| && IsLongestMatch(routes, dst, j) && routes[j].1 == other;
      LongestMatchIsUnique(routes, dst, i, j);
    }
  }

  /** The selection is packet by packet, in order. */
  lemma SelectionOfOne(routes: seq<(Cidr, Action)>, p: Packet)
    requires AllValid(routes)
    ensures OnlyToTunnel(routes, [p]) == if GoesToTunnel(routes, p) then [p] else []
  {
    OneMorePacket(routes, [], p);
    assert [] + [p] == [p];
  }

  lemma Associates(a: seq<Packet>, b: seq<Packet>, c: seq<Packet>)
    ensures a + (b + c) == a + b + c
  {
  }

  lemma {:induction false} SelectionJoins(routes: seq<(Cidr, Action)>, ps: seq<Packet>, qs: seq<Packet>)
    requires AllValid(routes)
    ensures OnlyToTunnel(routes, ps + qs) == OnlyToTunnel(routes, ps) + OnlyToTunnel(routes, qs)
  {
    if qs == [] {
      assert ps + qs == ps;
    } else {
      var init, q := qs[..|qs| - 1], qs[|qs| - 1];
      SelectionJoins(routes, ps, init);
      OneMorePacket(routes, init, q);
      OneMorePacket(routes, ps + init, q);
      Associates(ps, init, [q]);
      Associates(OnlyToTunnel(routes, ps), OnlyToTunnel(routes, init), Selected(routes, q));
      assert qs == init + [q];
    }
  }

  // ---------------------------------------------------------------- the program

  /** `dst_from_packet`, on the first `len` bytes of the buffer. */
  method DstFromPacket(p: array<Byte>, len: nat) returns (dst: Option<IpAddr>)
    requires len <= p.Length
    ensures dst == Destination(p[..len])
    ensures dst.Some? <==> HasHeader(p[..len])
    ensures forall h | Octets(h) <= p[..len] :: dst == Some(DestinationOf(h))
  {
    HeaderRead(p[..len]);
    if len < 1 {
      return None;
    }
    var version := Shr(p[0], 4);
    ShrTwoFour(p[0]);
    if version == 4 {
      if len < 20 {
        return None;
      }
      assert p[16..20] == p[..len][16..20];
      return Some(IpAddr(V4, p[16..20] + seq(12, _ => 0)));
    }
    if version == 6 {
      if len < 40 {
        return None;
      }
      assert p[24..40] == p[..len][24..40];
      return Some(IpAddr(V6, p[24..40]));
    }
    return None;
  }

  /** An `IPacketSink` that records what it is given. */
  class PacketSink {
    var delivered: seq<Packet>

    constructor ()
      ensures delivered == []
    {
      delivered := [];
    }

    method OnPacket(data: array<Byte>, len: nat)
      requires len <= data.Length
      modifies this
      ensures delivered == old(delivered) + [data[..len]]
    {
      delivered := delivered + [data[..len]];
    }
  }

  class Router {
    const routes: LpmTrie<Action>
    const tunnel: PacketSink?

    ghost predicate Valid()
      reads routes, routes.nodes.Values
    {
      routes.Valid()
    }

    constructor (tunnel: PacketSink?)
      ensures Valid() && fresh(routes) && routes.inserted == [] && routes.nodes == map[] && this.tunnel == tunnel
    {
      routes := new LpmTrie<Action>();
      this.tunnel := tunnel;
    }

    method AddRoute(c: Cidr, action: Action)
      requires Valid() && ValidCidr(c)
      modifies routes, routes.nodes.Values
      ensures Valid() && routes.inserted == old(routes.inserted) + [(c, action)]
      ensures fresh(routes.nodes.Values - old(routes.nodes.Values))
    {
      routes.Insert(c, action);
    }

    /** `read` on the TUN device: overwrites the front of the buffer, leaves the rest stale. */
    method ReadPacket(buf: array<Byte>, waiting: Packet) returns (n: nat)
      requires buf.Length == PACKET_MTU
      modifies buf
      ensures n <= buf.Length && buf[..n] == Truncated(waiting)
    {
      n := |Truncated(waiting)|;
      forall i | 0 <= i < n {
        buf[i] := waiting[i];
      }
    }

    /** The decision taken on one packet, after it was read. */
    method Dispatch(buf: array<Byte>, n: nat)
      requires Valid() && n <= buf.Length
      modifies tunnel
      ensures tunnel != null ==> tunnel.delivered == old(tunnel.delivered) + Selected(routes.inserted, buf[..n])
    {
      var dst := DstFromPacket(buf, n);
      if dst.None? {
        return;
      }
      var act := routes.Lookup(dst.value);
      AnswerIsRoute(routes.inserted, dst.value, act, ToTunnel);
      if act.None? || act.value == Drop {
        return;
      }
      if act.value == ToTunnel && tunnel != null {
        tunnel.OnPacket(buf, n);
      }
    }

    /** The sink has been given, after `was`, what the policy selects from the packets read so far. */
    ghost predicate Forwarded(was: seq<Packet>, read: seq<Packet>)
      requires AllValid(routes.inserted)
      reads routes, tunnel
    {
      tunnel != null ==> tunnel.delivered == was + OnlyToTunnel(routes.inserted, read)
    }

    /** The body of the loop: one poll, at most one packet read, and the decision on it. */
    method OneTurn(buf: array<Byte>, t: Turn, ghost was: seq<Packet>, ghost soFar: seq<Packet>)
      returns (exit: bool, ghost read: seq<Packet>)
      requires Valid() && buf.Length == PACKET_MTU && t.running && Forwarded(was, soFar)
      modifies tunnel, buf
      ensures exit <==> EndsLoop(t)
      ensures read == if exit then [] else ReadIn(t)
      ensures Forwarded(was, soFar + read)
    {
      read := [];
      assert soFar + read == soFar;
      var poll := t.poll;
      if poll.PollFailed? {
        return !poll.transient, read;
      }
      if poll.TimedOut? {
        return false, read;
      }
      if poll.Woken? {
        return true, read;
      }
      if poll.read.ReadFailed? {
        return !poll.read.transient, read;
      }
      var n := ReadPacket(buf, poll.read.data);
      if n <= 0 {
        return true, read;
      }
      Dispatch(buf, n);
      OneMorePacket(routes.inserted, soFar, buf[..n]);
      return false, [buf[..n]];
    }

    /** `tun_reader_loop`. */
    method TunReaderLoop(turns: seq<Turn>)
      requires Valid()
      modifies tunnel
      ensures tunnel != null ==>
                tunnel.delivered == old(tunnel.delivered) + OnlyToTunnel(routes.inserted, ReadBeforeExit(turns))
    {
      var buf := new Byte[PACKET_MTU];
      var i := 0;
      ghost var was, soFar: seq<Packet> := if tunnel == null then [] else tunnel.delivered, [];
      assert turns[0..] == turns;
      while i < |turns| && turns[i].running
        invariant Valid() && ReadSoFar(turns, i, soFar) && Forwarded(was, soFar)
      {
        var exit;
        ghost var read;
        exit, read := OneTurn(buf, turns[i], was, soFar);
        if exit {
          assert soFar + read == soFar;
          break;
        }
        ReadMore(turns, i, soFar);
        soFar := soFar + read;
        i := i + 1;
      }
      ReadAll(turns, i, soFar);
    }
  }
}
