/**
  The netlink client's requests: what a reader finds in the bytes handed to `send` for each of them.
 */
module NetlinkClient {
  import opened Address
  import opened BitOps
  import opened Netlink
  import opened Wrappers

  const RTM_NEWLINK: U16 := 16
  const RTM_NEWADDR: U16 := 20
  const RTM_NEWROUTE: U16 := 24
  // The flags are distinct bits, so that their sum is their bitwise or.
  const NLM_F_REQUEST: U16 := 0x1
  const NLM_F_ACK: U16 := 0x4
  const NLM_F_REPLACE: U16 := 0x100
  const NLM_F_CREATE: U16 := 0x400
  const IFLA_MTU: U16 := 4
  const IFA_ADDRESS: U16 := 1
  const IFA_LOCAL: U16 := 2
  const RTA_DST: U16 := 1
  const RTA_OIF: U16 := 4
  const AF_UNSPEC: Byte := 0
  const AF_INET: Byte := 2
  const AF_INET6: Byte := 10
  const RT_TABLE_MAIN: Byte := 254
  const RTPROT_BOOT: Byte := 3
  const RT_SCOPE_LINK: Byte := 253
  const RTN_UNICAST: Byte := 1

  type I32 = x: int | -0x8000_0000 <= x < 0x8000_0000

  /** A request as its reader sees it; `family` is the fixed header behind the netlink header. */
  datatype Request = Request(kind: U16, flags: U16, seqNo: U32, pid: U32, family: seq<Byte>, attrs: seq<Attr>)

  function ReadRequest(big: bool, b: seq<Byte>, head: nat): Request
    requires HEADER <= head <= |b| && LenOf(big, b) <= |b|
  {
    Request(Dec16(big, b[4..6]), Dec16(big, b[6..8]), Dec32(big, b[8..12]), Dec32(big, b[12..16]),
            b[16..head], Attrs(big, b, head))
  }

  /** The netlink header behind its length field, and the family header. */
  function Fields(big: bool, r: Request): (b: seq<Byte>)
    ensures |b| == HEADER - 4 + |r.family|
  {
    Enc16(big, r.kind) + Enc16(big, r.flags) + Enc32(big, r.seqNo) + Enc32(big, r.pid) + r.family
  }

  lemma SameRequest(big: bool, b: seq<Byte>, c: seq<Byte>, head: nat)
    requires HEADER <= head <= |b| && head <= |c| && LenOf(big, b) <= |b| && LenOf(big, c) <= |c|
    requires Same(b, c, 4, head)
    ensures ReadRequest(big, c, head) == ReadRequest(big, b, head).(attrs := Attrs(big, c, head))
  {
    SameSlice(b, c, 4, head, 4, 6);
    SameSlice(b, c, 4, head, 6, 8);
    SameSlice(b, c, 4, head, 8, 12);
    SameSlice(b, c, 4, head, 12, 16);
    SameSlice(b, c, 4, head, 16, head);
  }

  lemma TakenInFive(f: seq<Byte>, v: seq<Byte>, w: seq<Byte>, x: seq<Byte>, y: seq<Byte>, z: seq<Byte>)
    requires |v| == 2 && |w| == 2 && |x| == 4 && |y| == 4 && f == v + w + x + y + z
    ensures f[0..2] == v && f[2..4] == w && f[4..8] == x && f[8..12] == y && f[12..|f|] == z
  {
  }

  lemma FieldSlices(big: bool, b: seq<Byte>, head: nat, r: Request)
    requires HEADER <= head <= |b| && b[4..head] == Fields(big, r)
    ensures b[4..6] == Enc16(big, r.kind) && b[6..8] == Enc16(big, r.flags)
    ensures b[8..12] == Enc32(big, r.seqNo) && b[12..16] == Enc32(big, r.pid) && b[16..head] == r.family
  {
    TakenInFive(b[4..head], Enc16(big, r.kind), Enc16(big, r.flags), Enc32(big, r.seqNo), Enc32(big, r.pid), r.family);
    SliceOfSlice(b, 4, head, 0, 2);
    SliceOfSlice(b, 4, head, 2, 4);
    SliceOfSlice(b, 4, head, 4, 8);
    SliceOfSlice(b, 4, head, 8, 12);
    SliceOfSlice(b, 4, head, 12, head - 4);
  }

  lemma HeaderFields(big: bool, b: seq<Byte>, r: Request)
    requires |r.family| <= 16 && HEADER + |r.family| <= |b|
    requires b[..4] == Enc32(big, HEADER + |r.family|) && b[4..HEADER + |r.family|] == Fields(big, r)
    ensures LenOf(big, b) == HEADER + |r.family|
    ensures Dec16(big, b[4..6]) == r.kind && Dec16(big, b[6..8]) == r.flags
    ensures Dec32(big, b[8..12]) == r.seqNo && Dec32(big, b[12..16]) == r.pid
    ensures b[16..HEADER + |r.family|] == r.family
  {
    FieldSlices(big, b, HEADER + |r.family|, r);
    DecEnc32(big, HEADER + |r.family|);
    DecEnc16(big, r.kind);
    DecEnc16(big, r.flags);
    DecEnc32(big, r.seqNo);
    DecEnc32(big, r.pid);
  }

  /** The buffer holds exactly the request `r` so far. */
  ghost predicate Holds(big: bool, b: seq<Byte>, r: Request) {
    && |b| == SCRATCH && |r.family| <= 16
    && WellFormed(big, b, HEADER + |r.family|) && ReadRequest(big, b, HEADER + |r.family|) == r
  }

  lemma HoldsHeader(big: bool, b: seq<Byte>, r: Request)
    requires |b| == SCRATCH && |r.family| <= 16 && r.attrs == []
    requires b[..4] == Enc32(big, HEADER + |r.family|) && b[4..HEADER + |r.family|] == Fields(big, r)
    ensures Holds(big, b, r) && LenOf(big, b) == HEADER + |r.family|
  {
    HeaderFields(big, b, r);
    AlignShift(0, HEADER + |r.family|);
    WalkEnds(big, b, Align(HEADER + |r.family|), HEADER + |r.family|);
  }

  lemma HoldsMore(big: bool, b: seq<Byte>, r: Request, a: Attr)
    requires Holds(big, b, r) && Need(big, b, a) <= |b|
    ensures Holds(big, Put(big, b, a), r.(attrs := r.attrs + [a])) && LenOf(big, Put(big, b, a)) == Need(big, b, a)
  {
    var head, c := HEADER + |r.family|, Put(big, b, a);
    PutReads(big, b, head, a);
    AppendedBytes(big, b, a);
    SameRequest(big, b, c, head);
  }

  // ---------------------------------------------------------------- the exact bytes

  /** The message in the buffer is, byte for byte, its length and then `tail`. */
  ghost predicate Written(big: bool, b: seq<Byte>, tail: seq<Byte>) {
    HEADER <= |b| && LenOf(big, b) == 4 + |tail| <= |b| && b[4..4 + |tail|] == tail
  }

  lemma WrittenStep(big: bool, b: seq<Byte>, c: seq<Byte>, tail: seq<Byte>, more: seq<Byte>, at: nat, end: nat)
    requires Written(big, b, tail) && at == 4 + |tail| && end == at + |more| <= |c|
    requires HEADER <= |c| && LenOf(big, c) == end && Same(b, c, 4, at) && c[at..end] == more
    ensures Written(big, c, tail + more)
  {
    SameSlice(b, c, 4, at, 4, at);
    Adjacent(c, 4, at, end);
  }

  lemma AppendedHere(big: bool, b: seq<Byte>, a: Attr, c: seq<Byte>, at: nat, end: nat)
    requires HEADER <= |b| < 0x1_0000_0000 && HEADER <= LenOf(big, b) == at && at % 4 == 0
    requires end == at + 4 + |a.data| <= |b| && Need(big, b, a) <= |b| && c == Appended(big, b, a)
    ensures |c| == |b| && LenOf(big, c) == end && Same(b, c, 4, at) && c[at..end] == AttrBytes(big, a)
  {
    AlignIsLeast(at, at);
    AppendedBytes(big, b, a);
  }

  lemma SumAligned(x: nat, y: nat)
    requires x % 4 == 0 && y % 4 == 0
    ensures (x + y + 4) % 4 == 0 && Align(x) == x
  {
  }

  /** Behind a message that ends at a multiple of 4 the next attribute follows at once. */
  lemma WrittenMore(big: bool, b: seq<Byte>, tail: seq<Byte>, a: Attr, more: seq<Byte>, c: seq<Byte>, at: nat, end: nat)
    requires Written(big, b, tail) && at == 4 + |tail| && at % 4 == 0 && HEADER <= at && |b| < 0x1_0000_0000
    requires end == at + 4 + |a.data| == Need(big, b, a) <= |b| && more == AttrBytes(big, a) && c == Appended(big, b, a)
    ensures |more| == 4 + |a.data| && Written(big, c, tail + more)
  {
    AppendedHere(big, b, a, c, at, end);
    WrittenStep(big, b, c, tail, more, at, end);
  }

  lemma Adjacent(c: seq<Byte>, from: nat, at: nat, to: nat)
    requires from <= at <= to <= |c|
    ensures c[from..to] == c[from..at] + c[at..to]
  {
  }

  /** What is sent of such a buffer. */
  lemma CutIsWire(big: bool, b: seq<Byte>, tail: seq<Byte>, sent: seq<Byte>)
    requires Written(big, b, tail) && sent == b[..LenOf(big, b)]
    ensures sent == Enc32(big, 4 + |tail|) + tail
  {
    EncDec32(big, b[..4]);
    Adjacent(b, 0, 4, 4 + |tail|);
  }

  /** Sending only the first `nlmsg_len` bytes loses nothing. */
  lemma HoldsCut(big: bool, b: seq<Byte>, r: Request, sent: seq<Byte>)
    requires Holds(big, b, r) && sent == b[..LenOf(big, b)]
    ensures LenOf(big, sent) == |sent| && ReadRequest(big, sent, HEADER + |r.family|) == r
  {
    var head, end := HEADER + |r.family|, LenOf(big, b);
    assert sent[..4] == b[..4];
    SameRequest(big, b, sent, head);
    WalkSplits(big, b, sent, Align(head), end, end, Walk(big, sent, Align(end), end));
    AlignShift(0, end);
    WalkEnds(big, sent, Align(end), end);
  }

  /** The bytes sent for a request: their length field is their length, and they read back as `r`. */
  ghost predicate Sends(big: bool, sent: Option<seq<Byte>>, r: Request) {
    && sent.Some? && |sent.value| >= HEADER + |r.family|
    && LenOf(big, sent.value) == |sent.value|
    && ReadRequest(big, sent.value, HEADER + |r.family|) == r
  }

  /** The bytes sent, in full: the total length, then `tail`. */
  ghost predicate IsExactly(big: bool, sent: Option<seq<Byte>>, tail: seq<Byte>) {
    sent.Some? && |tail| < 0xFFFF && sent.value == Enc32(big, 4 + |tail|) + tail
  }

  function AddressFamily(f: Family): Byte {
    if f == V4 then AF_INET else AF_INET6
  }

  function AddressBytes(a: IpAddr): seq<Byte> {
    a.bytes[..if a.family == V4 then 4 else 16]
  }

  function Unsigned(x: I32): U32 {
    x % 0x1_0000_0000
  }

  class Client {
    const big: bool                 // the byte order of the host
    const pid: U32
    var seqNo: U32                  // `seq_`

    constructor (big: bool, pid: U32)
      ensures this.big == big && this.pid == pid && seqNo == 0
    {
      this.big, this.pid, seqNo := big, pid, 0;
    }

    /** A zeroed buffer with the two headers of a request. */
    method Begin(kind: U16, flags: U16, family: seq<Byte>) returns (buf: array<Byte>, ghost fields: seq<Byte>)
      requires |family| <= 16
      modifies this
      ensures seqNo == (old(seqNo) + 1) % 0x1_0000_0000 && fresh(buf)
      ensures fields == Fields(big, Request(kind, flags, seqNo, pid, family, [])) && 4 + |fields| == HEADER + |family|
      ensures Holds(big, buf[..], Request(kind, flags, seqNo, pid, family, [])) && Written(big, buf[..], fields)
    {
      buf := new Byte[SCRATCH](_ => 0);
      seqNo := (seqNo + 1) % 0x1_0000_0000;
      var len := Enc32(big, HEADER + |family|);
      var behind := Enc16(big, kind) + Enc16(big, flags) + Enc32(big, seqNo) + Enc32(big, pid) + family;
      WriteTwo(buf, len, behind);
      fields := behind;
      HoldsHeader(big, buf[..], Request(kind, flags, seqNo, pid, family, []));
    }

    /** The length field, and what is behind it. */
    static method WriteTwo(buf: array<Byte>, len: seq<Byte>, behind: seq<Byte>)
      requires |len| == 4 && 4 + |behind| <= buf.Length
      modifies buf
      ensures buf[..][..4] == len && buf[..][4..4 + |behind|] == behind
    {
      ghost var was := buf[..];
      Store(buf, 4, behind);
      ghost var mid := buf[..];
      Store(buf, 0, len);
      PatchedBytes(was, 4, behind);
      PatchedBytes(mid, 0, len);
      SameSlice(mid, buf[..], 4, buf.Length, 4, 4 + |behind|);
    }

    method PutAttr(buf: array<Byte>, a: Attr, ghost r: Request, ghost tail: seq<Byte>)
      returns (ok: bool, ghost now: seq<Byte>)
      requires Holds(big, buf[..], r) && Written(big, buf[..], tail) && (4 + |tail|) % 4 == 0 && HEADER <= 4 + |tail|
      modifies buf
      ensures 4 + |tail| + 4 + |a.data| <= buf.Length ==> ok
      ensures ok ==> Holds(big, buf[..], r.(attrs := r.attrs + [a]))
      ensures ok ==> now == tail + AttrBytes(big, a) && |now| == |tail| + 4 + |a.data| && Written(big, buf[..], now)
    {
      ghost var was := buf[..];
      SumAligned(4 + |tail|, 0);
      now := tail + AttrBytes(big, a);
      ok := NlaPut(big, buf, a.kind, a.data);
      if ok {
        HoldsMore(big, was, r, a);
        WrittenMore(big, was, tail, a, AttrBytes(big, a), buf[..], 4 + |tail|, 4 + |tail| + 4 + |a.data|);
      }
    }

    /** The argument of `talk`. */
    method Cut(buf: array<Byte>, ghost r: Request, ghost tail: seq<Byte>) returns (sent: Option<seq<Byte>>)
      requires Holds(big, buf[..], r) && Written(big, buf[..], tail)
      ensures Sends(big, sent, r) && IsExactly(big, sent, tail)
    {
      assert buf[..][..4] == buf[..4];
      var len := Dec32(big, buf[..4]);
      HoldsCut(big, buf[..], r, buf[..len]);
      CutIsWire(big, buf[..], tail, buf[..len]);
      return Some(buf[..len]);
    }

    /** The last attribute of a request. */
    method LastAttr(buf: array<Byte>, a: Attr, ghost r: Request, ghost tail: seq<Byte>)
      returns (sent: Option<seq<Byte>>)
      requires Holds(big, buf[..], r) && Written(big, buf[..], tail)
      requires (4 + |tail|) % 4 == 0 && HEADER <= 4 + |tail| <= 64 && |a.data| <= 16
      modifies buf
      ensures Sends(big, sent, r.(attrs := r.attrs + [a])) && IsExactly(big, sent, tail + AttrBytes(big, a))
    {
      var ok;
      ghost var now;
      ok, now := PutAttr(buf, a, r, tail);
      if !ok {
        return None;
      }
      sent := Cut(buf, r.(attrs := r.attrs + [a]), now);
    }

    method OneAttr(buf: array<Byte>, a: Attr, ghost r: Request, ghost tail: seq<Byte>)
      returns (sent: Option<seq<Byte>>)
      requires Holds(big, buf[..], r) && Written(big, buf[..], tail) && r.attrs == []
      requires (4 + |tail|) % 4 == 0 && HEADER <= 4 + |tail| <= 64 && |a.data| <= 16
      modifies buf
      ensures Sends(big, sent, r.(attrs := [a])) && IsExactly(big, sent, tail + AttrBytes(big, a))
    {
      assert r.attrs + [a] == [a];
      sent := LastAttr(buf, a, r, tail);
    }

    /** The two attributes of `add_addr` and `add_route`, put behind each other. */
    method TwoAttrs(buf: array<Byte>, a: Attr, b: Attr, ghost r: Request, ghost tail: seq<Byte>)
      returns (sent: Option<seq<Byte>>)
      requires Holds(big, buf[..], r) && Written(big, buf[..], tail) && r.attrs == []
      requires (4 + |tail|) % 4 == 0 && HEADER <= 4 + |tail| <= 32
      requires |a.data| % 4 == 0 && |a.data| <= 16 && |b.data| <= 16
      modifies buf
      ensures Sends(big, sent, r.(attrs := [a, b])) && IsExactly(big, sent, tail + AttrBytes(big, a) + AttrBytes(big, b))
    {
      assert r.attrs + [a] + [b] == [a, b];
      SumAligned(4 + |tail|, |a.data|);
      var ok;
      ghost var now;
      ok, now := PutAttr(buf, a, r, tail);
      if !ok {
        return None;
      }
      sent := LastAttr(buf, b, r.(attrs := r.attrs + [a]), now);
    }

    /** `set_mtu`: always sent, one attribute. */
    method SetMtu(ifindex: I32, mtu: U32) returns (sent: Option<seq<Byte>>)
      modifies this
      ensures seqNo == (old(seqNo) + 1) % 0x1_0000_0000
      ensures var r := Request(16, 0x5, seqNo, pid, [0, 0, 0, 0] + Enc32(big, Unsigned(ifindex)) + seq(8, _ => 0),
                               [Attr(4, Enc32(big, mtu))]);
              Sends(big, sent, r) && IsExactly(big, sent, Fields(big, r) + AttrBytes(big, r.attrs[0]))
    {
      var family := [AF_UNSPEC, 0, 0, 0] + Enc32(big, Unsigned(ifindex)) + seq(8, _ => 0);
      var buf;
      ghost var fields;
      buf, fields := Begin(RTM_NEWLINK, NLM_F_REQUEST + NLM_F_ACK, family);
      assert |family| == 16;
      sent := OneAttr(buf, Attr(IFLA_MTU, Enc32(big, mtu)),
                      Request(RTM_NEWLINK, NLM_F_REQUEST + NLM_F_ACK, seqNo, pid, family, []), fields);
    }

    /** `add_addr`: always sent, the address as local and as peer address. */
    method AddAddr(ifindex: I32, addr: Cidr) returns (sent: Option<seq<Byte>>)
      requires ValidCidr(addr)
      modifies this
      ensures seqNo == (old(seqNo) + 1) % 0x1_0000_0000
      ensures var data := addr.addr.bytes[..if addr.addr.family == V4 then 4 else 16];
              var r := Request(20, 0x505, seqNo, pid,
                               [if addr.addr.family == V4 then 2 else 10, addr.prefixLen, 0, 0]
                               + Enc32(big, Unsigned(ifindex)),
                               [Attr(2, data), Attr(1, data)]);
              Sends(big, sent, r)
              && IsExactly(big, sent, Fields(big, r) + AttrBytes(big, r.attrs[0]) + AttrBytes(big, r.attrs[1]))
    {
      var flags := NLM_F_REQUEST + NLM_F_ACK + NLM_F_CREATE + NLM_F_REPLACE;
      var family := [AddressFamily(addr.addr.family), addr.prefixLen, 0, 0] + Enc32(big, Unsigned(ifindex));
      var data := AddressBytes(addr.addr);
      var buf;
      ghost var fields;
      buf, fields := Begin(RTM_NEWADDR, flags, family);
      assert |family| == 8 && (|data| == 4 || |data| == 16);
      sent := TwoAttrs(buf, Attr(IFA_LOCAL, data), Attr(IFA_ADDRESS, data),
                       Request(RTM_NEWADDR, flags, seqNo, pid, family, []), fields);
    }

    /** `add_route`: always sent, the destination and the outgoing interface. */
    method AddRoute(ifindex: I32, dst: Cidr) returns (sent: Option<seq<Byte>>)
      requires ValidCidr(dst)
      modifies this
      ensures seqNo == (old(seqNo) + 1) % 0x1_0000_0000
      ensures var data := dst.addr.bytes[..if dst.addr.family == V4 then 4 else 16];
              var r := Request(24, 0x505, seqNo, pid,
                               [if dst.addr.family == V4 then 2 else 10, dst.prefixLen, 0, 0, 254, 3, 253, 1, 0, 0, 0, 0],
                               [Attr(1, data), Attr(4, Enc32(big, Unsigned(ifindex)))]);
              Sends(big, sent, r)
              && IsExactly(big, sent, Fields(big, r) + AttrBytes(big, r.attrs[0]) + AttrBytes(big, r.attrs[1]))
    {
      var flags := NLM_F_REQUEST + NLM_F_ACK + NLM_F_CREATE + NLM_F_REPLACE;
      var family := [AddressFamily(dst.addr.family), dst.prefixLen, 0, 0,
                     RT_TABLE_MAIN, RTPROT_BOOT, RT_SCOPE_LINK, RTN_UNICAST, 0, 0, 0, 0];
      var data := AddressBytes(dst.addr);
      var buf;
      ghost var fields;
      buf, fields := Begin(RTM_NEWROUTE, flags, family);
      assert |family| == 12 && (|data| == 4 || |data| == 16);
      sent := TwoAttrs(buf, Attr(RTA_DST, data), Attr(RTA_OIF, Enc32(big, Unsigned(ifindex))),
                       Request(RTM_NEWROUTE, flags, seqNo, pid, family, []), fields);
    }
  }
}
