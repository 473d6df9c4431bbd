/**
  Route netlink messages (RFC 3549, section 2.2): the attribute builder works in place on a byte
  buffer; a reader that walks the attributes, defined independently of it, gets back exactly what was
  put in. The byte order is a parameter, since the code writes in the order of the host.
 */
module Netlink {
  import opened BitOps

  const SCRATCH: nat := 4096
  const HEADER: nat := 16           // sizeof(nlmsghdr)

  type U16 = x: int | 0 <= x < 0x1_0000
  type U32 = x: int | 0 <= x < 0x1_0000_0000

  // ---------------------------------------------------------------- numbers in memory

  function Enc16(big: bool, x: U16): (b: seq<Byte>)
    ensures |b| == 2
  {
    if big then [x / 0x100, x % 0x100] else [x % 0x100, x / 0x100]
  }

  function Dec16(big: bool, b: seq<Byte>): U16
    requires |b| == 2
  {
    if big then (b[0] as int) * 0x100 + b[1] else (b[1] as int) * 0x100 + b[0]
  }

  function Enc32(big: bool, x: U32): (b: seq<Byte>)
    ensures |b| == 4
  {
    if big then Enc16(big, x / 0x1_0000) + Enc16(big, x % 0x1_0000)
    else Enc16(big, x % 0x1_0000) + Enc16(big, x / 0x1_0000)
  }

  function Dec32(big: bool, b: seq<Byte>): U32
    requires |b| == 4
  {
    if big then Dec16(big, b[..2]) * 0x1_0000 + Dec16(big, b[2..])
    else Dec16(big, b[2..]) * 0x1_0000 + Dec16(big, b[..2])
  }

  lemma DecEnc16(big: bool, x: U16)
    ensures Dec16(big, Enc16(big, x)) == x
  {
  }

  lemma DecEnc32(big: bool, x: U32)
    ensures Dec32(big, Enc32(big, x)) == x
  {
    var hi, lo := Enc16(big, x / 0x1_0000), Enc16(big, x % 0x1_0000);
    DecEnc16(big, x / 0x1_0000);
    DecEnc16(big, x % 0x1_0000);
    assert (hi + lo)[..2] == hi && (hi + lo)[2..] == lo;
    assert (lo + hi)[..2] == lo && (lo + hi)[2..] == hi;
  }

  lemma EncDec16(big: bool, b: seq<Byte>)
    requires |b| == 2
    ensures Enc16(big, Dec16(big, b)) == b
  {
  }

  lemma Halves(hi: U16, lo: U16)
    ensures (hi * 0x1_0000 + lo) / 0x1_0000 == hi && (hi * 0x1_0000 + lo) % 0x1_0000 == lo
  {
  }

  lemma EncHalves(big: bool, hi: U16, lo: U16, x: U32)
    requires x == (hi as int) * 0x1_0000 + lo
    ensures Enc32(big, x) == if big then Enc16(big, hi) + Enc16(big, lo) else Enc16(big, lo) + Enc16(big, hi)
  {
    Halves(hi, lo);
  }

  lemma EncDec32(big: bool, b: seq<Byte>)
    requires |b| == 4
    ensures Enc32(big, Dec32(big, b)) == b
  {
    var front, back := b[..2], b[2..];
    EncDec16(big, front);
    EncDec16(big, back);
    assert b == front + back;
    var f, k := Dec16(big, front), Dec16(big, back);
    EncHalves(big, if big then f else k, if big then k else f, Dec32(big, b));
  }

  /** NLMSG_ALIGN and RTA_ALIGN. */
  function Align(n: nat): nat {
    (n + 3) / 4 * 4
  }

  /** The least multiple of 4 that is not below `n`. */
  lemma AlignIsLeast(n: nat, m: nat)
    ensures Align(n) % 4 == 0 && n <= Align(n) < n + 4
    ensures m % 4 == 0 && n <= m ==> Align(n) <= m
  {
  }

  /** The bytes of a number, the low one first on a little-endian host and last on a big-endian one. */
  lemma ByteOrder16(big: bool, x: U16)
    ensures var b := Enc16(big, x); if big then b == [x / 256, x % 256] else b == [x % 256, x / 256]
  {
  }

  lemma ByteOrder32(big: bool, x: U32)
    ensures var b := Enc32(big, x);
            x == if big then 16777216 * (b[0] as int) + 65536 * (b[1] as int) + 256 * (b[2] as int) + b[3]
                 else 16777216 * (b[3] as int) + 65536 * (b[2] as int) + 256 * (b[1] as int) + b[0]
  {
    var hi, lo := x / 0x1_0000, x % 0x1_0000;
    ByteOrder16(big, hi);
    ByteOrder16(big, lo);
    assert x == hi * 65536 + lo && hi == 256 * (hi / 256) + hi % 256 && lo == 256 * (lo / 256) + lo % 256;
  }

  /** RTA_LENGTH. */
  function RtaLength(len: nat): nat {
    4 + len
  }

  // ---------------------------------------------------------------- the reader

  datatype Attr = Attr(kind: U16, data: seq<Byte>)

  function LenOf(big: bool, b: seq<Byte>): U32
    requires |b| >= HEADER
  {
    Dec32(big, b[..4])
  }

  /** RTA_OK: a whole attribute stands at `pos`. */
  predicate RtaOk(big: bool, b: seq<Byte>, pos: nat, end: nat)
    requires end <= |b|
  {
    pos + 4 <= end && 4 <= Dec16(big, b[pos..pos + 2]) <= end - pos
  }

  function AttrAt(big: bool, b: seq<Byte>, pos: nat, end: nat): Attr
    requires end <= |b| && RtaOk(big, b, pos, end)
  {
    Attr(Dec16(big, b[pos + 2..pos + 4]), b[pos + 4..pos + Dec16(big, b[pos..pos + 2])])
  }

  /** RTA_NEXT. */
  function After(big: bool, b: seq<Byte>, pos: nat, end: nat): (next: nat)
    requires end <= |b| && RtaOk(big, b, pos, end)
    ensures next > pos
  {
    pos + Align(Dec16(big, b[pos..pos + 2]))
  }

  /** The attributes a reader finds from `pos`. */
  function Walk(big: bool, b: seq<Byte>, pos: nat, end: nat): seq<Attr>
    requires end <= |b|
    decreases end - pos
  {
    if !RtaOk(big, b, pos, end) then []
    else [AttrAt(big, b, pos, end)] + Walk(big, b, After(big, b, pos, end), end)
  }

  /** The walk uses up the message: attributes follow each other without gap, overlap or remainder. */
  predicate Complete(big: bool, b: seq<Byte>, pos: nat, end: nat)
    requires end <= |b|
    decreases end - pos
  {
    if pos >= end then pos == Align(end)
    else RtaOk(big, b, pos, end) && Complete(big, b, After(big, b, pos, end), end)
  }

  // ---------------------------------------------------------------- the writer

  function Patched(b: seq<Byte>, at: nat, x: seq<Byte>): (r: seq<Byte>)
    requires at + |x| <= |b|
    ensures |r| == |b|
  {
    b[..at] + x + b[at + |x|..]
  }

  lemma PatchAdjacent(b: seq<Byte>, at: nat, x: seq<Byte>, y: seq<Byte>)
    requires at + |x| + |y| <= |b|
    ensures Patched(Patched(b, at, x), at + |x|, y) == Patched(b, at, x + y)
    ensures Patched(Patched(b, at + |x|, y), at, x) == Patched(b, at, x + y)
  {
  }

  method Store(buf: array<Byte>, at: nat, x: seq<Byte>)
    requires at + |x| <= buf.Length
    modifies buf
    ensures buf[..] == Patched(old(buf[..]), at, x)
  {
    forall i | 0 <= i < |x| {
      buf[at + i] := x[i];
    }
  }

  /** The image of one attribute; `rta_len` has 16 bits. */
  function AttrBytes(big: bool, a: Attr): seq<Byte> {
    Enc16(big, RtaLength(|a.data|) % 0x1_0000) + Enc16(big, a.kind) + a.data
  }

  function Need(big: bool, b: seq<Byte>, a: Attr): nat
    requires |b| >= HEADER
  {
    Align(LenOf(big, b)) + RtaLength(|a.data|)
  }

  /** The buffer after `a` was appended. */
  function Appended(big: bool, b: seq<Byte>, a: Attr): (r: seq<Byte>)
    requires HEADER <= |b| < 0x1_0000_0000 && Need(big, b, a) <= |b|
    ensures |r| == |b|
  {
    Patched(Patched(b, Align(LenOf(big, b)), AttrBytes(big, a)), 0, Enc32(big, Need(big, b, a)))
  }

  /** One call of `nla_put`, as a step on the bytes. */
  function Put(big: bool, b: seq<Byte>, a: Attr): (r: seq<Byte>)
    requires HEADER <= |b| < 0x1_0000_0000
    ensures |r| == |b|
  {
    if Need(big, b, a) <= |b| then Appended(big, b, a) else b
  }

  method StoreAttr(big: bool, buf: array<Byte>, at: nat, kind: U16, data: seq<Byte>)
    requires at + RtaLength(|data|) <= buf.Length
    modifies buf
    ensures buf[..] == Patched(old(buf[..]), at, AttrBytes(big, Attr(kind, data)))
  {
    ghost var was := buf[..];
    var len := Enc16(big, RtaLength(|data|) % 0x1_0000);
    Store(buf, at + 2, Enc16(big, kind));
    Store(buf, at, len);
    PatchAdjacent(was, at, len, Enc16(big, kind));
    Store(buf, at + 4, data);
    PatchAdjacent(was, at, len + Enc16(big, kind), data);
  }

  /** `nla_put`. On failure nothing has changed. */
  method NlaPut(big: bool, buf: array<Byte>, kind: U16, data: seq<Byte>) returns (ok: bool)
    requires HEADER <= buf.Length < 0x1_0000_0000
    modifies buf
    ensures ok <==> Align(LenOf(big, old(buf[..]))) + 4 + |data| <= buf.Length
    ensures buf[..] == Put(big, old(buf[..]), Attr(kind, data))
  {
    assert buf[..][..4] == buf[..4];
    var aligned := Align(Dec32(big, buf[..4]));
    var need := aligned + RtaLength(|data|);
    if need > buf.Length {
      return false;
    }
    StoreAttr(big, buf, aligned, kind, data);
    Store(buf, 0, Enc32(big, need));
    return true;
  }

  // ---------------------------------------------------------------- what the reader gets back

  /**
    A buffer holding a message: `head` bytes of headers, then attributes that fill it up.
   */
  ghost predicate WellFormed(big: bool, b: seq<Byte>, head: nat) {
    && HEADER <= |b| < 0x1_0000_0000 && HEADER <= head <= LenOf(big, b) <= |b|
    && Complete(big, b, Align(head), LenOf(big, b))
  }

  /** Both buffers hold the same bytes from `from` up to `to`. */
  ghost predicate Same(b: seq<Byte>, c: seq<Byte>, from: nat, to: nat) {
    to <= |b| && to <= |c| && forall i | from <= i < to :: b[i] == c[i]
  }

  lemma SameSlice(b: seq<Byte>, c: seq<Byte>, from: nat, to: nat, lo: nat, hi: nat)
    requires Same(b, c, from, to) && from <= lo <= hi <= to
    ensures b[lo..hi] == c[lo..hi]
  {
  }

  lemma SameAttr(big: bool, b: seq<Byte>, c: seq<Byte>, pos: nat, end: nat, end': nat)
    requires end <= |b| && end <= end' <= |c| && RtaOk(big, b, pos, end) && Same(b, c, pos, end)
    ensures RtaOk(big, c, pos, end') && AttrAt(big, c, pos, end') == AttrAt(big, b, pos, end)
    ensures After(big, c, pos, end') == After(big, b, pos, end)
  {
    SameSlice(b, c, pos, end, pos, pos + 2);
    SameSlice(b, c, pos, end, pos + 2, pos + 4);
    SameSlice(b, c, pos, end, pos + 4, pos + Dec16(big, b[pos..pos + 2]));
  }

  lemma WalkStep(big: bool, b: seq<Byte>, pos: nat, end: nat)
    requires end <= |b| && RtaOk(big, b, pos, end)
    ensures Walk(big, b, pos, end) == [AttrAt(big, b, pos, end)] + Walk(big, b, After(big, b, pos, end), end)
    ensures Complete(big, b, pos, end) <==> Complete(big, b, After(big, b, pos, end), end)
  {
  }

  lemma WalkEnds(big: bool, b: seq<Byte>, pos: nat, end: nat)
    requires end <= |b| && end < pos + 4
    ensures Walk(big, b, pos, end) == []
  {
  }

  /** One attribute of the walk below: `rest` is what both walks end with. */
  lemma SplitStep(big: bool, b: seq<Byte>, c: seq<Byte>, pos: nat, end: nat, end': nat, rest: seq<Attr>)
    requires end <= |b| && end <= end' <= |c| && RtaOk(big, b, pos, end) && Same(b, c, pos, end)
    requires var next := After(big, b, pos, end); Walk(big, c, next, end') == Walk(big, b, next, end) + rest
    ensures Walk(big, c, pos, end') == Walk(big, b, pos, end) + rest
  {
    SameAttr(big, b, c, pos, end, end');
    WalkStep(big, b, pos, end);
    WalkStep(big, c, pos, end');
  }

  /** A longer message that agrees with a complete one is read as that one and then the rest. */
  lemma {:induction false} WalkSplits(big: bool, b: seq<Byte>, c: seq<Byte>, pos: nat, end: nat, end': nat,
                                      rest: seq<Attr>)
    requires end <= |b| && end <= end' <= |c| && Complete(big, b, pos, end) && Same(b, c, pos, end)
    requires rest == Walk(big, c, Align(end), end')
    ensures Walk(big, c, pos, end') == Walk(big, b, pos, end) + rest
    decreases end - pos
  {
    if pos < end {
      WalkSplits(big, b, c, After(big, b, pos, end), end, end', rest);
      SplitStep(big, b, c, pos, end, end', rest);
    } else {
      WalkEnds(big, b, pos, end);
    }
  }

  lemma {:induction false} CompleteSplits(big: bool, b: seq<Byte>, c: seq<Byte>, pos: nat, end: nat, end': nat)
    requires end <= |b| && end <= end' <= |c| && Complete(big, b, pos, end) && Same(b, c, pos, end)
    ensures Complete(big, c, pos, end') <==> Complete(big, c, Align(end), end')
    decreases end - pos
  {
    if pos < end {
      SameAttr(big, b, c, pos, end, end');
      WalkStep(big, c, pos, end');
      CompleteSplits(big, b, c, After(big, b, pos, end), end, end');
    }
  }

  lemma AlignShift(at: nat, n: nat)
    requires at % 4 == 0
    ensures Align(at + n) == at + Align(n) && n <= Align(n)
    ensures Align(n) % 4 == 0
  {
  }

  lemma SliceOfSlice(c: seq<Byte>, at: nat, end: nat, lo: nat, hi: nat)
    requires at <= end <= |c| && lo <= hi <= end - at
    ensures c[at..end][lo..hi] == c[at + lo..at + hi]
  {
    forall i | 0 <= i < hi - lo
      ensures c[at..end][lo..hi][i] == c[at + lo..at + hi][i]
    {
      assert c[at..end][lo..hi][i] == c[at..end][lo + i];
    }
  }

  lemma TakenApart(c: seq<Byte>, at: nat, end: nat, x: seq<Byte>, y: seq<Byte>, z: seq<Byte>)
    requires at <= end <= |c| && |x| == 2 && |y| == 2 && c[at..end] == x + y + z
    ensures c[at..at + 2] == x && c[at + 2..at + 4] == y && c[at + 4..end] == z
  {
    SliceOfSlice(c, at, end, 0, 2);
    SliceOfSlice(c, at, end, 2, 4);
    SliceOfSlice(c, at, end, 4, end - at);
    var image := x + y + z;
    assert image[0..2] == x && image[2..4] == y && image[4..end - at] == z;
  }

  /** The image of an attribute, taken apart. */
  lemma Image(big: bool, c: seq<Byte>, at: nat, end: nat, a: Attr)
    requires at + 4 <= end == at + RtaLength(|a.data|) <= |c|
    requires c[at..end] == AttrBytes(big, a)
    ensures Dec16(big, c[at..at + 2]) == RtaLength(|a.data|) % 0x1_0000
    ensures Dec16(big, c[at + 2..at + 4]) == a.kind
    ensures c[at + 4..end] == a.data
  {
    var field := RtaLength(|a.data|) % 0x1_0000;
    TakenApart(c, at, end, Enc16(big, field), Enc16(big, a.kind), a.data);
    DecEnc16(big, field);
    DecEnc16(big, a.kind);
  }

  lemma LastAttr(big: bool, c: seq<Byte>, at: nat, end: nat)
    requires end <= |c| && RtaOk(big, c, at, end) && After(big, c, at, end) == Align(end) >= end
    ensures Walk(big, c, at, end) == [AttrAt(big, c, at, end)] && Complete(big, c, at, end)
  {
    WalkStep(big, c, at, end);
    WalkEnds(big, c, After(big, c, at, end), end);
  }

  /** An attribute whose length fits 16 bits is read back. */
  lemma NewAttr(big: bool, c: seq<Byte>, at: nat, end: nat, a: Attr)
    requires at % 4 == 0 && end == at + RtaLength(|a.data|) <= |c| && RtaLength(|a.data|) < 0x1_0000
    requires c[at..end] == AttrBytes(big, a)
    ensures Walk(big, c, at, end) == [a] && Complete(big, c, at, end)
  {
    Image(big, c, at, end, a);
    AlignShift(at, RtaLength(|a.data|));
    assert Dec16(big, c[at..at + 2]) == RtaLength(|a.data|);
    LastAttr(big, c, at, end);
  }

  /** One whose length does not fit is not. */
  lemma TruncatedAttr(big: bool, c: seq<Byte>, at: nat, end: nat, a: Attr)
    requires end == at + RtaLength(|a.data|) <= |c| && RtaLength(|a.data|) >= 0x1_0000
    requires c[at..end] == AttrBytes(big, a)
    ensures Walk(big, c, at, end) != [a]
  {
    Image(big, c, at, end, a);
    if RtaOk(big, c, at, end) {
      WalkStep(big, c, at, end);
      assert |AttrAt(big, c, at, end).data| < |a.data|;
      assert Walk(big, c, at, end)[0] == AttrAt(big, c, at, end);
    } else {
      assert Walk(big, c, at, end) == [];
    }
  }

  lemma ReadExactlyIfFits(big: bool, c: seq<Byte>, at: nat, end: nat, a: Attr)
    requires at % 4 == 0 && end == at + RtaLength(|a.data|) <= |c| && c[at..end] == AttrBytes(big, a)
    ensures Walk(big, c, at, end) == [a] <==> RtaLength(|a.data|) < 0x1_0000
    ensures RtaLength(|a.data|) < 0x1_0000 ==> Complete(big, c, at, end)
  {
    if RtaLength(|a.data|) < 0x1_0000 {
      NewAttr(big, c, at, end, a);
    } else {
      TruncatedAttr(big, c, at, end, a);
    }
  }

  lemma PatchedBytes(b: seq<Byte>, at: nat, x: seq<Byte>)
    requires at + |x| <= |b|
    ensures var c := Patched(b, at, x);
            c[at..at + |x|] == x && Same(b, c, 0, at) && Same(b, c, at + |x|, |b|)
  {
  }

  /** Where an append writes: the length field, and one attribute behind all that was there. */
  lemma AppendedBytes(big: bool, b: seq<Byte>, a: Attr)
    requires HEADER <= |b| < 0x1_0000_0000 && HEADER <= LenOf(big, b) && Need(big, b, a) <= |b|
    ensures var c, at := Appended(big, b, a), Align(LenOf(big, b));
            && LenOf(big, c) == Need(big, b, a) && c[..4] == Enc32(big, Need(big, b, a))
            && c[at..Need(big, b, a)] == AttrBytes(big, a)
            && Same(b, c, 4, at) && Same(b, c, Need(big, b, a), |b|)
  {
    var at, end := Align(LenOf(big, b)), Need(big, b, a);
    var inner := Patched(b, at, AttrBytes(big, a));
    var c := Patched(inner, 0, Enc32(big, end));
    PatchedBytes(b, at, AttrBytes(big, a));
    PatchedBytes(inner, 0, Enc32(big, end));
    SameSlice(inner, c, 4, |b|, at, end);
    DecEnc32(big, end);
  }

  lemma AttributeBytes(big: bool, c: seq<Byte>, at: nat, end: nat, a: Attr)
    requires end == at + 4 + |a.data| <= |c| && |a.data| < 65532 && c[at..end] == AttrBytes(big, a)
    ensures c[at..at + 2] == Enc16(big, 4 + |a.data|) && c[at + 2..at + 4] == Enc16(big, a.kind) && c[at + 4..end] == a.data
  {
    var len := RtaLength(|a.data|) % 0x1_0000;
    assert len == 4 + |a.data|;
    TakenApart(c, at, end, Enc16(big, len), Enc16(big, a.kind), a.data);
  }

  /** The bytes of a successful call, in their places: length, type and data of the attribute, total length. */
  lemma AttributeOnTheWire(big: bool, b: seq<Byte>, a: Attr, c: seq<Byte>, at: nat, end: nat)
    requires HEADER <= |b| < 0x1_0000_0000 && HEADER <= LenOf(big, b) && at == Align(LenOf(big, b))
    requires end == at + 4 + |a.data| <= |b| && |a.data| < 65532 && c == Put(big, b, a)
    ensures |c| == |b|
    ensures c[at..at + 2] == Enc16(big, 4 + |a.data|) && c[at + 2..at + 4] == Enc16(big, a.kind) && c[at + 4..end] == a.data
    ensures c[..4] == Enc32(big, end) && Same(b, c, 4, at) && Same(b, c, end, |b|)
  {
    AppendedBytes(big, b, a);
    AttributeBytes(big, c, at, end, a);
  }

  lemma AppendedSplits(big: bool, b: seq<Byte>, head: nat, a: Attr, end: nat, end': nat, c: seq<Byte>)
    requires WellFormed(big, b, head) && Need(big, b, a) <= |b|
    requires end == LenOf(big, b) && end' == Need(big, b, a) && c == Appended(big, b, a)
    ensures LenOf(big, c) == end' <= |c| == |b| && Align(end) <= end' && c[Align(end)..end'] == AttrBytes(big, a)
    ensures Walk(big, c, Align(head), end') == Walk(big, b, Align(head), end) + Walk(big, c, Align(end), end')
    ensures Complete(big, c, Align(head), end') <==> Complete(big, c, Align(end), end')
  {
    AppendedBytes(big, b, a);
    AlignShift(0, end);
    WalkSplits(big, b, c, Align(head), end, end', Walk(big, c, Align(end), end'));
    CompleteSplits(big, b, c, Align(head), end, end');
  }

  /** The attributes a reader finds in the whole message. */
  function Attrs(big: bool, b: seq<Byte>, head: nat): seq<Attr>
    requires HEADER <= |b| && LenOf(big, b) <= |b|
  {
    Walk(big, b, Align(head), LenOf(big, b))
  }

  lemma Cancel(x: seq<Attr>, y: seq<Attr>, z: seq<Attr>)
    ensures x + y == x + z <==> y == z
  {
    assert (x + y)[|x|..] == y && (x + z)[|x|..] == z;
  }

  /**
    After a successful `nla_put` the reader finds what it found before and then the new attribute,
    exactly when the attribute's length fits the 16 bits of `rta_len`.
   */
  lemma AppendedIsRead(big: bool, b: seq<Byte>, head: nat, a: Attr, c: seq<Byte>)
    requires WellFormed(big, b, head) && Need(big, b, a) <= |b|
    requires c == Appended(big, b, a)
    ensures |c| == |b| && LenOf(big, c) <= |c|
    ensures Attrs(big, c, head) == Attrs(big, b, head) + [a] <==> RtaLength(|a.data|) < 0x1_0000
    ensures RtaLength(|a.data|) < 0x1_0000 ==> WellFormed(big, c, head)
  {
    var end, end' := LenOf(big, b), Need(big, b, a);
    AppendedSplits(big, b, head, a, end, end', c);
    AlignShift(0, end);
    AlignShift(0, end');
    ReadExactlyIfFits(big, c, Align(end), end', a);
    Cancel(Walk(big, b, Align(head), end), Walk(big, c, Align(end), end'), [a]);
  }

  // ---------------------------------------------------------------- any sequence of calls

  function PutAll(big: bool, b: seq<Byte>, attrs: seq<Attr>): (r: seq<Byte>)
    requires HEADER <= |b| < 0x1_0000_0000
    ensures |r| == |b|
    decreases |attrs|
  {
    if attrs == [] then b else PutAll(big, Put(big, b, attrs[0]), attrs[1..])
  }

  /** The calls that succeed. */
  function Successful(big: bool, b: seq<Byte>, attrs: seq<Attr>): seq<Attr>
    requires HEADER <= |b| < 0x1_0000_0000
    decreases |attrs|
  {
    if attrs == [] then []
    else (if Need(big, b, attrs[0]) <= |b| then [attrs[0]] else [])
         + Successful(big, Put(big, b, attrs[0]), attrs[1..])
  }

  /** The message in `c` extends the one in `b` by the attributes `more`. */
  ghost predicate Extends(big: bool, b: seq<Byte>, c: seq<Byte>, head: nat, more: seq<Attr>)
    requires WellFormed(big, b, head)
  {
    && |c| == |b| && WellFormed(big, c, head) && Same(b, c, 4, head)
    && Attrs(big, c, head) == Attrs(big, b, head) + more
  }

  lemma ExtendsTwice(big: bool, b: seq<Byte>, c: seq<Byte>, d: seq<Byte>, head: nat, x: seq<Attr>, y: seq<Attr>)
    requires WellFormed(big, b, head) && Extends(big, b, c, head, x) && Extends(big, c, d, head, y)
    ensures Extends(big, b, d, head, x + y)
  {
    assert Attrs(big, b, head) + x + y == Attrs(big, b, head) + (x + y);
  }

  lemma PutReads(big: bool, b: seq<Byte>, head: nat, a: Attr)
    requires WellFormed(big, b, head) && |b| < 0x1_0000
    ensures Extends(big, b, Put(big, b, a), head, if Need(big, b, a) <= |b| then [a] else [])
  {
    if Need(big, b, a) <= |b| {
      AppendedIsRead(big, b, head, a, Put(big, b, a));
      AppendedBytes(big, b, a);
    }
  }

  /**
    After any sequence of calls on a buffer of fewer than 2^16 bytes the reader finds exactly the
    attributes of the successful calls, in order; the length field never exceeds the buffer, and the
    header before the attributes is untouched.
   */
  lemma {:induction false} PutAllReads(big: bool, b: seq<Byte>, head: nat, attrs: seq<Attr>)
    requires WellFormed(big, b, head) && |b| < 0x1_0000
    ensures Extends(big, b, PutAll(big, b, attrs), head, Successful(big, b, attrs))
    decreases |attrs|
  {
    if attrs != [] {
      PutReads(big, b, head, attrs[0]);
      PutAllReads(big, Put(big, b, attrs[0]), head, attrs[1..]);
      ExtendsTwice(big, b, Put(big, b, attrs[0]), PutAll(big, b, attrs), head,
                   if Need(big, b, attrs[0]) <= |b| then [attrs[0]] else [],
                   Successful(big, Put(big, b, attrs[0]), attrs[1..]));
    }
  }
}
