/**
  IP addresses and CIDR prefixes: the bit view used by the routing trie, the byte-and-mask
  view used by `Cidr::contains`, and the proof that the two views agree.
 */
module Address {
  import opened BitOps
  import opened Wrappers

  type Bytes16 = s: seq<Byte> | |s| == 16 witness [0, 0, 0, 0, 0, 0, 0, 0, 0, 0, 0, 0, 0, 0, 0, 0]

  datatype Family = V4 | V6

  /** For V4 only the first four bytes are used. */
  datatype IpAddr = IpAddr(family: Family, bytes: Bytes16)

  datatype Cidr = Cidr(addr: IpAddr, prefixLen: nat)

  function MaxBits(f: Family): nat {
    if f == V4 then 32 else 128
  }

  /** The range documented beside `prefix_len` and enforced by `Cidr::parse`. */
  predicate ValidCidr(c: Cidr) {
    c.prefixLen <= MaxBits(c.addr.family)
  }

  // ---------------------------------------------------------------- bits

  /** Bit `k` of a byte, the most significant bit being bit 0. */
  predicate Bit(b: Byte, k: nat)
    requires k < 8
  {
    And(Shr(b, 7 - k), 1) == 1
  }

  /** `LpmTrie::bit_of`. */
  predicate BitOf(a: IpAddr, bit: nat)
    requires bit < 128
  {
    Bit(a.bytes[bit / 8], bit % 8)
  }

  /** The first `n` bits of an address, in network order. */
  function Prefix(a: IpAddr, n: nat): (p: seq<bool>)
    requires n <= 128
    ensures |p| == n
  {
    seq(n, i requires 0 <= i < n => BitOf(a, i))
  }

  /** What a CIDR means: same family, and the first `prefixLen` bits agree. */
  predicate Covers(c: Cidr, a: IpAddr)
    requires ValidCidr(c)
  {
    c.addr.family == a.family && Prefix(c.addr, c.prefixLen) == Prefix(a, c.prefixLen)
  }

  function BitValue(b: Byte, k: nat): nat
    requires k < 8
  {
    if Bit(b, k) then 1 else 0
  }

  /** What shifting leaves, in terms of the next bit and the next shift. */
  lemma NextBit(b: Byte, n: nat)
    requires n < 8
    ensures Shr(b, n) == 2 * Shr(b, n + 1) + BitValue(b, 7 - n)
  {
    BitIsParity(b, 7 - n);
  }

  lemma HighBits(b: Byte)
    ensures Shr(b, 4) == 8 * BitValue(b, 0) + 4 * BitValue(b, 1) + 2 * BitValue(b, 2) + BitValue(b, 3)
  {
    NextBit(b, 4);
    NextBit(b, 5);
    NextBit(b, 6);
    NextBit(b, 7);
    ByteShiftedOut(b);
  }

  lemma LowerBits(b: Byte)
    ensures b == 16 * Shr(b, 4) + 8 * BitValue(b, 4) + 4 * BitValue(b, 5) + 2 * BitValue(b, 6) + BitValue(b, 7)
  {
    NextBit(b, 0);
    NextBit(b, 1);
    NextBit(b, 2);
    NextBit(b, 3);
  }

  /** The bits of a byte by their weights: bit 0 is the most significant one. */
  lemma BitWeights(b: Byte)
    ensures b == 128 * BitValue(b, 0) + 64 * BitValue(b, 1) + 32 * BitValue(b, 2) + 16 * BitValue(b, 3)
               + 8 * BitValue(b, 4) + 4 * BitValue(b, 5) + 2 * BitValue(b, 6) + BitValue(b, 7)
  {
    HighBits(b);
    LowerBits(b);
  }

  lemma PrefixExtends(a: IpAddr, n: nat, m: nat)
    requires m <= n <= 128
    ensures Prefix(a, n)[..m] == Prefix(a, m)
  {
  }

  // ---------------------------------------------------------------- masks

  /** The leading `n` bits of two bytes agree. */
  ghost predicate Agree(a: Byte, b: Byte, n: nat)
    requires n <= 8
  {
    forall k: nat | k < n :: Bit(a, k) == Bit(b, k)
  }

  lemma AndOne(x: nat)
    ensures And(x, 1) == x % 2
  {
    assert And(x / 2, 0) == 0;
  }

  lemma BitIsParity(b: Byte, k: nat)
    requires k < 8
    ensures Bit(b, k) <==> Shr(b, 7 - k) % 2 == 1
  {
    AndOne(Shr(b, 7 - k));
  }

  lemma {:induction false} ShiftedAgrees(a: Byte, b: Byte, n: nat)
    requires n <= 8
    ensures Shr(a, 8 - n) == Shr(b, 8 - n) <==> Agree(a, b, n)
  {
    if n == 0 {
      ByteShiftedOut(a);
      ByteShiftedOut(b);
    } else {
      ShiftedAgrees(a, b, n - 1);
      BitIsParity(a, n - 1);
      BitIsParity(b, n - 1);
      assert Agree(a, b, n) <==> Agree(a, b, n - 1) && Bit(a, n - 1) == Bit(b, n - 1);
    }
  }

  lemma ByteShiftedOut(x: Byte)
    ensures Shr(x, 8) == 0
  {
    assert Shr(x, 1) == x / 2;
    assert Shr(x, 3) == x / 8;
    assert Shr(x, 5) == x / 32;
    assert Shr(x, 7) == x / 128;
  }

  lemma ByteAgrees(a: Byte, b: Byte)
    ensures a == b <==> Agree(a, b, 8)
  {
    ShiftedAgrees(a, b, 8);
  }

  const ALL_ONES: Byte := 0xFF

  /** The mask of `Cidr::contains`: ones shifted left by `s`, truncated to a byte. */
  function Mask(s: nat): Byte {
    And(Shl(ALL_ONES, s), ALL_ONES) % 0x100
  }

  lemma TruncatedShift(u: nat, s: nat, r: nat)
    requires u == Ones(s + r)
    ensures And(Shl(u, s), u) == Shl(Ones(r), s) <= u
  {
    AndShiftedOnes(u, s, r);
    AndOnesOnes(s + r, r);
    AndAtMost(Shl(u, s), u);
  }

  lemma TruncatedByteShift(s: nat, r: nat)
    requires s + r == 8
    ensures And(Shl(ALL_ONES, s), ALL_ONES) == Shl(Ones(r), s) <= ALL_ONES
  {
    ByteOnes();
    TruncatedShift(ALL_ONES, s, r);
  }

  lemma MaskIsShiftedOnes(s: nat, r: nat)
    requires s + r == 8
    ensures Mask(s) == Shl(Ones(r), s)
  {
    TruncatedByteShift(s, r);
  }

  lemma MaskedIsShifted(x: Byte, s: nat, r: nat)
    requires s + r == 8
    ensures And(x, Mask(s)) == Shl(Shr(x, s), s)
  {
    MaskIsShiftedOnes(s, r);
    AndShifted(x, Ones(r), s);
    AndOnes(Shr(x, s), r);
    ShrTwice(x, s, r);
    ByteShiftedOut(x);
    ShlZero(r);
  }

  /** Comparing two bytes under the mask compares exactly their leading `r` bits. */
  lemma MaskAgrees(a: Byte, b: Byte, s: nat, r: nat)
    requires s + r == 8
    ensures And(a, Mask(s)) == And(b, Mask(s)) <==> Agree(a, b, r)
  {
    MaskedIsShifted(a, s, r);
    MaskedIsShifted(b, s, r);
    ShlInjective(Shr(a, s), Shr(b, s), s);
    ShiftedAgrees(a, b, r);
  }

  method MaskedEqual(a: Byte, b: Byte, r: nat) returns (same: bool)
    requires 0 < r < 8
    ensures same <==> Agree(a, b, r)
  {
    var mask := Mask(8 - r);
    MaskAgrees(a, b, 8 - r, r);
    same := And(a, mask) == And(b, mask);
  }

  /** Agreement on whole bytes plus `r` bits of the next one, seen as agreement of prefixes. */
  lemma PrefixByBytes(a: IpAddr, b: IpAddr, i: nat, r: nat)
    requires i < 16 && 0 < r <= 8
    ensures Prefix(a, 8 * i + r) == Prefix(b, 8 * i + r)
            <==> Prefix(a, 8 * i) == Prefix(b, 8 * i) && Agree(a.bytes[i], b.bytes[i], r)
  {
    var n := 8 * i + r;
    if Prefix(a, n) == Prefix(b, n) {
      PrefixExtends(a, n, 8 * i);
      PrefixExtends(b, n, 8 * i);
      forall k: nat | k < r
        ensures Bit(a.bytes[i], k) == Bit(b.bytes[i], k)
      {
        assert Prefix(a, n)[8 * i + k] == BitOf(a, 8 * i + k);
        assert Prefix(b, n)[8 * i + k] == BitOf(b, 8 * i + k);
      }
    }
    if Prefix(a, 8 * i) == Prefix(b, 8 * i) && Agree(a.bytes[i], b.bytes[i], r) {
      forall k: nat | k < n
        ensures BitOf(a, k) == BitOf(b, k)
      {
        if k < 8 * i {
          assert Prefix(a, 8 * i)[k] == Prefix(b, 8 * i)[k];
        } else {
          assert k / 8 == i && k % 8 == k - 8 * i;
        }
      }
    }
  }

  /** `Cidr::contains`: whole bytes first, then the masked remainder. */
  method Contains(c: Cidr, other: IpAddr) returns (r: bool)
    requires ValidCidr(c)
    ensures r <==> Covers(c, other)
  {
    if other.family != c.addr.family {
      return false;
    }
    var bytes := c.prefixLen / 8;
    var i := 0;
    while i < bytes
      invariant i <= bytes
      invariant Prefix(c.addr, 8 * i) == Prefix(other, 8 * i)
    {
      PrefixByBytes(c.addr, other, i, 8);
      ByteAgrees(c.addr.bytes[i], other.bytes[i]);
      if c.addr.bytes[i] != other.bytes[i] {
        PrefixExtends(c.addr, c.prefixLen, 8 * i + 8);
        PrefixExtends(other, c.prefixLen, 8 * i + 8);
        return false;
      }
      i := i + 1;
    }
    if c.prefixLen % 8 != 0 {
      var same := MaskedEqual(c.addr.bytes[bytes], other.bytes[bytes], c.prefixLen % 8);
      PrefixByBytes(c.addr, other, bytes, c.prefixLen % 8);
      if !same {
        return false;
      }
    }
    return true;
  }

  // ---------------------------------------------------------------- prefix length text

  predicate AllDigits(s: string) {
    forall i | 0 <= i < |s| :: '0' <= s[i] <= '9'
  }

  function Decimal(s: string): nat
    requires AllDigits(s)
  {
    if s == [] then 0 else 10 * Decimal(s[..|s| - 1]) + (s[|s| - 1] as int - '0' as int)
  }

  /** Decimal, most significant digit first. */
  lemma DecimalExamples()
    ensures Decimal("") == 0 && Decimal("7") == 7 && Decimal("24") == 24 && Decimal("128") == 128
  {
    assert "7"[..0] == "" && "24"[..1] == "2" && "2"[..0] == "" && "128"[..2] == "12" && "12"[..1] == "1" && "1"[..0] == "";
  }

  lemma {:induction false} DecimalGrows(s: string, i: nat)
    requires AllDigits(s) && i <= |s|
    ensures Decimal(s[..i]) <= Decimal(s)
    decreases |s| - i
  {
    if i < |s| {
      assert s[..i + 1][..i] == s[..i];
      DecimalGrows(s, i + 1);
    } else {
      assert s[..i] == s;
    }
  }

  /**
    The prefix-length loop of `Cidr::parse`. The running value is cut off above 128, so it never
    leaves 32 bits whatever the length of the text; the empty text reads as 0.
   */
  method ParsePrefixLen(s: string, family: Family) returns (r: Option<nat>)
    ensures r == if AllDigits(s) && Decimal(s) <= (if family == V4 then 32 else 128) then Some(Decimal(s)) else None
  {
    var plen := 0;
    var i := 0;
    while i < |s|
      invariant i <= |s|
      invariant AllDigits(s[..i]) && plen == Decimal(s[..i]) <= 128
    {
      if s[i] < '0' || s[i] > '9' {
        return None;
      }
      assert s[..i + 1][..i] == s[..i];
      plen := plen * 10 + (s[i] as int - '0' as int);
      if plen > 128 {
        if AllDigits(s) {
          DecimalGrows(s, i + 1);
        }
        return None;
      }
      i := i + 1;
    }
    assert s[..i] == s;
    if plen > MaxBits(family) {
      return None;
    }
    return Some(plen);
  }
}
