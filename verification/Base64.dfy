/**
  Strict base64 (RFC 4648, sections 3.3, 3.5 and 4): the decoder of the tunnel secret, which texts it
  accepts, and its round trips with an encoder that exists only here, as a specification.
 */
module Base64 {
  import opened BitOps
  import opened CString

  const PAD: Char := '='

  // ---------------------------------------------------------------- the alphabet

  const UPPER: string := "ABCDEFGHIJKLMNOPQRSTUVWXYZ"
  const LOWER: string := "abcdefghijklmnopqrstuvwxyz"
  const DIGITS: string := "0123456789"
  const ALPHABET: string := UPPER + LOWER + DIGITS + "+/"

  /** The value of a symbol, -1 for anything else. */
  function Value(c: Char): (v: int)
    ensures -1 <= v < 64
  {
    if 'A' <= c <= 'Z' then c as int - 'A' as int
    else if 'a' <= c <= 'z' then c as int - 'a' as int + 26
    else if '0' <= c <= '9' then c as int - '0' as int + 52
    else if c == '+' then 62
    else if c == '/' then 63
    else -1
  }

  function Symbol(v: nat): (c: Char)
    requires v < 64
    ensures Value(c) == v
  {
    if v < 26 then ('A' as int + v) as char
    else if v < 52 then ('a' as int + v - 26) as char
    else if v < 62 then ('0' as int + v - 52) as char
    else if v == 62 then '+' else '/'
  }

  lemma Letters()
    ensures |UPPER| == 26 && forall i: nat | i < 26 :: UPPER[i] as int == 'A' as int + i
    ensures |LOWER| == 26 && forall i: nat | i < 26 :: LOWER[i] as int == 'a' as int + i
    ensures |DIGITS| == 10 && forall i: nat | i < 10 :: DIGITS[i] as int == '0' as int + i
  {
  }

  lemma AlphabetInOrder(v: nat)
    requires v < 64
    ensures |ALPHABET| == 64 && ALPHABET[v] == Symbol(v)
  {
    Letters();
  }

  /** The value of a symbol is its place in the alphabet; no other character has one. */
  lemma ValueIsPlace(c: Char, v: nat)
    requires v < 64
    ensures |ALPHABET| == 64 && (ALPHABET[v] == c <==> Value(c) == v)
  {
    AlphabetInOrder(v);
    if Value(c) == v {
      SymbolOfValue(c);
    }
  }

  lemma SymbolOfValue(c: Char)
    requires Value(c) >= 0
    ensures Symbol(Value(c)) == c
  {
  }

  ghost predicate IsTable(tab: seq<int>) {
    |tab| == 256 && forall c: Char :: tab[c as int] == Value(c)
  }

  /** The decode table: 256 entries, -1 except at the symbols. */
  method MakeTable() returns (tab: seq<int>)
    ensures IsTable(tab)
  {
    var t := new int[256](_ => -1);
    var i := 0;
    while i < 64
      invariant i <= 64
      invariant forall c: Char :: t[c as int] == if Value(c) < i then Value(c) else -1
    {
      AlphabetInOrder(i);
      t[ALPHABET[i] as int] := i;
      forall c: Char
        ensures t[c as int] == if Value(c) < i + 1 then Value(c) else -1
      {
        if Value(c) == i {
          SymbolOfValue(c);
        }
      }
      i := i + 1;
    }
    tab := t[..];
  }

  // ---------------------------------------------------------------- texts and bytes

  /** A symbol anywhere, or a pad in one of the last two places with nothing but pads after it. */
  predicate CharOk(s: Text, k: nat)
    requires k < |s|
  {
    Value(s[k]) >= 0 || (s[k] == PAD && k >= |s| - 2 && s[|s| - 1] == PAD)
  }

  predicate CharsOk(s: Text, from: nat, to: nat)
    requires to <= |s|
  {
    forall k | from <= k < to :: CharOk(s, k)
  }

  /** Padded standard-alphabet base64, and nothing else. */
  predicate Accepts(s: Text) {
    |s| % 4 == 0 && CharsOk(s, 0, |s|)
  }

  function Sextet(c: Char): nat {
    if Value(c) < 0 then 0 else Value(c)
  }

  /** The bytes of one quartet: 24 bits, less 8 for each pad. */
  function QuartetBytes(q: Text): seq<Byte>
    requires |q| == 4
  {
    [4 * Sextet(q[0]) + Sextet(q[1]) / 16]
    + (if q[2] == PAD then [] else [Sextet(q[1]) % 16 * 16 + Sextet(q[2]) / 4])
    + (if q[3] == PAD then [] else [Sextet(q[2]) % 4 * 64 + Sextet(q[3])])
  }

  function Decoded(s: Text): seq<Byte>
    requires |s| % 4 == 0
  {
    if s == [] then [] else QuartetBytes(s[..4]) + Decoded(s[4..])
  }

  function EncodeThree(x: Byte, y: Byte, z: Byte): Text {
    [Symbol(x / 4), Symbol(x % 4 * 16 + y / 16), Symbol(y % 16 * 4 + z / 64), Symbol(z % 64)]
  }

  /** The encoder of section 4 of RFC 4648, with zero pad bits. */
  function Encode(b: seq<Byte>): Text {
    if |b| == 0 then []
    else if |b| == 1 then [Symbol(b[0] / 4), Symbol(b[0] % 4 * 16), PAD, PAD]
    else if |b| == 2 then EncodeThree(b[0], b[1], 0)[..3] + [PAD]
    else EncodeThree(b[0], b[1], b[2]) + Encode(b[3..])
  }

  function Pads(s: Text): nat
    requires |s| % 4 == 0
  {
    if s == [] || s[|s| - 1] != PAD then 0 else if s[|s| - 2] != PAD then 1 else 2
  }

  /** The bits of the last symbol that decoding discards. */
  predicate PadBitsZero(s: Text)
    requires |s| % 4 == 0
  {
    && (Pads(s) == 1 ==> Sextet(s[|s| - 2]) % 4 == 0)
    && (Pads(s) == 2 ==> Sextet(s[|s| - 3]) % 16 == 0)
  }

  // ---------------------------------------------------------------- round trips

  /** Three bytes regrouped from four sextets give the sextets back. */
  lemma Regrouped(a: nat, b: nat, c: nat, d: nat)
    requires a < 64 && b < 64 && c < 64 && d < 64
    ensures (4 * a + b / 16) / 4 == a && (4 * a + b / 16) % 4 == b / 16
    ensures (b % 16 * 16 + c / 4) / 16 == b % 16 && (b % 16 * 16 + c / 4) % 16 == c / 4
    ensures (c % 4 * 64 + d) / 64 == c % 4 && (c % 4 * 64 + d) % 64 == d
  {
  }

  /** Four sextets regrouped from three bytes give the bytes back. */
  lemma Ungrouped(x: Byte, y: Byte, z: Byte)
    ensures (x % 4 * 16 + y / 16) / 16 == x % 4 && (x % 4 * 16 + y / 16) % 16 == y / 16
    ensures (y % 16 * 4 + z / 64) / 4 == y % 16 && (y % 16 * 4 + z / 64) % 4 == z / 64
  {
  }

  lemma DecodeThree(x: Byte, y: Byte, z: Byte)
    ensures QuartetBytes(EncodeThree(x, y, z)) == [x, y, z]
  {
    Ungrouped(x, y, z);
  }

  lemma AcceptsMore(q: Text, s: Text)
    requires |q| == 4 && Accepts(s) && forall k | 0 <= k < 4 :: Value(q[k]) >= 0
    ensures Accepts(q + s)
  {
    forall k | 0 <= k < |q + s|
      ensures CharOk(q + s, k)
    {
      if k >= 4 {
        assert CharOk(s, k - 4);
      }
    }
  }

  lemma DecodeShort(b: seq<Byte>)
    requires 0 < |b| < 3
    ensures |Encode(b)| == 4 && Accepts(Encode(b)) && QuartetBytes(Encode(b)) == b
  {
    if |b| == 1 {
      Ungrouped(b[0], 0, 0);
    } else {
      Ungrouped(b[0], b[1], 0);
    }
  }

  /** Decoding the encoding of any bytes gives those bytes back. */
  lemma {:induction false} DecodeEncode(b: seq<Byte>)
    ensures Accepts(Encode(b)) && Decoded(Encode(b)) == b
  {
    if |b| >= 3 {
      DecodeEncode(b[3..]);
      DecodeThree(b[0], b[1], b[2]);
      DecodedQuartet(EncodeThree(b[0], b[1], b[2]), Encode(b[3..]));
      AcceptsMore(EncodeThree(b[0], b[1], b[2]), Encode(b[3..]));
      assert b == b[..3] + b[3..];
    } else if b != [] {
      DecodeShort(b);
      DecodedQuartet(Encode(b), []);
    }
  }

  lemma DecodedQuartet(q: Text, s: Text)
    requires |q| == 4 && |s| % 4 == 0
    ensures Decoded(q + s) == QuartetBytes(q) + Decoded(s)
    ensures s == [] ==> Decoded(q) == QuartetBytes(q)
  {
    assert (q + s)[..4] == q && (q + s)[4..] == s;
    assert s == [] ==> q + s == q;
  }

  lemma FirstQuartet(s: Text)
    requires Accepts(s) && |s| > 4
    ensures Accepts(s[4..]) && Pads(s[4..]) == Pads(s) && (PadBitsZero(s[4..]) <==> PadBitsZero(s))
    ensures forall k | 0 <= k < 4 :: Value(s[k]) >= 0
  {
    forall k | 0 <= k < 4
      ensures Value(s[k]) >= 0
    {
      assert CharOk(s, k);
    }
    forall k | 0 <= k < |s[4..]|
      ensures CharOk(s[4..], k)
    {
      assert CharOk(s, k + 4);
    }
  }

  lemma {:induction false} DecodedLength(s: Text)
    requires Accepts(s)
    ensures |Decoded(s)| == 3 * (|s| / 4) - Pads(s)
  {
    if |s| == 4 {
      assert CharOk(s, 0) && CharOk(s, 1) && CharOk(s, 2) && CharOk(s, 3);
      assert s[4..] == [];
    } else if s != [] {
      FirstQuartet(s);
      DecodedLength(s[4..]);
    }
  }

  lemma SymbolIs(v: nat, c: Char)
    requires v < 64 && Value(c) >= 0
    ensures Symbol(v) == c <==> v == Value(c)
  {
    SymbolOfValue(c);
  }

  lemma EncodeThreeIs(x: Byte, y: Byte, z: Byte, q: Text)
    requires |q| == 4 && forall k | 0 <= k < 4 :: Value(q[k]) >= 0
    requires x / 4 == Value(q[0]) && x % 4 * 16 + y / 16 == Value(q[1])
    requires y % 16 * 4 + z / 64 == Value(q[2]) && z % 64 == Value(q[3])
    ensures EncodeThree(x, y, z) == q
  {
    SymbolOfValue(q[0]);
    SymbolOfValue(q[1]);
    SymbolOfValue(q[2]);
    SymbolOfValue(q[3]);
  }

  lemma EncodeQuartet(q: Text)
    requires |q| == 4 && forall k | 0 <= k < 4 :: Value(q[k]) >= 0
    ensures |QuartetBytes(q)| == 3
    ensures EncodeThree(QuartetBytes(q)[0], QuartetBytes(q)[1], QuartetBytes(q)[2]) == q
  {
    Regrouped(Value(q[0]), Value(q[1]), Value(q[2]), Value(q[3]));
    EncodeThreeIs(QuartetBytes(q)[0], QuartetBytes(q)[1], QuartetBytes(q)[2], q);
  }

  lemma EncodeOnePad(q: Text)
    requires |q| == 4 && q[3] == PAD && forall k | 0 <= k < 3 :: Value(q[k]) >= 0
    ensures Encode(QuartetBytes(q)) == q <==> Value(q[2]) % 4 == 0
  {
    Regrouped(Value(q[0]), Value(q[1]), Value(q[2]), 0);
    var x, y := QuartetBytes(q)[0], QuartetBytes(q)[1];
    assert Encode(QuartetBytes(q)) == EncodeThree(x, y, 0)[..3] + [PAD];
    SymbolIs(x / 4, q[0]);
    SymbolIs(x % 4 * 16 + y / 16, q[1]);
    SymbolIs(y % 16 * 4, q[2]);
  }

  lemma EncodeTwoPads(q: Text)
    requires |q| == 4 && q[2] == PAD && q[3] == PAD && Value(q[0]) >= 0 && Value(q[1]) >= 0
    ensures Encode(QuartetBytes(q)) == q <==> Value(q[1]) % 16 == 0
  {
    Regrouped(Value(q[0]), Value(q[1]), 0, 0);
    var x := QuartetBytes(q)[0];
    assert Encode(QuartetBytes(q)) == [Symbol(x / 4), Symbol(x % 4 * 16), PAD, PAD];
    SymbolIs(x / 4, q[0]);
    SymbolIs(x % 4 * 16, q[1]);
  }

  lemma LastQuartet(s: Text)
    requires Accepts(s) && |s| == 4
    ensures Encode(QuartetBytes(s)) == s <==> PadBitsZero(s)
  {
    assert CharOk(s, 0) && CharOk(s, 1) && CharOk(s, 2) && CharOk(s, 3);
    if Pads(s) == 0 {
      EncodeQuartet(s);
      assert Encode(QuartetBytes(s)[3..]) == [];
    } else if Pads(s) == 1 {
      EncodeOnePad(s);
    } else {
      EncodeTwoPads(s);
    }
  }

  /** Re-encoding what was decoded gives the text back exactly when its discarded bits are zero. */
  lemma {:induction false} EncodeDecode(s: Text)
    requires Accepts(s)
    ensures Encode(Decoded(s)) == s <==> PadBitsZero(s)
  {
    if |s| == 4 {
      LastQuartet(s);
      DecodedQuartet(s, []);
    } else if s != [] {
      FirstQuartet(s);
      EncodeDecode(s[4..]);
      EncodeQuartet(s[..4]);
      assert Decoded(s)[3..] == Decoded(s[4..]);
      assert s == s[..4] + s[4..];
      assert Encode(Decoded(s)) == s[..4] + Encode(Decoded(s[4..]));
      assert Encode(Decoded(s))[4..] == Encode(Decoded(s[4..]));
    }
  }

  // ---------------------------------------------------------------- the decoder

  /** What the decoder keeps for a character: its value, or -2 for a pad. */
  function Code(c: Char): int {
    if c == PAD then -2 else Value(c)
  }

  /** Or-ing in `n` low bits adds them. */
  lemma JoinTwo(hi: nat, lo: nat)
    requires lo < 4
    ensures Or(Shl(hi, 2), lo) == 4 * hi + lo
  {
    SmallOnes();
    OrDisjoint(hi, lo, 2);
    ShlTwoFourSix(hi);
  }

  lemma JoinFour(hi: nat, lo: nat)
    requires lo < 16
    ensures Or(Shl(hi, 4), lo) == 16 * hi + lo
  {
    SmallOnes();
    OrDisjoint(hi, lo, 4);
    ShlTwoFourSix(hi);
  }

  lemma JoinSix(hi: nat, lo: nat)
    requires lo < 64
    ensures Or(Shl(hi, 6), lo) == 64 * hi + lo
  {
    SmallOnes();
    OrDisjoint(hi, lo, 6);
    ShlTwoFourSix(hi);
  }

  lemma JoinFirst(a: nat, b: nat)
    requires a < 64 && b < 64
    ensures Or(Shl(a, 2), Shr(b, 4)) % 0x100 == 4 * a + b / 16
  {
    ShrTwoFour(b);
    JoinTwo(a, b / 16);
  }

  lemma JoinSecond(b: nat, c: nat)
    requires b < 64 && c < 64
    ensures Or(Shl(And(b, LOW_FOUR), 4), Shr(c, 2)) % 0x100 == b % 16 * 16 + c / 4
  {
    LowFourBits(b);
    ShrTwoFour(c);
    JoinFour(b % 16, c / 4);
  }

  lemma JoinThird(c: nat, d: nat)
    requires c < 64 && d < 64
    ensures Or(Shl(And(c, LOW_TWO), 6), d) % 0x100 == c % 4 * 64 + d
  {
    LowTwoBits(c);
    JoinSix(c % 4, d);
  }

  /** The codes of the quartet at `i`, checked one character at a time. */
  method ReadQuartet(s: Text, i: nat, tab: seq<int>) returns (ok: bool, v: array<int>)
    requires |s| % 4 == 0 && i % 4 == 0 && i + 4 <= |s|
    requires IsTable(tab)
    ensures fresh(v) && v.Length == 4
    ensures ok <==> CharsOk(s, i, i + 4)
    ensures ok ==> forall k | 0 <= k < 4 :: v[k] == Code(s[i + k])
  {
    v := new int[4](_ => -1);
    var last := i + 4 == |s|;
    var k := 0;
    while k < 4
      invariant k <= 4
      invariant forall j | 0 <= j < k :: v[j] == Code(s[i + j])
      invariant forall j | 0 <= j < k :: v[j] >= 0 || (v[j] == -2 && last && j >= 2)
      invariant k == 4 && v[2] == -2 ==> v[3] == -2
    {
      var c := s[i + k];
      if c == PAD {
        if !last || k < 2 {
          assert !CharOk(s, i + k);
          return false, v;
        }
        v[k] := -2;
        k := k + 1;
        continue;
      }
      var dec := tab[c as int];
      if dec < 0 {
        assert !CharOk(s, i + k);
        return false, v;
      }
      if k > 0 && v[k - 1] == -2 {
        assert !CharOk(s, i + k - 1);
        return false, v;
      }
      v[k] := dec;
      k := k + 1;
    }
    forall j | i <= j < i + 4
      ensures CharOk(s, j)
    {
      assert v[j - i] == Code(s[i + (j - i)]);
    }
    return true, v;
  }

  /** The three pushes of one turn of the loop. */
  method PushQuartet(v: array<int>, out: seq<Byte>, ghost q: Text) returns (r: seq<Byte>)
    requires v.Length == 4 && |q| == 4 && forall k | 0 <= k < 4 :: v[k] == Code(q[k])
    requires Value(q[0]) >= 0 && Value(q[1]) >= 0
    requires Value(q[2]) >= 0 || (q[2] == PAD && q[3] == PAD)
    requires Value(q[3]) >= 0 || q[3] == PAD
    ensures r == out + QuartetBytes(q)
  {
    JoinFirst(v[0], v[1]);
    r := out + [Or(Shl(v[0], 2), Shr(v[1], 4)) % 0x100];
    if v[2] != -2 {
      JoinSecond(v[1], v[2]);
      r := r + [Or(Shl(And(v[1], LOW_FOUR), 4), Shr(v[2], 2)) % 0x100];
    }
    if v[3] != -2 {
      JoinThird(v[2], v[3]);
      r := r + [Or(Shl(And(v[2], LOW_TWO), 6), v[3]) % 0x100];
    }
  }

  lemma {:induction false} DecodedAppend(s: Text, q: Text)
    requires |s| % 4 == 0 && |q| == 4
    ensures Decoded(s + q) == Decoded(s) + QuartetBytes(q)
  {
    if s == [] {
      DecodedQuartet(q, []);
      assert s + q == q;
    } else {
      DecodedAppend(s[4..], q);
      assert (s + q)[..4] == s[..4] && (s + q)[4..] == s[4..] + q;
    }
  }

  /** One turn of the decoder's loop. */
  method DecodeQuartet(s: Text, i: nat, tab: seq<int>, out: seq<Byte>) returns (ok: bool, r: seq<Byte>)
    requires |s| % 4 == 0 && i % 4 == 0 && i + 4 <= |s| && IsTable(tab)
    ensures ok <==> CharsOk(s, i, i + 4)
    ensures r == out + if ok then QuartetBytes(s[i..i + 4]) else []
  {
    r := out;
    var v;
    ok, v := ReadQuartet(s, i, tab);
    if ok {
      assert CharOk(s, i) && CharOk(s, i + 1) && CharOk(s, i + 2) && CharOk(s, i + 3);
      r := PushQuartet(v, r, s[i..i + 4]);
    }
  }

  /** The first `i` characters are good, and their bytes have been appended to `out`. */
  ghost predicate Progress(s: Text, i: nat, out: seq<Byte>, r: seq<Byte>) {
    i <= |s| && i % 4 == 0 && CharsOk(s, 0, i) && r == out + Decoded(s[..i])
  }

  lemma OneMoreQuartet(s: Text, i: nat, out: seq<Byte>, r: seq<Byte>)
    requires Progress(s, i, out, r) && i + 4 <= |s| && CharsOk(s, i, i + 4)
    ensures Progress(s, i + 4, out, r + QuartetBytes(s[i..i + 4]))
  {
    DecodedAppend(s[..i], s[i..i + 4]);
    assert s[..i + 4] == s[..i] + s[i..i + 4];
  }

  /**
    `base64_decode`. It accepts exactly padded standard-alphabet text and appends the decoded bytes;
    on other text the bytes of the `good` characters before the first bad quartet stay appended.
   */
  method Decode(s: Text, out: seq<Byte>) returns (ok: bool, r: seq<Byte>, ghost good: nat)
    ensures ok <==> Accepts(s)
    ensures ok ==> r == out + Decoded(s)
    ensures Progress(s, good, out, r)
    ensures !ok ==> if |s| % 4 == 0 then good < |s| && !CharsOk(s, good, good + 4) else good == 0
  {
    r, good := out, 0;
    var tab := MakeTable();
    if |s| % 4 != 0 {
      return false, r, good;
    }
    var i := 0;
    while i < |s|
      invariant Progress(s, i, out, r)
    {
      ghost var before := r;
      ok, r := DecodeQuartet(s, i, tab, r);
      if !ok {
        return false, r, i;
      }
      OneMoreQuartet(s, i, out, before);
      i := i + 4;
    }
    assert s[..i] == s;
    return true, r, |s|;
  }
}
