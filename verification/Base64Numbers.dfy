/**
  Base64 once more, as a change of base: an accepted text, read as a number in base 64, is the decoded
  bytes read as a number in base 256, but for the bits that the pads drop. Nothing here takes quartets
  apart the way the decoder does.
 */
module Base64Numbers {
  import opened BitOps
  import opened CString
  import opened Base64

  /** The text as a number in base 64, a pad counting as zero. */
  function Number64(s: Text): nat {
    if s == [] then 0 else Number64(s[..|s| - 1]) * 64 + Sextet(s[|s| - 1])
  }

  /** The bytes as a number in base 256. */
  function Number256(b: seq<Byte>): nat {
    if b == [] then 0 else Number256(b[..|b| - 1]) * 256 + b[|b| - 1]
  }

  lemma OneMore64(s: Text, c: Char)
    ensures Number64(s + [c]) == Number64(s) * 64 + Sextet(c)
  {
    assert (s + [c])[..|s|] == s;
  }

  lemma OneMore256(b: seq<Byte>, x: Byte)
    ensures Number256(b + [x]) == Number256(b) * 256 + x
  {
    assert (b + [x])[..|b|] == b;
  }

  lemma FourMore(s: Text, q: Text)
    requires |q| == 4
    ensures Number64(s + q) ==
            16777216 * Number64(s) + 262144 * Sextet(q[0]) + 4096 * Sextet(q[1]) + 64 * Sextet(q[2]) + Sextet(q[3])
  {
    OneMore64(s, q[0]);
    OneMore64(s + [q[0]], q[1]);
    OneMore64(s + [q[0]] + [q[1]], q[2]);
    OneMore64(s + [q[0]] + [q[1]] + [q[2]], q[3]);
    assert s + q == s + [q[0]] + [q[1]] + [q[2]] + [q[3]];
  }

  lemma TwoMore(b: seq<Byte>, x: Byte, y: Byte)
    ensures Number256(b + [x, y]) == 65536 * Number256(b) + 256 * (x as int) + y
  {
    OneMore256(b, x);
    OneMore256(b + [x], y);
    assert b + [x, y] == b + [x] + [y];
  }

  lemma ThreeMore(b: seq<Byte>, x: Byte, y: Byte, z: Byte)
    ensures Number256(b + [x, y, z]) == 16777216 * Number256(b) + 65536 * (x as int) + 256 * (y as int) + z
  {
    TwoMore(b, x, y);
    OneMore256(b + [x, y], z);
    assert b + [x, y, z] == b + [x, y] + [z];
  }

  /** The text is the bytes, with 8 bits more for each pad. */
  ghost predicate SameNumber(text: nat, bytes: nat, pads: nat) {
    && (pads == 0 ==> text == bytes)
    && (pads == 1 ==> 256 * bytes <= text < 256 * bytes + 256)
    && (pads == 2 ==> 65536 * bytes <= text < 65536 * bytes + 65536)
  }

  lemma FullQuartet(b: seq<Byte>, q: Text, n: nat)
    requires |q| == 4 && q[2] != PAD && q[3] != PAD && n == Number256(b)
    ensures 16777216 * n + 262144 * Sextet(q[0]) + 4096 * Sextet(q[1]) + 64 * Sextet(q[2]) + Sextet(q[3])
            == Number256(b + QuartetBytes(q))
  {
    var x, y, z := QuartetBytes(q)[0], QuartetBytes(q)[1], QuartetBytes(q)[2];
    assert QuartetBytes(q) == [x, y, z];
    ThreeMore(b, x, y, z);
  }

  lemma OnePad(b: seq<Byte>, q: Text, n: nat)
    requires |q| == 4 && q[2] != PAD && q[3] == PAD && n == Number256(b)
    ensures SameNumber(16777216 * n + 262144 * Sextet(q[0]) + 4096 * Sextet(q[1]) + 64 * Sextet(q[2]),
                       Number256(b + QuartetBytes(q)), 1)
  {
    var x, y := QuartetBytes(q)[0], QuartetBytes(q)[1];
    assert QuartetBytes(q) == [x, y];
    TwoMore(b, x, y);
  }

  lemma TwoPads(b: seq<Byte>, q: Text, n: nat)
    requires |q| == 4 && q[2] == PAD && q[3] == PAD && n == Number256(b)
    ensures SameNumber(16777216 * n + 262144 * Sextet(q[0]) + 4096 * Sextet(q[1]), Number256(b + QuartetBytes(q)), 2)
  {
    var x := QuartetBytes(q)[0];
    assert QuartetBytes(q) == [x];
    OneMore256(b, x);
  }

  lemma HeadHasNoPads(s: Text)
    requires Accepts(s) && s != []
    ensures Accepts(s[..|s| - 4]) && Pads(s[..|s| - 4]) == 0
  {
    var head := s[..|s| - 4];
    forall k | 0 <= k < |head|
      ensures CharOk(head, k) && Value(head[k]) >= 0
    {
      assert CharOk(s, k);
    }
  }

  lemma LastPlaces(s: Text)
    requires Accepts(s) && s != []
    ensures var q := s[|s| - 4..];
            && (q[2] == PAD ==> q[3] == PAD)
            && Pads(s) == if q[3] != PAD then 0 else if q[2] != PAD then 1 else 2
  {
    assert CharOk(s, |s| - 2) && CharOk(s, |s| - 1);
  }

  lemma LastQuartetNumber(b: seq<Byte>, q: Text, n: nat, pads: nat)
    requires |q| == 4 && n == Number256(b) && (q[2] == PAD ==> q[3] == PAD)
    requires pads == if q[3] != PAD then 0 else if q[2] != PAD then 1 else 2
    ensures SameNumber(16777216 * n + 262144 * Sextet(q[0]) + 4096 * Sextet(q[1]) + 64 * Sextet(q[2]) + Sextet(q[3]),
                       Number256(b + QuartetBytes(q)), pads)
  {
    if q[3] != PAD {
      FullQuartet(b, q, n);
    } else if q[2] != PAD {
      OnePad(b, q, n);
    } else {
      TwoPads(b, q, n);
    }
  }

  lemma NextQuartet(head: Text, q: Text, n: nat, pads: nat)
    requires |head| % 4 == 0 && |q| == 4 && (q[2] == PAD ==> q[3] == PAD)
    requires pads == if q[3] != PAD then 0 else if q[2] != PAD then 1 else 2
    requires n == Number64(head) == Number256(Decoded(head))
    ensures SameNumber(Number64(head + q), Number256(Decoded(head + q)), pads)
  {
    FourMore(head, q);
    DecodedAppend(head, q);
    LastQuartetNumber(Decoded(head), q, n, pads);
  }

  /** The number of an accepted text is the number of its bytes. */
  lemma {:induction false} DecodedNumber(s: Text)
    requires Accepts(s)
    ensures SameNumber(Number64(s), Number256(Decoded(s)), Pads(s))
    decreases |s|
  {
    if s != [] {
      var head, q := s[..|s| - 4], s[|s| - 4..];
      HeadHasNoPads(s);
      LastPlaces(s);
      DecodedNumber(head);
      NextQuartet(head, q, Number64(head), Pads(s));
      assert s == head + q;
    }
  }
}
