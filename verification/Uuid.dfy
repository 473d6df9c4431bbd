/**
  UUID text (RFC 9562, section 4): the parser of the tunnel id. Its loop skips any dash it meets; it
  still accepts exactly the canonical 8-4-4-4-12 form.
 */
module Uuid {
  import opened BitOps
  import opened CString

  const LENGTH: nat := 36

  predicate IsHex(c: Char) {
    '0' <= c <= '9' || 'a' <= c <= 'f' || 'A' <= c <= 'F'
  }

  function HexValue(c: Char): (v: nat)
    requires IsHex(c)
    ensures v < 16
  {
    if '0' <= c <= '9' then c as int - '0' as int
    else if 'a' <= c <= 'f' then c as int - 'a' as int + 10
    else c as int - 'A' as int + 10
  }

  predicate IsDashPlace(i: nat) {
    i == 8 || i == 13 || i == 18 || i == 23
  }

  /** The canonical form. */
  predicate Canonical(s: Text) {
    |s| == LENGTH && forall i: nat | i < LENGTH :: if IsDashPlace(i) then s[i] == '-' else IsHex(s[i])
  }

  /** How many of the four places lie before `i`. */
  function PlacesBefore(i: nat): nat {
    (if 8 < i then 1 else 0) + (if 13 < i then 1 else 0) + (if 18 < i then 1 else 0) + (if 23 < i then 1 else 0)
  }

  /** Where the `n`-th of the 32 hex digits stands. */
  function DigitPlace(n: nat): nat {
    n + (if 8 <= n then 1 else 0) + (if 12 <= n then 1 else 0) + (if 16 <= n then 1 else 0) + (if 20 <= n then 1 else 0)
  }

  lemma DigitPlaces(n: nat)
    requires n < 32
    ensures DigitPlace(n) < LENGTH && !IsDashPlace(DigitPlace(n))
    ensures DigitPlace(n) - PlacesBefore(DigitPlace(n)) == n
    ensures n % 2 == 0 ==> DigitPlace(n + 1) == DigitPlace(n) + 1
  {
  }

  lemma PlaceOfDigit(i: nat)
    requires i < LENGTH && !IsDashPlace(i)
    ensures 0 <= i - PlacesBefore(i) < 32 && DigitPlace(i - PlacesBefore(i)) == i
  {
  }

  function ByteAt(s: Text, k: nat): Byte
    requires Canonical(s) && k < 16
  {
    DigitPlaces(2 * k);
    DigitPlaces(2 * k + 1);
    16 * HexValue(s[DigitPlace(2 * k)]) + HexValue(s[DigitPlace(2 * k) + 1])
  }

  function Parsed(s: Text): seq<Byte>
    requires Canonical(s)
  {
    seq(16, k requires 0 <= k < 16 => ByteAt(s, k))
  }

  function Two(s: Text, i: nat): Byte
    requires i + 1 < |s| && IsHex(s[i]) && IsHex(s[i + 1])
  {
    16 * HexValue(s[i]) + HexValue(s[i + 1])
  }

  /** The sixteen bytes by the places of their digits: 0 to 7, 9 to 12, 14 to 17, 19 to 22 and 24 to 35. */
  lemma PlacesInNumbers(s: Text, k: nat)
    requires Canonical(s) && k < 16
    ensures k < 4 ==> Parsed(s)[k] == Two(s, 2 * k)
    ensures 4 <= k < 6 ==> Parsed(s)[k] == Two(s, 9 + 2 * (k - 4))
    ensures 6 <= k < 8 ==> Parsed(s)[k] == Two(s, 14 + 2 * (k - 6))
    ensures 8 <= k < 10 ==> Parsed(s)[k] == Two(s, 19 + 2 * (k - 8))
    ensures 10 <= k ==> Parsed(s)[k] == Two(s, 24 + 2 * (k - 10))
  {
    DigitPlaces(2 * k);
    assert Parsed(s)[k] == ByteAt(s, k);
  }

  const HEX_DIGITS: string := "0123456789abcdef"

  /** A digit's value is its place among the hex digits. */
  lemma HexDigitsInOrder(c: Char)
    requires IsHex(c)
    ensures HEX_DIGITS[HexValue(c)] == Lower(c)
  {
  }

  // ---------------------------------------------------------------- printing

  function HexDigit(v: nat, upper: bool): (c: Char)
    requires v < 16
    ensures IsHex(c) && HexValue(c) == v
  {
    if v < 10 then ('0' as int + v) as char
    else if upper then ('A' as int + v - 10) as char
    else ('a' as int + v - 10) as char
  }

  function Nibble(b: seq<Byte>, n: nat): (v: nat)
    requires |b| == 16 && n < 32
    ensures v < 16
  {
    if n % 2 == 0 then b[n / 2] / 16 else b[n / 2] % 16
  }

  function CharPrinted(b: seq<Byte>, upper: bool, i: nat): Char
    requires |b| == 16 && i < LENGTH
  {
    if IsDashPlace(i) then '-'
    else
      PlaceOfDigit(i);
      HexDigit(Nibble(b, i - PlacesBefore(i)), upper)
  }

  function Print(b: seq<Byte>, upper: bool): Text
    requires |b| == 16
  {
    seq(LENGTH, i requires 0 <= i < LENGTH => CharPrinted(b, upper, i))
  }

  function Lower(c: Char): Char {
    if 'A' <= c <= 'F' then (c as int - 'A' as int + 'a' as int) as char else c
  }

  lemma PrintedDigit(b: seq<Byte>, upper: bool, n: nat)
    requires |b| == 16 && n < 32
    ensures DigitPlace(n) < LENGTH
    ensures Print(b, upper)[DigitPlace(n)] == HexDigit(Nibble(b, n), upper)
  {
    DigitPlaces(n);
  }

  lemma PrintedByte(b: seq<Byte>, upper: bool, k: nat)
    requires |b| == 16 && k < 16 && Canonical(Print(b, upper))
    ensures ByteAt(Print(b, upper), k) == b[k]
  {
    DigitPlaces(2 * k);
    PrintedDigit(b, upper, 2 * k);
    PrintedDigit(b, upper, 2 * k + 1);
  }

  /** Parsing inverts printing, in either case. */
  lemma ParsePrint(b: seq<Byte>, upper: bool)
    requires |b| == 16
    ensures Canonical(Print(b, upper)) && Parsed(Print(b, upper)) == b
  {
    forall k: nat | k < 16
      ensures ByteAt(Print(b, upper), k) == b[k]
    {
      PrintedByte(b, upper, k);
    }
  }

  lemma NibbleParsed(s: Text, n: nat)
    requires Canonical(s) && n < 32
    ensures DigitPlace(n) < LENGTH && IsHex(s[DigitPlace(n)])
    ensures Nibble(Parsed(s), n) == HexValue(s[DigitPlace(n)])
  {
    DigitPlaces(n);
    DigitPlaces(2 * (n / 2));
    assert Parsed(s)[n / 2] == ByteAt(s, n / 2);
  }

  lemma LowerDigit(c: Char)
    requires IsHex(c)
    ensures HexDigit(HexValue(c), false) == Lower(c)
  {
  }

  /** Printing inverts parsing, but for the case of the letters. */
  lemma PrintParse(s: Text)
    requires Canonical(s)
    ensures |s| == |Print(Parsed(s), false)| && forall i | 0 <= i < |s| :: Print(Parsed(s), false)[i] == Lower(s[i])
  {
    forall i: nat | i < LENGTH
      ensures CharPrinted(Parsed(s), false, i) == Lower(s[i])
    {
      if !IsDashPlace(i) {
        PlaceOfDigit(i);
        NibbleParsed(s, i - PlacesBefore(i));
        LowerDigit(s[i]);
      }
    }
  }

  // ---------------------------------------------------------------- the parser

  /** The dashes among the first `n` characters. */
  function Dashes(s: Text, n: nat): nat
    requires n <= |s|
  {
    if n == 0 then 0 else Dashes(s, n - 1) + if s[n - 1] == '-' then 1 else 0
  }

  ghost predicate DashesInPlace(s: Text) {
    |s| == LENGTH && s[8] == '-' && s[13] == '-' && s[18] == '-' && s[23] == '-'
  }

  /** With the four dashes in place there are only more of them, and none more if all others are digits. */
  lemma {:induction false} CountDashes(s: Text, n: nat)
    requires DashesInPlace(s) && n <= LENGTH
    ensures Dashes(s, n) >= PlacesBefore(n)
    ensures Dashes(s, n) == PlacesBefore(n) <==> forall i: nat | i < n :: s[i] == '-' ==> IsDashPlace(i)
  {
    if n > 0 {
      CountDashes(s, n - 1);
    }
  }

  method Hex(c: Char) returns (ok: bool, v: nat)
    ensures ok <==> IsHex(c)
    ensures ok ==> v == HexValue(c)
  {
    if '0' <= c <= '9' {
      return true, c as int - '0' as int;
    }
    if 'a' <= c <= 'f' {
      return true, c as int - 'a' as int + 10;
    }
    if 'A' <= c <= 'F' {
      return true, c as int - 'A' as int + 10;
    }
    return false, 0;
  }

  lemma JoinNibbles(hi: nat, lo: nat)
    requires hi < 16 && lo < 16
    ensures Or(Shl(hi, 4), lo) % 0x100 == 16 * hi + lo
  {
    ShlTwoFourSix(hi);
    SmallOnes();
    OrDisjoint(hi, lo, 4);
  }

  /** Within the first `i` characters every one is a dash or a digit. */
  ghost predicate Scanned(s: Text, i: nat)
    requires i <= |s|
  {
    forall j | 0 <= j < i :: s[j] == '-' || IsHex(s[j])
  }

  /** What the count of bytes says about the place, when the scan has reached a digit. */
  lemma AtDigit(s: Text, i: nat, bi: nat)
    requires DashesInPlace(s) && i < LENGTH && 2 * bi + Dashes(s, i) == i && s[i] != '-'
    ensures bi < 16
    ensures Canonical(s) ==> i == DigitPlace(2 * bi) && i + 1 < LENGTH && IsHex(s[i + 1])
  {
    CountDashes(s, i);
    if Canonical(s) {
      DigitPlaces(2 * bi);
      DigitPlaces(2 * bi + 1);
    }
  }

  /** `parse_uuid`. It accepts exactly the canonical form, and reads no further than the terminator. */
  method ParseUuid(s: Text, out: array<Byte>) returns (ok: bool)
    requires out.Length == 16
    modifies out
    ensures ok <==> Canonical(s)
    ensures Canonical(s) ==> out[..] == Parsed(s)
    ensures !DashesInPlace(s) ==> out[..] == old(out[..])
  {
    if |s| != 36 {
      return false;
    }
    if s[8] != '-' || s[13] != '-' || s[18] != '-' || s[23] != '-' {
      return false;
    }
    var bi, i := 0, 0;
    while i < 36
      invariant i <= 36 && 2 * bi + Dashes(s, i) == i
      invariant Scanned(s, i)
      invariant Canonical(s) ==> bi <= 16 && forall k | 0 <= k < bi :: out[k] == ByteAt(s, k)
    {
      if s[i] == '-' {
        i := i + 1;
        continue;
      }
      AtDigit(s, i, bi);
      var hiOk, hi := Hex(At(s, i));
      if !hiOk {
        return false;
      }
      var loOk, lo := Hex(At(s, i + 1));
      if !loOk {
        return false;
      }
      JoinNibbles(hi, lo);
      out[bi] := Or(Shl(hi, 4), lo) % 0x100;
      bi := bi + 1;
      i := i + 2;
    }
    CountDashes(s, 36);
    return bi == 16;
  }
}
