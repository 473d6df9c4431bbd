/**
  Shifts and bitwise operations of unsigned C integers, defined bit by bit on the naturals.
  A truncating cast to a narrower type is written `% 0x100` and so on at the place it occurs.
 */
module BitOps {

  type Byte = x: int | 0 <= x < 0x100

  function Shr(x: nat, n: nat): nat {
    if n == 0 then x else Shr(x, n - 1) / 2
  }

  function Shl(x: nat, n: nat): nat {
    if n == 0 then x else 2 * Shl(x, n - 1)
  }

  function And(x: nat, y: nat): nat {
    if x == 0 || y == 0 then 0
    else 2 * And(x / 2, y / 2) + (if x % 2 == 1 && y % 2 == 1 then 1 else 0)
  }

  /** The number whose binary form is `n` ones. */
  function Ones(n: nat): nat {
    if n == 0 then 0 else 2 * Ones(n - 1) + 1
  }

  function Or(x: nat, y: nat): nat
    decreases x + y
  {
    if x == 0 then y
    else if y == 0 then x
    else 2 * Or(x / 2, y / 2) + (if x % 2 == 1 || y % 2 == 1 then 1 else 0)
  }

  lemma {:induction false} ShrHalf(x: nat, n: nat)
    ensures Shr(x / 2, n) == Shr(x, n + 1)
  {
    if n > 0 {
      ShrHalf(x, n - 1);
    }
  }

  lemma {:induction false} ShrTwice(x: nat, n: nat, m: nat)
    ensures Shr(Shr(x, n), m) == Shr(x, n + m)
  {
    if m > 0 {
      ShrTwice(x, n, m - 1);
    }
  }

  lemma {:induction false} ShlZero(n: nat)
    ensures Shl(0, n) == 0
  {
    if n > 0 {
      ShlZero(n - 1);
    }
  }

  /** Masking with shifted ones looks only at the high bits. */
  lemma {:induction false} AndShifted(x: nat, u: nat, s: nat)
    ensures And(x, Shl(u, s)) == Shl(And(Shr(x, s), u), s)
  {
    if s > 0 {
      AndShifted(x / 2, u, s - 1);
      ShrHalf(x, s - 1);
      AndEven(x, Shl(u, s - 1));
    }
  }

  lemma AndEven(x: nat, y: nat)
    ensures And(x, 2 * y) == 2 * And(x / 2, y)
  {
    assert 2 * y / 2 == y && 2 * y % 2 == 0;
  }

  lemma {:induction false} ShlInjective(x: nat, y: nat, n: nat)
    ensures Shl(x, n) == Shl(y, n) <==> x == y
  {
    if n > 0 {
      ShlInjective(x, y, n - 1);
    }
  }

  /** The low bits of a shifted number. */
  lemma {:induction false} AndShiftedOnes(u: nat, s: nat, r: nat)
    ensures And(Shl(u, s), Ones(s + r)) == Shl(And(u, Ones(r)), s)
  {
    if s > 0 {
      AndShiftedOnes(u, s - 1, r);
    }
  }

  lemma {:induction false} AndOnesOnes(n: nat, m: nat)
    requires m <= n
    ensures And(Ones(n), Ones(m)) == Ones(m)
  {
    if m > 0 {
      AndOnesOnes(n - 1, m - 1);
    }
  }

  lemma {:induction false} AndAtMost(x: nat, y: nat)
    ensures And(x, y) <= y
  {
    if x != 0 && y != 0 {
      AndAtMost(x / 2, y / 2);
    }
  }

  lemma ByteOnes()
    ensures Ones(8) == 0xFF
  {
    assert Ones(2) == 3;
    assert Ones(4) == 15;
    assert Ones(6) == 63;
  }

  /** Masking with `n` ones keeps exactly what shifting right by `n` discards. */
  lemma {:induction false} AndOnes(x: nat, n: nat)
    ensures x == Shl(Shr(x, n), n) + And(x, Ones(n))
  {
    if n > 0 {
      AndOnes(x / 2, n - 1);
      ShrHalf(x, n - 1);
    }
  }

  /** Bits that do not meet: or is addition. */
  lemma {:induction false} OrDisjoint(x: nat, y: nat, n: nat)
    requires y <= Ones(n)
    ensures Or(Shl(x, n), y) == Shl(x, n) + y
  {
    if n > 0 {
      OrDisjoint(x, y / 2, n - 1);
    }
  }

  lemma ShrTwoFour(x: nat)
    ensures Shr(x, 2) == x / 4 && Shr(x, 4) == x / 16
  {
    assert Shr(x, 1) == x / 2;
    assert Shr(x, 3) == x / 8;
  }

  lemma ShlTwoFourSix(x: nat)
    ensures Shl(x, 2) == 4 * x && Shl(x, 4) == 16 * x && Shl(x, 6) == 64 * x
  {
    assert Shl(x, 1) == 2 * x;
    assert Shl(x, 3) == 8 * x;
    assert Shl(x, 5) == 32 * x;
  }

  const LOW_TWO: nat := 0x03
  const LOW_FOUR: nat := 0x0F

  lemma SmallOnes()
    ensures Ones(2) == LOW_TWO && Ones(4) == LOW_FOUR && Ones(6) == 0x3F
  {
    assert Ones(1) == 1;
    assert Ones(3) == 7;
    assert Ones(5) == 31;
  }

  lemma LowTwoBits(x: nat)
    ensures And(x, LOW_TWO) == x % 4
  {
    SmallOnes();
    ShrTwoFour(x);
    AndOnes(x, 2);
    ShlTwoFourSix(x / 4);
  }

  lemma LowFourBits(x: nat)
    ensures And(x, LOW_FOUR) == x % 16
  {
    SmallOnes();
    ShrTwoFour(x);
    AndOnes(x, 4);
    ShlTwoFourSix(x / 16);
  }
}
