/**
  The round-robin sink of `main`. A counter of machine width picks the sink of each packet, so the
  counter wraps; whether the sinks stay balanced across a wrap depends on the number of sinks.
 */
module RoundRobin {
  import opened BitOps
  import opened Router

  // ---------------------------------------------------------------- the choice of sinks

  /** The sink of packet `j`, the first being packet 0: `width` values of the counter, `m` sinks. */
  function Chosen(width: nat, m: nat, j: nat): nat
    requires width > 0 && m > 0
  {
    (j % width) % m
  }

  /** How many of the first `n` packets go to sink `k`. */
  function Count(width: nat, m: nat, n: nat, k: nat): nat
    requires width > 0 && m > 0
  {
    if n == 0 then 0 else Count(width, m, n - 1, k) + if Chosen(width, m, n - 1) == k then 1 else 0
  }

  ghost predicate Balanced(width: nat, m: nat, n: nat)
    requires width > 0 && m > 0
  {
    forall k: nat, l: nat | k < m && l < m :: Count(width, m, n, k) <= Count(width, m, n, l) + 1
  }

  /** `n` packets dealt to `m` sinks in turn: the first `n % m` of them get one more. */
  function Share(m: nat, n: nat, k: nat): nat
    requires m > 0
  {
    n / m + if k < n % m then 1 else 0
  }

  lemma SmallMultiple(d: int, m: int)
    requires -m < d * m < m
    ensures d == 0
  {
    assert d >= 1 ==> (d - 1) * m >= 0;
    assert d <= -1 ==> (-d - 1) * m >= 0;
  }

  lemma DivModUnique(m: nat, n: nat, q: nat, r: nat)
    requires m > 0 && n == q * m + r && r < m
    ensures n / m == q && n % m == r
  {
    var q', r' := n / m, n % m;
    assert n == q' * m + r';
    assert (q - q') * m == r' - r;
    SmallMultiple(q - q', m);
  }

  lemma ShareStep(m: nat, n: nat, k: nat)
    requires m > 0 && k < m
    ensures Share(m, n + 1, k) == Share(m, n, k) + if n % m == k then 1 else 0
  {
    var q, r := n / m, n % m;
    assert n == q * m + r;
    if r + 1 < m {
      DivModUnique(m, n + 1, q, r + 1);
    } else {
      assert n + 1 == (q + 1) * m + 0;
      DivModUnique(m, n + 1, q + 1, 0);
    }
  }

  /** Until the counter wraps, and for ever when `m` divides `width`, the sinks are dealt in turn. */
  lemma {:induction false} CountIsShare(width: nat, m: nat, n: nat, k: nat)
    requires width > 0 && m > 0 && k < m
    requires n <= width || width % m == 0
    ensures Count(width, m, n, k) == Share(m, n, k)
  {
    if n == 0 {
      DivModUnique(m, 0, 0, 0);
    } else {
      CountIsShare(width, m, n - 1, k);
      ShareStep(m, n - 1, k);
      if n - 1 < width {
        DivModUnique(width, n - 1, 0, n - 1);
      } else {
        ModOfMod(width, m, n - 1);
      }
    }
  }

  lemma Regroup(a: nat, b: nat, m: nat, q: nat, r: nat)
    ensures a * (b * m) + (q * m + r) == (a * b + q) * m + r
  {
    assert a * (b * m) == (a * b) * m;
  }

  lemma NestedRemainder(m: nat, j: nat, a: nat, b: nat, q: nat, r: nat)
    requires m > 0 && r < m && j == a * (b * m) + (q * m + r)
    ensures j % m == r
  {
    Regroup(a, b, m, q, r);
    DivModUnique(m, j, a * b + q, r);
  }

  lemma DivMod(j: nat, m: nat) returns (q: nat, r: nat)
    requires m > 0
    ensures j == q * m + r && q == j / m && r == j % m && r < m
  {
    q, r := j / m, j % m;
  }

  lemma ModOfMod(width: nat, m: nat, j: nat)
    requires width > 0 && m > 0 && width % m == 0
    ensures (j % width) % m == j % m
  {
    var a, w := DivMod(j, width);
    var b, zero := DivMod(width, m);
    var q, r := DivMod(w, m);
    NestedRemainder(m, j, a, b, q, r);
  }

  /**
    The sinks' counts stay within one of each other after every number of packets, across every wrap
    of the counter, exactly when the number of sinks divides the number of counter values.
   */
  lemma BalancedIffDivides(width: nat, m: nat)
    requires width > 0 && m > 0
    ensures (forall n: nat :: Balanced(width, m, n)) <==> width % m == 0
  {
    if width % m == 0 {
      forall n: nat, k: nat, l: nat | k < m && l < m
        ensures Count(width, m, n, k) <= Count(width, m, n, l) + 1
      {
        CountIsShare(width, m, n, k);
        CountIsShare(width, m, n, l);
      }
    } else {
      UnbalancedAfterWrap(width, m);
    }
  }

  /** The first packet after the wrap goes to sink 0 again, two ahead of the last sink. */
  lemma UnbalancedAfterWrap(width: nat, m: nat)
    requires width > 0 && m > 0 && width % m != 0
    ensures Count(width, m, width + 1, 0) == Count(width, m, width + 1, m - 1) + 2
    ensures !Balanced(width, m, width + 1)
  {
    CountIsShare(width, m, width, 0);
    CountIsShare(width, m, width, m - 1);
    DivModUnique(width, width, 1, 0);
    assert Chosen(width, m, width) == 0;
  }

  // ---------------------------------------------------------------- the sink

  /** `size_t` counters of 32-bit and of 64-bit targets. */
  const WIDTH_32: nat := 0x1_0000_0000
  const WIDTH_64: nat := 0x1_0000_0000_0000_0000

  const NUM_HA_CONNS: nat := 4

  lemma FourSinksBalanced(n: nat)
    ensures Balanced(WIDTH_32, NUM_HA_CONNS, n) && Balanced(WIDTH_64, NUM_HA_CONNS, n)
  {
    BalancedIffDivides(WIDTH_32, NUM_HA_CONNS);
    BalancedIffDivides(WIDTH_64, NUM_HA_CONNS);
  }

  class MultiSink {
    const sinks: seq<PacketSink>
    const width: nat
    var next: nat
    ghost var received: nat         // packets given to this sink so far

    ghost predicate Valid()
      reads this, sinks
    {
      && width > 0
      && (forall k, l | 0 <= k < l < |sinks| :: sinks[k] != sinks[l])
      && (sinks != [] ==>
            && next == received % width
            && forall k | 0 <= k < |sinks| :: |sinks[k].delivered| == Count(width, |sinks|, received, k))
    }

    constructor (sinks: seq<PacketSink>, width: nat)
      requires width > 0
      requires forall k, l | 0 <= k < l < |sinks| :: sinks[k] != sinks[l]
      requires forall k | 0 <= k < |sinks| :: sinks[k].delivered == []
      ensures Valid() && this.sinks == sinks && this.width == width && received == 0
    {
      this.sinks, this.width, next, received := sinks, width, 0, 0;
      new;
      if sinks != [] {
        DivModUnique(width, 0, 0, 0);
      }
    }

    method OnPacket(data: array<Byte>, len: nat)
      requires Valid() && len <= data.Length
      modifies this, sinks
      ensures Valid() && received == old(received) + 1 && (sinks == [] ==> next == old(next))
      ensures forall k | 0 <= k < |sinks| ::
                sinks[k].delivered == old(sinks[k].delivered) +
                                      if k == old(received) % width % |sinks| then [data[..len]] else []
    {
      received := received + 1;
      if |sinks| == 0 {
        return;
      }
      var idx := next % |sinks|;
      CounterStep(width, received - 1);
      next := (next + 1) % width;
      sinks[idx].OnPacket(data, len);
    }

    /** The packets delivered to any two sinks never differ by more than one. */
    lemma StaysBalanced(k: nat, l: nat)
      requires Valid() && k < |sinks| && l < |sinks| && width % |sinks| == 0
      ensures |sinks[k].delivered| <= |sinks[l].delivered| + 1
    {
      BalancedIffDivides(width, |sinks|);
      assert Balanced(width, |sinks|, received);
    }
  }

  lemma CounterStep(width: nat, n: nat)
    requires width > 0
    ensures (n + 1) % width == (n % width + 1) % width
  {
    var q, r := n / width, n % width;
    if r + 1 == width {
      assert n + 1 == (q + 1) * width + 0;
      DivModUnique(width, n + 1, q + 1, 0);
      DivModUnique(width, r + 1, 1, 0);
    } else {
      assert n + 1 == q * width + (r + 1);
      DivModUnique(width, n + 1, q, r + 1);
      DivModUnique(width, r + 1, 0, r + 1);
    }
  }
}
