/** The permyriad scaling of an enhanced base attribute
    (robot/equip_forge_smoke_scenario.go:834-854). */
module Scale {
  import opened Ints

  const PERMYRIAD: int := 10000

  /** What scaling means: the base plus the floored permyriad share, saturated. */
  function Scaled(base: uint64, permyriad: uint32): uint64 {
    Min(base + base * permyriad / PERMYRIAD, UINT64_BOUND - 1)
  }

  /** The share of `whole * 10000 + rest` splits into two parts that are each small enough. */
  lemma SplitShare(whole: nat, rest: nat, bonus: nat)
    ensures (whole * PERMYRIAD + rest) * bonus / PERMYRIAD == whole * bonus + rest * bonus / PERMYRIAD
  {
    assert (whole * PERMYRIAD + rest) * bonus == whole * bonus * PERMYRIAD + rest * bonus;
    DivShift(whole * bonus, rest * bonus);
  }

  lemma DivShift(q: nat, r: nat)
    ensures (q * PERMYRIAD + r) / PERMYRIAD == q + r / PERMYRIAD
  {
  }

  lemma MulMono(a: nat, b: nat, c: nat)
    requires a <= b
    ensures a * c <= b * c
  {
  }

  /** The division guard is exactly the overflow test for `whole * bonus`. */
  lemma GuardIsOverflowTest(whole: nat, bonus: nat)
    requires bonus != 0
    ensures whole <= (UINT64_BOUND - 1) / bonus <==> whole * bonus < UINT64_BOUND
  {
    var limit := (UINT64_BOUND - 1) / bonus;
    assert limit * bonus <= UINT64_BOUND - 1 < (limit + 1) * bonus by { DivBounds(UINT64_BOUND - 1, bonus); }
    if whole <= limit { MulMono(whole, limit, bonus); } else { MulMono(limit + 1, whole, bonus); }
  }

  lemma DivBounds(x: nat, d: nat)
    requires d != 0
    ensures x / d * d <= x < (x / d + 1) * d
  {
    assert x == x / d * d + x % d;
    assert (x / d + 1) * d == x / d * d + d;
  }

  /** The remainder part always fits: at most 9999 times a 32-bit bonus. */
  lemma RestFits(rest: nat, bonus: uint32)
    requires rest < PERMYRIAD
    ensures rest * bonus < UINT64_BOUND
  {
    MulMono(rest, PERMYRIAD - 1, bonus);
  }

  lemma ShareOf(base: uint64, permyriad: uint32)
    ensures base * permyriad / PERMYRIAD
         == base / PERMYRIAD * permyriad + base % PERMYRIAD * permyriad / PERMYRIAD
  {
    SplitShare(base / PERMYRIAD, base % PERMYRIAD, permyriad);
  }

  /** The Go body on 64-bit words: none of its operations can wrap. */
  method ScaleByPermyriad(base: uint64, permyriad: uint32) returns (r: uint64)
    ensures r == Scaled(base, permyriad)
    ensures r >= base
  {
    var value, bonus := base as word64, permyriad as word64;
    var limit: word64 := 0xFFFF_FFFF_FFFF_FFFF;
    var whole := value / 10000;
    var rest := value % 10000;
    if bonus != 0 { GuardIsOverflowTest(whole as int, permyriad); }
    RestFits(rest as int, permyriad);
    ShareOf(base, permyriad);
    ScaledAtLeastBase(base, permyriad);
    var increase := limit;
    if bonus == 0 || whole <= limit / bonus {
      increase := whole * bonus;
    }
    var part := rest * bonus / 10000;
    if increase > limit - part {
      increase := limit;
    } else {
      increase := increase + part;
    }
    if value > limit - increase {
      r := limit as int;
    } else {
      r := (value + increase) as int;
    }
  }

  /** More base or more bonus never scales to less. */
  lemma ScaledMonotone(b0: uint64, b1: uint64, p0: uint32, p1: uint32)
    requires b0 <= b1 && p0 <= p1
    ensures Scaled(b0, p0) <= Scaled(b1, p1)
  {
    MulMono(b0, b1, p0);
    MulMono(p0, p1, b1);
    assert b0 * p0 <= b1 * p1;
    DivMono(b0 * p0, b1 * p1);
  }

  lemma DivMono(x: nat, y: nat)
    requires x <= y
    ensures x / PERMYRIAD <= y / PERMYRIAD
  {
  }

  /** Scaling never loses the base value, and a zero bonus is the identity. */
  lemma ScaledAtLeastBase(base: uint64, permyriad: uint32)
    ensures Scaled(base, permyriad) >= base
    ensures Scaled(base, 0) == base
  {
    MulMono(0, base, permyriad);
    DivMono(0, base * permyriad);
  }
}
