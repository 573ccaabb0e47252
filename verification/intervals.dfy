/** Modifier-interval arithmetic (kernel.cpp:23-70). The stake modifier is
    regenerated once per modifier interval; the V1 selection protocol spreads
    its 64 rounds over a selection interval made of 64 sections. */
module Intervals {
  import opened Common
  import opened Arith

  /** Protocol constants. `modifierInterval`, `modifierIntervalTestnet` and
      `ratio` are the header constants MODIFIER_INTERVAL,
      MODIFIER_INTERVAL_TESTNET and MODIFIER_INTERVAL_RATIO; `testNet` is the
      file-level flag (hard-wired to false at kernel.cpp:23); `firstModifier`
      is the value of the pointer cast at kernel.cpp:158, which is not a
      protocol constant and is therefore left free. */
  datatype Config = Config(
    modifierInterval: uint32,
    modifierIntervalTestnet: uint32,
    ratio: int,
    testNet: bool,
    firstModifier: uint64)

  /** What the arithmetic below relies on: positive intervals (they are
      divisors) and a ratio of at least one, small enough that the signed
      `int` denominator at kernel.cpp:57 cannot overflow. */
  predicate ValidConfig(c: Config)
  {
    0 < c.modifierInterval && 0 < c.modifierIntervalTestnet && 1 <= c.ratio && 63 * c.ratio < TWO_31
  }

  /** getIntervalVersion (kernel.cpp:28-34): the base interval of the network. */
  function IntervalVersion(c: Config): (r: uint32)
    ensures c.testNet ==> r == c.modifierIntervalTestnet
    ensures !c.testNet ==> r == c.modifierInterval
    ensures ValidConfig(c) ==> r > 0
  {
    if c.testNet then c.modifierIntervalTestnet else c.modifierInterval
  }

  /** The denominator of kernel.cpp:57. */
  function SectionDenominator(c: Config, section: int): (r: int)
    requires ValidConfig(c) && 0 <= section < 64
    ensures r >= 63
  {
    63 + (63 - section) * (c.ratio - 1)
  }

  /** GetStakeModifierSelectionIntervalSection (kernel.cpp:54-59). The product
      `getIntervalVersion(...) * 63` is computed in `unsigned int`, so it is
      reduced modulo 2^32 before the division. */
  function Section(c: Config, section: int): (r: int)
    requires ValidConfig(c) && 0 <= section < 64
    ensures 0 <= r <= IntervalVersion(c)
  {
    var base := IntervalVersion(c);
    U32AtMost(base * 63);
    SectionQuotient(U32(base * 63), base, SectionDenominator(c, section))
  }

  lemma U32AtMost(x: nat)
    ensures U32(x) <= x
  {
  }

  /** The quotient of kernel.cpp:57, at most one base interval. */
  function SectionQuotient(n: nat, b: nat, d: int): (r: nat)
    requires n <= b * 63 && d >= 63
    ensures r <= b
  {
    SectionBound(n, b, d);
    n / d
  }

  lemma SectionBound(n: nat, b: nat, d: int)
    requires n <= b * 63 && d >= 63
    ensures n / d <= b
  {
    DivideByLarger(n, 63, d);
    var q := n / 63;
    assert q * 63 <= n;
  }

  /** The last section is the whole base interval: its denominator reduces to
      63 (whenever the unsigned product does not wrap). */
  lemma LastSectionIsBaseInterval(c: Config)
    requires ValidConfig(c) && IntervalVersion(c) * 63 < TWO_32
    ensures Section(c, 63) == IntervalVersion(c)
  {
  }

  /** For a ratio of at least one, later sections are never shorter. */
  lemma SectionsNonDecreasing(c: Config, i: int, j: int)
    requires ValidConfig(c) && 0 <= i <= j < 64
    ensures Section(c, i) <= Section(c, j)
  {
    MulMonotone(63 - j, 63 - i, c.ratio - 1);
    DivideByLarger(U32(IntervalVersion(c) * 63), SectionDenominator(c, j), SectionDenominator(c, i));
  }

  /** The sum of the first `n` sections. */
  function SumSections(c: Config, n: int): (r: int)
    requires ValidConfig(c) && 0 <= n <= 64
    decreases n
  {
    if n == 0 then 0 else SumSections(c, n - 1) + Section(c, n - 1)
  }

  /** Partial sums grow with the number of rounds. */
  lemma {:induction false} SumSectionsMonotone(c: Config, m: int, n: int)
    requires ValidConfig(c) && 0 <= m <= n <= 64
    ensures 0 <= SumSections(c, m) <= SumSections(c, n)
    decreases n
  {
    if m < n {
      SumSectionsMonotone(c, m, n - 1);
      assert SumSections(c, n) == SumSections(c, n - 1) + Section(c, n - 1);
    } else if n > 0 {
      SumSectionsMonotone(c, n - 1, n - 1);
    }
  }

  /** The first `n` sections add up to at most `n` base intervals. */
  lemma {:induction false} SumSectionsUpper(c: Config, n: int)
    requires ValidConfig(c) && 0 <= n <= 64
    ensures SumSections(c, n) <= n * IntervalVersion(c)
    decreases n
  {
    if n > 0 {
      var b := IntervalVersion(c);
      SumSectionsUpper(c, n - 1);
      assert Section(c, n - 1) <= b;
      MulPred(n, b);
    }
  }

  lemma MulPred(n: int, b: int)
    ensures n * b == (n - 1) * b + b
  {
  }

  /** The selection interval covers at least the last section, so (without
      wrap-around) it is never shorter than one base interval, and never
      longer than 64 of them. */
  lemma SelectionIntervalBounds(c: Config)
    requires ValidConfig(c) && IntervalVersion(c) * 63 < TWO_32
    ensures IntervalVersion(c) <= SumSections(c, 64) <= 64 * IntervalVersion(c)
  {
    SumSectionsMonotone(c, 63, 64);
    SumSectionsUpper(c, 64);
    LastSectionIsBaseInterval(c);
  }

  /** GetStakeModifierSelectionInterval (kernel.cpp:62-70): the selection
      interval is the sum of the 64 sections. */
  method GetStakeModifierSelectionInterval(c: Config) returns (interval: int)
    requires ValidConfig(c)
    ensures interval == SumSections(c, 64)
    ensures 0 <= interval <= 64 * IntervalVersion(c)
  {
    interval := 0;
    var section := 0;
    while section < 64
      invariant 0 <= section <= 64
      invariant interval == SumSections(c, section)
    {
      interval := interval + Section(c, section);
      section := section + 1;
    }
    SumSectionsMonotone(c, 64, 64);
    SumSectionsUpper(c, 64);
  }
}
