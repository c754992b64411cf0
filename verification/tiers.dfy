/**
 * The page-wide result configuration: one message per tier, one minimum
 * percentage per graded tier, the percentage of correct answers, and the
 * first-match chain that turns a percentage into a tier.
 */
module Tiers {

  /** The four result tiers, from best to worst. */
  datatype Tier = Excellent | Good | Okay | Poor

  /** The `resultMessages` object: the text shown for each tier. */
  datatype Messages = Messages(excellent: string, good: string, okay: string, poor: string)

  /** The `scoreRanges` object: the minimum percentage of each graded tier ("poor" has none). */
  datatype Ranges = Ranges(excellent: int, good: int, okay: int)

  const DefaultMessages := Messages(
    "\U{1F3C6} Trivia Master!",
    "\U{1F389} Great Job!",
    "\U{1F44D} Not Bad!",
    "\U{1F914} Keep Trying!")

  const DefaultRanges := Ranges(90, 70, 50)

  /** Position of a tier in the order excellent > good > okay > poor. */
  function Rank(t: Tier): nat {
    match t
    case Excellent => 3
    case Good => 2
    case Okay => 1
    case Poor => 0
  }

  function MessageFor(m: Messages, t: Tier): string {
    match t
    case Excellent => m.excellent
    case Good => m.good
    case Okay => m.okay
    case Poor => m.poor
  }

  /** A percentage reaches a tier when it is at least the tier's minimum; every percentage reaches "poor". */
  predicate Reaches(p: int, r: Ranges, t: Tier) {
    match t
    case Excellent => p >= r.excellent
    case Good => p >= r.good
    case Okay => p >= r.okay
    case Poor => true
  }

  /** Thresholds an editor would call consistent: excellent >= good >= okay. */
  predicate Ordered(r: Ranges) {
    r.excellent >= r.good >= r.okay
  }

  /**
   * The if/else-if chain of the final-results step: excellent, good, okay,
   * else poor. The result is the best-ranked tier the percentage reaches.
   */
  function ResolveTier(p: int, r: Ranges): (t: Tier)
    ensures Reaches(p, r, t)
    ensures forall u :: Rank(u) > Rank(t) ==> !Reaches(p, r, u)
  {
    if p >= r.excellent then Excellent
    else if p >= r.good then Good
    else if p >= r.okay then Okay
    else Poor
  }

  /** A higher percentage never resolves to a worse tier, whatever the thresholds. */
  lemma ResolveTierMonotone(p: int, q: int, r: Ranges)
    requires p <= q
    ensures Rank(ResolveTier(p, r)) <= Rank(ResolveTier(q, r))
  {
    var t := ResolveTier(p, r);
    assert Reaches(q, r, t);
  }

  /** With ordered thresholds each tier covers exactly one band of percentages. */
  lemma ResolveTierBands(p: int, r: Ranges)
    requires Ordered(r)
    ensures ResolveTier(p, r) == Excellent <==> p >= r.excellent
    ensures ResolveTier(p, r) == Good <==> r.good <= p < r.excellent
    ensures ResolveTier(p, r) == Okay <==> r.okay <= p < r.good
    ensures ResolveTier(p, r) == Poor <==> p < r.okay
  {
  }

  /** Examples for the default thresholds 90/70/50. */
  lemma DefaultTierExamples()
    ensures ResolveTier(95, DefaultRanges) == Excellent
    ensures ResolveTier(90, DefaultRanges) == Excellent
    ensures ResolveTier(70, DefaultRanges) == Good
    ensures ResolveTier(69, DefaultRanges) == Okay
    ensures ResolveTier(50, DefaultRanges) == Okay
    ensures ResolveTier(49, DefaultRanges) == Poor
    ensures ResolveTier(0, DefaultRanges) == Poor
  {
  }

  /**
   * `Math.round(correct / total * 100)` on exact rationals: the integer
   * nearest to 100 * correct / total, halves rounded up.
   */
  function Percentage(correct: nat, total: nat): (p: nat)
    requires total > 0
    ensures 2 * total * p <= 200 * correct + total < 2 * total * (p + 1)
    ensures correct <= total ==> p <= 100
    ensures correct == total ==> p == 100
  {
    var p := (200 * correct + total) / (2 * total);
    PercentageBounds(correct, total, p);
    p
  }

  lemma PercentageBounds(correct: nat, total: nat, p: nat)
    requires total > 0
    requires p == (200 * correct + total) / (2 * total)
    ensures 2 * total * p <= 200 * correct + total < 2 * total * (p + 1)
    ensures correct <= total ==> p <= 100
    ensures correct == total ==> p == 100
  {
    var n := 200 * correct + total;
    var d := 2 * total;
    assert n == d * p + n % d;
    assert 2 * total * (p + 1) == d * p + d;
    if correct <= total {
      if p > 100 {
        assert d * p >= d * 101 by { MulMonotone(d, 101, p); }
        assert false;
      }
    }
    if correct == total {
      assert n == d * 100 + total;
      if p < 100 {
        assert d * p + d <= d * 100 by { MulMonotone(d, p + 1, 100); }
        assert false;
      }
    }
  }

  lemma MulMonotone(d: nat, a: nat, b: nat)
    requires a <= b
    ensures d * a <= d * b
  {
  }

  /** More correct answers never give a lower percentage. */
  lemma PercentageMonotone(c1: nat, c2: nat, total: nat)
    requires total > 0 && c1 <= c2
    ensures Percentage(c1, total) <= Percentage(c2, total)
  {
    var p1 := Percentage(c1, total);
    var p2 := Percentage(c2, total);
    if p1 > p2 {
      assert 2 * total * p1 >= 2 * total * (p2 + 1) by { MulMonotone(2 * total, p2 + 1, p1); }
      assert false;
    }
  }

  /** Rounding examples, including exact halves (1/8 is 12.5 %, 3/8 is 37.5 %). */
  lemma PercentageExamples()
    ensures Percentage(3, 4) == 75
    ensures Percentage(1, 8) == 13
    ensures Percentage(3, 8) == 38
    ensures Percentage(2, 3) == 67
    ensures Percentage(1, 3) == 33
    ensures Percentage(0, 5) == 0
  {
  }

  /** `{ ...resultMessages, [level]: text }`: only the entry for `level` changes. */
  function WithMessage(m: Messages, level: Tier, text: string): (r: Messages)
    ensures MessageFor(r, level) == text
    ensures forall u :: u != level ==> MessageFor(r, u) == MessageFor(m, u)
  {
    match level
    case Excellent => m.(excellent := text)
    case Good => m.(good := text)
    case Okay => m.(okay := text)
    case Poor => m.(poor := text)
  }

  /** The minimum of a graded tier; "poor" has none. */
  function Minimum(r: Ranges, t: Tier): int
    requires t != Poor
  {
    match t
    case Excellent => r.excellent
    case Good => r.good
    case Okay => r.okay
  }

  /**
   * `{ ...scoreRanges, [level]: value }`: only the minimum for `level`
   * changes. A "poor" key would be stored but is never read, so it leaves
   * the three read thresholds as they were.
   */
  function WithMinimum(r: Ranges, level: Tier, value: int): (r': Ranges)
    ensures level != Poor ==> Minimum(r', level) == value
    ensures forall u :: u != Poor && u != level ==> Minimum(r', u) == Minimum(r, u)
  {
    match level
    case Excellent => r.(excellent := value)
    case Good => r.(good := value)
    case Okay => r.(okay := value)
    case Poor => r
  }
}
