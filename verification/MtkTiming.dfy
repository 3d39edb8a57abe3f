/**
  The offline search for MediaTek timing registers, for targets up to 1 MHz.
  Integers are unbounded, as they are in the original.
*/
module MtkTiming {
  import opened Machine
  import Bits

  const HZ_PER_GHZ := 1_000_000_000
  const MAX_SAMPLE_CNT_DIV := 8
  const MAX_STEP_CNT_DIV := 64
  const MAX_CLOCK_DIV := 32
  const STANDARD_MODE := 100_000
  const FAST_MODE := 400_000
  const FAST_MODE_PLUS := 1_000_000

  /** Minimum times of section 6.1 of UM10204, with the tool's safety buffers added. */
  datatype Spec = Spec(minLow: nat, minSuSta: nat, maxHdDat: nat, minSuDat: nat)

  function GetSpec(speed: nat): Spec {
    if speed <= STANDARD_MODE then Spec(4700 + 1000 / 3, 4700 + 1000 / 3, 3450 - 1000 / 3, 250 + 1000 / 3)
    else if speed <= FAST_MODE then Spec(1300 + 300 / 3, 600 + 300 / 3, 900 - 300 / 3, 100 + 300 / 3)
    else Spec(500 + 20 / 3, 260 + 20 / 3, 400 - 20 / 3, 50 + 20 / 3)
  }

  /** In nanoseconds: the standard's times, lengthened or shortened by a third of the allowed fall time. */
  lemma SpecLaw(speed: nat)
    ensures var s := GetSpec(speed);
      && (speed <= 100_000 ==> s == Spec(5033, 5033, 3117, 583))
      && (100_000 < speed <= 400_000 ==> s == Spec(1400, 700, 800, 200))
      && (400_000 < speed ==> s == Spec(506, 266, 394, 56))
  {
  }

  function DivRoundUp(a: int, b: nat): int
    requires b > 0
  {
    (a + b - 1) / b
  }

  lemma DivRoundUpFacts(a: int, b: nat)
    requires b > 0
    ensures var q := DivRoundUp(a, b); a <= q * b < a + b && (a > 0 ==> q >= 1)
  {
    var n := a + b - 1;
    var q := n / b;
    assert n == q * b + n % b;
    if a > 0 {
      DivideFacts(n, b);
      assert q * b > 0;
    }
  }

  // ---------------------------------------------------------------------
  // Register packing: Python's | on non-negative integers
  // ---------------------------------------------------------------------

  function Shl(x: nat, k: nat): nat {
    MulMono(0, x, Bits.Pow2(k));
    x * Bits.Pow2(k)
  }

  function Or(a: nat, b: nat): nat {
    if a == 0 && b == 0 then 0
    else 2 * Or(a / 2, b / 2) + (if a % 2 == 1 || b % 2 == 1 then 1 else 0)
  }

  lemma {:induction false} OrZero(a: nat)
    ensures Or(a, 0) == a
  {
    if a > 0 {
      OrZero(a / 2);
    }
  }

  /** A value that fits below the shift is packed without disturbing anything. */
  lemma {:induction false} OrPacks(x: nat, k: nat, b: nat)
    requires b < Bits.Pow2(k)
    ensures Or(Shl(x, k), b) == Shl(x, k) + b
  {
    if k == 0 {
      OrZero(x);
    } else {
      var half := Shl(x, k - 1);
      assert Shl(x, k) == 2 * half by {
        assert x * (2 * Bits.Pow2(k - 1)) == 2 * (x * Bits.Pow2(k - 1));
      }
      OrPacks(x, k - 1, b / 2);
    }
  }

  // ---------------------------------------------------------------------
  // The AC timing check
  // ---------------------------------------------------------------------

  datatype Regs = Regs(htiming: nat, ltiming: nat, hs: nat, ext: nat, sdaTiming: nat)

  /** What an accepted timing consists of, before packing. */
  datatype Timing = Timing(sample: nat, high: nat, low: nat, suSta: nat, sda: nat)

  datatype Check = Accepted(t: Timing) | Rejected(code: int) | ZeroDivision

  function CheckTiming(clkSrc: nat, speed: nat, step: int, sample: nat): Check {
    if clkSrc == 0 || HZ_PER_GHZ / clkSrc == 0 then ZeroDivision
    else CheckCounts(GetSpec(speed), SampleNs(clkSrc, sample), HZ_PER_GHZ / clkSrc, step, sample)
  }

  function CheckCounts(spec: Spec, sampleNs: nat, clkNs: nat, step: int, sample: nat): Check
    requires sampleNs > 0 && clkNs > 0
  {
    var suSta := DivRoundUp(spec.minSuSta, clkNs);
    var lowMin := DivRoundUp(spec.minLow, sampleNs);
    DivRoundUpFacts(spec.minSuSta, clkNs);
    DivRoundUpFacts(spec.minLow, sampleNs);
    if suSta > 0x100 then Rejected(-1)
    else if !(2 * step > lowMin && lowMin < MAX_STEP_CNT_DIV) then Rejected(-2)
    else
      var low := if lowMin > step then lowMin else step;
      var high := if lowMin > step then 2 * step - lowMin else step;
      var sda := SdaCount(spec, sampleNs, low);
      if sda == None then Rejected(-3) else Accepted(Timing(sample, high, low, suSta, sda.value))
  }

  /** The data hold and setup counts, when they leave a common window. */
  function SdaCount(spec: Spec, sampleNs: nat, low: nat): (sda: Option<nat>)
    requires sampleNs > 0
    ensures sda.Some? ==> sda.value <= low
  {
    var hold := spec.maxHdDat / sampleNs;
    var setup := DivRoundUp(spec.minSuDat, sampleNs);
    DivRoundUpFacts(spec.minSuDat, sampleNs);
    var sdaMax := if hold > low then 0 else hold;
    var sdaMin := if setup < low then 0 else setup;
    if sdaMin > sdaMax then None else Some((sdaMax + sdaMin) / 2)
  }

  /** One sampling period in nanoseconds; at least one when the clock period is. */
  function SampleNs(clkSrc: nat, sample: nat): (ns: nat)
    requires clkSrc > 0
    ensures HZ_PER_GHZ / clkSrc > 0 ==> ns > 0
  {
    DivideFacts(HZ_PER_GHZ, clkSrc);
    DivideFacts(HZ_PER_GHZ * (sample + 1), clkSrc);
    HZ_PER_GHZ * (sample + 1) / clkSrc
  }

  function Pack(t: Timing): Regs {
    Regs(Or(Shl(t.sample, 8), t.high), Or(Shl(t.sample, 6), t.low), 0,
         Or(Shl(t.suSta, 8), 1), Or(Shl(1, 12), t.sda))
  }

  /** The data hold count: the most that stay within the limit, unless that is more than the low count. */
  ghost predicate HoldEnd(hi: nat, spec: Spec, sampleNs: nat, low: nat) {
    exists most: nat ::
      && most * sampleNs <= spec.maxHdDat < (most + 1) * sampleNs
      && hi == if most <= low then most else 0
  }

  /** The data setup count: the fewest that cover the need, unless they are below the low count. */
  ghost predicate SetupEnd(lo: nat, spec: Spec, sampleNs: nat, low: nat) {
    exists least: nat ::
      && least * sampleNs >= spec.minSuDat && (least > 0 ==> (least - 1) * sampleNs < spec.minSuDat)
      && lo == if least < low then 0 else least
  }

  /** The data count is the middle of its window, rounded down. */
  ghost predicate MidWindow(sda: nat, spec: Spec, sampleNs: nat, low: nat) {
    exists lo: nat, hi: nat ::
      HoldEnd(hi, spec, sampleNs, low) && SetupEnd(lo, spec, sampleNs, low) && lo <= hi
      && 2 * sda <= lo + hi <= 2 * sda + 1
  }

  lemma HoldEndIs(spec: Spec, sampleNs: nat, low: nat)
    requires sampleNs > 0
    ensures var hold := spec.maxHdDat / sampleNs;
      hold >= 0 && HoldEnd(if hold > low then 0 else hold, spec, sampleNs, low)
  {
    var most := spec.maxHdDat / sampleNs;
    DivideFacts(spec.maxHdDat, sampleNs);
    assert (most + 1) * sampleNs == most * sampleNs + sampleNs;
    assert most * sampleNs <= spec.maxHdDat < (most + 1) * sampleNs;
  }

  lemma SetupEndIs(spec: Spec, sampleNs: nat, low: nat)
    requires sampleNs > 0 && spec.minSuDat > 0
    ensures var setup := DivRoundUp(spec.minSuDat, sampleNs);
      setup >= 1 && SetupEnd(if setup < low then 0 else setup, spec, sampleNs, low)
  {
    var least := DivRoundUp(spec.minSuDat, sampleNs);
    DivRoundUpFacts(spec.minSuDat, sampleNs);
    assert (least - 1) * sampleNs == least * sampleNs - sampleNs;
    assert least * sampleNs >= spec.minSuDat && (least > 0 ==> (least - 1) * sampleNs < spec.minSuDat);
  }

  lemma SdaIsMiddle(spec: Spec, sampleNs: nat, low: nat)
    requires sampleNs > 0 && spec.minSuDat > 0 && SdaCount(spec, sampleNs, low).Some?
    ensures MidWindow(SdaCount(spec, sampleNs, low).value, spec, sampleNs, low)
  {
    HoldEndIs(spec, sampleNs, low);
    SetupEndIs(spec, sampleNs, low);
    hide HoldEnd, SetupEnd, DivRoundUp;
    var hold, setup := spec.maxHdDat / sampleNs, DivRoundUp(spec.minSuDat, sampleNs);
    var hi := if hold > low then 0 else hold;
    var lo := if setup < low then 0 else setup;
    assert HoldEnd(hi, spec, sampleNs, low) && SetupEnd(lo, spec, sampleNs, low);
  }

  /** Every timing the search can accept meets its specification in whole nanoseconds, and with no count to spare. */
  ghost predicate ValidCounts(t: Timing, spec: Spec, sampleNs: nat, clkNs: nat, step: int) {
    && 1 <= t.high <= t.low <= 63 && t.high + t.low == 2 * step
    && t.low * sampleNs >= spec.minLow && (t.low == step || (t.low - 1) * sampleNs < spec.minLow)
    && 1 <= t.suSta <= 0xFF && (t.suSta - 1) * clkNs < spec.minSuSta <= t.suSta * clkNs
    && t.sda <= 63 && MidWindow(t.sda, spec, sampleNs, t.low)
  }

  ghost predicate ValidTiming(t: Timing, clkSrc: nat, speed: nat, step: int) {
    clkSrc > 0 && ValidCounts(t, GetSpec(speed), SampleNs(clkSrc, t.sample), HZ_PER_GHZ / clkSrc, step)
  }

  predicate DecodesTo(r: Regs, t: Timing) {
    && r.htiming < 0x1_0000 && r.htiming / 0x100 == t.sample && r.htiming % 0x100 == t.high
    && r.ltiming < 0x1_0000 && r.ltiming / 0x40 == t.sample && r.ltiming % 0x40 == t.low
    && r.hs == 0
    && r.ext < 0x1_0000 && r.ext / 0x100 == t.suSta && r.ext % 0x100 == 1
    && r.sdaTiming < 0x1_0000 && r.sdaTiming / 0x1000 == 1 && r.sdaTiming % 0x1000 == t.sda
  }

  lemma PackDecodes(t: Timing)
    requires t.sample <= 7 && t.high <= 63 && t.low <= 63 && t.suSta <= 0xFF && t.sda <= 63
    ensures DecodesTo(Pack(t), t)
  {
    assert Bits.Pow2(6) == 64 && Bits.Pow2(8) == 256 && Bits.Pow2(12) == 4096;
    OrPacks(t.sample, 8, t.high);
    OrPacks(t.sample, 6, t.low);
    OrPacks(t.suSta, 8, 1);
    OrPacks(1, 12, t.sda);
  }

  /**
    The code admits a start-setup count of 0x100, which would not fit its byte;
    no clock period makes the quotient come out there.
  */
  lemma SuStaFits(speed: nat, clkNs: nat)
    requires clkNs > 0
    ensures DivRoundUp(GetSpec(speed).minSuSta, clkNs) != 0x100
    ensures DivRoundUp(GetSpec(speed).minSuSta, clkNs) >= 1
  {
    var need := GetSpec(speed).minSuSta;
    DivRoundUpFacts(need, clkNs);
    assert need in {5033, 700, 266};
  }

  lemma AcceptedCounts(speed: nat, sampleNs: nat, clkNs: nat, step: int, sample: nat)
    requires sampleNs > 0 && clkNs > 0 && step <= 63
    requires CheckCounts(GetSpec(speed), sampleNs, clkNs, step, sample).Accepted?
    ensures var t := CheckCounts(GetSpec(speed), sampleNs, clkNs, step, sample).t;
      t.sample == sample && ValidCounts(t, GetSpec(speed), sampleNs, clkNs, step)
  {
    var spec := GetSpec(speed);
    var t := CheckCounts(spec, sampleNs, clkNs, step, sample).t;
    var least := DivRoundUp(spec.minLow, sampleNs);
    assert spec.minSuDat > 0;
    SdaIsMiddle(spec, sampleNs, t.low);
    SuStaFits(speed, clkNs);
    hide MidWindow, SdaCount, GetSpec, DivRoundUp;
    LeastCover(spec.minSuSta, clkNs);
    LeastCover(spec.minLow, sampleNs);
    MulMono(least, t.low, sampleNs);
  }

  /** Rounding up gives the least count that covers. */
  lemma LeastCover(need: nat, unit: nat)
    requires unit > 0
    ensures var q := DivRoundUp(need, unit);
      q >= 0 && (q - 1) * unit < need <= q * unit
  {
    var q := DivRoundUp(need, unit);
    RoundedUpNatural(need, unit);
    DivRoundUpFacts(need, unit);
    assert (q - 1) * unit == q * unit - unit;
  }

  lemma AcceptedIsValid(clkSrc: nat, speed: nat, step: int, sample: nat)
    requires sample <= 7 && step <= 63
    requires CheckTiming(clkSrc, speed, step, sample).Accepted?
    ensures var t := CheckTiming(clkSrc, speed, step, sample).t;
      ValidTiming(t, clkSrc, speed, step) && t.sample == sample && DecodesTo(Pack(t), t)
  {
    hide DecodesTo, Pack, CheckCounts, GetSpec, SampleNs;
    AcceptedCounts(speed, SampleNs(clkSrc, sample), HZ_PER_GHZ / clkSrc, step, sample);
    PackDecodes(CheckTiming(clkSrc, speed, step, sample).t);
  }

  // ---------------------------------------------------------------------
  // The search over sample counts
  // ---------------------------------------------------------------------

  /** What one divider setting and one target speed ask for. */
  datatype Query = Query(clkSrc: nat, target: nat, interClkDiv: nat)

  function ClkDivRestri(interClkDiv: nat, sampleCnt: nat): int {
    if sampleCnt == 1 then (if interClkDiv == 0 then 0 else 1)
    else if interClkDiv == 0 then -1
    else if interClkDiv == 1 then 0
    else 1
  }

  /** The restriction is one less than the divider field, held between -1 and 1; a single sample takes nothing back. */
  lemma RestriLaw(interClkDiv: nat, sampleCnt: nat)
    requires sampleCnt >= 1
    ensures var r := ClkDivRestri(interClkDiv, sampleCnt);
      && (sampleCnt >= 2 && interClkDiv <= 2 ==> r == interClkDiv - 1)
      && (sampleCnt == 1 && interClkDiv <= 1 ==> r == interClkDiv)
      && (interClkDiv >= 2 ==> r == 1)
  {
  }

  function OptDiv(q: Query): int
    requires q.target > 0
  {
    DivRoundUp(q.clkSrc / 2, q.target)
  }

  function StepFor(q: Query, s: nat): int
    requires q.target > 0 && s > 0
  {
    DivRoundUp(OptDiv(q) + ClkDivRestri(q.interClkDiv, s), s)
  }

  /** Bus clock periods per half cycle that s samples give, less what the divider takes back. */
  function Cost(q: Query, s: nat): int
    requires q.target > 0 && s > 0
  {
    StepFor(q, s) * s - ClkDivRestri(q.interClkDiv, s)
  }

  /** The step count fits its register and the product is below the maximum. */
  predicate Candidate(q: Query, s: nat)
    requires q.target > 0
  {
    1 <= s <= MAX_SAMPLE_CNT_DIV && StepFor(q, s) <= MAX_STEP_CNT_DIV
    && StepFor(q, s) * s < MAX_SAMPLE_CNT_DIV * MAX_STEP_CNT_DIV
  }

  function CheckOf(q: Query, s: nat): Check
    requires q.target > 0 && s > 0
  {
    CheckTiming(q.clkSrc, q.target, StepFor(q, s) - 1, s - 1)
  }

  predicate Feasible(q: Query, s: nat)
    requires q.target > 0
  {
    Candidate(q, s) && CheckOf(q, s).Accepted?
  }

  /** s is the cheapest feasible count, the first of equals, and no later candidate is cheaper. */
  predicate Winner(q: Query, s: nat)
    requires q.target > 0
  {
    && Feasible(q, s)
    && (forall r :: 1 <= r < s && Feasible(q, r) ==> Cost(q, s) < Cost(q, r))
    && (forall r :: s < r <= MAX_SAMPLE_CNT_DIV && Candidate(q, r) ==> Cost(q, s) <= Cost(q, r))
  }

  ghost predicate NoWinner(q: Query)
    requires q.target > 0
  {
    forall s: nat :: !Winner(q, s)
  }

  lemma WinnerIsBest(q: Query, s: nat, r: nat)
    requires q.target > 0 && Winner(q, s) && Feasible(q, r)
    ensures Cost(q, s) <= Cost(q, r)
    ensures Winner(q, r) ==> r == s
  {
  }

  /** No count costs less than the divider needs; one sample costs exactly that. */
  lemma CostAtLeastOptDiv(q: Query, s: nat)
    requires q.target > 0 && s > 0
    ensures OptDiv(q) <= Cost(q, s) < OptDiv(q) + s
  {
    DivRoundUpFacts(OptDiv(q) + ClkDivRestri(q.interClkDiv, s), s);
  }

  /** An accepted count never drives the bus above the target. */
  lemma NeverTooFast(q: Query, s: nat)
    requires q.target > 0 && Feasible(q, s)
    ensures Cost(q, s) >= 1 && StepFor(q, s) >= 2
    ensures q.clkSrc / (2 * Cost(q, s)) <= q.target
  {
    FeasibleStep(q, s);
    CostAtLeastOptDiv(q, s);
    DivRoundUpFacts(q.clkSrc / 2, q.target);
    MulMono(2, StepFor(q, s), s);
    NotTooFast(q.clkSrc, q.target, OptDiv(q), Cost(q, s));
  }

  lemma NotTooFast(clkSrc: nat, target: nat, opt: nat, cost: nat)
    requires opt <= cost && cost >= 1 && opt * target >= clkSrc / 2
    ensures clkSrc / (2 * cost) <= target
  {
    MulMono(opt, cost, target);
    var d, half := 2 * cost, cost * target;
    DivideFacts(clkSrc, d);
    var quot := clkSrc / d;
    assert d * (target + 1) == 2 * half + d;
    if quot > target {
      MulMono(target + 1, quot, d);
    }
  }

  lemma FeasibleStep(q: Query, s: nat)
    requires q.target > 0 && Feasible(q, s)
    ensures StepFor(q, s) >= 2 && OptDiv(q) >= 0
  {
    hide CheckTiming, OptDiv, StepFor;
    OptDivNatural(q);
    AcceptedSteps(q.clkSrc, q.target, StepFor(q, s) - 1, s - 1);
  }

  lemma OptDivNatural(q: Query)
    requires q.target > 0
    ensures OptDiv(q) >= 0
  {
    RoundedUpNatural(q.clkSrc / 2, q.target);
  }

  lemma RoundedUpNatural(a: nat, b: nat)
    requires b > 0
    ensures DivRoundUp(a, b) >= 0
  {
    DivideFacts(a + b - 1, b);
  }

  lemma AcceptedSteps(clkSrc: nat, speed: nat, step: int, sample: nat)
    requires CheckTiming(clkSrc, speed, step, sample).Accepted?
    ensures step >= 1
  {
    assert GetSpec(speed).minLow > 0;
    hide CheckCounts, SampleNs, GetSpec;
    AcceptedNeeds(GetSpec(speed), SampleNs(clkSrc, sample), HZ_PER_GHZ / clkSrc, step, sample);
  }

  lemma AcceptedNeeds(spec: Spec, sampleNs: nat, clkNs: nat, step: int, sample: nat)
    requires sampleNs > 0 && clkNs > 0 && spec.minLow > 0
    requires CheckCounts(spec, sampleNs, clkNs, step, sample).Accepted?
    ensures step >= 1
  {
    hide SdaCount;
    DivRoundUpFacts(spec.minLow, sampleNs);
  }
}
