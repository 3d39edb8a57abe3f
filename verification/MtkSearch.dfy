/** The search itself: one AcTiming object, filled in by each accepted check. */
module MtkSearch {
  import opened Machine
  import opened MtkTiming
  import opened MtkComplete
  import Bits

  /** None of the tool's None; Raised is its ZeroDivisionError. */
  datatype Outcome = Found(step: nat, sample: nat) | NoTiming | Raised

  /** What became of one sample count. */
  datatype Trial = Skipped | Refused | Improved(step: nat) | Failed

  datatype Setting = Setting(clkDiv: nat, clkSrc: nat, timingReg: nat, ltimingReg: nat, regs: Regs, busHz: nat)

  datatype Attempt = Ready(setting: Setting) | Hopeless | Broken

  /** What the scan knows after sample counts 1..k: the cheapest accepted count, and whether the last check passed. */
  predicate Scanned(q: Query, k: nat, best: nat, passed: bool)
    requires q.target > 0
  {
    && (best > 0 ==> best <= k && Feasible(q, best))
    && (best == 0 ==> forall r :: 1 <= r <= k ==> !Feasible(q, r))
    && (best > 0 ==>
          && (forall r :: 1 <= r <= k && Feasible(q, r) ==> Cost(q, best) <= Cost(q, r))
          && (forall r :: 1 <= r < best && Feasible(q, r) ==> Cost(q, best) < Cost(q, r)))
    && (passed <==> best > 0 && forall r :: best < r <= k && Candidate(q, r) ==> Cost(q, best) <= Cost(q, r))
  }

  lemma WinnerPasses(q: Query, best: nat, passed: bool, s: nat)
    requires q.target > 0 && Scanned(q, MAX_SAMPLE_CNT_DIV, best, passed) && Winner(q, s)
    ensures passed && s == best
  {
    hide Cost, CheckOf, StepFor;
    assert Feasible(q, s) && Feasible(q, best);
  }

  lemma ScanComplete(q: Query, best: nat, passed: bool)
    requires q.target > 0 && Scanned(q, MAX_SAMPLE_CNT_DIV, best, passed)
    ensures if passed then Winner(q, best) else NoWinner(q)
  {
    forall s: nat | Winner(q, s)
      ensures passed
    {
      WinnerPasses(q, best, passed, s);
    }
    hide Cost, CheckOf, StepFor;
  }

  /** The next count is not a candidate, or costs at least as much as the best so far. */
  lemma ScanKeeps(q: Query, k: nat, best: nat, passed: bool)
    requires q.target > 0 && Scanned(q, k, best, passed)
    requires !Candidate(q, k + 1) || (best > 0 && Cost(q, best) <= Cost(q, k + 1))
    ensures Scanned(q, k + 1, best, passed)
  {
    hide Cost, CheckOf, StepFor;
  }

  /** The next count is a cheaper candidate, and is checked. */
  lemma ScanChecks(q: Query, k: nat, best: nat, passed: bool)
    requires q.target > 0 && Scanned(q, k, best, passed) && Candidate(q, k + 1)
    requires best == 0 || Cost(q, k + 1) < Cost(q, best)
    ensures if Feasible(q, k + 1) then Scanned(q, k + 1, k + 1, true) else Scanned(q, k + 1, best, false)
  {
    hide Cost, CheckOf, StepFor;
  }

  /** A count that costs no more than the divider needs cannot be undercut. */
  lemma ScanStops(q: Query, best: nat)
    requires q.target > 0 && best > 0 && Scanned(q, best, best, true) && best <= MAX_SAMPLE_CNT_DIV
    requires StepFor(q, best) * best == OptDiv(q) + ClkDivRestri(q.interClkDiv, best)
    ensures Scanned(q, MAX_SAMPLE_CNT_DIV, best, true)
  {
    forall r | 1 <= r <= MAX_SAMPLE_CNT_DIV
      ensures Cost(q, best) <= Cost(q, r)
    {
      CostAtLeastOptDiv(q, r);
    }
    hide Cost, CheckOf, StepFor;
  }

  /** One sample costs exactly what the divider needs. */
  lemma OneSample(q: Query)
    requires q.target > 0
    ensures StepFor(q, 1) * 1 == OptDiv(q) + ClkDivRestri(q.interClkDiv, 1)
  {
    DivRoundUpFacts(OptDiv(q) + ClkDivRestri(q.interClkDiv, 1), 1);
  }

  lemma NothingScanned(q: Query)
    requires q.target > 0
    ensures Scanned(q, 0, 0, false)
  {
  }

  lemma FeasibleMeans(q: Query, s: nat)
    requires q.target > 0 && Candidate(q, s)
    ensures Feasible(q, s) <==> CheckOf(q, s).Accepted?
  {
  }

  lemma WhenRaised(clkSrc: nat, target: nat, step: int, sample: nat)
    requires CheckTiming(clkSrc, target, step, sample) == ZeroDivision
    ensures clkSrc == 0 || clkSrc > HZ_PER_GHZ
  {
    if 0 < clkSrc <= HZ_PER_GHZ {
      DivideFacts(HZ_PER_GHZ, clkSrc);
    }
    hide CheckCounts;
  }

  lemma StepNatural(q: Query, s: nat)
    requires q.target > 0 && s > 0
    requires Candidate(q, s) && CheckOf(q, s).Accepted?
    ensures StepFor(q, s) >= 0
  {
    FeasibleStep(q, s);
  }

  lemma WinnerProgrammed(q: Query, s: nat)
    requires q.target > 0 && Winner(q, s)
    ensures 1 <= s <= MAX_SAMPLE_CNT_DIV && 2 <= StepFor(q, s) <= MAX_STEP_CNT_DIV && CheckOf(q, s).Accepted?
    ensures ValidTiming(CheckOf(q, s).t, q.clkSrc, q.target, StepFor(q, s) - 1)
    ensures DecodesTo(Pack(CheckOf(q, s).t), CheckOf(q, s).t)
    ensures Cost(q, s) >= 1 && q.clkSrc / (2 * Cost(q, s)) <= q.target
  {
    FeasibleStep(q, s);
    NeverTooFast(q, s);
    hide ValidTiming, DecodesTo, Pack, CheckTiming, StepFor;
    AcceptedIsValid(q.clkSrc, q.target, StepFor(q, s) - 1, s - 1);
  }

  /** Python's // on natural numbers. */
  function Divided(n: nat, d: nat): nat
    requires d > 0
  {
    n / d
  }

  lemma Quotients(parent: nat, d: nat)
    requires 1 <= d <= MAX_CLOCK_DIV
    ensures Divided(parent, d) == 0 ==> parent < MAX_CLOCK_DIV
    ensures Divided(parent, d) <= parent
  {
    DivideFacts(parent, d);
    MulMono(1, d, parent / d);
  }

  /** Sample count s with the step, the restriction and the registers that are its own. */
  predicate Chosen(q: Query, s: nat, step: int, restri: int, regs: Regs)
    requires q.target > 0 && s > 0
  {
    step == StepFor(q, s) && restri == ClkDivRestri(q.interClkDiv, s)
    && CheckOf(q, s).Accepted? && regs == Pack(CheckOf(q, s).t)
  }

  lemma ScanFound(q: Query, best: nat, passed: bool)
    requires q.target > 0 && Scanned(q, MAX_SAMPLE_CNT_DIV, best, passed)
    ensures passed ==> best > 0
  {
  }

  class AcTiming {
    var regs: Regs
    const interClkDiv: nat

    constructor (interClkDiv: nat)
      ensures this.interClkDiv == interClkDiv && regs == Regs(0, 0, 0, 0, 0)
    {
      this.interClkDiv := interClkDiv;
      regs := Regs(0, 0, 0, 0, 0);
    }

    /** The registers change exactly when the timing is accepted. */
    method CheckAcTiming(clkSrc: nat, speed: nat, step: int, sample: nat) returns (check: Check)
      requires speed <= FAST_MODE_PLUS
      modifies this
      ensures check == CheckTiming(clkSrc, speed, step, sample)
      ensures regs == if check.Accepted? then Pack(check.t) else old(regs)
    {
      if clkSrc == 0 || HZ_PER_GHZ / clkSrc == 0 {
        return ZeroDivision;
      }
      var spec := GetSpec(speed);
      var sampleNs := SampleNs(clkSrc, sample);
      var suSta := DivRoundUp(spec.minSuSta, HZ_PER_GHZ / clkSrc);
      if suSta > 0x100 {
        return Rejected(-1);
      }
      var low := DivRoundUp(spec.minLow, sampleNs);
      var high: int;
      if 2 * step > low && low < MAX_STEP_CNT_DIV {
        if low > step {
          high := 2 * step - low;
        } else {
          high, low := step, step;
        }
      } else {
        return Rejected(-2);
      }
      var sda := SdaCount(spec, sampleNs, low);
      if sda == None {
        return Rejected(-3);
      }
      check := Accepted(Timing(sample, high, low, suSta, sda.value));
      regs := Pack(check.t);
    }

    /** One iteration: skip the count, or check it and keep it if it passes. */
    method TrySample(clkSrc: nat, target: nat, s: nat, optDiv: int, restri: int, bestMul: int,
                     ghost best: nat, ghost passed: bool) returns (trial: Trial)
      requires 0 < target <= FAST_MODE_PLUS && 1 <= s <= MAX_SAMPLE_CNT_DIV
      requires var q := Query(clkSrc, target, interClkDiv);
        && optDiv == OptDiv(q) && restri == ClkDivRestri(interClkDiv, s) && Scanned(q, s - 1, best, passed)
        && (best == 0 ==> bestMul == MAX_SAMPLE_CNT_DIV * MAX_STEP_CNT_DIV)
        && (best > 0 ==> restri == ClkDivRestri(interClkDiv, best) && bestMul == StepFor(q, best) * best
                         && bestMul < MAX_SAMPLE_CNT_DIV * MAX_STEP_CNT_DIV)
      modifies this
      ensures var q := Query(clkSrc, target, interClkDiv);
        && (trial == Skipped ==> Scanned(q, s, best, passed))
        && (trial == Refused ==> Scanned(q, s, best, false))
        && (trial.Improved? ==> Scanned(q, s, s, true) && trial.step == StepFor(q, s)
                                && trial.step * s < MAX_SAMPLE_CNT_DIV * MAX_STEP_CNT_DIV
                                && CheckOf(q, s).Accepted? && regs == Pack(CheckOf(q, s).t))
        && (trial == Failed ==> clkSrc == 0 || clkSrc > HZ_PER_GHZ)
      ensures !trial.Improved? ==> regs == old(regs)
    {
      ghost var q := Query(clkSrc, target, interClkDiv);
      hide Feasible, CheckTiming, Scanned, Pack;
      var step := DivRoundUp(optDiv + restri, s);
      if step > MAX_STEP_CNT_DIV || step * s >= bestMul {
        ScanKeeps(q, s - 1, best, passed);
        return Skipped;
      }
      ScanChecks(q, s - 1, best, passed);
      var check := CheckAcTiming(clkSrc, target, step - 1, s - 1);
      FeasibleMeans(q, s);
      if check == ZeroDivision {
        WhenRaised(clkSrc, target, step - 1, s - 1);
        return Failed;
      }
      if !check.Accepted? {
        return Refused;
      }
      StepNatural(q, s);
      return Improved(step);
    }

    /** The scan over all sample counts, and what it settles on. */
    method ScanCounts(clkSrc: nat, target: nat)
      returns (raised: bool, passed: bool, baseSample: nat, baseStep: nat, restri: int)
      requires 0 < target <= FAST_MODE_PLUS
      modifies this
      ensures var q := Query(clkSrc, target, interClkDiv);
        !raised ==> if passed then baseSample > 0 && Chosen(q, baseSample, baseStep, restri, regs) && Winner(q, baseSample)
                    else NoWinner(q)
      ensures raised ==> clkSrc == 0 || clkSrc > HZ_PER_GHZ
    {
      ghost var q := Query(clkSrc, target, interClkDiv);
      NothingScanned(q);
      OneSample(q);
      var optDiv := DivRoundUp(clkSrc / 2, target);
      assert optDiv == OptDiv(q);
      hide Feasible, Scanned, CheckOf, StepFor, Pack, Candidate, OptDiv, Winner, NoWinner, DivRoundUp;
      var bestMul: int := MAX_SAMPLE_CNT_DIV * MAX_STEP_CNT_DIV;
      raised, passed, restri := false, false, 0;
      baseSample, baseStep := MAX_SAMPLE_CNT_DIV, MAX_STEP_CNT_DIV;
      ghost var best := 0;
      var s := 1;
      while s <= MAX_SAMPLE_CNT_DIV
        invariant 1 <= s <= MAX_SAMPLE_CNT_DIV + 1
        invariant Scanned(q, s - 1, best, passed)
        invariant best == 0 ==> bestMul == MAX_SAMPLE_CNT_DIV * MAX_STEP_CNT_DIV
        invariant best > 0 ==> 2 <= best < s && bestMul == StepFor(q, best) * best < MAX_SAMPLE_CNT_DIV * MAX_STEP_CNT_DIV
        invariant best > 0 ==> baseSample == best && Chosen(q, best, baseStep, restri, regs)
      {
        restri := ClkDivRestri(interClkDiv, s);
        var trial := TrySample(clkSrc, target, s, optDiv, restri, bestMul, best, passed);
        if trial == Failed {
          raised := true;
          return;
        }
        if trial == Refused {
          passed := false;
        }
        if trial.Improved? {
          passed := true;
          best, bestMul, baseSample, baseStep := s, trial.step * s, s, trial.step;
          if bestMul == optDiv + restri {
            ScanStops(q, s);
            break;
          }
        }
        s := s + 1;
      }
      ScanComplete(q, best, passed);
      ScanFound(q, best, passed);
    }

    /** A result is the cheapest feasible count, with its own registers; without one no count is feasible. */
    method CalculateSpeed(clkSrc: nat, target: nat) returns (r: Outcome)
      requires 0 < target <= FAST_MODE_PLUS
      modifies this
      ensures var q := Query(clkSrc, target, interClkDiv);
        && (r.Found? ==> Winner(q, r.sample + 1) && r.step == StepFor(q, r.sample + 1) - 1
                         && regs == Pack(CheckOf(q, r.sample + 1).t))
        && (r == NoTiming ==> Infeasible(q))
      ensures r == Raised ==> clkSrc == 0 || clkSrc > HZ_PER_GHZ
    {
      var raised, passed, baseSample, baseStep, restri := ScanCounts(clkSrc, target);
      if raised {
        return Raised;
      }
      ghost var q := Query(clkSrc, target, interClkDiv);
      if !passed {
        FailureMeansInfeasible(q);
        return NoTiming;
      }
      WinnerProgrammed(q, baseSample);
      hide Winner, CheckOf, StepFor, Pack, ValidTiming, DecodesTo;
      if clkSrc / (2 * (baseSample * baseStep - restri)) > target {
        return NoTiming;
      }
      return Found(baseStep - 1, baseSample - 1);
    }
  }

  /** One divider setting, searched with a fresh AcTiming object. */
  method TryDivider(parent: nat, target: nat, d: nat) returns (r: Attempt)
    requires 0 < target <= FAST_MODE_PLUS && 1 <= d <= MAX_CLOCK_DIV
    ensures r.Ready? ==> Good(parent, d, target, r.setting)
    ensures r == Hopeless ==> Infeasible(QueryAt(parent, d, target))
    ensures r == Broken ==> parent < MAX_CLOCK_DIV || parent > HZ_PER_GHZ
  {
    hide Winner, Infeasible, StepFor, ClkDivRestri, Pack, CheckOf, Programmed, Or, Shl;
    var ac := new AcTiming(d - 1);
    var clkSrc := Divided(parent, d);
    var found := ac.CalculateSpeed(clkSrc, target);
    if found == Raised {
      Quotients(parent, d);
      return Broken;
    }
    if found == NoTiming {
      return Hopeless;
    }
    var sample, step := found.sample, found.step;
    var restri := ClkDivRestri(ac.interClkDiv, sample + 1);
    ghost var q := QueryAt(parent, d, target);
    SettingIsProgrammed(q, sample, step, restri, ac.regs);
    WinnerFits(q, sample + 1);
    PairPacks(sample, step);
    var busHz := clkSrc / (2 * ((sample + 1) * (step + 1) - restri));
    return Ready(Setting(d, clkSrc, Or(Shl(sample, 8), step), Or(Shl(sample, 6), step), ac.regs, busHz));
  }

  /** The setting belongs to divider d, holds the registers of its winner, and keeps to the target. */
  ghost predicate Good(parent: nat, d: nat, target: nat, v: Setting)
    requires d > 0 && target > 0
  {
    && v.clkDiv == d && v.clkSrc == Divided(parent, d) && v.busHz <= target
    && exists s: nat ::
         && Programmed(QueryAt(parent, d, target), s, v.busHz, v.regs)
         && HoldsPair(v.timingReg, 0x100, s - 1, StepFor(QueryAt(parent, d, target), s) - 1)
         && HoldsPair(v.ltimingReg, 0x40, s - 1, StepFor(QueryAt(parent, d, target), s) - 1)
  }

  /**
    The first divider that has a timing at all wins. The bus never runs faster than
    asked, and every register decodes to a timing that meets the specification.
  */
  method SetSpeed(parentClk: nat, target: nat, clkSrcDiv: nat) returns (r: Attempt)
    requires 0 < target <= FAST_MODE_PLUS && clkSrcDiv > 0
    ensures var parent := Divided(parentClk, clkSrcDiv);
      && (r.Ready? ==> var d := r.setting.clkDiv;
            && 1 <= d <= MAX_CLOCK_DIV && Good(parent, d, target, r.setting)
            && forall e: nat :: 1 <= e < d ==> Infeasible(QueryAt(parent, e, target)))
      && (r == Hopeless ==> forall e: nat :: 1 <= e <= MAX_CLOCK_DIV ==> Infeasible(QueryAt(parent, e, target)))
      && (r == Broken ==> parent < MAX_CLOCK_DIV || parent > HZ_PER_GHZ)
  {
    var parent := Divided(parentClk, clkSrcDiv);
    hide Infeasible, Programmed, Divided;
    var d := 1;
    while d <= MAX_CLOCK_DIV
      invariant 1 <= d <= MAX_CLOCK_DIV + 1
      invariant forall e: nat :: 1 <= e < d ==> Infeasible(QueryAt(parent, e, target))
    {
      r := TryDivider(parent, target, d);
      if r != Hopeless {
        return;
      }
      d := d + 1;
    }
    return Hopeless;
  }

  /** A register with the sample count above and the step count below. */
  predicate HoldsPair(reg: nat, unit: nat, sample: int, step: int)
    requires unit > 0
  {
    reg / unit == sample && reg % unit == step
  }

  lemma PairPacks(sample: nat, step: nat)
    requires sample <= 7 && step <= 63
    ensures HoldsPair(Or(Shl(sample, 8), step), 0x100, sample, step)
    ensures HoldsPair(Or(Shl(sample, 6), step), 0x40, sample, step)
  {
    assert Bits.Pow2(6) == 64 && Bits.Pow2(8) == 256;
    OrPacks(sample, 8, step);
    OrPacks(sample, 6, step);
  }

  /** The search that divider setting d leads to. */
  function QueryAt(parent: nat, d: nat, target: nat): Query
    requires d > 0
  {
    Query(Divided(parent, d), target, d - 1)
  }

  /** The registers belong to the winner of this query, and they are good. */
  ghost predicate Programmed(q: Query, s: nat, busHz: int, regs: Regs)
    requires q.target > 0
  {
    && Winner(q, s) && 1 <= s && Cost(q, s) >= 1
    && CheckOf(q, s).Accepted? && regs == Pack(CheckOf(q, s).t)
    && ValidTiming(CheckOf(q, s).t, q.clkSrc, q.target, StepFor(q, s) - 1)
    && DecodesTo(regs, CheckOf(q, s).t)
    && busHz == q.clkSrc / (2 * Cost(q, s))
  }

  lemma WinnerFits(q: Query, s: nat)
    requires q.target > 0 && Winner(q, s)
    ensures 1 <= s <= MAX_SAMPLE_CNT_DIV && StepFor(q, s) <= MAX_STEP_CNT_DIV
  {
  }

  lemma CostIs(q: Query, s: nat, step: nat, restri: int)
    requires q.target > 0 && s > 0 && step == StepFor(q, s) && restri == ClkDivRestri(q.interClkDiv, s)
    ensures s * step - restri == Cost(q, s)
  {
  }

  lemma QuotientNatural(n: nat, d: nat)
    requires d > 0
    ensures 0 <= n / d
  {
  }

  lemma SettingIsProgrammed(q: Query, sample: nat, step: nat, restri: int, regs: Regs)
    requires q.target > 0 && Winner(q, sample + 1) && step == StepFor(q, sample + 1) - 1
    requires restri == ClkDivRestri(q.interClkDiv, sample + 1)
    requires regs == Pack(CheckOf(q, sample + 1).t)
    ensures var cost := (sample + 1) * (step + 1) - restri;
      cost >= 1 && Programmed(q, sample + 1, q.clkSrc / (2 * cost), regs) && 0 <= q.clkSrc / (2 * cost) <= q.target
  {
    var s := sample + 1;
    WinnerProgrammed(q, s);
    hide Winner, CheckOf, StepFor, Pack, ValidTiming, DecodesTo, ClkDivRestri;
    CostIs(q, s, step + 1, restri);
    hide Cost;
    QuotientNatural(q.clkSrc, 2 * Cost(q, s));
  }

  /** The driver's default: 124.8 MHz and 400 kHz. */
  const DEFAULT := Query(124_800_000, 400_000, 0)

  /**
    For the default the search settles on five samples of 31 steps, and the registers
    are the constants that the driver uses when the firmware left none.
  */
  lemma DefaultRegisters()
    ensures Winner(DEFAULT, 5) && StepFor(DEFAULT, 5) == 31 && Cost(DEFAULT, 5) == 156
    ensures CheckOf(DEFAULT, 5).Accepted?
    ensures Pack(CheckOf(DEFAULT, 5).t) == Regs(0x0419, 0x0123, 0x0000, 0x5801, 0x100A)
  {
    hide Pack, CheckTiming, CheckOf, StepFor, Cost, OptDiv;
    DefaultChecked();
    DefaultPacked();
    CheaperDefault();
    forall r | 1 <= r <= MAX_SAMPLE_CNT_DIV
      ensures Cost(DEFAULT, r) >= 156
    {
      CostAtLeastOptDiv(DEFAULT, r);
    }
  }

  lemma DefaultChecked()
    ensures OptDiv(DEFAULT) == 156 && StepFor(DEFAULT, 5) == 31 && Cost(DEFAULT, 5) == 156
    ensures CheckOf(DEFAULT, 5) == Accepted(Timing(4, 25, 35, 88, 10))
  {
    assert OptDiv(DEFAULT) == 156;
    assert SampleNs(124_800_000, 4) == 40 && HZ_PER_GHZ / 124_800_000 == 8;
    assert GetSpec(400_000) == Spec(1400, 700, 800, 200);
    assert CheckCounts(Spec(1400, 700, 800, 200), 40, 8, 30, 4) == Accepted(Timing(4, 25, 35, 88, 10));
  }

  lemma DefaultPacked()
    ensures Pack(Timing(4, 25, 35, 88, 10)) == Regs(0x0419, 0x0123, 0x0000, 0x5801, 0x100A)
  {
    assert Bits.Pow2(6) == 64 && Bits.Pow2(8) == 256 && Bits.Pow2(12) == 4096;
    OrPacks(4, 8, 25);
    OrPacks(4, 6, 35);
    OrPacks(88, 8, 1);
    OrPacks(1, 12, 10);
  }

  /** Fewer samples take too many steps, or cost one more. */
  lemma CheaperDefault()
    ensures forall r :: 1 <= r < 5 && Feasible(DEFAULT, r) ==> Cost(DEFAULT, 5) < Cost(DEFAULT, r)
  {
    assert OptDiv(DEFAULT) == 156;
    assert StepFor(DEFAULT, 1) == 156 && StepFor(DEFAULT, 2) == 78;
    assert Cost(DEFAULT, 3) == 157 && Cost(DEFAULT, 4) == 157 && Cost(DEFAULT, 5) == 156;
  }
}
