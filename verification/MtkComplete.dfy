/**
  The search is complete. It reports failure whenever the last count it checks is
  refused, even if an earlier one was accepted; but up to 1 MHz no cheaper count is
  ever refused after a dearer one was accepted, so failure means that nothing fits.
*/
module MtkComplete {
  import opened Machine
  import opened MtkTiming

  /** The upper end of the speeds that share a specification. */
  function MaxSpeed(speed: nat): nat {
    if speed <= STANDARD_MODE then STANDARD_MODE else if speed <= FAST_MODE then FAST_MODE else FAST_MODE_PLUS
  }

  /** The shortest clock period whose start-setup count still fits. */
  function MinClkNs(speed: nat): nat {
    if speed <= STANDARD_MODE then 20 else if speed <= FAST_MODE then 3 else 2
  }

  function LowCount(speed: nat, sampleNs: nat): (n: int)
    requires sampleNs > 0
    ensures n >= 1
  {
    DivRoundUpFacts(GetSpec(speed).minLow, sampleNs);
    DivRoundUp(GetSpec(speed).minLow, sampleNs)
  }

  // ---------------------------------------------------------------------
  // When a timing is accepted
  // ---------------------------------------------------------------------

  lemma QuotientIs(n: nat, d: nat, k: nat)
    requires k * d <= n < k * d + d
    ensures n / d == k
  {
    DivideFacts(n, d);
    var q := n / d;
    if q < k {
      MulMono(q + 1, k, d);
    } else if q > k {
      MulMono(k + 1, q, d);
    }
  }

  /** A setup count that reaches the low count means that both are one. */
  lemma SetupReachesLow(speed: nat, sampleNs: nat)
    requires sampleNs > 0
    ensures var setup := DivRoundUp(GetSpec(speed).minSuDat, sampleNs);
      1 <= setup && (setup >= LowCount(speed, sampleNs) ==> setup == 1 && LowCount(speed, sampleNs) == 1)
  {
    var spec := GetSpec(speed);
    var setup, low := DivRoundUp(spec.minSuDat, sampleNs), LowCount(speed, sampleNs);
    DivRoundUpFacts(spec.minSuDat, sampleNs);
    DivRoundUpFacts(spec.minLow, sampleNs);
    if setup >= low {
      MulMono(low, setup, sampleNs);
      if setup >= 2 {
        MulMono(2, setup, sampleNs);
      }
    }
  }

  /** A low count of one means sampling periods longer than the longest data hold time. */
  lemma NoHoldInOneCount(speed: nat, sampleNs: nat)
    requires sampleNs > 0 && LowCount(speed, sampleNs) == 1
    ensures GetSpec(speed).maxHdDat / sampleNs == 0
  {
    DivRoundUpFacts(GetSpec(speed).minLow, sampleNs);
    QuotientIs(GetSpec(speed).maxHdDat, sampleNs, 0);
  }

  /** The data window is empty only for a low count of one. */
  lemma WindowIsEmpty(speed: nat, sampleNs: nat, low: nat)
    requires sampleNs > 0 && LowCount(speed, sampleNs) <= low
    ensures SdaCount(GetSpec(speed), sampleNs, low) == None <==> low == 1
  {
    hide DivRoundUp, GetSpec, LowCount;
    SetupReachesLow(speed, sampleNs);
    HoldNatural(speed, sampleNs);
    if low == 1 {
      NoHoldInOneCount(speed, sampleNs);
    }
  }

  lemma HoldNatural(speed: nat, sampleNs: nat)
    requires sampleNs > 0
    ensures 0 <= GetSpec(speed).maxHdDat / sampleNs
  {
    DivideFacts(GetSpec(speed).maxHdDat, sampleNs);
  }

  /**
    The data window never decides anything on its own: it is empty only where one
    step is asked for. What is left are four simple bounds.
  */
  lemma AcceptedExactly(speed: nat, sampleNs: nat, clkNs: nat, step: int, sample: nat)
    requires sampleNs > 0 && clkNs > 0
    ensures CheckCounts(GetSpec(speed), sampleNs, clkNs, step, sample).Accepted? <==>
            && clkNs >= MinClkNs(speed)
            && LowCount(speed, sampleNs) < MAX_STEP_CNT_DIV
            && 2 * step > LowCount(speed, sampleNs)
            && step >= 2
  {
    var n := LowCount(speed, sampleNs);
    assert n == DivRoundUp(GetSpec(speed).minLow, sampleNs);
    hide DivRoundUp, GetSpec, SdaCount, MinClkNs, LowCount;
    SuStaBound(speed, clkNs);
    if 2 * step > n {
      WindowIsEmpty(speed, sampleNs, if n > step then n else step);
    }
  }

  lemma SuStaBound(speed: nat, clkNs: nat)
    requires clkNs > 0
    ensures DivRoundUp(GetSpec(speed).minSuSta, clkNs) <= 0x100 <==> clkNs >= MinClkNs(speed)
  {
    var need := GetSpec(speed).minSuSta;
    var q := DivRoundUp(need, clkNs);
    DivRoundUpFacts(need, clkNs);
    if q <= 0x100 {
      MulMono(q, 0x100, clkNs);
    } else {
      MulMono(0x101, q, clkNs);
    }
  }

  // ---------------------------------------------------------------------
  // The clock against the divider
  // ---------------------------------------------------------------------

  lemma ClockBelow(q: Query)
    requires 0 < q.target <= FAST_MODE_PLUS
    ensures OptDiv(q) >= 0 && q.clkSrc <= 2 * MaxSpeed(q.target) * OptDiv(q) + 1
  {
    DivRoundUpFacts(q.clkSrc / 2, q.target);
    if OptDiv(q) >= 0 {
      MulMono(q.target, MaxSpeed(q.target), OptDiv(q));
    }
  }

  /** From an accepted low count: one less does not reach the minimum. */
  lemma LowIsLeast(speed: nat, sampleNs: nat, k: nat)
    requires sampleNs > 0 && LowCount(speed, sampleNs) > k
    ensures k * sampleNs < GetSpec(speed).minLow
  {
    var n := LowCount(speed, sampleNs);
    DivRoundUpFacts(GetSpec(speed).minLow, sampleNs);
    MulMono(k, n - 1, sampleNs);
    assert (n - 1) * sampleNs == n * sampleNs - sampleNs;
  }

  lemma LongerSamples(speed: nat, short: nat, long: nat)
    requires 0 < short <= long
    ensures LowCount(speed, long) <= LowCount(speed, short)
  {
    var k := LowCount(speed, short);
    DivRoundUpFacts(GetSpec(speed).minLow, short);
    MulMono(short, long, k);
    if LowCount(speed, long) > k {
      LowIsLeast(speed, long, k);
    }
  }

  /** A sample count is one more than what the registers hold of it. */
  lemma SampleFacts(clkSrc: nat, s: nat)
    requires 1 <= clkSrc <= HZ_PER_GHZ && s >= 1
    ensures var ns, clkNs := SampleNs(clkSrc, s - 1), HZ_PER_GHZ / clkSrc;
      clkNs >= 1 && ns >= s * clkNs && HZ_PER_GHZ * s < (ns + 1) * clkSrc
  {
    var clkNs := HZ_PER_GHZ / clkSrc;
    DivideFacts(HZ_PER_GHZ, clkSrc);
    DivideFacts(HZ_PER_GHZ * s, clkSrc);
    var ns := SampleNs(clkSrc, s - 1);
    assert ns == HZ_PER_GHZ * s / clkSrc;
    MultiplesFit(HZ_PER_GHZ, clkNs, clkSrc, s, ns);
  }

  lemma MultiplesFit(n: nat, quot: nat, d: nat, s: nat, ns: nat)
    requires d > 0 && quot * d <= n && n * s < ns * d + d
    ensures s * quot <= ns
  {
    MulMono(quot * d, n, s);
    var sq := s * quot;
    Shuffle(s, quot, d);
    assert (ns + 1) * d == ns * d + d;
    if sq > ns {
      MulMono(ns + 1, sq, d);
    }
  }

  lemma Shuffle(a: nat, b: nat, c: nat)
    ensures a * b * c == b * c * a
  {
    assert a * b * c == a * (b * c);
  }

  lemma SamplesGrow(clkSrc: nat, b: nat, s: nat)
    requires 1 <= clkSrc <= HZ_PER_GHZ && 1 <= b <= s
    ensures SampleNs(clkSrc, b - 1) <= SampleNs(clkSrc, s - 1)
  {
    SampleFacts(clkSrc, s);
    DivideFacts(HZ_PER_GHZ * b, clkSrc);
    var x, y := SampleNs(clkSrc, b - 1), SampleNs(clkSrc, s - 1);
    assert x == HZ_PER_GHZ * b / clkSrc;
    if x > y {
      MulMono(y + 1, x, clkSrc);
    }
  }

  /** Sampling every clock period, a refusal for want of steps takes more steps than there are. */
  lemma OneSampleArithmetic(speed: nat, ns: nat, n: nat, clk: nat)
    requires speed <= FAST_MODE_PLUS
    requires ns >= MinClkNs(speed) && 5 <= n <= MAX_STEP_CNT_DIV
    requires clk <= 2 * MaxSpeed(speed) * n + 1 && HZ_PER_GHZ < (ns + 1) * clk
    ensures (2 * n - 3) * ns >= GetSpec(speed).minLow
  {
    var m := n * ns;
    MulMono(clk, 2 * MaxSpeed(speed) * n + 1, ns + 1);
    MulMono(5, n, ns);
    assert (2 * n - 3) * ns == 2 * m - 3 * ns;
    assert (ns + 1) * (2 * MaxSpeed(speed) * n + 1) == 2 * MaxSpeed(speed) * (m + n) + ns + 1;
  }

  /** A low count beyond its register means that the divider is large. */
  lemma LargeDivider(speed: nat, ns: nat, opt: nat, clk: nat)
    requires speed <= FAST_MODE_PLUS && 63 * ns < GetSpec(speed).minLow
    requires clk <= 2 * MaxSpeed(speed) * opt + 1 && HZ_PER_GHZ < (ns + 1) * clk
    ensures opt >= 54
  {
    var most := if speed <= STANDARD_MODE then 79 else if speed <= FAST_MODE then 22 else 8;
    MulMono(clk, 2 * MaxSpeed(speed) * opt + 1, ns + 1);
    MulMono(ns + 1, most + 1, 2 * MaxSpeed(speed) * opt + 1);
  }

  /** With seven steps or more, twice the steps always cover the low time. */
  lemma ManyStepsArithmetic(speed: nat, ns: nat, n: nat, s: nat, clk: nat)
    requires speed <= FAST_MODE_PLUS && n >= 7 && s >= 3
    requires ns >= s * MinClkNs(speed)
    requires clk <= 2 * MaxSpeed(speed) * (n * s + 1) + 1 && HZ_PER_GHZ * s < (ns + 1) * clk
    ensures (2 * n - 3) * ns >= GetSpec(speed).minLow
  {
    var t := 2 * MaxSpeed(speed);
    var m := n * ns;
    var a := m + n;
    ScaleDown(ns, n, s, t, clk);
    MulMono(7, n, ns);
    MulMono(3, s, MinClkNs(speed));
    MulMono(3 * MinClkNs(speed), ns, n);
    assert (2 * n - 3) * ns == 2 * m - 3 * ns;
  }

  lemma ScaleDown(ns: nat, n: nat, s: nat, t: nat, clk: nat)
    requires n >= 7 && s >= 3 && clk <= t * (n * s + 1) + 1 && HZ_PER_GHZ * s < (ns + 1) * clk
    ensures 21 * HZ_PER_GHZ < (22 * t + 1) * (n * ns + n)
  {
    var a := n * (ns + 1);
    var d := (ns + 1) * (t + 1);
    MulMono(clk, t * (n * s + 1) + 1, ns + 1);
    Regroup(ns + 1, n, s, t);
    assert n * d == (t + 1) * a by {
      assert n * ((ns + 1) * (t + 1)) == (t + 1) * (n * (ns + 1));
    }
    MulMono(7, n, d);
    CancelScale(t * a, (t + 1) * a, d, s);
    assert 21 * (t * a) + (t + 1) * a == (22 * t + 1) * a;
    assert a == n * ns + n;
  }

  lemma Regroup(z: nat, n: nat, s: nat, t: nat)
    ensures z * (t * (n * s + 1) + 1) == t * (n * z) * s + z * (t + 1)
  {
    assert z * (t * (n * s + 1) + 1) == z * (t * (n * s)) + z * (t + 1);
    assert z * (t * (n * s)) == t * (z * (n * s));
    assert z * (n * s) == n * z * s;
    assert t * (n * z * s) == t * (n * z) * s;
  }

  lemma CancelScale(x: nat, c: nat, d: nat, s: nat)
    requires s >= 3 && 7 * d <= c && HZ_PER_GHZ * s < x * s + d
    ensures 21 * HZ_PER_GHZ < 21 * x + c
  {
    MulMono(3, s, c);
    assert (21 * x + c) * s == 21 * (x * s) + s * c;
    if 21 * HZ_PER_GHZ >= 21 * x + c {
      MulMono(21 * x + c, 21 * HZ_PER_GHZ, s);
    }
  }

  // ---------------------------------------------------------------------
  // No cheaper count is refused after a dearer one was accepted
  // ---------------------------------------------------------------------

  /** The bounds a sample count has to meet, free of the checks' order and rounding. */
  predicate Fits(q: Query, s: nat)
    requires 0 < q.target <= FAST_MODE_PLUS && s > 0
  {
    && 1 <= q.clkSrc <= HZ_PER_GHZ
    && HZ_PER_GHZ / q.clkSrc >= MinClkNs(q.target)
    && StepFor(q, s) >= 3
    && LowOf(q, s) < MAX_STEP_CNT_DIV
    && 2 * (StepFor(q, s) - 1) > LowOf(q, s)
  }

  function LowOf(q: Query, s: nat): int
    requires 1 <= q.clkSrc <= HZ_PER_GHZ && s > 0
  {
    SampleFacts(q.clkSrc, s);
    MulMono(1, s, HZ_PER_GHZ / q.clkSrc);
    LowCount(q.target, SampleNs(q.clkSrc, s - 1))
  }

  lemma FeasibleExactly(q: Query, s: nat)
    requires 0 < q.target <= FAST_MODE_PLUS && s > 0
    ensures Feasible(q, s) <==> Candidate(q, s) && Fits(q, s)
  {
    hide CheckCounts, StepFor, LowCount, SampleNs;
    if 1 <= q.clkSrc <= HZ_PER_GHZ {
      SampleFacts(q.clkSrc, s);
      MulMono(1, s, HZ_PER_GHZ / q.clkSrc);
      AcceptedExactly(q.target, SampleNs(q.clkSrc, s - 1), HZ_PER_GHZ / q.clkSrc, StepFor(q, s) - 1, s - 1);
    } else if q.clkSrc > 0 {
      QuotientIs(HZ_PER_GHZ, q.clkSrc, 0);
    }
  }

  /** Where one sample is refused but more are not, the divider is large. */
  lemma OnlyLargeDividers(q: Query, b: nat)
    requires 0 < q.target <= FAST_MODE_PLUS && 2 <= b
    requires Fits(q, b) && !Feasible(q, 1)
    ensures OptDiv(q) >= 54
  {
    hide StepFor, LowCount, SampleNs, GetSpec, MaxSpeed;
    var n := OptDiv(q) + ClkDivRestri(q.interClkDiv, 1);
    OneStepEach(q);
    AtLeastFive(q, b);
    if n <= MAX_STEP_CNT_DIV {
      FeasibleExactly(q, 1);
      SampleFacts(q.clkSrc, 1);
      ClockBelow(q);
      var ns := SampleNs(q.clkSrc, 0);
      if LowOf(q, 1) >= MAX_STEP_CNT_DIV {
        LowIsLeast(q.target, ns, 63);
        LargeDivider(q.target, ns, OptDiv(q), q.clkSrc);
      } else {
        LowIsLeast(q.target, ns, 2 * n - 3);
        MulMono(OptDiv(q), n, 2 * MaxSpeed(q.target));
        OneSampleArithmetic(q.target, ns, n, q.clkSrc);
      }
    }
  }

  lemma OneStepEach(q: Query)
    requires q.target > 0
    ensures StepFor(q, 1) == OptDiv(q) + ClkDivRestri(q.interClkDiv, 1)
  {
    DivRoundUpFacts(OptDiv(q) + ClkDivRestri(q.interClkDiv, 1), 1);
  }

  lemma AtLeastFive(q: Query, b: nat)
    requires q.target > 0 && 2 <= b && StepFor(q, b) >= 3
    ensures OptDiv(q) + ClkDivRestri(q.interClkDiv, 1) >= 5
  {
    DivRoundUpFacts(OptDiv(q) + ClkDivRestri(q.interClkDiv, b), b);
    MulMono(3, StepFor(q, b), b);
  }

  /** With a large divider every later count whose steps fit their register is accepted as well. */
  lemma LaterCountsFit(q: Query, b: nat, s: nat)
    requires 0 < q.target <= FAST_MODE_PLUS && 2 <= b < s && Candidate(q, s)
    requires Fits(q, b) && OptDiv(q) >= 54
    ensures Fits(q, s)
  {
    hide LowCount, SampleNs, GetSpec, MaxSpeed;
    var n := StepFor(q, s);
    DivRoundUpFacts(OptDiv(q) + ClkDivRestri(q.interClkDiv, s), s);
    if n <= 6 {
      MulMono(n, 6, s);
    }
    hide StepFor;
    SampleFacts(q.clkSrc, b);
    SampleFacts(q.clkSrc, s);
    SamplesGrow(q.clkSrc, b, s);
    MulMono(1, b, HZ_PER_GHZ / q.clkSrc);
    var ns := SampleNs(q.clkSrc, s - 1);
    LongerSamples(q.target, SampleNs(q.clkSrc, b - 1), ns);
    if 2 * (n - 1) <= LowOf(q, s) {
      ClockBelow(q);
      MulMono(OptDiv(q), n * s + 1, 2 * MaxSpeed(q.target));
      MulMono(MinClkNs(q.target), HZ_PER_GHZ / q.clkSrc, s);
      LowIsLeast(q.target, ns, 2 * n - 3);
      ManyStepsArithmetic(q.target, ns, n, s, q.clkSrc);
    }
  }

  /** The cheapest feasible count, the first of equals, among counts 1..k; zero when there is none. */
  function Cheapest(q: Query, k: nat): (s: nat)
    requires q.target > 0
    ensures s <= k && (s > 0 ==> Feasible(q, s))
    ensures forall r :: 1 <= r <= k && Feasible(q, r) ==>
              s > 0 && (if r < s then Cost(q, s) < Cost(q, r) else Cost(q, s) <= Cost(q, r))
  {
    if k == 0 then 0
    else
      var s := Cheapest(q, k - 1);
      if Feasible(q, k) && (s == 0 || Cost(q, k) < Cost(q, s)) then k else s
  }

  /** The cheapest feasible count is never undercut by a later candidate, so the scan ends on it. */
  lemma CheapestWins(q: Query)
    requires 0 < q.target <= FAST_MODE_PLUS
    ensures var s := Cheapest(q, MAX_SAMPLE_CNT_DIV); if s > 0 then Winner(q, s) else NoWinner(q)
  {
    var s := Cheapest(q, MAX_SAMPLE_CNT_DIV);
    hide Cost, CheckOf, StepFor, CheckTiming, Cheapest, Fits, OptDiv;
    if s > 0 {
      forall r | s < r <= MAX_SAMPLE_CNT_DIV && Candidate(q, r)
        ensures Cost(q, s) <= Cost(q, r)
      {
        if Cost(q, r) < Cost(q, s) {
          Undercut(q, s, r);
        }
      }
    }
  }

  lemma Undercut(q: Query, s: nat, r: nat)
    requires 0 < q.target <= FAST_MODE_PLUS && s < r && Candidate(q, r) && Feasible(q, s)
    requires Cost(q, r) < Cost(q, s) && (Feasible(q, 1) ==> Cost(q, s) <= Cost(q, 1))
    ensures Feasible(q, r)
  {
    OneStepEach(q);
    CostAtLeastOptDiv(q, r);
    hide CheckOf, StepFor, CheckTiming, Fits, OptDiv, ClkDivRestri;
    FeasibleExactly(q, s);
    FeasibleExactly(q, r);
    OnlyLargeDividers(q, s);
    LaterCountsFit(q, s, r);
  }

  ghost predicate Infeasible(q: Query)
    requires q.target > 0
  {
    forall s: nat :: !Feasible(q, s)
  }

  /** Failure is exactly infeasibility, although the code only remembers the last check. */
  lemma FailureMeansInfeasible(q: Query)
    requires 0 < q.target <= FAST_MODE_PLUS
    ensures NoWinner(q) <==> Infeasible(q)
    ensures NoWinner(q) <==> forall s :: 1 <= s <= MAX_SAMPLE_CNT_DIV && Candidate(q, s) ==> !Fits(q, s)
  {
    CheapestWins(q);
    hide CheckOf, StepFor, CheckTiming, Fits, Cost;
    forall s: nat | 1 <= s
      ensures Feasible(q, s) <==> Candidate(q, s) && Fits(q, s)
    {
      FeasibleExactly(q, s);
    }
    var c := Cheapest(q, MAX_SAMPLE_CNT_DIV);
    assert c > 0 ==> Winner(q, c);
  }
}
