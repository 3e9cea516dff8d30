/** The arithmetic of the herd-immunity model: input validation, the overlap-corrected
    immune population, the daily update rule and the sequence of immune fractions it
    produces, with the properties of that sequence. Quantities are exact reals. */
module Immunity {
  import opened Wrappers

  /** Fraction of the population at which the driver stops (HERD_IMMUNITY_PERCENT). */
  const HerdImmunityPercent: real := 0.75

  /** Why constructing a model fails. All but DivisionByZero are the Python program's ValueErrors;
      DivisionByZero is the ZeroDivisionError raised when the total population is 0. */
  datatype ModelError =
    | TotalPopNegative
    | RecoveredPopNegative
    | RecoveredPopAboveTotal
    | VaxPopNegative
    | VaxPopAboveTotal
    | VaxRateNegative
    | VaxRateAboveTotal
    | DivisionByZero

  /** The range checks of the constructor, in their order. The two "rate" checks test the
      vaccinated population again, so they never fire and the rate is never checked. */
  function CheckInputs(totalPop: real, recoveredPop: real, vaxPop: real, vaxRate: real): (e: Option<ModelError>)
    ensures e.None? <==> 0.0 <= totalPop && 0.0 <= recoveredPop <= totalPop && 0.0 <= vaxPop <= totalPop
    ensures e != Some(VaxRateNegative) && e != Some(VaxRateAboveTotal) && e != Some(DivisionByZero)
    ensures totalPop < 0.0 ==> e == Some(TotalPopNegative)
    ensures 0.0 <= totalPop && recoveredPop < 0.0 ==> e == Some(RecoveredPopNegative)
    ensures 0.0 <= totalPop && 0.0 <= recoveredPop && recoveredPop > totalPop ==> e == Some(RecoveredPopAboveTotal)
    ensures 0.0 <= recoveredPop <= totalPop && vaxPop < 0.0 ==> e == Some(VaxPopNegative)
    ensures 0.0 <= recoveredPop <= totalPop && vaxPop > totalPop ==> e == Some(VaxPopAboveTotal)
  {
    if totalPop < 0.0 then Some(TotalPopNegative)
    else if recoveredPop < 0.0 then Some(RecoveredPopNegative)
    else if recoveredPop > totalPop then Some(RecoveredPopAboveTotal)
    else if vaxPop < 0.0 then Some(VaxPopNegative)
    else if vaxPop > totalPop then Some(VaxPopAboveTotal)
    else if vaxPop < 0.0 then Some(VaxRateNegative)
    else if vaxPop > totalPop then Some(VaxRateAboveTotal)
    else None
  }

  /** The error, if any, that constructing a model raises: a failed range check, or else
      the division by a zero total population when the recovery probability is computed. */
  function ConstructionError(totalPop: real, recoveredPop: real, vaxPop: real, vaxRate: real): (e: Option<ModelError>)
    ensures e.None? <==> ValidInputs(totalPop, recoveredPop, vaxPop)
    ensures e == Some(DivisionByZero) <==> totalPop == 0.0 && recoveredPop == 0.0 && vaxPop == 0.0
    ensures e != Some(VaxRateNegative) && e != Some(VaxRateAboveTotal)
  {
    match CheckInputs(totalPop, recoveredPop, vaxPop, vaxRate)
    case Some(err) => Some(err)
    case None => if totalPop == 0.0 then Some(DivisionByZero) else None
  }

  /** Population immune by vaccination or by recovery. The vaccinated are assumed to have
      recovered in the same proportion as everyone, and that part is counted only once. */
  function ImmunePop(totalPop: real, recoveredPop: real, vaxPop: real): real
    requires totalPop != 0.0
  {
    vaxPop * (1.0 - recoveredPop / totalPop) + recoveredPop
  }

  /** The overlap-corrected population as the Python program computes it, from a stored
      recovery probability. */
  lemma OverlapCorrection(totalPop: real, recoveredPop: real, vaxPop: real, probRecovered: real)
    requires totalPop != 0.0 && probRecovered == recoveredPop / totalPop
    ensures vaxPop * (1.0 - probRecovered) + recoveredPop == ImmunePop(totalPop, recoveredPop, vaxPop)
  {
  }

  /** The vaccinated population after `days` effective daily steps: one rate per step. */
  function VaxAfter(vaxPop: real, vaxRate: real, days: nat): real
  {
    if days == 0 then vaxPop else VaxAfter(vaxPop, vaxRate, days - 1) + vaxRate
  }

  /** The guard of the daily step: one more day of vaccinations fits under the total. */
  predicate CapAllows(vaxPop: real, vaxRate: real, totalPop: real)
  {
    vaxPop + vaxRate <= totalPop
  }

  /** Entry `day` of the log of a freshly constructed model, after `day` effective daily
      steps. The seed is the immune population over the total; each step adds the previous
      entry to the immune population before dividing by the total, as the Python program does. */
  function ImmuneFraction(totalPop: real, recoveredPop: real, vaxPop: real, vaxRate: real, day: nat): real
    requires totalPop != 0.0
  {
    if day == 0 then ImmunePop(totalPop, recoveredPop, vaxPop) / totalPop
    else (ImmunePop(totalPop, recoveredPop, VaxAfter(vaxPop, vaxRate, day))
          + ImmuneFraction(totalPop, recoveredPop, vaxPop, vaxRate, day - 1)) / totalPop
  }

  /** The whole log after `days` effective daily steps. */
  function Trajectory(totalPop: real, recoveredPop: real, vaxPop: real, vaxRate: real, days: nat): (log: seq<real>)
    requires totalPop != 0.0
    ensures |log| == days + 1
    ensures forall i :: 0 <= i < |log| ==> log[i] == ImmuneFraction(totalPop, recoveredPop, vaxPop, vaxRate, i)
  {
    if days == 0 then [ImmunePop(totalPop, recoveredPop, vaxPop) / totalPop]
    else
      var before := Trajectory(totalPop, recoveredPop, vaxPop, vaxRate, days - 1);
      before + [(ImmunePop(totalPop, recoveredPop, VaxAfter(vaxPop, vaxRate, days)) + before[days - 1]) / totalPop]
  }

  /** One more effective step appends one entry, computed from the vaccinated population
      of the previous day plus one rate and from the previous entry. */
  lemma TrajectoryStep(totalPop: real, recoveredPop: real, vaxPop: real, vaxRate: real, days: nat)
    requires totalPop != 0.0
    ensures var before := Trajectory(totalPop, recoveredPop, vaxPop, vaxRate, days);
            Trajectory(totalPop, recoveredPop, vaxPop, vaxRate, days + 1)
            == before + [(ImmunePop(totalPop, recoveredPop, VaxAfter(vaxPop, vaxRate, days) + vaxRate) + before[days]) / totalPop]
  {
    assert VaxAfter(vaxPop, vaxRate, days + 1) == VaxAfter(vaxPop, vaxRate, days) + vaxRate;
  }

  /** Valid inputs as the constructor accepts them. */
  predicate ValidInputs(totalPop: real, recoveredPop: real, vaxPop: real)
  {
    0.0 < totalPop && 0.0 <= recoveredPop <= totalPop && 0.0 <= vaxPop <= totalPop
  }

  /** The cap let each of the first `steps` daily steps through. */
  predicate StepsAllowed(totalPop: real, vaxPop: real, vaxRate: real, steps: nat)
  {
    forall k: nat :: k < steps ==> CapAllows(VaxAfter(vaxPop, vaxRate, k), vaxRate, totalPop)
  }

  /** The loop of the driver stops with a log of `length` entries: the cap let each of the
      `length - 1` steps through, and the last entry is the first one that reaches the
      threshold. */
  ghost predicate FirstReachedAt(totalPop: real, recoveredPop: real, vaxPop: real, vaxRate: real, length: nat)
    requires totalPop != 0.0
  {
    1 <= length &&
    StepsAllowed(totalPop, vaxPop, vaxRate, length - 1) &&
    ImmuneFraction(totalPop, recoveredPop, vaxPop, vaxRate, length - 1) >= HerdImmunityPercent &&
    forall i: nat :: i < length - 1 ==> ImmuneFraction(totalPop, recoveredPop, vaxPop, vaxRate, i) < HerdImmunityPercent
  }

  /** Every entry of a log of `length` entries is below the threshold. */
  ghost predicate BelowThroughout(totalPop: real, recoveredPop: real, vaxPop: real, vaxRate: real, length: nat)
    requires totalPop != 0.0
  {
    1 <= length &&
    forall i: nat :: i < length ==> ImmuneFraction(totalPop, recoveredPop, vaxPop, vaxRate, i) < HerdImmunityPercent
  }

  // ---------------------------------------------------------------------------------
  // Properties of the formulas

  lemma DivideBothSides(a: real, b: real, t: real)
    requires 0.0 < t && a <= b
    ensures a / t <= b / t
  {
    assert b / t - a / t == (b - a) / t;
  }

  lemma ProbRecoveredInUnitRange(totalPop: real, recoveredPop: real)
    requires 0.0 < totalPop && 0.0 <= recoveredPop <= totalPop
    ensures 0.0 <= recoveredPop / totalPop <= 1.0
  {
    DivideBothSides(0.0, recoveredPop, totalPop);
    DivideBothSides(recoveredPop, totalPop, totalPop);
  }

  /** With valid inputs the overlap-corrected immune population lies between the recovered
      and the total population. */
  lemma ImmunePopBounds(totalPop: real, recoveredPop: real, vaxPop: real)
    requires ValidInputs(totalPop, recoveredPop, vaxPop)
    ensures recoveredPop <= ImmunePop(totalPop, recoveredPop, vaxPop) <= totalPop
  {
    var p := recoveredPop / totalPop;
    ProbRecoveredInUnitRange(totalPop, recoveredPop);
    assert totalPop * p == recoveredPop;
    assert vaxPop * (1.0 - p) <= totalPop * (1.0 - p);
  }

  /** More vaccinated people never means fewer immune people. */
  lemma ImmunePopGrowsWithVax(totalPop: real, recoveredPop: real, vaxPop: real, morePop: real)
    requires 0.0 < totalPop && 0.0 <= recoveredPop <= totalPop && vaxPop <= morePop
    ensures ImmunePop(totalPop, recoveredPop, vaxPop) <= ImmunePop(totalPop, recoveredPop, morePop)
  {
    var p := recoveredPop / totalPop;
    ProbRecoveredInUnitRange(totalPop, recoveredPop);
    assert (morePop - vaxPop) * (1.0 - p) >= 0.0;
  }

  /** The seed entry of the log is a fraction in [0, 1] for every input the constructor accepts. */
  lemma SeedInUnitRange(totalPop: real, recoveredPop: real, vaxPop: real, vaxRate: real)
    requires ValidInputs(totalPop, recoveredPop, vaxPop)
    ensures 0.0 <= ImmuneFraction(totalPop, recoveredPop, vaxPop, vaxRate, 0) <= 1.0
  {
    ImmunePopBounds(totalPop, recoveredPop, vaxPop);
    assert ImmuneFraction(totalPop, recoveredPop, vaxPop, vaxRate, 0) == ImmunePop(totalPop, recoveredPop, vaxPop) / totalPop;
    assert totalPop / totalPop == 1.0;
    DivideBothSides(0.0, ImmunePop(totalPop, recoveredPop, vaxPop), totalPop);
    DivideBothSides(ImmunePop(totalPop, recoveredPop, vaxPop), totalPop, totalPop);
  }

  /** A fully recovered population starts fully immune, whatever the vaccinated population. */
  lemma FullRecoveryStartsImmune(totalPop: real, vaxPop: real, vaxRate: real)
    requires 0.0 < totalPop
    ensures ImmuneFraction(totalPop, totalPop, vaxPop, vaxRate, 0) == 1.0
  {
    assert totalPop / totalPop == 1.0;
    assert ImmunePop(totalPop, totalPop, vaxPop) == totalPop;
  }

  /** Later logs extend earlier ones: a step never rewrites an entry, so the seed and every
      entry are independent of the steps that follow. */
  lemma TrajectoryPrefix(totalPop: real, recoveredPop: real, vaxPop: real, vaxRate: real, m: nat, n: nat)
    requires totalPop != 0.0 && m <= n
    ensures Trajectory(totalPop, recoveredPop, vaxPop, vaxRate, n)[..m + 1] == Trajectory(totalPop, recoveredPop, vaxPop, vaxRate, m)
  {
  }

  /** The comparison behind one step's gain: a larger immune population plus a larger
      previous fraction gives a larger next fraction. */
  lemma NextFractionGrows(totalPop: real, smallerPop: real, largerPop: real, smallerPrev: real, largerPrev: real)
    requires 0.0 < totalPop && smallerPop <= largerPop && smallerPrev <= largerPrev
    ensures (smallerPop + smallerPrev) / totalPop <= (largerPop + largerPrev) / totalPop
  {
    DivideBothSides(smallerPop + smallerPrev, largerPop + largerPrev, totalPop);
  }

  /** With a non-negative rate each step appends an entry at least the previous one. The
      step adds the previous fraction, so the entry after a step grows with the immune
      population and with the entry before it; the claim holds by induction from a
      non-negative seed. */
  lemma {:induction false} StepGain(totalPop: real, recoveredPop: real, vaxPop: real, vaxRate: real, day: nat)
    requires ValidInputs(totalPop, recoveredPop, vaxPop) && 0.0 <= vaxRate
    ensures ImmuneFraction(totalPop, recoveredPop, vaxPop, vaxRate, day)
         <= ImmuneFraction(totalPop, recoveredPop, vaxPop, vaxRate, day + 1)
  {
    var t, r := totalPop, recoveredPop;
    var vNow, vNext := VaxAfter(vaxPop, vaxRate, day), VaxAfter(vaxPop, vaxRate, day + 1);
    assert vNext == vNow + vaxRate;
    ImmunePopGrowsWithVax(t, r, vNow, vNext);
    var popNow, popNext := ImmunePop(t, r, vNow), ImmunePop(t, r, vNext);
    var now := ImmuneFraction(t, r, vaxPop, vaxRate, day);
    assert ImmuneFraction(t, r, vaxPop, vaxRate, day + 1) == (popNext + now) / t;
    if day == 0 {
      SeedInUnitRange(t, r, vaxPop, vaxRate);
      assert now == (popNow + 0.0) / t;
      NextFractionGrows(t, popNow, popNext, 0.0, now);
    } else {
      StepGain(t, r, vaxPop, vaxRate, day - 1);
      var before := ImmuneFraction(t, r, vaxPop, vaxRate, day - 1);
      assert now == (popNow + before) / t;
      NextFractionGrows(t, popNow, popNext, before, now);
    }
  }

  /** With a non-negative rate the log is non-decreasing: no later entry is below an earlier one. */
  lemma {:induction false} ImmuneFractionMonotone(totalPop: real, recoveredPop: real, vaxPop: real, vaxRate: real, i: nat, j: nat)
    requires ValidInputs(totalPop, recoveredPop, vaxPop) && 0.0 <= vaxRate && i <= j
    ensures ImmuneFraction(totalPop, recoveredPop, vaxPop, vaxRate, i)
         <= ImmuneFraction(totalPop, recoveredPop, vaxPop, vaxRate, j)
    decreases j - i
  {
    if i < j {
      StepGain(totalPop, recoveredPop, vaxPop, vaxRate, i);
      ImmuneFractionMonotone(totalPop, recoveredPop, vaxPop, vaxRate, i + 1, j);
    }
  }

  predicate Nondecreasing(s: seq<real>)
  {
    forall i, j :: 0 <= i <= j < |s| ==> s[i] <= s[j]
  }

  /** The log as a whole is non-decreasing when the rate is non-negative. */
  lemma TrajectoryNondecreasing(totalPop: real, recoveredPop: real, vaxPop: real, vaxRate: real, days: nat)
    requires ValidInputs(totalPop, recoveredPop, vaxPop) && 0.0 <= vaxRate
    ensures Nondecreasing(Trajectory(totalPop, recoveredPop, vaxPop, vaxRate, days))
  {
    var log := Trajectory(totalPop, recoveredPop, vaxPop, vaxRate, days);
    forall i, j | 0 <= i <= j < |log|
      ensures log[i] <= log[j]
    {
      ImmuneFractionMonotone(totalPop, recoveredPop, vaxPop, vaxRate, i, j);
    }
  }

  /** With nobody recovered, nobody vaccinated and no vaccinations, every entry is 0, so
      the driver's loop never reaches a positive threshold. */
  lemma {:induction false} NothingGivesNoImmunity(totalPop: real, day: nat)
    requires 0.0 < totalPop
    ensures ImmuneFraction(totalPop, 0.0, 0.0, 0.0, day) == 0.0
  {
    if day > 0 {
      NothingGivesNoImmunity(totalPop, day - 1);
      NoRateNoVaccinations(0.0, day);
      assert ImmuneFraction(totalPop, 0.0, 0.0, 0.0, day) == (ImmunePop(totalPop, 0.0, 0.0) + 0.0) / totalPop;
    }
  }

  /** Hence the driver's loop cannot stop on such a population, however long it runs. */
  lemma NothingNeverReached(totalPop: real, length: nat)
    requires 0.0 < totalPop
    ensures !FirstReachedAt(totalPop, 0.0, 0.0, 0.0, length)
  {
    if 1 <= length {
      NothingGivesNoImmunity(totalPop, length - 1);
    }
  }

  lemma {:induction false} NoRateNoVaccinations(vaxPop: real, days: nat)
    ensures VaxAfter(vaxPop, 0.0, days) == vaxPop
  {
    if days > 0 {
      NoRateNoVaccinations(vaxPop, days - 1);
    }
  }

  /** The vaccinated population after `days` effective steps, in closed form. */
  lemma {:induction false} VaxAfterClosedForm(vaxPop: real, vaxRate: real, days: nat)
    ensures VaxAfter(vaxPop, vaxRate, days) == vaxPop + days as real * vaxRate
  {
    if days > 0 {
      VaxAfterClosedForm(vaxPop, vaxRate, days - 1);
      assert (days - 1) as real * vaxRate + vaxRate == days as real * vaxRate;
    }
  }

  /** The immune population counts the vaccinated and the recovered, minus the expected
      number of people who are both. */
  lemma ImmunePopCountsOverlapOnce(totalPop: real, recoveredPop: real, vaxPop: real)
    requires totalPop != 0.0
    ensures ImmunePop(totalPop, recoveredPop, vaxPop) == vaxPop + recoveredPop - vaxPop * recoveredPop / totalPop
  {
    assert vaxPop * (recoveredPop / totalPop) == vaxPop * recoveredPop / totalPop;
  }

  /** With a non-negative rate the log is non-decreasing, so the loop stops at a log length
      exactly when its last entry reaches the threshold and the entry before it, if any,
      does not. */
  lemma FirstReachedWhenNondecreasing(totalPop: real, recoveredPop: real, vaxPop: real, vaxRate: real, length: nat)
    requires ValidInputs(totalPop, recoveredPop, vaxPop) && 0.0 <= vaxRate
    ensures FirstReachedAt(totalPop, recoveredPop, vaxPop, vaxRate, length) <==>
              1 <= length && StepsAllowed(totalPop, vaxPop, vaxRate, length - 1) &&
              ImmuneFraction(totalPop, recoveredPop, vaxPop, vaxRate, length - 1) >= HerdImmunityPercent &&
              (length == 1 || ImmuneFraction(totalPop, recoveredPop, vaxPop, vaxRate, length - 2) < HerdImmunityPercent)
  {
    if 2 <= length && ImmuneFraction(totalPop, recoveredPop, vaxPop, vaxRate, length - 2) < HerdImmunityPercent {
      forall i: nat | i < length - 1
        ensures ImmuneFraction(totalPop, recoveredPop, vaxPop, vaxRate, i) < HerdImmunityPercent
      {
        ImmuneFractionMonotone(totalPop, recoveredPop, vaxPop, vaxRate, i, length - 2);
      }
    }
  }

  /** Once the cap blocks a step while every entry so far is below the threshold, the log
      never grows again, so the loop stops at no length. */
  lemma CapBlockedNeverReached(totalPop: real, recoveredPop: real, vaxPop: real, vaxRate: real, steps: nat, length: nat)
    requires totalPop != 0.0
    requires StepsAllowed(totalPop, vaxPop, vaxRate, steps)
    requires !CapAllows(VaxAfter(vaxPop, vaxRate, steps), vaxRate, totalPop)
    requires BelowThroughout(totalPop, recoveredPop, vaxPop, vaxRate, steps + 1)
    ensures !FirstReachedAt(totalPop, recoveredPop, vaxPop, vaxRate, length)
  {
    if 1 <= length && length - 1 > steps {
      assert !(steps < length - 1 ==> CapAllows(VaxAfter(vaxPop, vaxRate, steps), vaxRate, totalPop));
    }
  }

  /** The loop stops at one log length at most. */
  lemma FirstReachedUnique(totalPop: real, recoveredPop: real, vaxPop: real, vaxRate: real, a: nat, b: nat)
    requires totalPop != 0.0
    requires FirstReachedAt(totalPop, recoveredPop, vaxPop, vaxRate, a)
    requires FirstReachedAt(totalPop, recoveredPop, vaxPop, vaxRate, b)
    ensures a == b
  {
  }

  /** A population of 330 with nobody recovered or vaccinated and 50 vaccinations a day
      first reaches the threshold at the sixth log entry, after five daily steps. */
  lemma FiveStepsToThreshold()
    ensures FirstReachedAt(330.0, 0.0, 0.0, 50.0, 6)
  {
    var f0 := ImmuneFraction(330.0, 0.0, 0.0, 50.0, 0);
    var f1 := ImmuneFraction(330.0, 0.0, 0.0, 50.0, 1);
    var f2 := ImmuneFraction(330.0, 0.0, 0.0, 50.0, 2);
    var f3 := ImmuneFraction(330.0, 0.0, 0.0, 50.0, 3);
    var f4 := ImmuneFraction(330.0, 0.0, 0.0, 50.0, 4);
    var f5 := ImmuneFraction(330.0, 0.0, 0.0, 50.0, 5);
    assert f0 == 0.0;
    assert f1 == (50.0 + f0) / 330.0;
    assert f2 == (100.0 + f1) / 330.0;
    assert f3 == (150.0 + f2) / 330.0;
    assert f4 == (200.0 + f3) / 330.0;
    assert f5 == (250.0 + f4) / 330.0;
    forall i: nat | i < 5
      ensures ImmuneFraction(330.0, 0.0, 0.0, 50.0, i) < HerdImmunityPercent
    {
      assert i == 0 || i == 1 || i == 2 || i == 3 || i == 4;
    }
    forall k: nat | k < 5
      ensures CapAllows(VaxAfter(0.0, 50.0, k), 50.0, 330.0)
    {
      VaxAfterClosedForm(0.0, 50.0, k);
    }
  }

  /** Because the previous fraction is added to a population count, an entry can exceed 1. */
  lemma FractionCanExceedOne()
    ensures ImmuneFraction(1.0, 1.0, 0.0, 0.0, 1) == 2.0
  {
  }
}
