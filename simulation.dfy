/** The stateful part of the model: the Model object that accrues one day of vaccinations
    at a time, and the driver loop that steps it until the herd-immunity threshold. */
module Simulation {
  import opened Wrappers
  import opened Immunity

  /** The vaccinated and recovered population of one region. The population, recovery and
      rate figures are fixed at construction; a daily step raises the vaccinated
      population and appends to the log of immune fractions. */
  class Model {
    const totalPop: real
    const vaxRate: real
    const recoveredPop: real
    const probRecovered: real
    var vaxPop: real
    var immunePopLog: seq<real>

    /** The vaccinated population the model was constructed with. */
    ghost const initialVaxPop: real

    /** The log is the trajectory of the constructor's inputs after as many effective
        steps as it has entries beyond the seed, and the vaccinated population has grown
        by one rate per effective step without passing the total. */
    ghost predicate Valid()
      reads this
    {
      ValidInputs(totalPop, recoveredPop, initialVaxPop) &&
      probRecovered == recoveredPop / totalPop &&
      |immunePopLog| >= 1 &&
      vaxPop == VaxAfter(initialVaxPop, vaxRate, |immunePopLog| - 1) &&
      vaxPop <= totalPop &&
      forall i :: 0 <= i < |immunePopLog| ==>
        immunePopLog[i] == ImmuneFraction(totalPop, recoveredPop, initialVaxPop, vaxRate, i)
    }

    /** The constructor after its range checks have passed. */
    constructor (totalPop: real, recoveredPop: real, vaxPop: real, vaxRate: real)
      requires ConstructionError(totalPop, recoveredPop, vaxPop, vaxRate) == None
      ensures Valid() && vaxPop <= totalPop
      ensures this.totalPop == totalPop && this.recoveredPop == recoveredPop && this.vaxRate == vaxRate
      ensures this.vaxPop == vaxPop && initialVaxPop == vaxPop
      ensures immunePopLog == [ImmunePop(totalPop, recoveredPop, vaxPop) / totalPop]
    {
      this.totalPop := totalPop;
      this.vaxPop := vaxPop;
      this.vaxRate := vaxRate;
      this.recoveredPop := recoveredPop;
      probRecovered := recoveredPop / totalPop;
      var initialImmunePop := vaxPop * (1.0 - recoveredPop / totalPop) + recoveredPop;
      immunePopLog := [initialImmunePop / totalPop];
      initialVaxPop := vaxPop;
    }

    /** Construction with its error path: the range checks in order, then the division by
        a zero total population. */
    static method Create(totalPop: real, recoveredPop: real, vaxPop: real, vaxRate: real)
      returns (r: Result<Model, ModelError>)
      ensures r.Failure? <==> ConstructionError(totalPop, recoveredPop, vaxPop, vaxRate).Some?
      ensures r.Failure? ==> Some(r.error) == ConstructionError(totalPop, recoveredPop, vaxPop, vaxRate)
      ensures r.Success? ==> fresh(r.value) && r.value.Valid()
      ensures r.Success? ==>
                r.value.totalPop == totalPop && r.value.recoveredPop == recoveredPop &&
                r.value.vaxRate == vaxRate && r.value.vaxPop == vaxPop && r.value.initialVaxPop == vaxPop &&
                r.value.immunePopLog == [ImmunePop(totalPop, recoveredPop, vaxPop) / totalPop]
    {
      var checked := CheckInputs(totalPop, recoveredPop, vaxPop, vaxRate);
      if checked.Some? {
        return Failure(checked.value);
      }
      if totalPop == 0.0 {
        return Failure(DivisionByZero);
      }
      var m := new Model(totalPop, recoveredPop, vaxPop, vaxRate);
      return Success(m);
    }

    /** The latest immune fraction. With a non-negative rate it is the largest so far. */
    function PercentImmune(): (f: real)
      reads this
      requires Valid()
      ensures f == immunePopLog[|immunePopLog| - 1]
      ensures f == ImmuneFraction(totalPop, recoveredPop, initialVaxPop, vaxRate, |immunePopLog| - 1)
      ensures 0.0 <= vaxRate ==> forall i :: 0 <= i < |immunePopLog| ==> immunePopLog[i] <= f
    {
      NoEntryAboveLatest();
      immunePopLog[|immunePopLog| - 1]
    }

    /** With a non-negative rate no entry of the log is above the latest one. */
    lemma NoEntryAboveLatest()
      requires Valid()
      ensures 0.0 <= vaxRate ==> forall i :: 0 <= i < |immunePopLog| ==> immunePopLog[i] <= immunePopLog[|immunePopLog| - 1]
    {
      forall i | 0 <= i < |immunePopLog| && 0.0 <= vaxRate
        ensures immunePopLog[i] <= immunePopLog[|immunePopLog| - 1]
      {
        ImmuneFractionMonotone(totalPop, recoveredPop, initialVaxPop, vaxRate, i, |immunePopLog| - 1);
      }
    }

    /** The log is the trajectory of the constructor's inputs over the effective steps so far. */
    lemma LogIsTrajectory()
      requires Valid()
      ensures immunePopLog == Trajectory(totalPop, recoveredPop, initialVaxPop, vaxRate, |immunePopLog| - 1)
    {
    }

    /** The length of the log: one more than the number of effective daily steps, since the
        seed entry is counted too. */
    function SimLength(): (n: int)
      reads this
      requires Valid()
      ensures n == |immunePopLog| && 1 <= n
      ensures vaxPop == VaxAfter(initialVaxPop, vaxRate, n - 1)
    {
      |immunePopLog|
    }

    /** One day of vaccinations, applied only when it keeps the vaccinated population within
        the total; otherwise nothing changes. */
    method AddDailyVax()
      requires Valid()
      modifies this
      ensures Valid() && vaxPop <= totalPop
      ensures CapAllows(old(vaxPop), vaxRate, totalPop) ==>
                vaxPop == old(vaxPop) + vaxRate &&
                immunePopLog == old(immunePopLog) + [(ImmunePop(totalPop, recoveredPop, vaxPop) + old(PercentImmune())) / totalPop]
      ensures !CapAllows(old(vaxPop), vaxRate, totalPop) ==>
                vaxPop == old(vaxPop) && immunePopLog == old(immunePopLog)
      ensures 0.0 <= vaxRate ==> old(PercentImmune()) <= PercentImmune()
    {
      if vaxPop + vaxRate <= totalPop {
        ghost var steps, oldLog := |immunePopLog| - 1, immunePopLog;
        var previous := immunePopLog[|immunePopLog| - 1];
        assert previous == PercentImmune() == ImmuneFraction(totalPop, recoveredPop, initialVaxPop, vaxRate, steps);
        vaxPop := vaxPop + vaxRate;
        var onlyVaxPop := vaxPop * (1.0 - probRecovered);
        var immunePop := onlyVaxPop + recoveredPop + previous;
        immunePopLog := immunePopLog + [immunePop / totalPop];
        StepEntry(totalPop, recoveredPop, initialVaxPop, vaxRate, steps, probRecovered, previous, vaxPop, immunePop);
        forall i | 0 <= i < |immunePopLog|
          ensures immunePopLog[i] == ImmuneFraction(totalPop, recoveredPop, initialVaxPop, vaxRate, i)
        {
          if i < |oldLog| {
            assert immunePopLog[i] == oldLog[i];
          }
        }
        if 0.0 <= vaxRate {
          StepGain(totalPop, recoveredPop, initialVaxPop, vaxRate, steps);
        }
      }
    }
  }

  /** The daily step as the Python program computes it, with the stored recovery probability,
      appends the next entry of the trajectory. */
  lemma StepEntry(totalPop: real, recoveredPop: real, vaxPop: real, vaxRate: real, steps: nat,
                  probRecovered: real, previous: real, vaxAfter: real, immunePop: real)
    requires 0.0 < totalPop && probRecovered == recoveredPop / totalPop
    requires previous == ImmuneFraction(totalPop, recoveredPop, vaxPop, vaxRate, steps)
    requires vaxAfter == VaxAfter(vaxPop, vaxRate, steps) + vaxRate
    requires immunePop == vaxAfter * (1.0 - probRecovered) + recoveredPop + previous
    ensures vaxAfter == VaxAfter(vaxPop, vaxRate, steps + 1)
    ensures immunePop == ImmunePop(totalPop, recoveredPop, vaxAfter) + previous
    ensures immunePop / totalPop == ImmuneFraction(totalPop, recoveredPop, vaxPop, vaxRate, steps + 1)
  {
    OverlapCorrection(totalPop, recoveredPop, vaxAfter, probRecovered);
  }

  /** Why the driver reports no prediction. */
  datatype PredictionError =
    | InvalidModel(cause: ModelError)
      /** The loop of the Python program would still be running after `maxDays` calls of the daily
          step; the log then has `simLength` entries, all below the threshold. */
    | ThresholdNotReached(simLength: nat)

  /** The driver: build the model, then add daily vaccinations until the latest immune
      fraction reaches the threshold, and report the length of the log. The Python program loops
      without bound; here at most `maxDays` daily steps are taken. */
  method PredictDays(totalPop: real, recoveredPop: real, vaxPop: real, vaxRate: real, maxDays: nat)
    returns (r: Result<nat, PredictionError>)
    ensures r.Failure? && r.error.InvalidModel? <==> ConstructionError(totalPop, recoveredPop, vaxPop, vaxRate).Some?
    ensures r.Failure? && r.error.InvalidModel? ==>
              Some(r.error.cause) == ConstructionError(totalPop, recoveredPop, vaxPop, vaxRate)
    ensures r.Success? ==> 0.0 < totalPop && FirstReachedAt(totalPop, recoveredPop, vaxPop, vaxRate, r.value)
    ensures r.Failure? && r.error.ThresholdNotReached? ==>
              0.0 < totalPop && BelowThroughout(totalPop, recoveredPop, vaxPop, vaxRate, r.error.simLength) &&
              StepsAllowed(totalPop, vaxPop, vaxRate, r.error.simLength - 1) &&
              (r.error.simLength - 1 == maxDays ||
               !CapAllows(VaxAfter(vaxPop, vaxRate, r.error.simLength - 1), vaxRate, totalPop))
    ensures ValidInputs(totalPop, recoveredPop, vaxPop) && !CapAllows(vaxPop, vaxRate, totalPop) &&
            ImmuneFraction(totalPop, recoveredPop, vaxPop, vaxRate, 0) < HerdImmunityPercent ==>
              r == Failure(ThresholdNotReached(1))
  {
    var built := Model.Create(totalPop, recoveredPop, vaxPop, vaxRate);
    if built.Failure? {
      return Failure(InvalidModel(built.error));
    }
    var model := built.value;
    var percentImmune := model.PercentImmune();
    var day := 0;
    while percentImmune < HerdImmunityPercent && day < maxDays
      invariant model.Valid() && model.initialVaxPop == vaxPop
      invariant model.totalPop == totalPop && model.recoveredPop == recoveredPop && model.vaxRate == vaxRate
      invariant percentImmune == model.PercentImmune()
      invariant day <= maxDays
      invariant |model.immunePopLog| - 1 <= day
      invariant |model.immunePopLog| - 1 < day ==> !CapAllows(model.vaxPop, vaxRate, totalPop)
      invariant !CapAllows(vaxPop, vaxRate, totalPop) ==> |model.immunePopLog| == 1
      invariant forall i :: 0 <= i < |model.immunePopLog| - 1 ==> model.immunePopLog[i] < HerdImmunityPercent
      invariant StepsAllowed(totalPop, vaxPop, vaxRate, |model.immunePopLog| - 1)
      decreases maxDays - day
    {
      model.AddDailyVax();
      percentImmune := model.PercentImmune();
      day := day + 1;
    }
    if percentImmune < HerdImmunityPercent {
      return Failure(ThresholdNotReached(model.SimLength()));
    }
    return Success(model.SimLength());
  }

  /** The driver on a population of 330 with nobody recovered or vaccinated and 50
      vaccinations a day: the log first reaches the threshold with six entries. */
  method PredictFiveStepExample() returns (r: Result<nat, PredictionError>)
    ensures r == Success(6)
  {
    r := PredictDays(330.0, 0.0, 0.0, 50.0, 30);
    FiveStepsToThreshold();
    if r.Success? {
      FirstReachedUnique(330.0, 0.0, 0.0, 50.0, r.value, 6);
    } else {
      assert false;
    }
  }
}
