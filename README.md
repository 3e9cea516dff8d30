# Herd-immunity day-stepped model

This project models the core of a small herd-immunity predictor. A `Model` object holds a
region's total population, its recovered population, its vaccinated population and a daily
vaccination rate. On construction it validates the inputs, derives the probability that a
person has recovered, and seeds a log of immune fractions with one entry. Each daily step
adds one day of vaccinations when that keeps the vaccinated population within the total,
and appends the next immune fraction. A driver loop steps the model until the latest
fraction reaches the herd-immunity threshold of 0.75, and then reports the length of the
log as its prediction.

The quantities are exact reals (`real`), not floating-point numbers.

- `wrappers.dfy` (module `Wrappers`): `Option` and `Result`, used where the code raises.
- `immunity.dfy` (module `Immunity`) holds the arithmetic:
  - the validation checks and construction errors;
  - the overlap-corrected immune population;
  - `ImmuneFraction` and `Trajectory`, the log entry after a number of effective steps and
    the whole log;
  - lemmas about them: bounds, monotonicity, the stopping condition and a worked example.
- `simulation.dfy` (module `Simulation`) holds the state:
  - `class Model`, whose constructor and `AddDailyVax` update the fields in place;
  - `PercentImmune` and `SimLength`, functions over the fields;
  - the invariant `Valid()`, which ties each log entry to `ImmuneFraction`; the lemma
    `LogIsTrajectory` derives from it that the whole log equals `Trajectory`;
  - the driver `PredictDays`, with its loop and its invariants.

The model follows the code as written, including behaviour a reader might not expect:

- **Total population 0.** It passes the range checks. Construction then fails by dividing
  by zero when the recovery probability is computed (`DivisionByZero`).
- **The rate is never validated.** The two "vaccination rate" checks test the vaccinated
  population again, so they can never fire. A negative rate is accepted.
- **The daily step adds the previous entry to a population count.** The previous fraction
  is added before dividing by the total. An entry can therefore exceed 1
  (`FractionCanExceedOne`).
- **The prediction is the log length.** This is the number of steps plus one. With a
  population of 330, nobody recovered or vaccinated and 50 vaccinations a day, the
  prediction is 6, although five daily steps reach the threshold.
- **A step the cap forbids changes nothing.** It appends no entry. If the first entry is
  below the threshold and the cap blocks every step, the loop of the code never ends.

## Model

| member | source | states |
|---|---|---|
| Immunity.CheckInputs | model.py:16-29 | no error exactly when 0 <= total, 0 <= recovered <= total and 0 <= vaccinated <= total; the first failing check names the error (negative total, negative recovered, recovered above total, negative vaccinated, vaccinated above total, in that order); the two rate errors are never produced, so the rate is unchecked |
| Immunity.ConstructionError | model.py:16-35 | construction succeeds exactly when the inputs are valid (`ValidInputs`: 0 < total and the recovered and vaccinated populations lie in [0, total]); a division by zero happens exactly when total, recovered and vaccinated are all 0; no rate error ever |
| Immunity.ImmunePop | model.py:37 | the immune population, vaccinated times (1 - recovered/total) plus recovered; a definition, whose properties are stated by the lemmas below |
| Immunity.ImmunePopCountsOverlapOnce | model.py:37 | the immune population is the vaccinated plus the recovered minus the expected number of people who are both |
| Immunity.VaxAfter | model.py:48 | the vaccinated population after n effective steps, one rate per step; a definition, whose closed form is the next row |
| Immunity.VaxAfterClosedForm | model.py:48 | after n effective steps the vaccinated population is the initial one plus n times the rate |
| Immunity.CapAllows | model.py:47 | the guard of the daily step: one more rate keeps the vaccinated population within the total; a definition, used by the step and the driver |
| Immunity.ImmuneFraction | model.py:37-38 | entry n of the log after n effective steps: the seed entry at 0, and then the immune population at the raised vaccinated count plus the previous entry, over the total, as at model.py:50-52; a definition, whose properties are stated by the lemmas below |
| Immunity.StepsAllowed | model.py:47 | the cap let each of the first n daily steps through; a definition |
| Immunity.FirstReachedAt | model.py:101-104 | the condition on which the loop stops with a log of a given length: the cap let each of the length-1 steps through, the last entry reaches 0.75 and every earlier one is below it; a definition |
| Immunity.FirstReachedWhenNondecreasing | model.py:101-104 | with a non-negative rate, the loop stops at a length exactly when the cap let every earlier step through, the last entry reaches 0.75 and the entry before it, if there is one, does not |
| Immunity.CapBlockedNeverReached | model.py:101-104 | once the cap blocks a step while every entry so far is below 0.75, the loop stops at no length |
| Immunity.OverlapCorrection | model.py:35-37 | the overlap-corrected population computed with the stored recovery probability equals the immune population vax*(1 - recovered/total) + recovered |
| Immunity.ImmunePopBounds | model.py:35-37 | for valid inputs the immune population lies between the recovered and the total population |
| Immunity.ImmunePopGrowsWithVax | model.py:50-51 | more vaccinated people never give fewer immune people |
| Immunity.SeedInUnitRange | model.py:35-38 | the seed entry of the log is in [0, 1] for every accepted input |
| Immunity.FullRecoveryStartsImmune | model.py:35-38 | when the recovered population equals the total, the seed entry is exactly 1 |
| Immunity.Trajectory | model.py:37-52 | the log after n effective steps has n+1 entries, entry i being the immune fraction after i steps |
| Immunity.TrajectoryStep | model.py:47-52 | one more effective step appends exactly one entry: the immune population at the raised vaccinated count plus the previous entry, over the total |
| Immunity.TrajectoryPrefix | model.py:52 | the log only grows at the end: a longer log starts with every shorter one |
| Immunity.StepGain | model.py:50-52 | with valid inputs and a non-negative rate, each appended entry is at least the previous one |
| Immunity.ImmuneFractionMonotone | model.py:46-52 | with valid inputs and a non-negative rate, entry i is at most entry j whenever i <= j |
| Immunity.TrajectoryNondecreasing | model.py:46-52 | with valid inputs and a non-negative rate, the whole log is non-decreasing |
| Immunity.NothingGivesNoImmunity | model.py:35-52 | with nobody recovered or vaccinated and a rate of 0, every entry is 0 |
| Immunity.NothingNeverReached | model.py:100-104 | on such a population the loop stops at no log length |
| Immunity.NoRateNoVaccinations | model.py:48 | with a rate of 0 the vaccinated population never changes |
| Immunity.FirstReachedUnique | model.py:101-104 | the loop can stop at one log length only |
| Immunity.FiveStepsToThreshold | model.py:100-104 | for total 330, nobody recovered or vaccinated and rate 50, the first entry at or above 0.75 is the sixth |
| Immunity.FractionCanExceedOne | model.py:51-52 | with total 1 and everyone recovered, the entry after one step is 2 |
| Simulation.Model.constructor | model.py:31-38 | after the checks pass, the fields hold the inputs, the recovery probability is recovered/total, and the log is the single seed entry; the invariant holds |
| Simulation.Model.Create | model.py:14-38 | fails exactly when a check fails or the total is 0, with that error; otherwise returns a fresh model with the given fields, the seed log and the invariant |
| Simulation.Model.PercentImmune | model.py:40-41 | returns the last log entry, which is the immune fraction after the effective steps so far; with a non-negative rate no entry exceeds it |
| Simulation.Model.NoEntryAboveLatest | model.py:40-52 | for a valid model with a non-negative rate, no entry of the log is above the latest one |
| Simulation.Model.LogIsTrajectory | model.py:37-52 | the log of a valid model is exactly the trajectory of its constructor's inputs over the effective steps so far |
| Simulation.Model.SimLength | model.py:43-44 | returns the full log length, which is at least 1 and one more than the number of effective steps |
| Simulation.Model.AddDailyVax | model.py:46-52 | when the cap allows, it raises the vaccinated population by the rate and appends exactly the overlap-corrected population plus the previous entry, over the total; otherwise nothing changes; the vaccinated population stays within the total; with a non-negative rate the latest fraction does not fall |
| Simulation.StepEntry | model.py:48-52 | the entry the step computes from the stored recovery probability is the next entry of the trajectory |
| Simulation.PredictDays | model.py:97-104 | invalid inputs give the construction error; a prediction is the log length at which the fraction first reaches 0.75, with the cap having let every earlier step through; otherwise every entry stays below 0.75, the cap let every step so far through, and the day bound was hit or the cap blocks the next step; if the cap blocks the first step and the seed is below 0.75, the threshold is never reached |
| Simulation.PredictFiveStepExample | model.py:97-104 | the driver predicts 6 for total 330, nobody recovered or vaccinated and rate 50 |

## Left out

- PredictDays: the loop of the code has no bound. Here it takes at most `maxDays` daily steps, and it reports `ThresholdNotReached` with the log length when it stops without reaching the threshold.
- Plotting of the log against calendar dates: this is display code that draws with a plotting library.
- Command-line parsing and printing of the prediction: this is I/O. The four numbers become parameters of `PredictDays`.
- Floating-point rounding, NaN and infinities: the quantities are exact reals.
- Reassignment of the population, rate and recovery fields from outside the class: the code never does this, so they are `const`.
