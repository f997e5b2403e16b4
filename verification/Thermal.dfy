/**
 The digital twin's thermal lattice: GaN voltage ramp, target temperature,
 inertial temperature, signal-to-noise ratio.  All registers are unsigned 32-bit;
 every operation that could wrap is written with `U32`, and the invariant shows
 that none does.
 */
module Thermal {
  import opened Bits

  const BASE_TEMP: nat := 25000
  const VOLT_LIMIT: nat := 800000
  const VOLT_STEP: nat := 4000
  const VOLT_COOL: nat := 8000
  const VOLT_TEMP_DIV: nat := 10000
  const VOLT_TEMP_MULT: nat := 800
  const HEATING_STEP: nat := 25
  const COOLING_STEP: nat := 15
  const JITTER_THRESHOLD: nat := 40000
  const SNR_BASELINE: int := 3000
  const SNR_TEMP_DIV: nat := 40

  /** Unsigned 32-bit wrap-around. */
  function U32(x: int): nat { x % TWO_32 }

  /** `gan_voltage`, the inertial temperature of the PHY model, and the two output registers. */
  datatype Twin = Twin(volt: nat, temp: nat, laser: nat, snr: int)

  const COLD: Twin := Twin(0, BASE_TEMP, BASE_TEMP, 0)

  function NextVolt(volt: nat, control: nat): nat {
    if control == 1 then
      if volt < VOLT_LIMIT then U32(volt + VOLT_STEP) else volt
    else
      if volt > 0 then (if volt > VOLT_COOL then volt - VOLT_COOL else 0) else volt
  }

  function Target(volt: nat): nat {
    if volt > 0 then U32(BASE_TEMP + U32(volt / VOLT_TEMP_DIV * VOLT_TEMP_MULT)) else BASE_TEMP
  }

  /** Thermal inertia: one fixed step towards the target, which may overshoot it. */
  function NextTemp(temp: nat, target: nat): nat {
    if target > temp then U32(temp + HEATING_STEP)
    else if target < temp then U32(temp - COOLING_STEP)
    else temp
  }

  function Snr(temp: nat): int {
    if temp > JITTER_THRESHOLD then SNR_BASELINE - (temp - JITTER_THRESHOLD) / SNR_TEMP_DIV
    else SNR_BASELINE
  }

  /** One physics step under a control value. */
  function Step(t: Twin, control: nat): Twin {
    var volt := NextVolt(t.volt, control);
    var temp := NextTemp(t.temp, Target(volt));
    Twin(volt, temp, temp, Snr(temp))
  }

  /** The twin after a whole schedule of control values. */
  function RunFrom(t: Twin, controls: seq<nat>): Twin {
    if controls == [] then t
    else Step(RunFrom(t, controls[..|controls| - 1]), controls[|controls| - 1])
  }

  /** The twin after n steps with control held. */
  function Iterate(t: Twin, control: nat, n: nat): Twin {
    if n == 0 then t else Step(Iterate(t, control, n - 1), control)
  }

  // ---------------------------------------------------------------- whole-run invariant

  predicate Stable(t: Twin) {
    && t.volt % VOLT_STEP == 0 && t.volt <= VOLT_LIMIT
    && t.temp % 5 == 0 && 24990 <= t.temp <= 89020
    && t.laser == t.temp
  }

  lemma TargetRange(volt: nat)
    requires volt <= VOLT_LIMIT
    ensures Target(volt) == BASE_TEMP + volt / VOLT_TEMP_DIV * VOLT_TEMP_MULT
    ensures BASE_TEMP <= Target(volt) <= 89000 && Target(volt) % 5 == 0
  {
    var k := volt / VOLT_TEMP_DIV;
    assert 0 <= k <= 80;
    assert (BASE_TEMP + k * 800) == 5 * (5000 + 160 * k);
  }

  lemma NextVoltRange(volt: nat, control: nat)
    requires volt % VOLT_STEP == 0 && volt <= VOLT_LIMIT
    ensures NextVolt(volt, control) % VOLT_STEP == 0 && NextVolt(volt, control) <= VOLT_LIMIT
  {
    var k := volt / VOLT_STEP;
    assert volt == 4000 * k;
  }

  /** Within the invariant the 32-bit arithmetic is plain arithmetic. */
  lemma StepPlain(t: Twin, control: nat)
    requires Stable(t)
    ensures var t' := Step(t, control);
      && t'.volt == (if control == 1 then (if t.volt == VOLT_LIMIT then t.volt else t.volt + 4000)
                     else if t.volt <= 8000 then 0 else t.volt - 8000)
      && t'.laser == t'.temp
      && (BASE_TEMP + t'.volt / 10000 * 800 > t.temp ==> t'.temp == t.temp + 25)
      && (BASE_TEMP + t'.volt / 10000 * 800 < t.temp ==> t'.temp == t.temp - 15)
      && (BASE_TEMP + t'.volt / 10000 * 800 == t.temp ==> t'.temp == t.temp)
  {
    NextVoltRange(t.volt, control);
    TargetRange(NextVolt(t.volt, control));
    var k := t.volt / VOLT_STEP;
    assert t.volt == 4000 * k;
  }

  /** One step keeps the invariant, never wraps, and leaves the SNR in range: one
      unit is lost for every full 40 mC above the threshold. */
  lemma StepStable(t: Twin, control: nat)
    requires Stable(t)
    ensures Stable(Step(t, control))
    ensures 1775 <= Step(t, control).snr <= 3000
    ensures var t' := Step(t, control);
      if t'.temp <= 40000 then t'.snr == 3000
      else 40 * (3000 - t'.snr) <= t'.temp - 40000 < 40 * (3000 - t'.snr) + 40
    ensures t.temp - 15 <= Step(t, control).temp <= t.temp + 25
  {
    StepPlain(t, control);
    NextVoltRange(t.volt, control);
    TargetRange(NextVolt(t.volt, control));
    hide U32, NextVolt, NextTemp, Target;
  }

  /** For every schedule of control values, from cold and from any state of the invariant. */
  lemma {:induction false} AlwaysStable(t: Twin, controls: seq<nat>)
    requires t == COLD || Stable(t)
    ensures Stable(RunFrom(t, controls))
    ensures controls != [] ==> 1775 <= RunFrom(t, controls).snr <= 3000
  {
    if controls != [] {
      var n := |controls| - 1;
      AlwaysStable(t, controls[..n]);
      StepStable(RunFrom(t, controls[..n]), controls[n]);
    }
  }

  lemma {:induction false} IterateStable(t: Twin, control: nat, n: nat)
    requires Stable(t)
    ensures Stable(Iterate(t, control, n))
  {
    if n > 0 {
      IterateStable(t, control, n - 1);
      StepStable(Iterate(t, control, n - 1), control);
    }
  }

  lemma {:induction false} IteratePlus(t: Twin, control: nat, n: nat, m: nat)
    ensures Iterate(Iterate(t, control, n), control, m) == Iterate(t, control, n + m)
    decreases m
  {
    if m > 0 {
      IteratePlus(t, control, n, m - 1);
    }
  }

  // ---------------------------------------------------------------- exact convergence

  function GoalVolt(control: nat): nat { if control == 1 then VOLT_LIMIT else 0 }

  function GoalTemp(control: nat): nat { if control == 1 then 89000 else BASE_TEMP }

  /** The voltage ramp is over after 200 steps. */
  lemma {:induction false} VoltSettles(t: Twin, control: nat, n: nat)
    requires Stable(t)
    ensures Iterate(t, control, n).volt ==
            if control == 1 then (if t.volt + 4000 * n < VOLT_LIMIT then t.volt + 4000 * n else VOLT_LIMIT)
            else (if 8000 * n < t.volt then t.volt - 8000 * n else 0)
  {
    if n > 0 {
      hide Step, Stable;
      VoltSettles(t, control, n - 1);
      IterateStable(t, control, n - 1);
      StepPlain(Iterate(t, control, n - 1), control);
    }
  }

  /** One temperature step, in units of 5 mC above the goal. */
  function Drift(e: int): int { if e < 0 then e + 5 else if e > 0 then e - 3 else 0 }

  /** Both steps are the same step modulo 8; this ranks an error by how far along that cycle it is. */
  function Rank(e: int): nat {
    match e
    case 0 => 0
    case 3 => 1
    case -2 => 2
    case 1 => 3
    case 4 => 4
    case -4 => 4
    case -1 => 5
    case 2 => 6
    case -3 => 7
    case _ => if e > 0 then 8 + e else 8 - e
  }

  /** How many steps the error needs to vanish, overshoots included. */
  function Settling(e: int): (n: nat)
    ensures e >= 0 ==> n <= e / 3 + 7
    ensures e < 0 ==> n <= -e / 5 + 7
    ensures n == 0 <==> e == 0
    decreases Rank(e)
  {
    if e == 0 then 0 else 1 + Settling(Drift(e))
  }

  /** With the voltage settled, the error follows `Drift`. */
  lemma SettledStep(t: Twin, control: nat, e: int)
    requires Stable(t) && t.volt == GoalVolt(control) && t.temp == GoalTemp(control) + 5 * e
    ensures var t' := Step(t, control);
      t'.volt == GoalVolt(control) && t'.temp == GoalTemp(control) + 5 * Drift(e)
  {
    TargetRange(t.volt);
    assert Target(t.volt) == GoalTemp(control);
  }

  /** Exact convergence time: the temperature sits on its goal from step `Settling(e)` on, and not before. */
  lemma {:induction false} SettlesExactly(t: Twin, control: nat, e: int, n: nat)
    requires Stable(t) && t.volt == GoalVolt(control) && t.temp == GoalTemp(control) + 5 * e
    ensures Iterate(t, control, n).volt == GoalVolt(control)
    ensures Iterate(t, control, n).temp == GoalTemp(control) <==> n >= Settling(e)
    decreases n
  {
    if n > 0 {
      SettledStep(t, control, e);
      StepStable(t, control);
      SettlesExactly(Step(t, control), control, Drift(e), n - 1);
      IteratePlus(t, control, 1, n - 1);
      assert Iterate(t, control, 1) == Step(t, control);
    }
  }

  /** From any reachable state, under any constant control, within a fixed number of
      steps and for ever after. */
  lemma Converges(t: Twin, control: nat, n: nat)
    requires Stable(t) && n >= 4476
    ensures Iterate(t, control, n).volt == GoalVolt(control)
    ensures Iterate(t, control, n).temp == GoalTemp(control)
  {
    VoltSettles(t, control, 200);
    IterateStable(t, control, 200);
    var t' := Iterate(t, control, 200);
    var e := Error(t', control);
    SettlesExactly(t', control, e, n - 200);
    IteratePlus(t, control, 200, n - 200);
    assert n - 200 >= Settling(e) by { hide *; }
  }

  /** How far a temperature is from its goal, in units of 5 mC. */
  function Error(t: Twin, control: nat): (e: int)
    requires Stable(t)
    ensures t.temp == GoalTemp(control) + 5 * e && -12802 <= e <= 12804
  {
    (t.temp - GoalTemp(control)) / 5
  }

  // ---------------------------------------------------------------- closed form

  function Heated(n: nat): (int, int) {
    (if n <= 200 then 4000 * n else VOLT_LIMIT,
     if n <= 2 then BASE_TEMP else if n <= 2562 then BASE_TEMP + 25 * (n - 2) else 89000)
  }

  lemma HeatedStep(t: Twin, n: nat)
    requires Stable(t) && (t.volt, t.temp) == Heated(n)
    ensures (Step(t, 1).volt, Step(t, 1).temp) == Heated(n + 1)
    ensures Step(t, 1).laser == Step(t, 1).temp
  {
    hide Step, Stable;
    StepPlain(t, 1);
  }

  lemma {:induction false} HeatingFrom(t: Twin, n: nat)
    requires Stable(t) && (t.volt, t.temp) == Heated(0)
    ensures (Iterate(t, 1, n).volt, Iterate(t, 1, n).temp) == Heated(n)
    ensures Iterate(t, 1, n).laser == Iterate(t, 1, n).temp
  {
    if n == 0 {
    } else {
      hide Step, Heated;
      HeatingFrom(t, n - 1);
      IterateStable(t, 1, n - 1);
      HeatedStep(Iterate(t, 1, n - 1), n - 1);
    }
  }

  /** From a cold start with control held at 1. */
  lemma HeatingClosedForm(n: nat)
    ensures (Iterate(COLD, 1, n).volt, Iterate(COLD, 1, n).temp) == Heated(n)
    ensures Iterate(COLD, 1, n).laser == Iterate(COLD, 1, n).temp
  {
    hide Iterate, Step;
    HeatingFrom(COLD, n);
  }

  /** The operating limit is first exceeded at step 803. */
  lemma FirstBreach(n: nat)
    ensures Iterate(COLD, 1, n).temp > 45000 <==> n >= 803
  {
    HeatingClosedForm(n);
  }

  // ---------------------------------------------------------------- the band is sharp

  lemma RunFromSnoc(t: Twin, controls: seq<nat>, c: nat)
    ensures RunFrom(t, controls + [c]) == Step(RunFrom(t, controls), c)
  {
    assert (controls + [c])[..|controls + [c]| - 1] == controls;
  }

  lemma {:induction false} RunFromConstant(t: Twin, c: nat, n: nat)
    ensures RunFrom(t, seq(n, _ => c)) == Iterate(t, c, n)
  {
    if n > 0 {
      RunFromConstant(t, c, n - 1);
      assert seq(n, _ => c)[..n - 1] == seq(n - 1, _ => c);
    }
  }

  /** Undershoot to 24990 does happen: four steps on, then off. */
  lemma LowestIsReached(controls: seq<nat>)
    requires controls == seq(4, _ => 1) + [0] + [0] + [0] + [0]
    ensures RunFrom(COLD, controls).temp == 24990
  {
    var n: nat := |controls| - 4;
    RunFromConstant(COLD, 1, n);
    HeatingClosedForm(n);
    FourMore(COLD, seq(n, _ => 1), 0, 0, 0, 0);
    CoolingTail(Iterate(COLD, 1, n));
  }

  /** Overshoot to 89020 does happen: control dropped for one step at the top. */
  lemma HighestIsReached(controls: seq<nat>)
    requires controls == seq(2562, _ => 1) + [0] + [1] + [1] + [1]
    ensures RunFrom(COLD, controls).temp == 89020
  {
    var n: nat := |controls| - 4;
    RunFromConstant(COLD, 1, n);
    HeatingClosedForm(n);
    FourMore(COLD, seq(n, _ => 1), 0, 1, 1, 1);
    HeatingTail(Iterate(COLD, 1, n));
  }

  lemma FourMore(t: Twin, c: seq<nat>, c1: nat, c2: nat, c3: nat, c4: nat)
    ensures RunFrom(t, c + [c1] + [c2] + [c3] + [c4]) == Step(Step(Step(Step(RunFrom(t, c), c1), c2), c3), c4)
  {
    hide Step, RunFrom;
    RunFromSnoc(t, c, c1);
    RunFromSnoc(t, c + [c1], c2);
    RunFromSnoc(t, c + [c1] + [c2], c3);
    RunFromSnoc(t, c + [c1] + [c2] + [c3], c4);
  }

  lemma CoolingTail(t: Twin)
    requires t.volt == 16000 && t.temp == 25050
    ensures Step(Step(Step(Step(t, 0), 0), 0), 0).temp == 24990
  {
    assert Step(t, 0).volt == 8000 && Step(t, 0).temp == 25035;
    assert Step(Step(t, 0), 0).volt == 0 && Step(Step(t, 0), 0).temp == 25020;
  }

  lemma HeatingTail(t: Twin)
    requires t.volt == VOLT_LIMIT && t.temp == 89000
    ensures Step(Step(Step(Step(t, 0), 1), 1), 1).temp == 89020
  {
    assert Step(t, 0).volt == 792000 && Step(t, 0).temp == 88985;
    assert Step(Step(t, 0), 1).volt == 796000 && Step(Step(t, 0), 1).temp == 88970;
    assert Step(Step(Step(t, 0), 1), 1).volt == VOLT_LIMIT && Step(Step(Step(t, 0), 1), 1).temp == 88995;
  }
}
