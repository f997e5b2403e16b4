/**
 The closed loop: the twin's physics thread, the driver's watchdog thread and the
 application, interleaved at their register accesses.

 `latency` bounds how late the watchdog may be: a physics step may start only if
 fewer than `latency` steps have finished since the load of the last completed
 poll.  Latency 1 is "at least one poll between consecutive physics steps".
 */
module ControlLoop {
  import opened Bits
  import opened Wrappers
  import opened Thermal

  /** The driver's own limit, which is not the PHY's 40000. */
  const TRIP: nat := 45000

  /** The watchdog thread: about to load `laser_temp`, holding a loaded value, or finished. */
  datatype Watchdog = Polling | Holding(reading: nat) | Halted

  /** The physics thread: between steps, or inside one with `control` already loaded. */
  datatype Physics = Resting | Started(control: nat)

  datatype Loop = Loop(
    twin: Twin,
    control: nat,
    physics: Physics,
    dog: Watchdog,
    lag: nat,     // steps finished since the load of the last completed poll
    held: nat)    // steps finished since the latest load

  datatype Event =
    | StartStep
    | FinishStep
    | PollLoad
    | PollAct
    | WriteControl(value: nat)

  /** How late the watchdog may be, whether anybody may start the device again after
      the halt, and the voltage an earlier run left in the register. */
  datatype Rules = Rules(latency: nat, restart: bool, volt: nat)

  predicate VoltOk(volt: nat) { volt % VOLT_STEP == 0 && volt <= VOLT_LIMIT }

  function PowerOn(volt: nat): Loop {
    Loop(COLD.(volt := volt), 0, Resting, Polling, 0, 0)
  }

  /** Anything may be written to `control` until the watchdog halts; afterwards only
      `restart` allows a 1. */
  predicate Enabled(r: Rules, s: Loop, e: Event) {
    match e
    case StartStep => s.physics.Resting? && (s.dog.Halted? || s.lag < r.latency)
    case FinishStep => s.physics.Started?
    case PollLoad => s.dog.Polling?
    case PollAct => s.dog.Holding?
    case WriteControl(v) => s.dog.Halted? && !r.restart ==> v != 1
  }

  function Do(s: Loop, e: Event): Loop
    requires e.FinishStep? ==> s.physics.Started?
    requires e.PollAct? ==> s.dog.Holding?
  {
    match e
    case StartStep => s.(physics := Started(s.control))
    case FinishStep =>
      s.(twin := Step(s.twin, s.physics.control), physics := Resting, lag := s.lag + 1, held := s.held + 1)
    case PollLoad => s.(dog := Holding(s.twin.laser), held := 0)
    case PollAct =>
      if s.dog.reading > TRIP then s.(control := 0, dog := Halted)
      else s.(dog := Polling, lag := s.held)
    case WriteControl(v) => s.(control := v)
  }

  function Run(r: Rules, events: seq<Event>): Option<Loop> {
    if events == [] then Some(PowerOn(r.volt)) else
      match Run(r, events[..|events| - 1])
      case None => None
      case Some(s) =>
        var e := events[|events| - 1];
        if Enabled(r, s, e) then Some(Do(s, e)) else None
  }

  /** Nobody waits for anybody, except that a step waits for a late watchdog: this is
      all the interleaving the results below quantify over. */
  lemma NeverBlocked(r: Rules, s: Loop)
    ensures match s.physics
      case Started(_) => Enabled(r, s, FinishStep)
      case Resting => Enabled(r, s, StartStep) <==> s.dog.Halted? || s.lag < r.latency
    ensures match s.dog
      case Polling => Enabled(r, s, PollLoad)
      case Holding(_) => Enabled(r, s, PollAct)
      case Halted => true
    ensures forall v :: Enabled(r, s, WriteControl(v)) <==> s.dog.Halted? && v == 1 ==> r.restart
  {
  }

  // ---------------------------------------------------------------- the ceiling

  /** With the voltage coming down from its limit, the k-th step still heats a twin
      that started below this. */
  function Threshold(k: nat): int { 89025 - 3325 * (k / 5) - 825 * (k % 5) }

  /** How many steps a twin at this temperature goes on heating after the halt. */
  function Coasting(temp: nat): nat
    requires temp <= 89024
  {
    5 * ((89024 - temp) / 3325) + (89024 - temp) % 3325 / 825
  }

  const SLOWEST: nat := 1760

  /**
   The hottest the twin can get.  One step of heating per step of latency, then the
   coast while the voltage comes down; where the coast ends exactly on a threshold, a
   twin 5 mC cooler takes one step more.  A watchdog too late for that guards nothing.
   */
  function Ceiling(latency: nat): nat {
    if latency == 0 then BASE_TEMP
    else if latency > SLOWEST then 89020
    else
      var temp := TRIP + 25 * latency;
      var k := Coasting(temp);
      temp + 25 * k + if temp == Threshold(k + 1) then 20 else 0
  }

  lemma CoastingExact(temp: nat)
    requires temp <= 89024
    ensures var k := Coasting(temp);
      (k > 0 ==> temp < Threshold(k)) && Threshold(k + 1) <= temp
  {
    var q, rest := (89024 - temp) / 3325, (89024 - temp) % 3325;
    var r := rest / 825;
    assert 89024 - temp == 3325 * q + rest && 0 <= r <= 4 && 825 * r <= rest < 825 * (r + 1);
    assert Coasting(temp) == 5 * q + r;
    assert (5 * q + r) / 5 == q && (5 * q + r) % 5 == r;
    if r == 4 {
      assert (5 * q + r + 1) / 5 == q + 1 && (5 * q + r + 1) % 5 == 0;
    } else {
      assert (5 * q + r + 1) / 5 == q && (5 * q + r + 1) % 5 == r + 1;
    }
  }

  /** The threshold is where the target of the k-th step meets the rising temperature. */
  lemma ThresholdIsTarget(k: nat)
    requires 1 <= k <= 100
    ensures BASE_TEMP + (VOLT_LIMIT - 8000 * k) / 10000 * 800 == Threshold(k) + 25 * (k - 1)
    ensures Threshold(k) % 25 == 0
  {
    var q, r := k / 5, k % 5;
    assert k == 5 * q + r;
    assert (VOLT_LIMIT - 8000 * k) / 10000 == 80 - 4 * q - r;
    assert Threshold(k) == 25 * (3561 - 133 * q - 33 * r);
  }

  lemma CeilingRange(latency: nat)
    requires 1 <= latency <= SLOWEST
    ensures TRIP + 25 * latency <= Ceiling(latency) <= 89000
  {
    var temp := TRIP + 25 * latency;
    var k := Coasting(temp);
    CoastingExact(temp);
    CoastingShort(latency);
    if k > 0 {
      ThresholdIsTarget(k);
    }
  }

  lemma CoastingShort(latency: nat)
    requires 1 <= latency <= SLOWEST
    ensures Coasting(TRIP + 25 * latency) <= 69
  {
  }

  // ---------------------------------------------------------------- safety

  predicate Watched(latency: nat, s: Loop) {
    && s.twin.temp <= TRIP + 25 * s.lag
    && s.lag <= latency
    && (latency == 0 ==> s.twin.temp == BASE_TEMP)
    && (s.physics.Started? ==> s.lag < latency)
    && (s.dog.Holding? ==>
          s.held <= s.lag && s.twin.temp <= s.dog.reading + 25 * s.held && s.dog.reading <= TRIP + 25 * latency)
  }

  /** After the halt: a step already started may still heat; from then on every
      further 25 mC costs 8000 of voltage. */
  predicate CoolingDown(latency: nat, s: Loop) {
    && s.control != 1 && latency >= 1
    && (if s.physics == Started(1) then s.twin.temp <= TRIP + 25 * latency - 25
        else Falling(latency, s.twin))
  }

  predicate Falling(latency: nat, t: Twin) {
    && t.temp <= Ceiling(latency)
    && t.temp <= TRIP + 25 * latency + 25 * ((VOLT_LIMIT - t.volt) / 8000)
  }

  predicate Inv(latency: nat, s: Loop) {
    Stable(s.twin) && if s.dog.Halted? then CoolingDown(latency, s) else Watched(latency, s)
  }

  lemma UnderCeiling(latency: nat, t: Twin)
    requires Stable(t) && latency >= 1 && t.temp <= TRIP + 25 * latency
    ensures Falling(latency, t)
  {
    hide Ceiling;
    if latency <= SLOWEST { CeilingRange(latency); } else { TooLate(latency); }
  }

  lemma TooLate(latency: nat)
    requires latency > SLOWEST
    ensures Ceiling(latency) == 89020
  {
  }

  /** A step that heats a cooling twin does not take it over the ceiling. */
  lemma LastRises(latency: nat, volt: nat, temp: nat)
    requires 1 <= latency <= SLOWEST && 8000 <= volt + 8000 <= VOLT_LIMIT && temp % 5 == 0
    requires temp <= TRIP + 25 * latency + 25 * ((VOLT_LIMIT - volt) / 8000 - 1)
    requires temp < BASE_TEMP + volt / 10000 * 800
    ensures temp + 25 <= Ceiling(latency)
  {
    var start := TRIP + 25 * latency;
    var k, j := Coasting(start), (VOLT_LIMIT - volt) / 8000;
    CoastingExact(start);
    CoastingShort(latency);
    CeilingParts(latency);
    hide Coasting, Threshold, Ceiling;
    if j > k {
      ThresholdIsTarget(k + 1);
      QuotientsOrdered(volt, VOLT_LIMIT - 8000 * (k + 1), 10000);
      FivesApart(temp, Threshold(k + 1) + 25 * k);
    }
  }

  lemma CeilingParts(latency: nat)
    requires 1 <= latency <= SLOWEST
    ensures var start := TRIP + 25 * latency;
      var end := start + 25 * Coasting(start);
      if start == Threshold(Coasting(start) + 1) then Ceiling(latency) == end + 20
      else Ceiling(latency) == end && (Threshold(Coasting(start) + 1) % 25 == 0 ==> Threshold(Coasting(start) + 1) <= start - 25)
  {
    CoastingExact(TRIP + 25 * latency);
  }

  lemma QuotientsOrdered(x: int, y: int, d: int)
    requires x <= y && d > 0
    ensures x / d <= y / d
  {
    if x / d > y / d { MulAtLeast(x / d - y / d, d); }
  }

  lemma FivesApart(x: int, y: int)
    requires x % 5 == 0 && y % 5 == 0 && x < y
    ensures x <= y - 5
  {
  }

  lemma FinishWatched(latency: nat, s: Loop)
    requires Inv(latency, s) && s.physics.Started? && !s.dog.Halted?
    ensures Inv(latency, Do(s, FinishStep))
  {
    hide Step, Stable;
    StepStable(s.twin, s.physics.control);
  }

  lemma FinishLastHotStep(latency: nat, s: Loop)
    requires Inv(latency, s) && s.physics == Started(1) && s.dog.Halted?
    ensures Inv(latency, Do(s, FinishStep))
  {
    hide Step, Stable, Falling;
    StepStable(s.twin, 1);
    UnderCeiling(latency, Step(s.twin, 1));
  }

  lemma FinishCooling(latency: nat, s: Loop)
    requires Inv(latency, s) && s.physics.Started? && s.physics.control != 1 && s.dog.Halted?
    ensures Inv(latency, Do(s, FinishStep))
  {
    hide Step, Ceiling;
    var t, t' := s.twin, Step(s.twin, s.physics.control);
    StepStable(t, s.physics.control);
    StepPlain(t, s.physics.control);
    if latency > SLOWEST {
      TooLate(latency);
    } else if t'.temp == t.temp + 25 {
      if t.volt == 0 { CeilingRange(latency); }
      else { LastRises(latency, t'.volt, t.temp); }
    }
  }

  lemma StepInv(r: Rules, s: Loop, e: Event)
    requires Inv(r.latency, s) && Enabled(r, s, e) && !r.restart
    ensures Inv(r.latency, Do(s, e))
  {
    hide Step, Stable, Falling;
    var latency := r.latency;
    if e.FinishStep? {
      if !s.dog.Halted? { FinishWatched(latency, s); }
      else if s.physics.control == 1 { FinishLastHotStep(latency, s); }
      else { FinishCooling(latency, s); }
    } else if e.PollLoad? || e.PollAct? {
      assert s.twin.laser == s.twin.temp by { LaserIsTemp(s.twin); }
      if !s.dog.Halted? && latency >= 1 { UnderCeiling(latency, s.twin); }
    }
  }

  lemma LaserIsTemp(t: Twin)
    requires Stable(t)
    ensures t.laser == t.temp
  {
  }

  lemma InvMeansUnder(latency: nat, s: Loop)
    requires Inv(latency, s)
    ensures s.twin.temp <= Ceiling(latency)
  {
    hide Ceiling;
    if latency == 0 {
      NoSteps();
    } else if !s.dog.Halted? || s.physics == Started(1) {
      UnderCeiling(latency, s.twin);
    }
  }

  lemma NoSteps()
    ensures Ceiling(0) == BASE_TEMP
  {
  }

  /** Whatever is written to control before the halt, on every interleaving. */
  lemma {:induction false} NeverOverCeiling(r: Rules, events: seq<Event>)
    requires Run(r, events).Some? && !r.restart && VoltOk(r.volt)
    ensures var s := Run(r, events).value;
      Inv(r.latency, s) && s.twin.temp <= Ceiling(r.latency)
  {
    hide Inv, Ceiling;
    if events != [] {
      var n := |events| - 1;
      NeverOverCeiling(r, events[..n]);
      StepInv(r, Run(r, events[..n]).value, events[n]);
    } else {
      PowerOnInv(r.latency, r.volt);
    }
    InvMeansUnder(r.latency, Run(r, events).value);
  }

  lemma PowerOnInv(latency: nat, volt: nat)
    requires VoltOk(volt)
    ensures Inv(latency, PowerOn(volt))
  {
  }

  // ---------------------------------------------------------------- every ceiling is reached

  lemma Extend(r: Rules, events: seq<Event>, s: Loop, e: Event) returns (events': seq<Event>, s': Loop)
    requires Run(r, events) == Some(s) && Enabled(r, s, e)
    ensures Run(r, events') == Some(s') && s' == Do(s, e)
  {
    events', s' := events + [e], Do(s, e);
    assert events'[..|events'| - 1] == events;
  }

  /** Between steps, with the watchdog still polling. */
  predicate Quiet(r: Rules, events: seq<Event>, s: Loop) {
    Run(r, events) == Some(s) && s.physics.Resting? && s.dog.Polling? && Stable(s.twin)
  }

  /** One poll that sees no breach. */
  lemma Poll(r: Rules, events: seq<Event>, s: Loop) returns (events': seq<Event>, s': Loop)
    requires Quiet(r, events, s) && s.twin.temp <= TRIP
    ensures Quiet(r, events', s') && s' == s.(lag := 0, held := 0)
  {
    hide Run, Step;
    events', s' := Extend(r, events, s, PollLoad);
    events', s' := Extend(r, events', s', PollAct);
  }

  /** One step, not too late after the last poll. */
  lemma Tick(r: Rules, events: seq<Event>, s: Loop) returns (events': seq<Event>, s': Loop)
    requires Quiet(r, events, s) && s.lag < r.latency
    ensures Quiet(r, events', s') && s'.twin == Step(s.twin, s.control)
    ensures s'.control == s.control && s'.lag == s.lag + 1
  {
    hide Run, Step, Stable;
    events', s' := Extend(r, events, s, StartStep);
    events', s' := Extend(r, events', s', FinishStep);
    StepStable(s.twin, s.control);
  }

  /** A control value, a poll, a step. */
  lemma Drive(r: Rules, events: seq<Event>, s: Loop, control: nat) returns (events': seq<Event>, s': Loop)
    requires Quiet(r, events, s) && s.twin.temp <= TRIP && r.latency >= 1
    ensures Quiet(r, events', s') && s'.twin == Step(s.twin, control) && s'.control == control
  {
    hide Run, Step, Stable;
    events', s' := Extend(r, events, s, WriteControl(control));
    events', s' := Poll(r, events', s');
    events', s' := Tick(r, events', s');
  }

  /** n steps into a heating ramp that began at 12000 uV. */
  predicate Ramp(t: Twin, base: nat, n: nat) {
    && Stable(t)
    && t.volt == (if n <= 197 then 12000 + 4000 * n else VOLT_LIMIT)
    && t.temp == base + 25 * n
  }

  lemma RampStep(t: Twin, base: nat, n: nat)
    requires Ramp(t, base, n) && base <= 25025 && base + 25 * n < 89000
    ensures Ramp(Step(t, 1), base, n + 1)
  {
    hide Step;
    StepPlain(t, 1);
    StepStable(t, 1);
  }

  lemma {:induction false} RampMore(t: Twin, base: nat, n: nat, k: nat)
    requires Ramp(t, base, n) && base <= 25025 && (k > 0 ==> base + 25 * (n + k - 1) < 89000)
    ensures Ramp(Iterate(t, 1, k), base, n + k)
    decreases k
  {
    hide Step, Ramp;
    if k > 0 {
      RampMore(t, base, n, k - 1);
      RampStep(Iterate(t, 1, k - 1), base, n + k - 1);
    }
  }

  /** Off from the start: whatever voltage was left decays, well under the limit. */
  lemma {:induction false} CoolOff(r: Rules, n: nat) returns (events: seq<Event>, s: Loop)
    requires r.latency >= 1 && VoltOk(r.volt)
    ensures Quiet(r, events, s) && s.twin == Iterate(PowerOn(r.volt).twin, 0, n)
    ensures Mild(s.twin)
  {
    if n == 0 {
      events, s := [], PowerOn(r.volt);
    } else {
      hide Run, Step, Quiet;
      events, s := CoolOff(r, n - 1);
      MildStep(s.twin);
      QuietMild(r, events, s);
      events, s := Drive(r, events, s, 0);
    }
  }

  predicate Mild(t: Twin) {
    Stable(t) && t.temp <= 25020 + 25 * ((VOLT_LIMIT - t.volt) / 8000)
  }

  lemma MildStep(t: Twin)
    requires Mild(t)
    ensures Mild(Step(t, 0))
  {
    hide Step;
    StepPlain(t, 0);
    StepStable(t, 0);
  }

  lemma QuietMild(r: Rules, events: seq<Event>, s: Loop)
    requires Quiet(r, events, s) && Mild(s.twin)
    ensures s.twin.temp <= TRIP
  {
  }

  /** Cooled off, then three steps on, or six with one of them off: the same voltage, 5 mC apart. */
  lemma RampStart(r: Rules, low: bool) returns (events: seq<Event>, s: Loop)
    requires r.latency >= 1 && VoltOk(r.volt)
    ensures Quiet(r, events, s) && s.control == 1 && Ramp(s.twin, if low then 25020 else 25025, 0)
  {
    hide Run, Iterate;
    var n: nat := 4476;
    events, s := CoolOff(r, n);
    Converges(PowerOn(r.volt).twin, 0, n);
    assert s.twin.volt == 0 && s.twin.temp == 25000;
    events, s := Drive(r, events, s, 1);
    events, s := Drive(r, events, s, 1);
    assert s.twin.volt == 8000 && s.twin.temp == 25000;
    events, s := Drive(r, events, s, 1);
    assert s.twin.volt == 12000 && s.twin.temp == 25025;
    if low {
      events, s := Drive(r, events, s, 0);
      assert s.twin.volt == 4000 && s.twin.temp == 25010;
      events, s := Drive(r, events, s, 1);
      assert s.twin.volt == 8000 && s.twin.temp == 24995;
      events, s := Drive(r, events, s, 1);
    }
  }

  /** A poll before each of n steps, no breach to see yet. */
  lemma {:induction false} WarmUp(r: Rules, low: bool, n: nat) returns (events: seq<Event>, s: Loop)
    requires r.latency >= 1 && VoltOk(r.volt) && n <= 799
    ensures Quiet(r, events, s) && s.control == 1 && Ramp(s.twin, if low then 25020 else 25025, n)
  {
    hide Step, Run, Stable;
    if n == 0 {
      events, s := RampStart(r, low);
    } else {
      events, s := WarmUp(r, low, n - 1);
      RampStep(s.twin, if low then 25020 else 25025, n - 1);
      events, s := Drive(r, events, s, 1);
    }
  }

  /** The last poll reads the limit, or 5 less; then k steps pass before the next. */
  lemma {:induction false} Unwatched(r: Rules, low: bool, k: nat) returns (events: seq<Event>, s: Loop)
    requires 1 <= r.latency && VoltOk(r.volt) && k <= r.latency && k <= (if low then 1761 else 1760)
    ensures Quiet(r, events, s) && s.control == 1 && s.lag == k
    ensures Ramp(s.twin, if low then 25020 else 25025, 799 + k)
  {
    hide Step, Run, Stable;
    if k == 0 {
      var n: nat := 799;
      events, s := WarmUp(r, low, n);
      events, s := Poll(r, events, s);
    } else {
      events, s := Unwatched(r, low, k - 1);
      RampStep(s.twin, if low then 25020 else 25025, 799 + k - 1);
      events, s := Tick(r, events, s);
    }
  }

  /** Then the watchdog halts, `control` is written, and k more steps follow. */
  lemma {:induction false} HaltAndGo(r: Rules, low: bool, control: nat, k: nat)
      returns (events: seq<Event>, s: Loop, hot: Twin)
    requires 1 <= r.latency <= SLOWEST && VoltOk(r.volt) && (control == 1 ==> r.restart)
    ensures Run(r, events) == Some(s) && s.dog.Halted? && s.physics.Resting? && s.control == control
    ensures Ramp(hot, if low then 25020 else 25025, 799 + r.latency) && s.twin == Iterate(hot, control, k)
  {
    hide Step, Run, Stable;
    if k == 0 {
      events, s := Unwatched(r, low, r.latency);
      hot := s.twin;
      assert s.twin.laser == s.twin.temp by { LaserIsTemp(s.twin); }
      events, s := Extend(r, events, s, PollLoad);
      events, s := Extend(r, events, s, PollAct);
      events, s := Extend(r, events, s, WriteControl(control));
    } else {
      events, s, hot := HaltAndGo(r, low, control, k - 1);
      events, s := Extend(r, events, s, StartStep);
      events, s := Extend(r, events, s, FinishStep);
    }
  }

  /** From a halt at full voltage the temperature climbs for as long as the threshold says. */
  lemma {:induction false} Coast(t: Twin, k: nat)
    requires Stable(t) && t.volt == VOLT_LIMIT && k <= 100 && (k > 0 ==> t.temp < Threshold(k))
    ensures var t' := Iterate(t, 0, k);
      Stable(t') && t'.volt == VOLT_LIMIT - 8000 * k && t'.temp == t.temp + 25 * k
  {
    if k > 0 {
      ThresholdFalls(k - 1);
      ThresholdIsTarget(k);
      hide Step, Stable, Threshold;
      Coast(t, k - 1);
      StepPlain(Iterate(t, 0, k - 1), 0);
      StepStable(Iterate(t, 0, k - 1), 0);
    }
  }

  lemma ThresholdFalls(k: nat)
    ensures Threshold(k + 1) < Threshold(k)
  {
    var q, r := k / 5, k % 5;
    assert k == 5 * q + r;
    if r == 4 {
      assert (k + 1) / 5 == q + 1 && (k + 1) % 5 == 0;
    } else {
      assert (k + 1) / 5 == q && (k + 1) % 5 == r + 1;
    }
  }

  lemma CeilingIsReached(r: Rules) returns (events: seq<Event>)
    requires VoltOk(r.volt) && !r.restart
    ensures Run(r, events).Some? && Run(r, events).value.twin.temp == Ceiling(r.latency)
  {
    hide Step, Iterate, Stable, Run, Coasting, Threshold;
    var s, hot;
    var latency := r.latency;
    if latency == 0 {
      events, s := AtOnce(r);
    } else if latency > SLOWEST {
      events, s := Unwatched(r, true, SLOWEST + 1);
    } else {
      var temp := TRIP + 25 * latency;
      var k := Coasting(temp);
      CoastingExact(temp);
      CoastingShort(latency);
      if temp == Threshold(k + 1) {
        events, s, hot := HaltAndGo(r, true, 0, k + 1);
        Coast(hot, k + 1);
      } else {
        events, s, hot := HaltAndGo(r, false, 0, k);
        Coast(hot, k);
      }
    }
  }

  lemma AtOnce(r: Rules) returns (events: seq<Event>, s: Loop)
    ensures Run(r, events) == Some(s) && s == PowerOn(r.volt)
  {
    events, s := [], PowerOn(r.volt);
  }

  /** For every latency and every voltage left over, the ceiling is the exact maximum over all runs. */
  lemma CeilingExactly(r: Rules, bound: nat)
    requires VoltOk(r.volt) && !r.restart
    ensures (forall events :: Run(r, events).Some? ==> Run(r, events).value.twin.temp <= bound)
            <==> Ceiling(r.latency) <= bound
  {
    hide Run, Inv, Ceiling;
    var hottest := CeilingIsReached(r);
    forall events | Run(r, events).Some? ensures Run(r, events).value.twin.temp <= Ceiling(r.latency) {
      NeverOverCeiling(r, events);
    }
  }

  /** What it comes to for a prompt watchdog: 46650 mC at latency 1. */
  lemma PromptCeiling(latency: nat)
    requires 1 <= latency <= 31
    ensures Ceiling(latency) == 46625 + 25 * latency
  {
  }

  /** Until somebody writes 1, a twin without leftover voltage stays at ambient temperature. */
  lemma {:induction false} ColdUntilStarted(r: Rules, events: seq<Event>)
    requires Run(r, events).Some? && r.volt == 0 && forall i :: 0 <= i < |events| ==> events[i] != WriteControl(1)
    ensures var s := Run(r, events).value;
      s.twin.volt == 0 && s.twin.temp == 25000 && s.control != 1 && s.physics != Started(1)
  {
    if events != [] {
      ColdUntilStarted(r, events[..|events| - 1]);
    }
  }

  // ---------------------------------------------------------------- restarting

  /** Whatever the rules: the thermal band holds, and at latency 0 no step is ever taken. */
  lemma {:induction false} AnyRules(r: Rules, events: seq<Event>)
    requires Run(r, events).Some? && VoltOk(r.volt)
    ensures var s := Run(r, events).value;
      && Stable(s.twin)
      && (r.latency == 0 ==>
            && s.twin == PowerOn(r.volt).twin && s.physics.Resting? && s.lag == 0 && s.held == 0
            && !s.dog.Halted? && (s.dog.Holding? ==> s.dog.reading == BASE_TEMP))
  {
    hide Step;
    if events != [] {
      var before, e := events[..|events| - 1], events[|events| - 1];
      AnyRules(r, before);
      var s := Run(r, before).value;
      hide Run, Stable;
      if e.FinishStep? { StepStable(s.twin, s.physics.control); }
    }
  }

  /** The watchdog is one-shot: where a restart after the halt is allowed, the twin
      goes on to 89020 mC with the watchdog gone. */
  lemma RestartIsUnguarded(r: Rules) returns (events: seq<Event>)
    requires r.restart && 1 <= r.latency <= SLOWEST && VoltOk(r.volt)
    ensures Run(r, events).Some?
    ensures var s := Run(r, events).value;
      s.dog.Halted? && s.twin.temp == 89020 > Ceiling(r.latency)
  {
    hide Step, Iterate, Stable, Run, Ceiling;
    var k: nat := SLOWEST + 1 - r.latency;
    var s, hot;
    events, s, hot := HaltAndGo(r, true, 1, k);
    RampMore(hot, 25020, 799 + r.latency, k);
    CeilingRange(r.latency);
  }

  /** A restart takes some run over the ceiling for exactly the latencies whose
      ceiling is a bound at all. */
  lemma RestartExactly(r: Rules)
    requires r.restart && VoltOk(r.volt)
    ensures (exists events :: Run(r, events).Some? && Run(r, events).value.twin.temp > Ceiling(r.latency))
            <==> 1 <= r.latency <= SLOWEST
  {
    hide Run;
    if 1 <= r.latency <= SLOWEST {
      var events := RestartIsUnguarded(r);
    } else {
      forall events | Run(r, events).Some? ensures Run(r, events).value.twin.temp <= Ceiling(r.latency) {
        AnyRules(r, events);
      }
    }
  }
}
