/**
 The START/READY handshake of the mock hardware demo: two threads over three
 registers, interleaved at every register access.
 */
module Handshake {
  import opened Bits
  import opened Wrappers

  const IDLE: nat := 0x0
  const START: nat := 0x1
  const RESET: nat := 0x9
  const BUSY: nat := 0x1
  const READY: nat := 0x2

  /** The hardware thread, by the access it is about to make. */
  datatype Hardware = Poll | WriteBusy | LoadCounter | StoreCounter(loaded: nat) | WriteReady | WriteIdle | Off

  /** The driver thread, likewise. */
  datatype Driver = WriteStart | PollStatus | ReadResult | WriteReset | Joining

  datatype State = State(
    control: nat,
    status: nat,
    counter: nat,
    hw: Hardware,
    driver: Driver,
    served: nat,             // history: how often a START was taken up
    result: Option<nat>)     // what the driver read

  datatype Turn = HardwareTurn | DriverTurn

  function Init(control: nat, status: nat, counter: nat): State {
    State(control, status, counter, Poll, WriteStart, 0, None)
  }

  function HardwareStep(s: State): State {
    match s.hw
    case Poll =>
      if s.control == START then s.(hw := WriteBusy, served := s.served + 1)
      else if s.control == RESET then s.(hw := Off)
      else s
    case WriteBusy => s.(status := BUSY, hw := LoadCounter)
    case LoadCounter => s.(hw := StoreCounter(s.counter))
    case StoreCounter(v) => s.(counter := Bump(v), hw := WriteReady)
    case WriteReady => s.(status := READY, hw := WriteIdle)
    case WriteIdle => s.(control := IDLE, hw := Poll)
    case Off => s
  }

  function DriverStep(s: State): State {
    match s.driver
    case WriteStart => s.(control := START, driver := PollStatus)
    case PollStatus => if s.status == READY then s.(driver := ReadResult) else s
    case ReadResult => s.(result := Some(s.counter), driver := WriteReset)
    case WriteReset => s.(control := RESET, driver := Joining)
    case Joining => s
  }

  function Step(s: State, t: Turn): State {
    if t.HardwareTurn? then HardwareStep(s) else DriverStep(s)
  }

  function Run(s: State, schedule: seq<Turn>): State {
    if schedule == [] then s
    else Step(Run(s, schedule[..|schedule| - 1]), schedule[|schedule| - 1])
  }

  // ---------------------------------------------------------------- exactness

  predicate Quiet(s: State, c0: nat) {
    s.served == 0 && s.counter == c0 && s.status != READY && s.result.None?
  }

  predicate Done(s: State, c0: nat) {
    s.served == 1 && s.counter == Bump(c0) && s.status == READY && !s.driver.WriteStart?
    && (s.result.Some? ==> s.result.value == Bump(c0))
    && (s.result.Some? <==> s.driver.WriteReset? || s.driver.Joining?)
  }

  predicate Working(s: State) {
    s.served == 1 && s.control == START && s.status != READY && s.driver.PollStatus? && s.result.None?
  }

  predicate Inv(s: State, c0: nat) {
    match s.hw
    case Poll =>
      || (Quiet(s, c0) && ((s.driver.WriteStart? && s.control != START) || (s.driver.PollStatus? && s.control == START)))
      || (Done(s, c0) && (s.control == IDLE || (s.control == RESET && s.driver.Joining?)))
    case WriteBusy => Working(s) && s.counter == c0
    case LoadCounter => Working(s) && s.counter == c0 && s.status == BUSY
    case StoreCounter(v) => Working(s) && v == c0 && s.status == BUSY
    case WriteReady => Working(s) && s.counter == Bump(c0) && s.status == BUSY
    case WriteIdle => Done(s, c0) && s.control == (if s.driver.Joining? then RESET else START)
    case Off =>
      || (Quiet(s, c0) && (s.driver.WriteStart? || s.driver.PollStatus?))
      || (Done(s, c0) && s.driver.Joining?)
  }

  lemma {:induction false} RunInv(control: nat, status: nat, c0: nat, schedule: seq<Turn>)
    requires control != START && status != READY
    ensures Inv(Run(Init(control, status, c0), schedule), c0)
  {
    if schedule != [] {
      RunInv(control, status, c0, schedule[..|schedule| - 1]);
    }
  }

  /** From the hardware's BUSY write to its READY write the status reads 1, and from
      then on 2, whoever reads it. */
  lemma BusyUntilReady(control: nat, status: nat, c0: nat, schedule: seq<Turn>)
    requires control != 0x1 && status != 0x2
    ensures var s := Run(Init(control, status, c0), schedule);
      && (s.hw.LoadCounter? || s.hw.StoreCounter? || s.hw.WriteReady? ==> s.status == 0x1)
      && (s.hw.WriteIdle? || (s.served > 0 && (s.hw.Poll? || s.hw.Off?)) ==> s.status == 0x2)
  {
    RunInv(control, status, c0, schedule);
  }

  /** Every value the driver can read is the initial counter plus one, and then START was served once. */
  ghost predicate Correct(control: nat, status: nat, c0: nat) {
    forall schedule ::
      var s := Run(Init(control, status, c0), schedule);
      s.served <= 1 && (s.result.Some? ==> s.result.value == Bump(c0) && s.served == 1)
  }

  /** The fresh register file (all zero) is fine; exactly two kinds of stale register break the handshake. */
  lemma CorrectExactly(control: nat, status: nat, c0: nat)
    requires c0 < TWO_64
    ensures Correct(control, status, c0) <==> control != 0x1 && status != 0x2
  {
    if control != START && status != READY {
      forall schedule
        ensures var s := Run(Init(control, status, c0), schedule);
          s.served <= 1 && (s.result.Some? ==> s.result.value == Bump(c0) && s.served == 1)
      {
        RunInv(control, status, c0, schedule);
      }
    } else if status == READY {
      var s := Init(control, status, c0);
      var d := DriverTurn;
      Extend3(s, [], d, d, d);
      assert Run(s, []) == s;
      assert Run(s, [] + [d] + [d] + [d]).result == Some(c0);
    } else {
      var s := Init(control, status, c0);
      var h := HardwareTurn;
      assert Run(s, []) == s;
      Extend3(s, [], h, h, h);
      var first := [] + [h] + [h] + [h];
      Extend3(s, first, h, h, h);
      var second := first + [h] + [h] + [h];
      Extend3(s, second, DriverTurn, h, h);
      assert Run(s, second + [DriverTurn] + [h] + [h]).served == 2;
    }
  }

  lemma RunSnoc(s: State, schedule: seq<Turn>, t: Turn)
    ensures Run(s, schedule + [t]) == Step(Run(s, schedule), t)
  {
    assert (schedule + [t])[..|schedule + [t]| - 1] == schedule;
  }

  lemma Extend3(s: State, schedule: seq<Turn>, a: Turn, b: Turn, c: Turn)
    ensures Run(s, schedule + [a] + [b] + [c]) == Step(Step(Step(Run(s, schedule), a), b), c)
  {
    hide Step, Run;
    RunSnoc(s, schedule, a);
    RunSnoc(s, schedule + [a], b);
    RunSnoc(s, schedule + [a] + [b], c);
  }

  // ---------------------------------------------------------------- shutdown

  lemma {:induction false} LostResetStaysLost(s: State, schedule: seq<Turn>)
    requires s.driver.Joining? && ((s.hw.Poll? && s.control == IDLE) || s.hw.WriteIdle?)
    ensures var s' := Run(s, schedule);
      s'.driver.Joining? && ((s'.hw.Poll? && s'.control == IDLE) || s'.hw.WriteIdle?)
  {
    if schedule != [] {
      LostResetStaysLost(s, schedule[..|schedule| - 1]);
    }
  }

  /** A RESET the hardware is still polling for stops it at its next turn, whatever the schedule. */
  lemma {:induction false} SeenResetStops(s: State, schedule: seq<Turn>)
    requires s.driver.Joining? && s.hw.Poll? && s.control == RESET
    ensures var s' := Run(s, schedule);
      && s'.driver.Joining? && s'.control == RESET
      && (if HardwareTurn in schedule then s'.hw.Off? else s'.hw.Poll?)
  {
    if schedule != [] {
      var before, last := schedule[..|schedule| - 1], schedule[|schedule| - 1];
      SeenResetStops(s, before);
      assert schedule == before + [last];
      assert HardwareTurn in schedule <==> HardwareTurn in before || last == HardwareTurn;
    }
  }

  ghost predicate SureToStop(s: State) {
    forall more :: HardwareTurn in more ==> Run(s, more).hw.Off?
  }

  ghost predicate AbleToStop(s: State) {
    exists more :: Run(s, more).hw.Off?
  }

  /**
   The driver is about to write RESET.  If `control` reads IDLE, the hardware stops
   on every continuation that gives it a turn; otherwise it never stops, on any.
   */
  lemma ShutdownExactly(control: nat, status: nat, c0: nat, schedule: seq<Turn>)
    requires control != START && status != READY
    requires Run(Init(control, status, c0), schedule).driver.WriteReset?
    ensures var s := Run(Init(control, status, c0), schedule);
      && (SureToStop(DriverStep(s)) <==> s.control == IDLE)
      && (AbleToStop(DriverStep(s)) <==> s.control == IDLE)
  {
    RunInv(control, status, c0, schedule);
    var s := Run(Init(control, status, c0), schedule);
    var s' := DriverStep(s);
    var once := [HardwareTurn];
    if s.control == IDLE {
      forall more ensures HardwareTurn in more ==> Run(s', more).hw.Off? {
        SeenResetStops(s', more);
      }
      assert HardwareTurn in once && Run(s', once).hw.Off?;
    } else {
      forall more ensures !Run(s', more).hw.Off? {
        LostResetStaysLost(s', more);
      }
      assert HardwareTurn in once && !Run(s', once).hw.Off?;
    }
  }

  /** The lost RESET does happen, from the zeroed register file: the driver is quick,
      the hardware slow to write IDLE. */
  lemma ResetCanBeLost(c0: nat) returns (schedule: seq<Turn>)
    ensures var s := Run(Init(IDLE, 0, c0), schedule);
      && s.driver.WriteReset? && s.hw.WriteIdle?
      && !AbleToStop(DriverStep(s))
  {
    var s, h, d := Init(IDLE, 0, c0), HardwareTurn, DriverTurn;
    assert Run(s, []) == s;
    Extend3(s, [], d, h, h);
    var first := [] + [d] + [h] + [h];
    Extend3(s, first, h, h, h);
    var second := first + [h] + [h] + [h];
    RunSnoc(s, second, d);
    RunSnoc(s, second + [d], d);
    schedule := second + [d] + [d];
    ShutdownExactly(IDLE, 0, c0, schedule);
  }
}
