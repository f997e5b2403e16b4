/**
 The digital twin's register file and its physics thread, updated in place.  Each
 method is proved against the model it belongs to: the thermal step, the pointer
 guard, the reference queue.
 */
module SimDevice {
  import opened Bits
  import opened Wrappers
  import opened Fifo
  import Thermal
  import DmaGuard
  import RingIndex
  import RingBuffer
  import SimPhy

  const CHAOS_THRESHOLD: nat := 28

  /** What the constructor leaves as it was in the register block. */
  datatype Found = Found(dataPtr: nat, counter: nat, ganVoltage: nat, rfSnr: int)

  class Device {
    var control: nat
    var status: nat
    var dataPtr: nat
    var counter: nat
    var laserTemp: nat
    var ganVoltage: nat
    var rfSnr: int
    var lastValidShuttle: nat
    const phy: SimPhy.Phy

    /** The one mapped shuttle: its address and the ring that lives there. */
    const shuttle: nat
    const ring: RingBuffer.Ring

    /** The register block is shared memory: `laser_temp`, `status` and `control` are
        written, the rest stays as `found`.  A voltage an earlier run left behind is
        within the thermal invariant. */
    constructor (phy: SimPhy.Phy, shuttle: nat, ring: RingBuffer.Ring, found: Found)
      requires phy.currentTemp == Thermal.BASE_TEMP
      ensures this.phy == phy && this.shuttle == shuttle && this.ring == ring
      ensures control == 0 && status == 0 && counter == found.counter
      ensures Twin() == Thermal.Twin(found.ganVoltage, Thermal.BASE_TEMP, Thermal.BASE_TEMP, found.rfSnr)
      ensures Pointer() == DmaGuard.Device(found.dataPtr, 0)
      ensures Thermal.Stable(Twin()) <==>
              found.ganVoltage % Thermal.VOLT_STEP == 0 && found.ganVoltage <= Thermal.VOLT_LIMIT
    {
      this.phy, this.shuttle, this.ring := phy, shuttle, ring;
      dataPtr, counter, ganVoltage, rfSnr := found.dataPtr, found.counter, found.ganVoltage, found.rfSnr;
      laserTemp, status, control := Thermal.BASE_TEMP, 0, 0;
      lastValidShuttle := 0;
    }

    ghost function Twin(): Thermal.Twin
      reads this, phy
    {
      Thermal.Twin(ganVoltage, phy.currentTemp, laserTemp, rfSnr)
    }

    ghost function Pointer(): DmaGuard.Device
      reads this
    {
      DmaGuard.Device(dataPtr, lastValidShuttle)
    }

    /** The device between turns of the physics loop. */
    ghost function Now(): View
      requires ring.Valid()
      reads this, phy, ring, ring.slots
    {
      View(Twin(), Pointer(), ring.Contents(), counter)
    }

    /** The shuttle holds a ring of the size the device casts to, and `counter` fits its register. */
    ghost predicate Mapped()
      reads this, ring
    {
      ring.Valid() && ring.size == RingIndex.SHUTTLE_SIZE && counter < TWO_64
    }

    /** The guard accepts whatever valid address comes first.  When that is not the
        shuttle, the access is `wild`: the address is latched and nothing more is promised. */
    method ProcessDma() returns (wild: bool)
      requires Mapped()
      modifies this`lastValidShuttle, this`counter, ring`tail
      ensures Mapped()
      ensures wild <==> DmaGuard.Passes(dataPtr, old(lastValidShuttle)) && dataPtr != shuttle
      ensures Pointer() == DmaGuard.Device(dataPtr, DmaGuard.NextLatch(dataPtr, old(lastValidShuttle)))
      ensures !wild ==>
                if DmaGuard.Passes(dataPtr, old(lastValidShuttle))
                then ring.Contents() == [] && counter == Raised(old(counter), |old(ring.Contents())|)
                else ring.Contents() == old(ring.Contents()) && counter == old(counter)
    {
      hide And;
      wild := false;
      var shuttleAddr := dataPtr;
      if shuttleAddr == 0 {
        return;
      }
      if And(shuttleAddr, DmaGuard.ALIGN_MASK) != 0 {
        return;
      }
      var expected := lastValidShuttle;
      if expected != 0 && shuttleAddr != expected {
        return;
      }
      if expected == 0 {
        lastValidShuttle := shuttleAddr;
      }
      if shuttleAddr != shuttle {
        return true;
      }
      ghost var popped;
      counter, popped := RingBuffer.Drain(ring, counter);
    }

    /** Voltage ramp, inertial temperature, SNR and output registers: one step of the thermal model. */
    method UpdateThermalModel()
      modifies this`ganVoltage, this`laserTemp, this`rfSnr, phy`currentTemp
      ensures Twin() == Thermal.Step(old(Twin()), control)
    {
      var volt := ganVoltage;
      if control == 1 {
        if volt < Thermal.VOLT_LIMIT {
          volt := (volt + Thermal.VOLT_STEP) % TWO_32;
        }
      } else {
        if volt > 0 {
          volt := if volt > Thermal.VOLT_COOL then volt - Thermal.VOLT_COOL else 0;
        }
      }
      ganVoltage := volt;

      var target := Thermal.BASE_TEMP;
      if volt > 0 {
        target := (target + (volt / Thermal.VOLT_TEMP_DIV * Thermal.VOLT_TEMP_MULT) % TWO_32) % TWO_32;
      }
      phy.UpdateThermalLoad(target);
      var temp := phy.currentTemp;

      var snr := Thermal.SNR_BASELINE;
      if temp > Thermal.JITTER_THRESHOLD {
        snr := snr - (temp - Thermal.JITTER_THRESHOLD) / Thermal.SNR_TEMP_DIV;
      }
      rfSnr := snr;
      laserTemp := temp;
    }

    /** With corruption on, one random bit of `data_ptr` or of `status` is flipped. */
    method ApplyChaosEffects(corrupt: bool, first: nat, second: nat)
      requires first < 32 && second < 32
      modifies this`dataPtr, this`status
      ensures dataPtr == if corrupt && first > 28 then DmaGuard.Flip(old(dataPtr), second) else old(dataPtr)
      ensures status == if corrupt && first <= 28 then Xor(old(status), Pow2(second)) else old(status)
    {
      if corrupt {
        var currentStatus := status;
        if first > CHAOS_THRESHOLD {
          dataPtr := Xor(dataPtr, Pow2(second));
        } else {
          status := Xor(currentStatus, Pow2(second));
        }
      }
    }

    /** One turn of the physics loop: a thermal step and a guarded iteration, or
        nothing but the heartbeat under deadlock.  A wild access ends it. */
    method PhysicsIteration(t: Turn) returns (wild: bool)
      requires Mapped() && TurnOk(t)
      modifies this`control, this`status, this`lastValidShuttle, this`counter, this`dataPtr,
               this`ganVoltage, this`laserTemp, this`rfSnr, phy`currentTemp, ring`tail
      ensures Mapped() && control == t.control
      ensures wild <==> Astray(old(Now()), t, shuttle)
      ensures !wild ==> Now() == Turned(old(Now()), t)
      ensures !wild ==> status == if !t.deadlock && t.corrupt && PointerFlip(t).None? then Xor(1, Pow2(t.second)) else 1
    {
      hide And, Xor, Raised, Thermal.Step;
      wild := false;
      control := t.control;
      status := 1;
      if !t.deadlock {
        wild := ProcessDma();
        if !wild {
          UpdateThermalModel();
          ApplyChaosEffects(t.corrupt, t.first, t.second);
        }
      }
    }

    /**
     The physics loop: over any number of turns the device is the thermal model run
     on the control values, the pointer guard run on the drawn flips, and a ring
     emptied once.  Some turn is wild exactly when the guard model drains an address
     other than the shuttle; that never happens from a secured state.
     */
    method RunPhysicsLoop(turns: seq<Turn>) returns (wild: bool)
      requires Mapped() && forall i :: 0 <= i < |turns| ==> TurnOk(turns[i])
      modifies this`control, this`status, this`lastValidShuttle, this`counter, this`dataPtr,
               this`ganVoltage, this`laserTemp, this`rfSnr, phy`currentTemp, ring`tail
      ensures Mapped()
      ensures wild <==> DmaGuard.Strays(old(Pointer()), Flips(turns), shuttle)
      ensures !wild ==>
                && Twin() == Thermal.RunFrom(old(Twin()), Controls(turns))
                && Pointer() == DmaGuard.After(old(Pointer()), Flips(turns))
                && (if DmaGuard.DrainsWithin(old(Pointer()), Flips(turns))
                    then ring.Contents() == [] && counter == Raised(old(counter), |old(ring.Contents())|)
                    else ring.Contents() == old(ring.Contents()) && counter == old(counter))
      ensures DmaGuard.Secured(old(Pointer()), shuttle) ==> !wild
    {
      FlipsInRange(turns);
      if DmaGuard.Secured(Pointer(), shuttle) {
        DmaGuard.SecuredNeverStrays(Pointer(), Flips(turns), shuttle);
      }
      assert turns[..|turns|] == turns;
      hide And, Raised, Thermal.RunFrom, DmaGuard.After, Controls, Flips, DmaGuard.Strays, DmaGuard.DrainsWithin, DmaGuard.Secured,
           Astray, Turned;
      wild := false;
      ghost var before := Now();
      ReachedNone(before, turns, shuttle);
      for i := 0 to |turns|
        invariant Mapped() && !wild
        invariant Reached(before, turns[..i], Now(), shuttle)
      {
        hide Reached;
        ReachedNext(before, turns, i, Now(), shuttle);
        wild := PhysicsIteration(turns[i]);
        if wild {
          return;
        }
      }
    }
  }

  // ---------------------------------------------------------------- turns of the loop

  /** What one turn meets: the last `control` the host wrote, the injected faults, the two draws. */
  datatype Turn = Turn(control: nat, deadlock: bool, corrupt: bool, first: nat, second: nat)

  predicate TurnOk(t: Turn) { t.first < 32 && t.second < 32 }

  /** The bit of `data_ptr` this turn flips, if any. */
  function PointerFlip(t: Turn): Option<nat> {
    if t.corrupt && t.first > CHAOS_THRESHOLD then Some(t.second) else None
  }

  /** The control values of the turns that do any work. */
  function Controls(turns: seq<Turn>): seq<nat> {
    if turns == [] then []
    else
      var before := Controls(turns[..|turns| - 1]);
      if turns[|turns| - 1].deadlock then before else before + [turns[|turns| - 1].control]
  }

  /** The pointer flips of the turns that do any work. */
  function Flips(turns: seq<Turn>): seq<Option<nat>> {
    if turns == [] then []
    else
      var before := Flips(turns[..|turns| - 1]);
      if turns[|turns| - 1].deadlock then before else before + [PointerFlip(turns[|turns| - 1])]
  }

  datatype View = View(twin: Thermal.Twin, pointer: DmaGuard.Device, waiting: seq<Descriptor>, counter: nat)

  /** This turn accepts an address that is not the shuttle's. */
  predicate Astray(v: View, t: Turn, shuttle: nat) {
    !t.deadlock && DmaGuard.Drains(v.pointer, []) && v.pointer.dataPtr != shuttle
  }

  /** One turn that is not astray. */
  function Turned(v: View, t: Turn): View {
    if t.deadlock then v
    else
      var drains := DmaGuard.Drains(v.pointer, []);
      View(Thermal.Step(v.twin, t.control), DmaGuard.Iteration(v.pointer, PointerFlip(t)),
           if drains then [] else v.waiting, if drains then Raised(v.counter, |v.waiting|) else v.counter)
  }

  /** Where a device that started as `before` is after turns none of which was astray. */
  ghost predicate Reached(before: View, turns: seq<Turn>, now: View, shuttle: nat) {
    && now.twin == Thermal.RunFrom(before.twin, Controls(turns))
    && now.pointer == DmaGuard.After(before.pointer, Flips(turns))
    && (if DmaGuard.DrainsWithin(before.pointer, Flips(turns))
        then now.waiting == [] && now.counter == Raised(before.counter, |before.waiting|)
        else now.waiting == before.waiting && now.counter == before.counter)
    && !DmaGuard.Strays(before.pointer, Flips(turns), shuttle)
  }

  lemma ReachedNone(before: View, turns: seq<Turn>, shuttle: nat)
    ensures Reached(before, turns[..0], before, shuttle)
  {
  }

  lemma ReachedNext(before: View, turns: seq<Turn>, i: nat, now: View, shuttle: nat)
    requires i < |turns| && Reached(before, turns[..i], now, shuttle)
    ensures Astray(now, turns[i], shuttle) ==> DmaGuard.Strays(before.pointer, Flips(turns), shuttle)
    ensures !Astray(now, turns[i], shuttle) ==> Reached(before, turns[..i + 1], Turned(now, turns[i]), shuttle)
  {
    hide Raised, Thermal.Step, Thermal.RunFrom, DmaGuard.After, DmaGuard.Iteration, DmaGuard.Drains,
         Controls, Flips, DmaGuard.Strays, DmaGuard.DrainsWithin;
    TurnsSnoc(turns, i);
    DmaGuard.GuardSnoc(before.pointer, Flips(turns[..i]), PointerFlip(turns[i]), shuttle);
    Thermal.RunFromSnoc(before.twin, Controls(turns[..i]), turns[i].control);
    FlipsGrow(turns, i + 1);
    DmaGuard.StrayStays(before.pointer, Flips(turns[..i + 1]), Flips(turns), shuttle);
    RaisedRaised(before.counter, |before.waiting|, 0);
  }

  lemma {:induction false} FlipsInRange(turns: seq<Turn>)
    requires forall i :: 0 <= i < |turns| ==> TurnOk(turns[i])
    ensures DmaGuard.FlipsOk(Flips(turns))
  {
    if turns != [] { FlipsInRange(turns[..|turns| - 1]); }
  }

  lemma TurnsSnoc(turns: seq<Turn>, i: nat)
    requires i < |turns|
    ensures Controls(turns[..i + 1]) ==
            if turns[i].deadlock then Controls(turns[..i]) else Controls(turns[..i]) + [turns[i].control]
    ensures Flips(turns[..i + 1]) ==
            if turns[i].deadlock then Flips(turns[..i]) else Flips(turns[..i]) + [PointerFlip(turns[i])]
  {
    assert turns[..i + 1][..i] == turns[..i];
  }

  /** The flips of a prefix of the turns are a prefix of the flips. */
  lemma {:induction false} FlipsGrow(turns: seq<Turn>, i: nat)
    requires i <= |turns|
    ensures Flips(turns[..i]) <= Flips(turns)
    decreases |turns| - i
  {
    if i == |turns| {
      assert turns[..i] == turns;
    } else {
      TurnsSnoc(turns, i);
      FlipsGrow(turns, i + 1);
    }
  }
}
