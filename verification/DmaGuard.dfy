/**
 The device's pointer latch against chaos bit flips: which address `process_dma`
 accepts to drain, over every run of physics iterations, host writes to `data_ptr`
 and injected flips of its low 32 bits.
 */
module DmaGuard {
  import opened Bits
  import opened Wrappers

  const ALIGN_MASK: nat := 0x3F
  const FLIP_BITS: nat := 32

  function Flip(ptr: nat, bit: nat): nat { Xor(ptr, Pow2(bit)) }

  /** A nonzero, 64-byte-aligned address. */
  predicate Valid(ptr: nat) { ptr != 0 && And(ptr, ALIGN_MASK) == 0 }

  lemma ValidMeansAligned(ptr: nat)
    ensures Valid(ptr) <==> ptr != 0 && ptr % 64 == 0
  {
    hide And, Pow2;
    Pow2Values();
    var k: nat := 6;
    AndMaskIsMod(ptr, k);
  }

  /** The guard of `process_dma`. */
  predicate Passes(ptr: nat, latch: nat) {
    Valid(ptr) && (latch == 0 || ptr == latch)
  }

  function NextLatch(ptr: nat, latch: nat): nat {
    if Passes(ptr, latch) && latch == 0 then ptr else latch
  }

  // ---------------------------------------------------------------- register-level runs

  /** Where the physics thread is: before the guard, after it, or inside the
      read-modify-write of a flip. */
  datatype Phase = AtGuard | AtChaos | Flipping(loaded: nat, bit: nat)

  datatype State = State(
    dataPtr: nat,
    latch: nat,
    phase: Phase,
    loads: seq<nat>,      // history: every address the guard loaded
    drained: seq<nat>)    // history: every address it went on to drain

  datatype Event =
    | Guard
    | NoFlip
    | FlipLoad(bit: nat)
    | FlipStore
    | HostWrite(value: nat)

  function PowerOn(dataPtr: nat): State { State(dataPtr, 0, AtGuard, [], []) }

  predicate Enabled(s: State, e: Event) {
    match e
    case Guard => s.phase.AtGuard?
    case NoFlip => s.phase.AtChaos?
    case FlipLoad(bit) => s.phase.AtChaos? && bit < FLIP_BITS
    case FlipStore => s.phase.Flipping?
    case HostWrite(_) => true
  }

  function Do(s: State, e: Event): State
    requires Enabled(s, e)
  {
    match e
    case Guard =>
      s.(phase := AtChaos,
         loads := s.loads + [s.dataPtr],
         latch := NextLatch(s.dataPtr, s.latch),
         drained := if Passes(s.dataPtr, s.latch) then s.drained + [s.dataPtr] else s.drained)
    case NoFlip => s.(phase := AtGuard)
    case FlipLoad(bit) => s.(phase := Flipping(s.dataPtr, bit))
    case FlipStore => s.(phase := AtGuard, dataPtr := Flip(s.phase.loaded, s.phase.bit))
    case HostWrite(v) => s.(dataPtr := v)
  }

  function Run(start: State, events: seq<Event>): Option<State> {
    if events == [] then Some(start) else
      match Run(start, events[..|events| - 1])
      case None => None
      case Some(s) => if Enabled(s, events[|events| - 1]) then Some(Do(s, events[|events| - 1])) else None
  }

  /** The first valid address among those the guard loaded; 0 when there is none. */
  function FirstValid(loads: seq<nat>): nat {
    if loads == [] then 0
    else
      var before := FirstValid(loads[..|loads| - 1]);
      var last := loads[|loads| - 1];
      if before == 0 && Valid(last) then last else before
  }

  function Occurrences(loads: seq<nat>, a: nat): (r: seq<nat>)
    ensures forall i :: 0 <= i < |r| ==> r[i] == a
  {
    if loads == [] then []
    else Occurrences(loads[..|loads| - 1], a) + (if loads[|loads| - 1] == a then [a] else [])
  }

  lemma {:induction false} NoOccurrences(loads: seq<nat>, a: nat)
    requires FirstValid(loads) == 0 && Valid(a)
    ensures Occurrences(loads, a) == []
  {
    if loads != [] {
      NoOccurrences(loads[..|loads| - 1], a);
    }
  }

  lemma LoadsSnoc(loads: seq<nat>, ptr: nat, a: nat)
    ensures FirstValid(loads + [ptr]) ==
            if FirstValid(loads) == 0 && Valid(ptr) then ptr else FirstValid(loads)
    ensures Occurrences(loads + [ptr], a) ==
            if ptr == a then Occurrences(loads, a) + [ptr] else Occurrences(loads, a)
  {
    hide And;
    assert (loads + [ptr])[..|loads + [ptr]| - 1] == loads;
    assert Occurrences(loads, a) + [] == Occurrences(loads, a);
  }

  ghost predicate Latched(s: State) {
    && s.latch == FirstValid(s.loads)
    && (s.latch == 0 ==> s.drained == [])
    && (s.latch != 0 ==> Valid(s.latch) && s.drained == Occurrences(s.loads, s.latch))
  }

  lemma GuardKeepsLatched(s: State)
    requires Latched(s) && s.phase.AtGuard?
    ensures Latched(Do(s, Guard))
  {
    hide And, FirstValid, Occurrences;
    var s' := Do(s, Guard);
    LoadsSnoc(s.loads, s.dataPtr, s'.latch);
    if s.latch == 0 && Valid(s.dataPtr) {
      NoOccurrences(s.loads, s.dataPtr);
    }
  }

  /** What `data_ptr` holds, from the events alone: the last value written, and a flip
      writes what it loaded with one bit changed. */
  function Register(dataPtr: nat, events: seq<Event>): nat {
    if events == [] then dataPtr else
      var before := events[..|events| - 1];
      match events[|events| - 1]
      case HostWrite(v) => v
      case FlipStore => Flip(LastFlip(dataPtr, before).0, LastFlip(dataPtr, before).1)
      case _ => Register(dataPtr, before)
  }

  /** What the latest flip loaded, and which bit it flips. */
  function LastFlip(dataPtr: nat, events: seq<Event>): (nat, nat) {
    if events == [] then (0, 0) else
      var before := events[..|events| - 1];
      if events[|events| - 1].FlipLoad? then (Register(dataPtr, before), events[|events| - 1].bit)
      else LastFlip(dataPtr, before)
  }

  /** What the guards of a run load. */
  function Loads(dataPtr: nat, events: seq<Event>): seq<nat> {
    if events == [] then [] else
      var before := events[..|events| - 1];
      if events[|events| - 1].Guard? then Loads(dataPtr, before) + [Register(dataPtr, before)]
      else Loads(dataPtr, before)
  }

  lemma {:induction false} LoadsAreTheRun(dataPtr: nat, events: seq<Event>)
    requires Run(PowerOn(dataPtr), events).Some?
    ensures var s := Run(PowerOn(dataPtr), events).value;
      && s.dataPtr == Register(dataPtr, events)
      && s.loads == Loads(dataPtr, events)
      && (s.phase.Flipping? ==> (s.phase.loaded, s.phase.bit) == LastFlip(dataPtr, events))
  {
    hide And, Flip;
    if events != [] {
      LoadsAreTheRun(dataPtr, events[..|events| - 1]);
    }
  }

  lemma {:induction false} FirstValidIsFirst(loads: seq<nat>)
    ensures FirstValid(loads) == 0 <==> forall k :: 0 <= k < |loads| ==> !Valid(loads[k])
    ensures FirstValid(loads) != 0 ==>
              exists k :: 0 <= k < |loads| && loads[k] == FirstValid(loads) && Valid(loads[k])
                          && forall j :: 0 <= j < k ==> !Valid(loads[j])
  {
    hide And;
    if loads != [] {
      var before := loads[..|loads| - 1];
      FirstValidIsFirst(before);
      if FirstValid(before) != 0 {
        var k :| 0 <= k < |before| && before[k] == FirstValid(before) && Valid(before[k])
                 && forall j :: 0 <= j < k ==> !Valid(before[j]);
        assert loads[k] == before[k];
        forall j | 0 <= j < k ensures !Valid(loads[j]) {
          assert loads[j] == before[j];
        }
      } else {
        forall j | 0 <= j < |before| ensures !Valid(loads[j]) {
          assert loads[j] == before[j];
        }
      }
    }
  }

  lemma {:induction false} LatchedAlways(dataPtr: nat, events: seq<Event>)
    requires Run(PowerOn(dataPtr), events).Some?
    ensures Latched(Run(PowerOn(dataPtr), events).value)
  {
    hide And, Flip;
    if events != [] {
      var before := events[..|events| - 1];
      LatchedAlways(dataPtr, before);
      if events[|events| - 1].Guard? {
        GuardKeepsLatched(Run(PowerOn(dataPtr), before).value);
      }
    }
  }

  /**
   Over any run, with host writes and torn flips anywhere: the device drains one
   address ever, the first valid one its guards load, and exactly each time they load it.
   */
  lemma OneAddressEver(dataPtr: nat, events: seq<Event>)
    requires Run(PowerOn(dataPtr), events).Some?
    ensures var s := Run(PowerOn(dataPtr), events).value;
      && s.latch == FirstValid(Loads(dataPtr, events))
      && (s.latch == 0 ==> s.drained == [])
      && (s.latch != 0 ==> Valid(s.latch) && s.drained == Occurrences(Loads(dataPtr, events), s.latch))
  {
    hide And, Run, Loads, Register, FirstValid, Occurrences;
    LatchedAlways(dataPtr, events);
    LoadsAreTheRun(dataPtr, events);
  }

  /** In every state the physics thread can go on, with any bit to flip, and the host can write anything. */
  lemma NeverBlocked(s: State)
    ensures match s.phase
      case AtGuard => Enabled(s, Guard)
      case AtChaos => Enabled(s, NoFlip) && forall bit :: 0 <= bit < 32 ==> Enabled(s, FlipLoad(bit))
      case Flipping(_, _) => Enabled(s, FlipStore)
    ensures forall v :: Enabled(s, HostWrite(v))
  {
  }

  // ---------------------------------------------------------------- whole iterations

  /** The device between iterations. */
  datatype Device = Device(dataPtr: nat, latch: nat)

  /** One iteration of the physics loop: guard, then at most one pointer flip. */
  function Iteration(d: Device, flip: Option<nat>): Device {
    Device(if flip.Some? then Flip(d.dataPtr, flip.value) else d.dataPtr, NextLatch(d.dataPtr, d.latch))
  }

  function After(d: Device, flips: seq<Option<nat>>): Device {
    if flips == [] then d else Iteration(After(d, flips[..|flips| - 1]), flips[|flips| - 1])
  }

  predicate FlipsBelow(flips: seq<Option<nat>>, m: nat) {
    forall k :: 0 <= k < |flips| && flips[k].Some? ==> flips[k].value < m
  }

  predicate FlipsOk(flips: seq<Option<nat>>) { FlipsBelow(flips, FLIP_BITS) }

  /** Does iteration |flips| + 1 drain a ring? */
  predicate Drains(d: Device, flips: seq<Option<nat>>) {
    Passes(After(d, flips).dataPtr, After(d, flips).latch)
  }

  predicate FlippedOddly(flips: seq<Option<nat>>, bit: nat) {
    flips != [] && (FlippedOddly(flips[..|flips| - 1], bit) != (flips[|flips| - 1] == Some(bit)))
  }

  predicate Restored(flips: seq<Option<nat>>) {
    forall i: nat :: i < FLIP_BITS ==> !FlippedOddly(flips, i)
  }

  lemma FlipBits(ptr: nat, bit: nat, i: nat)
    ensures Bit(Flip(ptr, bit), i) == (Bit(ptr, i) != (i == bit))
  {
    XorBit(ptr, Pow2(bit), i);
    Pow2Bit(bit, i);
  }

  lemma FlipKeepsAbove(ptr: nat, bit: nat, m: nat)
    requires bit < m
    ensures Shr(Flip(ptr, bit), m) == Shr(ptr, m)
  {
    XorShift(ptr, Pow2(bit), m);
    ShrPow2(bit, m);
    XorZero(Shr(ptr, m));
  }

  lemma {:induction false} ShrPow2(bit: nat, k: nat)
    requires bit < k
    ensures Shr(Pow2(bit), k) == 0
    decreases bit
  {
    if bit == 0 {
      ShrZero(k - 1);
    } else {
      ShrPow2(bit - 1, k - 1);
    }
  }

  lemma {:induction false} ShrZero(k: nat)
    ensures Shr(0, k) == 0
    decreases k
  {
    if k > 0 { ShrZero(k - 1); }
  }

  /** After any flips each bit is the old one, changed when flipped oddly; what is above them never moves. */
  lemma {:induction false} AfterBits(d: Device, flips: seq<Option<nat>>, m: nat, i: nat)
    requires FlipsBelow(flips, m)
    ensures Bit(After(d, flips).dataPtr, i) == (Bit(d.dataPtr, i) != FlippedOddly(flips, i))
    ensures Shr(After(d, flips).dataPtr, m) == Shr(d.dataPtr, m)
  {
    hide Bit, Shr, Flip, NextLatch;
    if flips != [] {
      var n := |flips| - 1;
      AfterBits(d, flips[..n], m, i);
      if flips[n].Some? {
        FlipBits(After(d, flips[..n]).dataPtr, flips[n].value, i);
        FlipKeepsAbove(After(d, flips[..n]).dataPtr, flips[n].value, m);
      }
    }
  }

  lemma {:induction false} LatchHolds(d: Device, flips: seq<Option<nat>>)
    requires d.latch != 0
    ensures After(d, flips).latch == d.latch
  {
    if flips != [] { LatchHolds(d, flips[..|flips| - 1]); }
  }

  /** Latched at A with `data_ptr` last written A: an iteration drains exactly when
      every low bit has been flipped an even number of times. */
  lemma DrainsExactlyWhenRestored(a: nat, flips: seq<Option<nat>>)
    requires Valid(a) && FlipsOk(flips)
    ensures Drains(Device(a, a), flips) <==> Restored(flips)
  {
    hide And, Shr;
    var p := After(Device(a, a), flips).dataPtr;
    LatchHolds(Device(a, a), flips);
    forall i: nat ensures Bit(p, i) == (Bit(a, i) != FlippedOddly(flips, i)) {
      AfterBits(Device(a, a), flips, FLIP_BITS, i);
    }
    AfterBits(Device(a, a), flips, FLIP_BITS, 0);
    if Restored(flips) {
      LowBitsDetermine(p, a, FLIP_BITS);
    } else {
      var i: nat :| i < FLIP_BITS && FlippedOddly(flips, i);
      assert Bit(p, i) != Bit(a, i);
      assert p != a;
    }
  }

  // ---------------------------------------------------------------- reachability and teardown

  /** The flips that turn the k low bits of p into those of q. */
  function FlipsBetween(p: nat, q: nat, k: nat): (flips: seq<Option<nat>>)
    ensures FlipsBelow(flips, k)
  {
    if k == 0 then []
    else
      var before := FlipsBetween(p, q, k - 1);
      if Bit(p, k - 1) != Bit(q, k - 1) then before + [Some(k - 1)] else before
  }

  lemma OddlySnoc(flips: seq<Option<nat>>, bit: nat, i: nat)
    ensures FlippedOddly(flips + [Some(bit)], i) <==> FlippedOddly(flips, i) != (bit == i)
  {
    assert (flips + [Some(bit)])[..|flips|] == flips;
  }

  lemma FlipsBetweenStep(p: nat, q: nat, k: nat, i: nat)
    ensures k == 0 ==> !FlippedOddly(FlipsBetween(p, q, k), i)
    ensures k > 0 ==>
              var before := FlipsBetween(p, q, k - 1);
              FlipsBetween(p, q, k) == if Bit(p, k - 1) != Bit(q, k - 1) then before + [Some(k - 1)] else before
  {
    hide Bit;
  }

  lemma {:induction false} FlipsBetweenOddly(p: nat, q: nat, k: nat, i: nat)
    ensures FlippedOddly(FlipsBetween(p, q, k), i) <==> i < k && Bit(p, i) != Bit(q, i)
    decreases k
  {
    hide Bit, FlippedOddly, FlipsBetween;
    FlipsBetweenStep(p, q, k, i);
    if k > 0 {
      FlipsBetweenOddly(p, q, k - 1, i);
      OddlySnoc(FlipsBetween(p, q, k - 1), k - 1, i);
    }
  }

  /** Flips of the k low bits reach every address that agrees above them. */
  lemma FlipsReach(d: Device, q: nat, k: nat)
    requires Shr(d.dataPtr, k) == Shr(q, k)
    ensures After(d, FlipsBetween(d.dataPtr, q, k)).dataPtr == q
  {
    hide Bit, Shr, After, FlippedOddly, FlipsBetween;
    var flips := FlipsBetween(d.dataPtr, q, k);
    forall i: nat ensures i < k ==> Bit(After(d, flips).dataPtr, i) == Bit(q, i) {
      AfterBits(d, flips, k, i);
      FlipsBetweenOddly(d.dataPtr, q, k, i);
    }
    AfterBits(d, flips, k, 0);
    LowBitsDetermine(After(d, flips).dataPtr, q, k);
  }

  /** Some future iteration, on device activity alone, drains a ring. */
  ghost predicate CanDrain(d: Device) {
    exists flips :: FlipsOk(flips) && Drains(d, flips)
  }

  /** A latch that has been set was set by an iteration that drained. */
  lemma {:induction false} LatchedMeansDrained(d: Device, flips: seq<Option<nat>>)
    requires d.latch == 0 && FlipsOk(flips) && After(d, flips).latch != 0
    ensures CanDrain(d)
  {
    hide And, Flip;
    var before := flips[..|flips| - 1];
    if After(d, before).latch != 0 {
      LatchedMeansDrained(d, before);
    } else {
      assert Drains(d, before);
    }
  }

  /** Keeping the high half and clearing the rest, but never 0. */
  function AlignedNear(p: nat): nat {
    var base := Pow2(FLIP_BITS) * Shr(p, FLIP_BITS);
    if base == 0 then 64 else base
  }

  lemma AlignedNearValid(p: nat)
    ensures Valid(AlignedNear(p)) && Shr(AlignedNear(p), FLIP_BITS) == Shr(p, FLIP_BITS)
  {
    hide And, Shr, Pow2;
    Pow2Values();
    var k: nat := 6;
    var q, m := AlignedNear(p), Shr(p, FLIP_BITS);
    AndMaskIsMod(q, k);
    ShrIsDiv(q, FLIP_BITS);
    if m == 0 {
      assert q == 64;
    } else {
      assert q == TWO_32 * m;
      assert TWO_32 == 0x400_0000 * 64;
      DivModUnique(q, 64, 0x400_0000 * m, 0);
      DivModUnique(q, TWO_32, m, 0);
    }
  }

  /** Exactly which states can ever drain again: no latch yet, or the high halves agree. */
  lemma CanDrainExactly(d: Device)
    requires d.latch == 0 || Valid(d.latch)
    ensures CanDrain(d) <==> d.latch == 0 || Shr(d.dataPtr, FLIP_BITS) == Shr(d.latch, FLIP_BITS)
  {
    hide And, Shr, Bit, After, FlipsBetween, AlignedNear;
    if CanDrain(d) && d.latch != 0 {
      var flips :| FlipsOk(flips) && Drains(d, flips);
      LatchHolds(d, flips);
      AfterBits(d, flips, FLIP_BITS, 0);
    }
    if d.latch == 0 {
      var q := AlignedNear(d.dataPtr);
      AlignedNearValid(d.dataPtr);
      FlipsReach(d, q, FLIP_BITS);
      var flips := FlipsBetween(d.dataPtr, q, FLIP_BITS);
      if After(d, flips).latch != 0 {
        LatchedMeansDrained(d, flips);
      } else {
        assert Drains(d, flips);
      }
    } else if Shr(d.dataPtr, FLIP_BITS) == Shr(d.latch, FLIP_BITS) {
      FlipsReach(d, d.latch, FLIP_BITS);
      var flips := FlipsBetween(d.dataPtr, d.latch, FLIP_BITS);
      LatchHolds(d, flips);
      assert Drains(d, flips);
    }
  }

  // ---------------------------------------------------------------- straying from the shuttle

  /** Some iteration drains. */
  ghost predicate DrainsWithin(d: Device, flips: seq<Option<nat>>) {
    exists k :: 0 <= k < |flips| && Drains(d, flips[..k])
  }

  /** Some iteration drains an address other than the shuttle's. */
  ghost predicate Strays(d: Device, flips: seq<Option<nat>>, shuttle: nat) {
    exists k :: 0 <= k < |flips| && Drains(d, flips[..k]) && After(d, flips[..k]).dataPtr != shuttle
  }

  lemma GuardSnoc(d: Device, flips: seq<Option<nat>>, f: Option<nat>, shuttle: nat)
    ensures Drains(After(d, flips), []) == Drains(d, flips)
    ensures After(d, flips + [f]) == Iteration(After(d, flips), f)
    ensures DrainsWithin(d, flips + [f]) <==> DrainsWithin(d, flips) || Drains(d, flips)
    ensures Strays(d, flips + [f], shuttle) <==>
            Strays(d, flips, shuttle) || (Drains(d, flips) && After(d, flips).dataPtr != shuttle)
  {
    hide Passes, Iteration;
    assert (flips + [f])[..|flips|] == flips;
    forall k | 0 <= k <= |flips| ensures (flips + [f])[..k] == flips[..k] {
    }
    hide After, Drains;
  }

  lemma StrayStays(d: Device, flips: seq<Option<nat>>, more: seq<Option<nat>>, shuttle: nat)
    requires flips <= more
    ensures Strays(d, flips, shuttle) ==> Strays(d, more, shuttle)
  {
    hide After, Drains;
    forall k | 0 <= k < |flips| ensures flips[..k] == more[..k] {
    }
  }

  lemma {:induction false} AfterCons(d: Device, f: Option<nat>, flips: seq<Option<nat>>)
    ensures After(d, [f] + flips) == After(Iteration(d, f), flips)
  {
    hide Iteration;
    if flips == [] {
      assert [f] + flips == [f];
      assert After(d, []) == d;
    } else {
      var n := |flips| - 1;
      AfterCons(d, f, flips[..n]);
      assert ([f] + flips)[..n + 1] == [f] + flips[..n];
    }
  }

  lemma StrayCons(d: Device, f: Option<nat>, flips: seq<Option<nat>>, shuttle: nat)
    requires Strays(Iteration(d, f), flips, shuttle)
    ensures Strays(d, [f] + flips, shuttle)
  {
    hide After, Passes, Iteration;
    var d' := Iteration(d, f);
    var k :| 0 <= k < |flips| && Drains(d', flips[..k]) && After(d', flips[..k]).dataPtr != shuttle;
    AfterCons(d, f, flips[..k]);
    assert ([f] + flips)[..k + 1] == [f] + flips[..k];
  }

  /** No valid address but q on the way. */
  ghost predicate OnlyPast(d: Device, flips: seq<Option<nat>>, q: nat) {
    forall k :: 0 <= k <= |flips| && Valid(After(d, flips[..k]).dataPtr) ==> After(d, flips[..k]).dataPtr == q
  }

  lemma OnlyPastPrefix(d: Device, flips: seq<Option<nat>>, q: nat)
    requires OnlyPast(d, flips, q)
    ensures Valid(After(d, flips).dataPtr) ==> After(d, flips).dataPtr == q
    ensures flips != [] ==> OnlyPast(d, flips[..|flips| - 1], q)
  {
    hide Valid, After;
    assert flips[..|flips|] == flips;
    if flips != [] {
      var before := flips[..|flips| - 1];
      forall k | 0 <= k <= |before| ensures before[..k] == flips[..k] {
      }
    }
  }

  /** A path that meets no valid address but q, and then latches or ends on it, drains q. */
  lemma {:induction false} DrainsOnPath(d: Device, flips: seq<Option<nat>>, q: nat, shuttle: nat)
    requires d.latch == 0 && q != shuttle && OnlyPast(d, flips, q)
    requires Valid(After(d, flips).dataPtr) || After(d, flips).latch != 0
    ensures Strays(d, flips + [None], shuttle)
  {
    assert flips == [] ==> After(d, flips) == d;
    hide And, Flip, After, Strays, OnlyPast;
    OnlyPastPrefix(d, flips, q);
    GuardSnoc(d, flips, None, shuttle);
    if After(d, flips).latch != 0 {
      var n := |flips| - 1;
      var before := flips[..n];
      assert flips == before + [flips[n]];
      GuardSnoc(d, before, flips[n], shuttle);
      GuardSnoc(d, before, None, shuttle);
      DrainsOnPath(d, before, q, shuttle);
    }
  }

  /** The aligned address of p's 64-byte line. */
  function Line(p: nat): nat { 64 * Shr(p, 6) }

  lemma LineFacts(p: nat, q: nat)
    ensures Shr(Line(p), 6) == Shr(p, 6)
    ensures Line(p) != 0 ==> Valid(Line(p))
    ensures Valid(q) && Shr(q, 6) == Shr(p, 6) ==> q == Line(p)
    ensures Valid(p) ==> p == Line(p)
  {
    hide And, Shr, Pow2;
    Pow2Values();
    ShrIsDiv(Line(p), 6);
    ShrIsDiv(q, 6);
    ShrIsDiv(p, 6);
    ValidMeansAligned(Line(p));
    ValidMeansAligned(q);
    ValidMeansAligned(p);
  }

  /** Clearing the low bits of a pointer strays to its line, or next to line 0. */
  lemma StrayNear(d: Device, shuttle: nat) returns (flips: seq<Option<nat>>)
    requires d.latch == 0 && (Line(d.dataPtr) == 0 || Line(d.dataPtr) != shuttle)
    ensures FlipsOk(flips) && Strays(d, flips, shuttle)
  {
    hide And, Shr, Pow2, Bit, After, FlipsBetween, Strays, Line, Flip;
    var line := Line(d.dataPtr);
    var low := FlipsBetween(d.dataPtr, line, 6);
    LineFacts(d.dataPtr, 0);
    FlipsReach(d, line, 6);
    forall k | 0 <= k <= |low| && Valid(After(d, low[..k]).dataPtr)
      ensures After(d, low[..k]).dataPtr == line
    {
      AfterBits(d, low[..k], 6, 0);
      LineFacts(d.dataPtr, After(d, low[..k]).dataPtr);
    }
    if line != 0 {
      DrainsOnPath(d, low, line, shuttle);
      return low + [None];
    }
    var bit := if shuttle == 64 then 7 else 6;
    flips := low + [Some(bit)];
    assert flips[..|low|] == low && flips[..|flips|] == flips;
    GuardSnoc(d, low, Some(bit), shuttle);
    var q := Flip(0, bit);
    FlipZero(bit);
    forall k | 0 <= k <= |low| ensures flips[..k] == low[..k] {
    }
    DrainsOnPath(d, flips, q, shuttle);
    return flips + [None];
  }

  lemma FlipZero(bit: nat)
    requires bit == 6 || bit == 7
    ensures Flip(0, bit) == (if bit == 6 then 64 else 128) && Valid(Flip(0, bit))
  {
    hide And, Xor;
    XorZero(Pow2(bit));
    ValidMeansAligned(Pow2(bit));
  }

  /** Nothing latched and no valid pointer yet: chaos can make the device latch a wrong address. */
  lemma StrayPath(d: Device, shuttle: nat) returns (flips: seq<Option<nat>>)
    requires d.latch == 0 && !(Valid(d.dataPtr) && d.dataPtr == shuttle)
    ensures FlipsOk(flips) && Strays(d, flips, shuttle)
  {
    hide And, Shr, Pow2, Strays, Flip, Line;
    LineFacts(d.dataPtr, 0);
    if Line(d.dataPtr) == 0 || Line(d.dataPtr) != shuttle {
      flips := StrayNear(d, shuttle);
    } else {
      var d' := Iteration(d, Some(6));
      OtherLine(d.dataPtr);
      var rest := StrayNear(d', shuttle);
      StrayCons(d, Some(6), rest, shuttle);
      flips := [Some(6)] + rest;
    }
  }

  lemma OtherLine(p: nat)
    ensures Line(Flip(p, 6)) != Line(p)
  {
    hide And, Xor;
    XorShift(p, Pow2(6), 6);
    FlipBits(p, 6, 6);
    BitOfShr(p, 6);
    BitOfShr(Flip(p, 6), 6);
  }

  lemma {:induction false} BitOfShr(x: nat, i: nat)
    ensures Bit(x, i) == Bit(Shr(x, i), 0)
    decreases i
  {
    if i > 0 { BitOfShr(x / 2, i - 1); }
  }

  lemma {:induction false} FirstLatch(d: Device, flips: seq<Option<nat>>)
    requires d.latch == 0 && Valid(d.dataPtr) && flips != []
    ensures After(d, flips).latch == d.dataPtr
  {
    hide And, Flip;
    if |flips| > 1 {
      FirstLatch(d, flips[..|flips| - 1]);
    } else {
      assert After(d, flips[..0]) == d;
    }
  }

  /** The shuttle is latched or about to be, or the latched address is out of the flips' reach. */
  predicate Secured(d: Device, shuttle: nat) {
    if d.latch == 0 then Valid(d.dataPtr) && d.dataPtr == shuttle
    else d.latch == shuttle || Shr(d.dataPtr, FLIP_BITS) != Shr(d.latch, FLIP_BITS)
  }

  /** The guard's promise, exactly: whatever bits are flipped the device stays off
      everything but the shuttle, if and only if it starts out secured. */
  lemma NeverStraysExactly(d: Device, shuttle: nat)
    requires d.latch == 0 || Valid(d.latch)
    ensures (forall flips :: FlipsOk(flips) ==> !Strays(d, flips, shuttle)) <==> Secured(d, shuttle)
  {
    hide And, Shr, Flip, After;
    if Secured(d, shuttle) {
      forall flips | FlipsOk(flips) ensures !Strays(d, flips, shuttle) {
        SecuredNeverStrays(d, flips, shuttle);
      }
    } else if d.latch == 0 {
      var flips := StrayPath(d, shuttle);
    } else {
      CanDrainExactly(d);
      var flips :| FlipsOk(flips) && Drains(d, flips);
      LatchHolds(d, flips);
      GuardSnoc(d, flips, None, shuttle);
      assert FlipsOk(flips + [None]);
    }
  }

  lemma SecuredNeverStrays(d: Device, flips: seq<Option<nat>>, shuttle: nat)
    requires FlipsOk(flips) && Secured(d, shuttle)
    ensures !Strays(d, flips, shuttle)
  {
    hide After, Drains, Secured;
    forall k | 0 <= k < |flips| && Drains(d, flips[..k])
      ensures After(d, flips[..k]).dataPtr == shuttle
    {
      NoStray(d, flips[..k], shuttle);
    }
  }

  lemma NoStray(d: Device, flips: seq<Option<nat>>, shuttle: nat)
    requires FlipsOk(flips) && Drains(d, flips) && Secured(d, shuttle)
    ensures After(d, flips).dataPtr == shuttle
  {
    hide And, Shr, Flip, Bit, FlippedOddly;
    if flips != [] {
      hide After;
      AfterBits(d, flips, FLIP_BITS, 0);
      if d.latch == 0 {
        FirstLatch(d, flips);
      } else {
        LatchHolds(d, flips);
      }
    }
  }

  // ---------------------------------------------------------------- the same, register by register

  /** The physics thread alone: no host write. */
  predicate HostSilent(events: seq<Event>) {
    forall k :: 0 <= k < |events| ==> !events[k].HostWrite?
  }

  /** Some continuation of the physics thread drains a ring. */
  ghost predicate DrainsLater(s: State) {
    exists events :: HostSilent(events) && Run(s, events).Some? && Run(s, events).value.drained != s.drained
  }

  /** The address the next guard will start from: a flip in progress overwrites the register. */
  function Pending(s: State): nat {
    if s.phase.Flipping? then s.phase.loaded else s.dataPtr
  }

  predicate PhaseOk(s: State) {
    s.phase.Flipping? ==> s.phase.bit < FLIP_BITS
  }

  /** A latch whose high half differs from the pending address's is out of reach for good. */
  lemma {:induction false} OutOfReach(s: State, events: seq<Event>)
    requires PhaseOk(s) && HostSilent(events) && Run(s, events).Some?
    requires s.latch != 0 && Shr(Pending(s), FLIP_BITS) != Shr(s.latch, FLIP_BITS)
    ensures var s' := Run(s, events).value;
      && s'.drained == s.drained && s'.latch == s.latch && PhaseOk(s')
      && Shr(Pending(s'), FLIP_BITS) == Shr(Pending(s), FLIP_BITS)
  {
    hide And, Shr, Flip;
    if events != [] {
      var before, last := events[..|events| - 1], events[|events| - 1];
      OutOfReach(s, before);
      var t := Run(s, before).value;
      if last.FlipStore? {
        FlipKeepsAbove(t.phase.loaded, t.phase.bit, FLIP_BITS);
      }
    }
  }

  lemma RunSnoc(start: State, events: seq<Event>, s: State, e: Event)
    requires Run(start, events) == Some(s) && Enabled(s, e) && HostSilent(events) && !e.HostWrite?
    ensures Run(start, events + [e]) == Some(Do(s, e)) && HostSilent(events + [e])
  {
    hide And, Flip;
    assert (events + [e])[..|events + [e]| - 1] == events;
  }

  lemma Extend(start: State, events: seq<Event>, s: State, e: Event) returns (events': seq<Event>, s': State)
    requires Run(start, events) == Some(s) && Enabled(s, e) && HostSilent(events) && !e.HostWrite?
    ensures Run(start, events') == Some(s') && s' == Do(s, e) && HostSilent(events')
  {
    events', s' := events + [e], Do(s, e);
    RunSnoc(start, events, s, e);
  }

  /** The thread finishes what it is doing and comes back to the guard. */
  lemma BackToGuard(s: State) returns (events: seq<Event>, s': State)
    requires PhaseOk(s)
    ensures Run(s, events) == Some(s') && HostSilent(events) && s'.phase.AtGuard?
    ensures s'.drained == s.drained && s'.latch == s.latch
    ensures Shr(s'.dataPtr, FLIP_BITS) == Shr(Pending(s), FLIP_BITS)
  {
    hide And, Shr, Flip;
    events, s' := [], s;
    if s.phase.AtChaos? {
      events, s' := Extend(s, events, s', NoFlip);
    } else if s.phase.Flipping? {
      events, s' := Extend(s, events, s', FlipStore);
      FlipKeepsAbove(s.phase.loaded, s.phase.bit, FLIP_BITS);
    }
  }

  /** Whole iterations are runs of register-level events; a drain on the way shows in the history. */
  lemma {:induction false} IterationsAreRuns(start: State, begun: seq<Event>, s: State, flips: seq<Option<nat>>)
      returns (events: seq<Event>, s': State)
    requires Run(start, begun) == Some(s) && HostSilent(begun) && s.phase.AtGuard? && FlipsOk(flips)
    ensures Run(start, events) == Some(s') && HostSilent(events) && s'.phase.AtGuard?
    ensures Device(s'.dataPtr, s'.latch) == After(Device(s.dataPtr, s.latch), flips)
    ensures |s'.drained| >= |s.drained|
    decreases |flips|
  {
    hide And, Flip, Run;
    events, s' := begun, s;
    if flips != [] {
      var n := |flips| - 1;
      events, s' := IterationsAreRuns(start, begun, s, flips[..n]);
      events, s' := Extend(start, events, s', Guard);
      if flips[n].Some? {
        events, s' := Extend(start, events, s', FlipLoad(flips[n].value));
        events, s' := Extend(start, events, s', FlipStore);
      } else {
        events, s' := Extend(start, events, s', NoFlip);
      }
    }
  }

  /** At any point of the physics loop, what it can still drain on its own. */
  lemma DrainsLaterExactly(s: State)
    requires PhaseOk(s) && (s.latch == 0 || Valid(s.latch))
    ensures DrainsLater(s) <==> s.latch == 0 || Shr(Pending(s), FLIP_BITS) == Shr(s.latch, FLIP_BITS)
  {
    hide And, Shr, Flip, Run, After;
    if s.latch == 0 || Shr(Pending(s), FLIP_BITS) == Shr(s.latch, FLIP_BITS) {
      var events, s' := BackToGuard(s);
      CanDrainExactly(Device(s'.dataPtr, s'.latch));
      var flips :| FlipsOk(flips) && Drains(Device(s'.dataPtr, s'.latch), flips);
      events, s' := IterationsAreRuns(s, events, s', flips);
      events, s' := Extend(s, events, s', Guard);
      assert |s'.drained| > |s.drained|;
    } else {
      forall events | HostSilent(events) && Run(s, events).Some?
        ensures Run(s, events).value.drained == s.drained
      {
        OutOfReach(s, events);
      }
    }
  }

  /**
   The destructor's `data_ptr.write(0)`, at any point of the physics loop and at
   register level.  It keeps the thread off the ring for good exactly when an
   address of 4 GiB or more is latched, unless it lands inside a flip: then it is
   overwritten, and the address being flipped decides.
   */
  lemma TeardownExactly(s: State)
    requires PhaseOk(s) && (s.latch == 0 || Valid(s.latch))
    ensures !s.phase.Flipping? ==> (DrainsLater(Do(s, HostWrite(0))) <==> s.latch < TWO_32)
    ensures s.phase.Flipping? ==>
              (DrainsLater(Do(s, HostWrite(0)))
               <==> s.latch == 0 || Shr(s.phase.loaded, FLIP_BITS) == Shr(s.latch, FLIP_BITS))
  {
    hide And, Shr, DrainsLater, Pow2;
    DrainsLaterExactly(Do(s, HostWrite(0)));
    ShrIsDiv(s.latch, FLIP_BITS);
    ShrZero(FLIP_BITS);
    Pow2Values();
    HighHalfZero(s.latch);
  }

  lemma HighHalfZero(a: nat)
    ensures a / TWO_32 == 0 <==> a < TWO_32
  {
  }

  /** Inside a flip the write can indeed be undone: two events after power-on the
      latched address survives the teardown. */
  lemma TeardownCanBeLost(a: nat, bit: nat) returns (events: seq<Event>)
    requires Valid(a) && bit < FLIP_BITS
    ensures Run(PowerOn(a), events).Some?
    ensures var s := Run(PowerOn(a), events).value;
      s.latch == a && DrainsLater(Do(s, HostWrite(0)))
  {
    hide And, Shr, DrainsLater, Run;
    var s;
    events, s := Nothing(PowerOn(a));
    events, s := Extend(PowerOn(a), events, s, Guard);
    events, s := Extend(PowerOn(a), events, s, FlipLoad(bit));
    TeardownExactly(s);
  }

  lemma Nothing(s: State) returns (events: seq<Event>, s': State)
    ensures Run(s, events) == Some(s') && HostSilent(events) && s' == s
  {
    events, s' := [], s;
  }

  // ---------------------------------------------------------------- straying, register by register

  /** Some continuation of the physics thread drains an address other than the shuttle's. */
  ghost predicate StraysLater(s: State, shuttle: nat) {
    exists events :: HostSilent(events) && Run(s, events).Some?
      && Elsewhere(s.drained, Run(s, events).value.drained, shuttle)
  }

  /** Something other than the shuttle was added. */
  ghost predicate Elsewhere(before: seq<nat>, after: seq<nat>, shuttle: nat) {
    exists k :: |before| <= k < |after| && after[k] != shuttle
  }

  /**
   Secured at any point of the physics loop.  Past the guard with nothing latched the
   thread may still flip whatever `data_ptr` holds; inside a flip it is the flipped
   address that counts.
   */
  predicate SecuredAt(s: State, shuttle: nat) {
    match s.phase
    case AtGuard => Secured(Device(s.dataPtr, s.latch), shuttle)
    case AtChaos => s.latch != 0 && Secured(Device(s.dataPtr, s.latch), shuttle)
    case Flipping(loaded, bit) => Secured(Device(Flip(loaded, bit), s.latch), shuttle)
  }

  lemma SecuredStep(s: State, e: Event, shuttle: nat)
    requires PhaseOk(s) && SecuredAt(s, shuttle) && Enabled(s, e) && !e.HostWrite?
    ensures PhaseOk(Do(s, e)) && SecuredAt(Do(s, e), shuttle)
    ensures Do(s, e).drained == s.drained || Do(s, e).drained == s.drained + [shuttle]
  {
    hide And, Shr, Flip;
    if e.FlipLoad? {
      FlipKeepsAbove(s.dataPtr, e.bit, FLIP_BITS);
    }
  }

  lemma {:induction false} SecuredRun(s: State, events: seq<Event>, shuttle: nat)
    requires PhaseOk(s) && SecuredAt(s, shuttle) && HostSilent(events) && Run(s, events).Some?
    ensures var s' := Run(s, events).value;
      && PhaseOk(s') && SecuredAt(s', shuttle)
      && !Elsewhere(s.drained, s'.drained, shuttle)
      && |s.drained| <= |s'.drained|
  {
    hide PhaseOk, SecuredAt, Do, Enabled;
    if events != [] {
      var before := events[..|events| - 1];
      SecuredRun(s, before, shuttle);
      SecuredStep(Run(s, before).value, events[|events| - 1], shuttle);
    }
  }

  /** Whole iterations that end on another address lead astray. */
  lemma StrayRun(start: State, begun: seq<Event>, s: State, flips: seq<Option<nat>>, shuttle: nat)
    requires Run(start, begun) == Some(s) && HostSilent(begun) && s.phase.AtGuard? && s.drained == start.drained
    requires FlipsOk(flips) && Drains(Device(s.dataPtr, s.latch), flips)
    requires After(Device(s.dataPtr, s.latch), flips).dataPtr != shuttle
    ensures StraysLater(start, shuttle)
  {
    hide And, Flip, Run, After;
    var events, s' := IterationsAreRuns(start, begun, s, flips);
    var n := |s'.drained|;
    events, s' := Extend(start, events, s', Guard);
    assert s'.drained[n] != shuttle;
  }

  /** Nothing latched: from an unsecured point the thread reaches the guard unsecured. */
  lemma UnsecuredGuard(s: State, shuttle: nat) returns (events: seq<Event>, s': State)
    requires PhaseOk(s) && s.latch == 0 && !SecuredAt(s, shuttle)
    ensures Run(s, events) == Some(s') && HostSilent(events) && s'.phase.AtGuard? && s'.latch == 0
    ensures s'.drained == s.drained && !SecuredAt(s', shuttle)
  {
    hide And, Shr, Flip, Run;
    events, s' := Nothing(s);
    match s.phase {
      case AtGuard =>
      case AtChaos =>
        if s.dataPtr != shuttle {
          events, s' := Extend(s, events, s', NoFlip);
        } else {
          OtherLine(s.dataPtr);
          events, s' := Extend(s, events, s', FlipLoad(6));
          events, s' := Extend(s, events, s', FlipStore);
        }
      case Flipping(_, _) =>
        events, s' := Extend(s, events, s', FlipStore);
    }
  }

  lemma UnsecuredStrays(s: State, shuttle: nat)
    requires PhaseOk(s) && (s.latch == 0 || Valid(s.latch)) && !SecuredAt(s, shuttle)
    ensures StraysLater(s, shuttle)
  {
    hide And, Shr, Flip, Run, After, StraysLater;
    if s.latch == 0 {
      var events, s' := UnsecuredGuard(s, shuttle);
      var d := Device(s'.dataPtr, s'.latch);
      var flips := StrayPath(d, shuttle);
      var k :| 0 <= k < |flips| && Drains(d, flips[..k]) && After(d, flips[..k]).dataPtr != shuttle;
      StrayRun(s, events, s', flips[..k], shuttle);
    } else {
      var events, s' := BackToGuard(s);
      var d := Device(s'.dataPtr, s'.latch);
      if s.phase.Flipping? {
        FlipKeepsAbove(s.phase.loaded, s.phase.bit, FLIP_BITS);
      }
      CanDrainExactly(d);
      var flips :| FlipsOk(flips) && Drains(d, flips);
      LatchHolds(d, flips);
      StrayRun(s, events, s', flips, shuttle);
    }
  }

  /** The guard's promise at any point of the loop: the physics thread alone stays off
      everything but the shuttle if and only if it is secured there. */
  lemma StraysLaterExactly(s: State, shuttle: nat)
    requires PhaseOk(s) && (s.latch == 0 || Valid(s.latch))
    ensures !StraysLater(s, shuttle) <==> SecuredAt(s, shuttle)
  {
    hide Run, SecuredAt, PhaseOk, Elsewhere, Valid;
    if SecuredAt(s, shuttle) {
      forall events | HostSilent(events) && Run(s, events).Some?
        ensures !Elsewhere(s.drained, Run(s, events).value.drained, shuttle)
      {
        SecuredRun(s, events, shuttle);
      }
    } else {
      UnsecuredStrays(s, shuttle);
    }
  }

  /**
   The constructor's write of the shuttle's address to a device that has latched
   nothing: safe exactly when it lands before the guard, or inside a flip whose
   result happens to be that address.
   */
  lemma HandshakeWriteExactly(s: State, shuttle: nat)
    requires PhaseOk(s) && s.latch == 0 && Valid(shuttle)
    ensures !StraysLater(Do(s, HostWrite(shuttle)), shuttle) <==>
            s.phase.AtGuard? || (s.phase.Flipping? && Flip(s.phase.loaded, s.phase.bit) == shuttle)
  {
    hide And, StraysLater, Flip;
    StraysLaterExactly(Do(s, HostWrite(shuttle)), shuttle);
  }

  /** A write between the guard and the flip does go wrong: the device latches and
      drains the flipped address, though `data_ptr` held the shuttle with nothing latched. */
  lemma LateWriteStrays(a: nat, bit: nat) returns (events: seq<Event>)
    requires Valid(a) && bit < FLIP_BITS && Valid(Flip(a, bit))
    ensures events == [Guard, HostWrite(a), FlipLoad(bit), FlipStore, Guard]
    ensures Run(PowerOn(0), events[..2]).Some? && Run(PowerOn(0), events).Some?
    ensures var s := Run(PowerOn(0), events[..2]).value; s.dataPtr == a && s.latch == 0
    ensures var s := Run(PowerOn(0), events).value; s.latch == Flip(a, bit) != a && s.drained == [Flip(a, bit)]
  {
    hide And, Flip;
    FlipBits(a, bit, bit);
    events := [Guard, HostWrite(a), FlipLoad(bit), FlipStore, Guard];
    var s := PowerOn(0);
    assert events[..1] == [Guard] && events[..1][..0] == [];
    assert Run(s, []) == Some(s);
    assert events[..2][..1] == events[..1] && events[..3][..2] == events[..2] && events[..4][..3] == events[..3];
    assert Run(s, events[..1]) == Some(Do(s, Guard));
    assert Run(s, events[..2]) == Some(Do(Do(s, Guard), HostWrite(a)));
    assert Run(s, events[..3]) == Some(Do(Do(Do(s, Guard), HostWrite(a)), FlipLoad(bit)));
  }
}
