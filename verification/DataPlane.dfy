/**
 The data plane around the ring.  One producer thread runs `Driver::transmit` and
 `bridge_to_shuttle`; the digital twin's `process_dma` is the only consumer.  Their
 counters are bumped by separate atomic actions, so the books are off by what is
 in flight: this module says by exactly how much, at every interleaved point.
 */
module DataPlane {
  import opened Bits
  import opened Wrappers
  import opened Fifo
  import RingIndex
  import Spsc

  /** The producer thread, outside `push`. */
  datatype App = Between | Pushing | AddPackets(len: nat) | AddBytes(len: nat) | AddDropped

  /** The device thread, outside `pop`. */
  datatype Device = Popping | LoadCounter | StoreCounter(loaded: nat)

  datatype Plane = Plane(
    ring: Spsc.State,
    app: App,
    device: Device,
    linked: bool,        // is a PorthStats block attached?
    packets: nat,
    bytes: nat,
    dropped: nat,
    counter: nat,
    offers: nat)         // history: descriptors and frames offered so far

  datatype Action =
    | Transmit(d: Descriptor)
    | BridgeNothing
    | BridgeInvalid
    | BridgeFrame(d: Descriptor)
    | Producer(step: Spsc.Step)
    | CountPacket
    | CountBytes
    | CountDrop
    | Consumer(step: Spsc.Step)
    | FetchCounter
    | WriteCounter

  predicate ProducerStep(step: Spsc.Step) {
    step.LoadTail? || step.TestFull? || step.WriteSlot? || step.StoreHead?
  }

  predicate ConsumerStep(step: Spsc.Step) {
    step.StartPop? || step.LoadHead? || step.TestEmpty? || step.ReadSlot? || step.StoreTail?
  }

  ghost predicate Enabled(p: Plane, a: Action) {
    match a
    case Transmit(d) => p.app.Between? && Spsc.Enabled(p.ring, Spsc.StartPush(d))
    case BridgeNothing => p.app.Between?
    case BridgeInvalid => p.app.Between?
    case BridgeFrame(d) => p.app.Between? && Spsc.Enabled(p.ring, Spsc.StartPush(d))
    case Producer(step) => p.app.Pushing? && ProducerStep(step) && Spsc.Enabled(p.ring, step)
    case CountPacket => p.app.AddPackets?
    case CountBytes => p.app.AddBytes?
    case CountDrop => p.app.AddDropped?
    case Consumer(step) => p.device.Popping? && ConsumerStep(step) && Spsc.Enabled(p.ring, step)
    case FetchCounter => p.device.LoadCounter?
    case WriteCounter => p.device.StoreCounter?
  }

  /** What the producer does once `push` has taken a step. */
  function AfterPush(ring: Spsc.State, linked: bool): App {
    if !ring.prod.PIdle? then Pushing
    else if !linked || ring.pushReturned == [] then Between
    else match ring.pushReturned[|ring.pushReturned| - 1]
         case Some(d) => AddPackets(d.len)
         case None => AddDropped
  }

  ghost function Do(p: Plane, a: Action): Plane
    requires Enabled(p, a)
  {
    match a
    case Transmit(d) =>
      p.(ring := Spsc.Do(RingIndex.SHUTTLE_SIZE, p.ring, Spsc.StartPush(d)), app := Pushing, offers := p.offers + 1)
    case BridgeNothing => p
    case BridgeInvalid =>
      p.(app := if p.linked then AddDropped else Between, offers := p.offers + 1)
    case BridgeFrame(d) =>
      p.(ring := Spsc.Do(RingIndex.SHUTTLE_SIZE, p.ring, Spsc.StartPush(d)), app := Pushing, offers := p.offers + 1)
    case Producer(step) =>
      var ring := Spsc.Do(RingIndex.SHUTTLE_SIZE, p.ring, step);
      p.(ring := ring, app := AfterPush(ring, p.linked))
    case CountPacket => p.(packets := Bump(p.packets), app := AddBytes(p.app.len))
    case CountBytes => p.(bytes := Raised(p.bytes, p.app.len), app := Between)
    case CountDrop => p.(dropped := Bump(p.dropped), app := Between)
    case Consumer(step) =>
      p.(ring := Spsc.Do(RingIndex.SHUTTLE_SIZE, p.ring, step),
         device := if step.StoreTail? then LoadCounter else Popping)
    case FetchCounter => p.(device := StoreCounter(p.counter))
    case WriteCounter => p.(counter := Bump(p.device.loaded), device := Popping)
  }

  /** Any counter values to begin with; the ring is new and nobody is busy. */
  predicate Starting(p: Plane) {
    p.ring == Spsc.Init() && p.app.Between? && p.device.Popping? && p.offers == 0 &&
    p.packets < TWO_64 && p.bytes < TWO_64 && p.dropped < TWO_64 && p.counter < TWO_64
  }

  ghost function Run(start: Plane, actions: seq<Action>): Option<Plane> {
    if actions == [] then Some(start) else
      match Run(start, actions[..|actions| - 1])
      case None => None
      case Some(p) =>
        var a := actions[|actions| - 1];
        if Enabled(p, a) then Some(Do(p, a)) else None
  }

  // ---------------------------------------------------------------- the books

  function TotalLen(ds: seq<Descriptor>): nat {
    if ds == [] then 0 else TotalLen(ds[..|ds| - 1]) + ds[|ds| - 1].len
  }

  lemma TotalLenSnoc(ds: seq<Descriptor>, d: Descriptor)
    ensures TotalLen(ds + [d]) == TotalLen(ds) + d.len
  {
    assert (ds + [d])[..|ds + [d]| - 1] == ds;
  }

  function Accepted(p: Plane): seq<Descriptor> { Pushed(p.ring.lin) }

  function Delivered(p: Plane): seq<Descriptor> { Popped(p.ring.lin) }

  /** Accepted but not yet counted. */
  function UncountedPackets(p: Plane): nat { if p.app.AddPackets? then 1 else 0 }

  function UncountedBytes(p: Plane): nat {
    match p.app case AddPackets(n) => n case AddBytes(n) => n case _ => 0
  }

  /** Offered, and not yet known to be accepted or counted as dropped. */
  function Undecided(p: Plane): nat { if p.app.Pushing? || p.app.AddDropped? then 1 else 0 }

  /** Delivered but not yet counted. */
  function UncountedWork(p: Plane): nat { if p.device.Popping? then 0 else 1 }

  ghost predicate Shape(p: Plane) {
    && Spsc.Inv(RingIndex.SHUTTLE_SIZE, p.ring)
    && (p.app.Pushing? <==> !p.ring.prod.PIdle?)
    && (!p.device.Popping? ==> p.ring.cons.CIdle?)
    && UncountedPackets(p) <= |Accepted(p)|
    && UncountedBytes(p) <= TotalLen(Accepted(p))
    && UncountedWork(p) <= |Delivered(p)|
    && (p.linked ==> |Accepted(p)| + Undecided(p) <= p.offers)
  }

  ghost predicate Books(start: Plane, p: Plane)
    requires Shape(p)
  {
    && p.linked == start.linked
    && (p.linked ==>
          && p.packets == Raised(start.packets, |Accepted(p)| - UncountedPackets(p))
          && p.bytes == Raised(start.bytes, TotalLen(Accepted(p)) - UncountedBytes(p))
          && p.dropped == Raised(start.dropped, p.offers - |Accepted(p)| - Undecided(p)))
    && (!p.linked ==>
          p.packets == start.packets && p.bytes == start.bytes && p.dropped == start.dropped &&
          (p.app.Between? || p.app.Pushing?))
    && p.counter == Raised(start.counter, |Delivered(p)| - UncountedWork(p))
    && (p.device.StoreCounter? ==> p.device.loaded == p.counter)
  }

  ghost predicate Inv(start: Plane, p: Plane) { Shape(p) && Books(start, p) }

  lemma StartingInv(start: Plane)
    requires Starting(start)
    ensures Inv(start, start)
  {
    hide And, Spsc.Inv, Raised;
    ShuttleSizeOk();
    Spsc.InitInv(RingIndex.SHUTTLE_SIZE);
    RaisedStep(start.packets, 0);
    RaisedStep(start.bytes, 0);
    RaisedStep(start.dropped, 0);
    RaisedStep(start.counter, 0);
  }

  lemma ShuttleSizeOk()
    ensures RingIndex.SizeOk(RingIndex.SHUTTLE_SIZE)
  {
    hide And;
    assert Pow2(5) == 32;
    assert Pow2(10) == 1024;
    PowerOfTwoGuard(RingIndex.SHUTTLE_SIZE);
  }

  /** What one ring step does to the two histories. */
  lemma RingStep(s: Spsc.State, step: Spsc.Step)
    requires Spsc.Inv(RingIndex.SHUTTLE_SIZE, s) && Spsc.Enabled(s, step)
    ensures var s' := Spsc.Do(RingIndex.SHUTTLE_SIZE, s, step);
      && Spsc.Inv(RingIndex.SHUTTLE_SIZE, s')
      && Pushed(s'.lin) == (if step.StoreHead? then Pushed(s.lin) + [s.prod.d] else Pushed(s.lin))
      && Popped(s'.lin) == (if step.StoreTail? then Popped(s.lin) + [s.cons.out] else Popped(s.lin))
      && (ConsumerStep(step) ==> s'.prod == s.prod)
      && (!ConsumerStep(step) ==> s'.cons == s.cons)
  {
    hide And, Spsc.Inv, Pushed, Popped;
    Spsc.StepInv(RingIndex.SHUTTLE_SIZE, s, step);
    var s' := Spsc.Do(RingIndex.SHUTTLE_SIZE, s, step);
    if s'.lin != s.lin {
      ReplaySnoc(s.lin, 0, s'.lin[|s.lin|]);
      assert s'.lin == s.lin + [s'.lin[|s.lin|]];
    }
  }

  lemma OfferInv(start: Plane, p: Plane, a: Action)
    requires Inv(start, p) && Enabled(p, a)
    requires a.Transmit? || a.BridgeFrame? || a.BridgeInvalid? || a.BridgeNothing?
    ensures Inv(start, Do(p, a))
  {
    hide And, Spsc.Inv, Spsc.Do, Pushed, Popped, TotalLen, Raised;
    if a.Transmit? || a.BridgeFrame? {
      RingStep(p.ring, Spsc.StartPush(a.d));
      StartsPushing(p.ring, a.d);
    }
  }

  lemma StartsPushing(s: Spsc.State, d: Descriptor)
    requires Spsc.Enabled(s, Spsc.StartPush(d))
    ensures var s' := Spsc.Do(RingIndex.SHUTTLE_SIZE, s, Spsc.StartPush(d)); !s'.prod.PIdle? && s'.cons == s.cons
  {
  }

  lemma ProducerInv(start: Plane, p: Plane, step: Spsc.Step)
    requires Inv(start, p) && Enabled(p, Producer(step))
    ensures Inv(start, Do(p, Producer(step)))
  {
    hide And, Spsc.Inv, Pushed, Popped, TotalLen, Raised;
    RingStep(p.ring, step);
    if step.StoreHead? {
      TotalLenSnoc(Accepted(p), p.ring.prod.d);
    }
  }

  lemma ConsumerInv(start: Plane, p: Plane, step: Spsc.Step)
    requires Inv(start, p) && Enabled(p, Consumer(step))
    ensures Inv(start, Do(p, Consumer(step)))
  {
    hide And, Spsc.Inv, Pushed, Popped, TotalLen, Raised;
    RingStep(p.ring, step);
  }

  lemma CountInv(start: Plane, p: Plane, a: Action)
    requires Inv(start, p) && Enabled(p, a)
    requires a.CountPacket? || a.CountBytes? || a.CountDrop? || a.FetchCounter? || a.WriteCounter?
    ensures Inv(start, Do(p, a))
  {
    hide And, Spsc.Inv, Pushed, Popped, TotalLen, Raised, Bump;
    match a
    case CountPacket => RaisedStep(start.packets, |Accepted(p)| - 1);
    case CountBytes => RaisedRaised(start.bytes, TotalLen(Accepted(p)) - p.app.len, p.app.len);
    case CountDrop => RaisedStep(start.dropped, p.offers - |Accepted(p)| - 1);
    case FetchCounter =>
    case WriteCounter => RaisedStep(start.counter, |Delivered(p)| - 1);
  }

  lemma {:induction false} RunInv(start: Plane, actions: seq<Action>)
    requires Starting(start) && Run(start, actions).Some?
    ensures Inv(start, Run(start, actions).value)
  {
    hide And, Shape, Books;
    if actions == [] {
      StartingInv(start);
    } else {
      var n := |actions| - 1;
      RunInv(start, actions[..n]);
      var p, a := Run(start, actions[..n]).value, actions[n];
      match a
      case Producer(step) => ProducerInv(start, p, step);
      case Consumer(step) => ConsumerInv(start, p, step);
      case Transmit(_) => OfferInv(start, p, a);
      case BridgeNothing => OfferInv(start, p, a);
      case BridgeInvalid => OfferInv(start, p, a);
      case BridgeFrame(_) => OfferInv(start, p, a);
      case _ => CountInv(start, p, a);
    }
  }

  // ---------------------------------------------------------------- main results

  function Occupancy(p: Plane): int { |p.ring.heads| - |p.ring.tails| }

  /** By how much the counters are ahead of the ring: work delivered and not yet
      counted, less packets accepted and not yet counted. */
  function InFlight(p: Plane): (r: int)
    ensures -1 <= r <= 1
  {
    UncountedWork(p) - UncountedPackets(p)
  }

  lemma OccupancyIsDifference(p: Plane)
    requires Spsc.Inv(RingIndex.SHUTTLE_SIZE, p.ring)
    ensures 0 <= Occupancy(p) <= RingIndex.SHUTTLE_SIZE - 1
    ensures Occupancy(p) == |Accepted(p)| - |Delivered(p)|
  {
    hide Spsc.MemoryInv, Spsc.ThreadsInv, Spsc.RepliesInv, Pushed, Popped, Replay;
    Conservation(p.ring.lin, RingIndex.SHUTTLE_SIZE - 1);
  }

  /**
   End-to-end conservation, at every interleaved point: packets counted in, less
   work counted out, is the ring occupancy up to one, and exactly that when no
   count is pending.
   */
  lemma PacketConservation(start: Plane, actions: seq<Action>)
    requires Starting(start) && start.linked && Run(start, actions).Some?
    ensures var p := Run(start, actions).value;
      && 0 <= Occupancy(p) <= RingIndex.SHUTTLE_SIZE - 1
      && Moved(Moved(p.packets, start.packets), Moved(p.counter, start.counter))
         == (Occupancy(p) + InFlight(p)) % TWO_64
      && (p.app.Between? && p.device.Popping? ==>
            Moved(Moved(p.packets, start.packets), Moved(p.counter, start.counter)) == Occupancy(p))
  {
    hide And, Run, Spsc.Inv, Raised, Moved, Pushed, Popped, TotalLen;
    RunInv(start, actions);
    var p := Run(start, actions).value;
    OccupancyIsDifference(p);
    var n, m := |Accepted(p)| - UncountedPackets(p), |Delivered(p)| - UncountedWork(p);
    MovedRaised(start.packets, n);
    MovedRaised(start.counter, m);
    MovedDifference(n, m);
    assert n - m == Occupancy(p) + InFlight(p);
    if p.app.Between? && p.device.Popping? {
      ModSmall(Occupancy(p), TWO_64);
    }
  }

  // ---------------------------------------------------------------- the run's own offers

  /** What the two threads call `push` with, in order: transmitted descriptors and valid frames. */
  function Offers(actions: seq<Action>): seq<Descriptor> {
    if actions == [] then [] else
      var before := Offers(actions[..|actions| - 1]);
      match actions[|actions| - 1]
      case Transmit(d) => before + [d]
      case BridgeFrame(d) => before + [d]
      case _ => before
  }

  /** Frames turned away before the ring. */
  function InvalidFrames(actions: seq<Action>): nat {
    if actions == [] then 0
    else InvalidFrames(actions[..|actions| - 1]) + if actions[|actions| - 1].BridgeInvalid? then 1 else 0
  }

  /** What the run does to the ring alone. */
  function RingSteps(actions: seq<Action>): seq<Spsc.Step> {
    if actions == [] then [] else
      var before := RingSteps(actions[..|actions| - 1]);
      match actions[|actions| - 1]
      case Transmit(d) => before + [Spsc.StartPush(d)]
      case BridgeFrame(d) => before + [Spsc.StartPush(d)]
      case Producer(step) => before + [step]
      case Consumer(step) => before + [step]
      case _ => before
  }

  lemma RingStepsSnoc(steps: seq<Spsc.Step>, s: Spsc.State, step: Spsc.Step)
    requires Spsc.Run(RingIndex.SHUTTLE_SIZE, steps) == Some(s) && Spsc.Enabled(s, step)
    ensures Spsc.Run(RingIndex.SHUTTLE_SIZE, steps + [step]) == Some(Spsc.Do(RingIndex.SHUTTLE_SIZE, s, step))
    ensures Spsc.Offered(steps + [step]) == Spsc.Offered(steps) + (if step.StartPush? then [step.d] else [])
  {
    assert (steps + [step])[..|steps|] == steps;
    hide Spsc.Do, Spsc.Enabled;
  }

  /** Every run of the data plane is a run of the ring, with the same calls: whatever
      holds of all runs of the ring holds here. */
  lemma {:induction false} RingRuns(start: Plane, actions: seq<Action>)
    requires Starting(start) && Run(start, actions).Some?
    ensures var p := Run(start, actions).value;
      && Spsc.Run(RingIndex.SHUTTLE_SIZE, RingSteps(actions)) == Some(p.ring)
      && Spsc.Offered(RingSteps(actions)) == Offers(actions)
      && p.offers == |Offers(actions)| + InvalidFrames(actions)
  {
    hide Spsc.Do, Spsc.Enabled;
    if actions != [] {
      var n := |actions| - 1;
      RingRuns(start, actions[..n]);
      var p, steps := Run(start, actions[..n]).value, RingSteps(actions[..n]);
      match actions[n] {
        case Transmit(d) => RingStepsSnoc(steps, p.ring, Spsc.StartPush(d));
        case BridgeFrame(d) => RingStepsSnoc(steps, p.ring, Spsc.StartPush(d));
        case Producer(step) => RingStepsSnoc(steps, p.ring, step);
        case Consumer(step) => RingStepsSnoc(steps, p.ring, step);
        case _ =>
      }
    }
  }

  /** At every point of every run both threads can go on, whatever the other is doing,
      and between operations any descriptor or frame may come. */
  lemma NeverBlocked(start: Plane, actions: seq<Action>)
    requires Starting(start) && Run(start, actions).Some?
    ensures var p := Run(start, actions).value;
      && (match p.app
          case Between => (forall d :: Enabled(p, Transmit(d)) && Enabled(p, BridgeFrame(d)))
                          && Enabled(p, BridgeNothing) && Enabled(p, BridgeInvalid)
          case Pushing => exists step :: Enabled(p, Producer(step))
          case AddPackets(_) => Enabled(p, CountPacket)
          case AddBytes(_) => Enabled(p, CountBytes)
          case AddDropped => Enabled(p, CountDrop))
      && (match p.device
          case Popping => exists step :: Enabled(p, Consumer(step))
          case LoadCounter => Enabled(p, FetchCounter)
          case StoreCounter(_) => Enabled(p, WriteCounter))
  {
    hide And, Run, Spsc.Inv, Books, Spsc.Run, RingSteps, Offers, Spsc.Offered;
    RunInv(start, actions);
    RingRuns(start, actions);
    ShuttleSizeOk();
    Spsc.NeverBlocked(RingIndex.SHUTTLE_SIZE, RingSteps(actions));
    var p := Run(start, actions).value;
    var s := p.ring;
    match s.prod {
      case PIdle =>
      case PLoadTail(_, _) => assert Enabled(p, Producer(Spsc.LoadTail(Spsc.T(s))));
      case PTest(_, _, _) => assert Enabled(p, Producer(Spsc.TestFull));
      case PWrite(_, _) => assert Enabled(p, Producer(Spsc.WriteSlot));
      case PStore(_, _) => assert Enabled(p, Producer(Spsc.StoreHead));
    }
    if p.device.Popping? {
      match s.cons {
        case CIdle => assert Enabled(p, Consumer(Spsc.StartPop));
        case CLoadHead(_) => assert Enabled(p, Consumer(Spsc.LoadHead(Spsc.H(s))));
        case CTest(_, _) => assert Enabled(p, Consumer(Spsc.TestEmpty));
        case CRead(_) => assert Enabled(p, Consumer(Spsc.ReadSlot(s.writes[Spsc.T(s)].value)));
        case CStore(_, _) => assert Enabled(p, Consumer(Spsc.StoreTail));
      }
    }
  }

  /**
   Between operations, in terms of the run's own calls and what they returned: the
   byte total is the sum of the lengths of exactly the offers whose push was accepted,
   the packet total their number, and every other offer or invalid frame was dropped.
   */
  lemma OffersAccountedFor(start: Plane, actions: seq<Action>)
    requires Starting(start) && start.linked && Run(start, actions).Some?
    requires Run(start, actions).value.app.Between?
    ensures var p := Run(start, actions).value;
      && |p.ring.pushReturned| == |Offers(actions)|
      && var taken := Spsc.Taken(Offers(actions), p.ring.pushReturned);
      && Moved(p.bytes, start.bytes) == TotalLen(taken) % TWO_64
      && Moved(p.packets, start.packets) == |taken| % TWO_64
      && |taken| <= |Offers(actions)| + InvalidFrames(actions)
      && Moved(p.dropped, start.dropped) == (|Offers(actions)| + InvalidFrames(actions) - |taken|) % TWO_64
  {
    hide And, Run, Spsc.Inv, Raised, Moved, Pushed, Popped, TotalLen, RingSteps, Offers, InvalidFrames,
         Spsc.Taken, Spsc.Offered, Spsc.PopCalls, Spsc.PushOutcomes, Spsc.PopOutcomes, Replay, Spsc.Run, Spsc.Somes;
    RunInv(start, actions);
    RingRuns(start, actions);
    ShuttleSizeOk();
    Spsc.RepliesAreHistory(RingIndex.SHUTTLE_SIZE, RingSteps(actions));
    Spsc.Linearizable(RingIndex.SHUTTLE_SIZE, RingSteps(actions));
    var p := Run(start, actions).value;
    MovedRaised(start.bytes, TotalLen(Accepted(p)));
    MovedRaised(start.packets, |Accepted(p)|);
    MovedRaised(start.dropped, p.offers - |Accepted(p)|);
  }

  /** The work counter, between pops: as many as pops returned a descriptor. */
  lemma WorkAccountedFor(start: Plane, actions: seq<Action>)
    requires Starting(start) && Run(start, actions).Some? && Run(start, actions).value.device.Popping?
    ensures var p := Run(start, actions).value;
      Moved(p.counter, start.counter) == |Spsc.Somes(p.ring.popReturned)| % TWO_64
  {
    hide And, Run, Spsc.Inv, Raised, Moved, Pushed, Popped, TotalLen, RingSteps, Offers, InvalidFrames,
         Spsc.Taken, Spsc.Offered, Spsc.Run, Spsc.Somes;
    RunInv(start, actions);
    RingRuns(start, actions);
    ShuttleSizeOk();
    Spsc.RepliesAreHistory(RingIndex.SHUTTLE_SIZE, RingSteps(actions));
    MovedRaised(start.counter, |Delivered(Run(start, actions).value)|);
  }
}
