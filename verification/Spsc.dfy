/**
 The ring as two threads see it: `push` and `pop` split into their atomic
 actions, interleaved in every way, over a release/acquire memory.

 Memory is kept as its histories.  An index cell is the list of its stores, in
 modification order; each store carries the view it releases (how many slot
 accesses of its thread come before it).  A load of the *other* side's index may
 return any store no older than the last one that thread saw.  The slots are the
 list of all slot writes; a read may return any write that is not known to be
 overwritten, and anything at all when no write to the slot is known.
 */
module Spsc {
  import opened RingIndex
  import opened Wrappers
  import opened Fifo
  import opened Bits

  datatype HeadStore = HeadStore(index: nat, view: nat)
  datatype TailStore = TailStore(index: nat, view: nat)
  datatype SlotWrite = SlotWrite(slot: nat, value: Descriptor)

  /** Where the producer is inside `push(d)`, with its locals. */
  datatype Producer =
    | PIdle
    | PLoadTail(d: Descriptor, h: nat)
    | PTest(d: Descriptor, h: nat, t: nat)
    | PWrite(d: Descriptor, h: nat)
    | PStore(d: Descriptor, h: nat)

  /** Where the consumer is inside `pop`, with its locals. */
  datatype Consumer =
    | CIdle
    | CLoadHead(t: nat)
    | CTest(t: nat, h: nat)
    | CRead(t: nat)
    | CStore(t: nat, out: Descriptor)

  /** Shared memory, both threads, and history variables: the linearization, the
      calls made and the values returned so far. */
  datatype State = State(
    heads: seq<HeadStore>,
    tails: seq<TailStore>,
    writes: seq<SlotWrite>,
    slotReads: seq<nat>,
    prod: Producer,
    seenTail: nat,
    cons: Consumer,
    seenHead: nat,
    lin: seq<Event>,
    calls: seq<Descriptor>,
    pushReturned: seq<Option<Descriptor>>,
    popCalls: nat,
    popReturned: seq<Option<Descriptor>>)

  /** The atomic actions, in program order of `push` and then of `pop`. */
  datatype Step =
    | StartPush(d: Descriptor)
    | LoadTail(m: nat)
    | TestFull
    | WriteSlot
    | StoreHead
    | StartPop
    | LoadHead(m: nat)
    | TestEmpty
    | ReadSlot(v: Descriptor)
    | StoreTail

  function Init(): State {
    State([HeadStore(0, 0)], [TailStore(0, 0)], [], [], PIdle, 0, CIdle, 0, [], [], [], 0, [])
  }

  /** Number of head stores and of tail stores so far. */
  function H(s: State): int { |s.heads| - 1 }

  function T(s: State): int { |s.tails| - 1 }

  predicate Formed(s: State) {
    s.heads != [] && s.tails != [] && s.seenTail < |s.tails| && s.seenHead < |s.heads|
  }

  /** Write k may be what a thread reads from the slot, when it knows the first `view` writes. */
  predicate Visible(writes: seq<SlotWrite>, view: nat, slot: nat, k: nat) {
    k < |writes| && writes[k].slot == slot &&
    forall j :: k < j < view && j < |writes| ==> writes[j].slot != slot
  }

  ghost predicate Readable(s: State, slot: nat, v: Descriptor)
    requires Formed(s)
  {
    var view := s.heads[s.seenHead].view;
    || (exists k: nat :: Visible(s.writes, view, slot, k) && s.writes[k].value == v)
    || (forall j :: 0 <= j < view && j < |s.writes| ==> s.writes[j].slot != slot)
  }

  ghost predicate Enabled(s: State, step: Step) {
    Formed(s) &&
    match step
    case StartPush(_) => s.prod.PIdle?
    case LoadTail(m) => s.prod.PLoadTail? && s.seenTail <= m < |s.tails|
    case TestFull => s.prod.PTest?
    case WriteSlot => s.prod.PWrite?
    case StoreHead => s.prod.PStore?
    case StartPop => s.cons.CIdle?
    case LoadHead(m) => s.cons.CLoadHead? && s.seenHead <= m < |s.heads|
    case TestEmpty => s.cons.CTest?
    case ReadSlot(v) => s.cons.CRead? && Readable(s, s.cons.t, v)
    case StoreTail => s.cons.CStore?
  }

  ghost function Do(size: nat, s: State, step: Step): State
    requires size >= 1 && Enabled(s, step)
  {
    match step
    case StartPush(d) =>
      s.(prod := PLoadTail(d, s.heads[H(s)].index), calls := s.calls + [d])
    case LoadTail(m) =>
      var t := s.tails[m].index;
      s.(prod := PTest(s.prod.d, s.prod.h, t),
         seenTail := m,
         lin := if Next(s.prod.h, size) == t then s.lin + [PushFull(m == T(s))] else s.lin)
    case TestFull =>
      if Next(s.prod.h, size) == s.prod.t
      then s.(prod := PIdle, pushReturned := s.pushReturned + [None])
      else s.(prod := PWrite(s.prod.d, s.prod.h))
    case WriteSlot =>
      s.(prod := PStore(s.prod.d, s.prod.h), writes := s.writes + [SlotWrite(s.prod.h, s.prod.d)])
    case StoreHead =>
      s.(prod := PIdle,
         heads := s.heads + [HeadStore(Next(s.prod.h, size), |s.writes|)],
         lin := s.lin + [PushOk(s.prod.d)],
         pushReturned := s.pushReturned + [Some(s.prod.d)])
    case StartPop =>
      s.(cons := CLoadHead(s.tails[T(s)].index), popCalls := s.popCalls + 1)
    case LoadHead(m) =>
      var h := s.heads[m].index;
      s.(cons := CTest(s.cons.t, h),
         seenHead := m,
         lin := if h == s.cons.t then s.lin + [PopEmpty(m == H(s))] else s.lin)
    case TestEmpty =>
      if s.cons.h == s.cons.t
      then s.(cons := CIdle, popReturned := s.popReturned + [None])
      else s.(cons := CRead(s.cons.t))
    case ReadSlot(v) =>
      s.(cons := CStore(s.cons.t, v), slotReads := s.slotReads + [s.cons.t])
    case StoreTail =>
      s.(cons := CIdle,
         tails := s.tails + [TailStore(Next(s.cons.t, size), |s.slotReads|)],
         lin := s.lin + [PopOk(s.cons.out)],
         popReturned := s.popReturned + [Some(s.cons.out)])
  }

  /** The state after a schedule, or None when the schedule is not one. */
  ghost function Run(size: nat, steps: seq<Step>): Option<State>
    requires size >= 1
  {
    if steps == [] then Some(Init()) else
      match Run(size, steps[..|steps| - 1])
      case None => None
      case Some(s) =>
        var step := steps[|steps| - 1];
        if Enabled(s, step) then Some(Do(size, s, step)) else None
  }

  // ---------------------------------------------------------------- outcomes

  /** What the producer's events say its calls return, in order. */
  function PushOutcomes(lin: seq<Event>): seq<Option<Descriptor>> {
    if lin == [] then [] else
      var before := PushOutcomes(lin[..|lin| - 1]);
      match lin[|lin| - 1]
      case PushOk(v) => before + [Some(v)]
      case PushFull(_) => before + [None]
      case _ => before
  }

  function PopOutcomes(lin: seq<Event>): seq<Option<Descriptor>> {
    if lin == [] then [] else
      var before := PopOutcomes(lin[..|lin| - 1]);
      match lin[|lin| - 1]
      case PopOk(v) => before + [Some(v)]
      case PopEmpty(_) => before + [None]
      case _ => before
  }

  lemma OutcomesSnoc(lin: seq<Event>, e: Event)
    ensures PushOutcomes(lin + [e]) ==
            PushOutcomes(lin) + (match e case PushOk(v) => [Some(v)] case PushFull(_) => [None] case _ => [])
    ensures PopOutcomes(lin + [e]) ==
            PopOutcomes(lin) + (match e case PopOk(v) => [Some(v)] case PopEmpty(_) => [None] case _ => [])
  {
    Snoc(lin, e);
  }

  // ---------------------------------------------------------------- invariant

  ghost predicate MemoryInv(size: nat, s: State)
    requires size >= 1
  {
    && Formed(s)
    && (forall k :: 0 <= k < |s.heads| ==> s.heads[k] == HeadStore(IndexAfter(size, k), k))
    && (forall k :: 0 <= k < |s.tails| ==> s.tails[k] == TailStore(IndexAfter(size, k), k))
    && (forall k :: 0 <= k < |s.writes| ==> s.writes[k].slot == IndexAfter(size, k))
    && (forall k :: 0 <= k < |s.slotReads| ==> s.slotReads[k] == IndexAfter(size, k))
    && |s.writes| == H(s) + (if s.prod.PStore? then 1 else 0)
    && |s.slotReads| == T(s) + (if s.cons.CStore? then 1 else 0)
    && T(s) <= s.seenHead
    && H(s) <= s.seenTail + Modulus(size) - 1
  }

  predicate ThreadsInv(size: nat, s: State)
    requires size >= 1 && Formed(s)
    requires |s.writes| == H(s) + (if s.prod.PStore? then 1 else 0)
  {
    && (match s.prod
        case PIdle => true
        case PLoadTail(_, h) => h == IndexAfter(size, H(s))
        case PTest(_, h, t) => h == IndexAfter(size, H(s)) && t == IndexAfter(size, s.seenTail)
        case PWrite(_, h) => h == IndexAfter(size, H(s)) && H(s) < s.seenTail + Modulus(size) - 1
        case PStore(d, h) => h == IndexAfter(size, H(s)) && H(s) < s.seenTail + Modulus(size) - 1
                             && s.writes[H(s)].value == d)
    && (match s.cons
        case CIdle => true
        case CLoadHead(t) => t == IndexAfter(size, T(s))
        case CTest(t, h) => t == IndexAfter(size, T(s)) && h == IndexAfter(size, s.seenHead)
        case CRead(t) => t == IndexAfter(size, T(s)) && T(s) < s.seenHead
        case CStore(t, out) => t == IndexAfter(size, T(s)) && T(s) < s.seenHead
                               && s.writes[T(s)].value == out)
  }

  function Values(writes: seq<SlotWrite>, a: nat, b: nat): (r: seq<Descriptor>)
    requires a <= b <= |writes|
    ensures |r| == b - a
  {
    seq(b - a, i requires 0 <= i < b - a => writes[a + i].value)
  }

  lemma ValuesSnoc(writes: seq<SlotWrite>, a: nat, b: nat)
    requires a <= b < |writes|
    ensures Values(writes, a, b + 1) == Values(writes, a, b) + [writes[b].value]
  {
  }

  lemma ValuesTail(writes: seq<SlotWrite>, a: nat, b: nat)
    requires a < b <= |writes|
    ensures Values(writes, a, b) == [writes[a].value] + Values(writes, a + 1, b)
    ensures Values(writes, a, b)[1..] == Values(writes, a + 1, b)
  {
  }

  /** The abstract queue: the writes published by head stores and not yet released by tail stores. */
  predicate QueueInv(size: nat, s: State)
    requires size >= 1 && Modulus(size) >= 1 && Formed(s) && T(s) <= H(s) <= |s.writes|
  {
    Replay(s.lin, Modulus(size) - 1) == Some(Values(s.writes, T(s), H(s)))
  }

  predicate RepliesInv(size: nat, s: State)
    requires size >= 1
  {
    && PushOutcomes(s.lin) == s.pushReturned
       + (if s.prod.PTest? && Next(s.prod.h, size) == s.prod.t then [None] else [])
    && |s.calls| == |s.pushReturned| + (if s.prod.PIdle? then 0 else 1)
    && (!s.prod.PIdle? ==> s.calls[|s.pushReturned|] == s.prod.d)
    && (forall k :: 0 <= k < |s.pushReturned| && s.pushReturned[k].Some? ==>
          s.pushReturned[k].value == s.calls[k])
    && PopOutcomes(s.lin) == s.popReturned
       + (if s.cons.CTest? && s.cons.h == s.cons.t then [None] else [])
    && s.popCalls == |s.popReturned| + (if s.cons.CIdle? then 0 else 1)
  }

  ghost predicate Inv(size: nat, s: State) {
    && SizeOk(size)
    && MemoryInv(size, s)
    && ThreadsInv(size, s)
    && QueueInv(size, s)
    && RepliesInv(size, s)
  }

  // ---------------------------------------------------------------- each step keeps it

  lemma InitInv(size: nat)
    requires SizeOk(size)
    ensures Inv(size, Init())
  {
    assert Values(Init().writes, 0, 0) == [];
  }

  lemma StartInv(size: nat, s: State, step: Step)
    requires Inv(size, s) && Enabled(s, step) && (step.StartPush? || step.StartPop?)
    ensures Inv(size, Do(size, s, step))
  {
    hide And, Lap, Next, Replay, PushOutcomes, PopOutcomes;
  }

  lemma LoadTailInv(size: nat, s: State, m: nat)
    requires Inv(size, s) && Enabled(s, LoadTail(m))
    ensures Inv(size, Do(size, s, LoadTail(m)))
  {
    hide And, Lap, Next, Replay, PushOutcomes, PopOutcomes;
    var s' := Do(size, s, LoadTail(m));
    assert MemoryInv(size, s') && ThreadsInv(size, s');
    assert QueueInv(size, s') by {
      FullTest(size, H(s), m);
      ReplaySnoc(s.lin, Modulus(size) - 1, PushFull(m == T(s)));
    }
    assert RepliesInv(size, s') by {
      OutcomesSnoc(s.lin, PushFull(m == T(s)));
    }
  }

  lemma TestFullInv(size: nat, s: State)
    requires Inv(size, s) && Enabled(s, TestFull)
    ensures Inv(size, Do(size, s, TestFull))
  {
    hide And, Lap, Next, Replay, PushOutcomes, PopOutcomes;
    FullTest(size, H(s), s.seenTail);
  }

  lemma WriteSlotInv(size: nat, s: State)
    requires Inv(size, s) && Enabled(s, WriteSlot)
    ensures Inv(size, Do(size, s, WriteSlot))
  {
    hide And, Lap, Next, Replay, PushOutcomes, PopOutcomes;
    var s' := Do(size, s, WriteSlot);
    assert Values(s'.writes, T(s), H(s)) == Values(s.writes, T(s), H(s));
  }

  lemma StoreHeadInv(size: nat, s: State)
    requires Inv(size, s) && Enabled(s, StoreHead)
    ensures Inv(size, Do(size, s, StoreHead))
  {
    hide And, Lap, Next, Replay, PushOutcomes, PopOutcomes;
    IndexStep(size, H(s));
    var s' := Do(size, s, StoreHead);
    assert MemoryInv(size, s') && ThreadsInv(size, s');
    assert QueueInv(size, s') by {
      ReplaySnoc(s.lin, Modulus(size) - 1, PushOk(s.prod.d));
      ValuesSnoc(s.writes, T(s), H(s));
    }
    assert RepliesInv(size, s') by {
      OutcomesSnoc(s.lin, PushOk(s.prod.d));
    }
  }

  lemma LoadHeadInv(size: nat, s: State, m: nat)
    requires Inv(size, s) && Enabled(s, LoadHead(m))
    ensures Inv(size, Do(size, s, LoadHead(m)))
  {
    hide And, Lap, Next, Replay, PushOutcomes, PopOutcomes;
    var s' := Do(size, s, LoadHead(m));
    assert MemoryInv(size, s') && ThreadsInv(size, s');
    assert QueueInv(size, s') by {
      if T(s) < m { IndexDistinct(size, T(s), m); }
      ReplaySnoc(s.lin, Modulus(size) - 1, PopEmpty(m == H(s)));
    }
    assert RepliesInv(size, s') by {
      OutcomesSnoc(s.lin, PopEmpty(m == H(s)));
    }
  }

  lemma TestEmptyInv(size: nat, s: State)
    requires Inv(size, s) && Enabled(s, TestEmpty)
    ensures Inv(size, Do(size, s, TestEmpty))
  {
    hide And, Lap, Next, Replay, PushOutcomes, PopOutcomes;
  }

  /** The only write a consumer can read from its slot is the next one due. */
  lemma ReadsTheNextWrite(size: nat, s: State, k: nat)
    requires Inv(size, s) && s.cons.CRead?
    requires Visible(s.writes, s.heads[s.seenHead].view, s.cons.t, k)
    ensures k == T(s)
  {
    assert s.writes[T(s)].slot == s.cons.t;
    if k > T(s) {
      IndexDistinct(size, T(s), k);
    }
  }

  /** Whatever the memory lets the consumer read, it reads the next descriptor due. */
  lemma ReadsTheNextValue(size: nat, s: State, v: Descriptor)
    requires Inv(size, s) && Enabled(s, ReadSlot(v))
    ensures T(s) < H(s) && v == s.writes[T(s)].value
  {
    hide And, Lap, Next, Replay, PushOutcomes, PopOutcomes, QueueInv, RepliesInv;
    assert s.writes[T(s)].slot == s.cons.t;
    assert s.heads[s.seenHead].view == s.seenHead;
    var k: nat :| Visible(s.writes, s.heads[s.seenHead].view, s.cons.t, k) && s.writes[k].value == v;
    ReadsTheNextWrite(size, s, k);
  }

  lemma ReadSlotInv(size: nat, s: State, v: Descriptor)
    requires Inv(size, s) && Enabled(s, ReadSlot(v))
    ensures Inv(size, Do(size, s, ReadSlot(v)))
  {
    hide And, Lap, Next, Replay, PushOutcomes, PopOutcomes, Readable;
    ReadsTheNextValue(size, s, v);
  }

  lemma StoreTailMemory(size: nat, s: State)
    requires Inv(size, s) && Enabled(s, StoreTail)
    ensures MemoryInv(size, Do(size, s, StoreTail))
    ensures ThreadsInv(size, Do(size, s, StoreTail))
  {
    hide And, Lap, Next, Replay, PushOutcomes, PopOutcomes, QueueInv, RepliesInv;
    IndexStep(size, T(s));
  }

  lemma StoreTailInv(size: nat, s: State)
    requires Inv(size, s) && Enabled(s, StoreTail)
    ensures Inv(size, Do(size, s, StoreTail))
  {
    hide And, Lap, Next, Replay, PushOutcomes, PopOutcomes;
    StoreTailMemory(size, s);
    var s' := Do(size, s, StoreTail);
    assert QueueInv(size, s') by {
      ReplaySnoc(s.lin, Modulus(size) - 1, PopOk(s.cons.out));
      ValuesTail(s.writes, T(s), H(s));
    }
    assert RepliesInv(size, s') by {
      OutcomesSnoc(s.lin, PopOk(s.cons.out));
    }
  }

  lemma StepInv(size: nat, s: State, step: Step)
    requires Inv(size, s) && Enabled(s, step)
    ensures Inv(size, Do(size, s, step))
  {
    hide And, Lap;
    match step
    case StartPush(_) => StartInv(size, s, step);
    case LoadTail(m) => LoadTailInv(size, s, m);
    case TestFull => TestFullInv(size, s);
    case WriteSlot => WriteSlotInv(size, s);
    case StoreHead => StoreHeadInv(size, s);
    case StartPop => StartInv(size, s, step);
    case LoadHead(m) => LoadHeadInv(size, s, m);
    case TestEmpty => TestEmptyInv(size, s);
    case ReadSlot(v) => ReadSlotInv(size, s, v);
    case StoreTail => StoreTailInv(size, s);
  }

  lemma {:induction false} RunInv(size: nat, steps: seq<Step>)
    requires SizeOk(size) && Run(size, steps).Some?
    ensures Inv(size, Run(size, steps).value)
  {
    if steps == [] {
      InitInv(size);
    } else {
      RunInv(size, steps[..|steps| - 1]);
      StepInv(size, Run(size, steps[..|steps| - 1]).value, steps[|steps| - 1]);
    }
  }

  // ---------------------------------------------------------------- the schedule's own calls

  /** The descriptors the schedule calls `push` with, in order. */
  function Offered(steps: seq<Step>): seq<Descriptor> {
    if steps == [] then [] else
      var before := Offered(steps[..|steps| - 1]);
      if steps[|steps| - 1].StartPush? then before + [steps[|steps| - 1].d] else before
  }

  /** How often the schedule calls `pop`. */
  function PopCalls(steps: seq<Step>): nat {
    if steps == [] then 0
    else PopCalls(steps[..|steps| - 1]) + if steps[|steps| - 1].StartPop? then 1 else 0
  }

  lemma {:induction false} CallsAreTheSchedule(size: nat, steps: seq<Step>)
    requires size >= 1 && Run(size, steps).Some?
    ensures Run(size, steps).value.calls == Offered(steps)
    ensures Run(size, steps).value.popCalls == PopCalls(steps)
  {
    hide Do, Enabled;
    if steps != [] {
      CallsAreTheSchedule(size, steps[..|steps| - 1]);
      StepCalls(size, Run(size, steps[..|steps| - 1]).value, steps[|steps| - 1]);
    }
  }

  lemma StepCalls(size: nat, s: State, step: Step)
    requires size >= 1 && Enabled(s, step)
    ensures var s' := Do(size, s, step);
      && s'.calls == (if step.StartPush? then s.calls + [step.d] else s.calls)
      && s'.popCalls == s.popCalls + if step.StartPop? then 1 else 0
  {
    hide And, Next, Readable;
  }

  /** The values that were returned at all. */
  function Somes(returned: seq<Option<Descriptor>>): seq<Descriptor> {
    if returned == [] then [] else
      var before := Somes(returned[..|returned| - 1]);
      if returned[|returned| - 1].Some? then before + [returned[|returned| - 1].value] else before
  }

  /** The offers whose call returned true. */
  function Taken(offered: seq<Descriptor>, returned: seq<Option<Descriptor>>): seq<Descriptor>
    requires |returned| <= |offered|
  {
    if returned == [] then [] else
      var k := |returned| - 1;
      var before := Taken(offered, returned[..k]);
      if returned[k].Some? then before + [offered[k]] else before
  }

  lemma {:induction false} SomesAreTaken(offered: seq<Descriptor>, returned: seq<Option<Descriptor>>)
    requires |returned| <= |offered|
    requires forall k :: 0 <= k < |returned| && returned[k].Some? ==> returned[k].value == offered[k]
    ensures Somes(returned) == Taken(offered, returned)
  {
    if returned != [] {
      SomesAreTaken(offered, returned[..|returned| - 1]);
    }
  }

  lemma SomesSnoc(returned: seq<Option<Descriptor>>, r: Option<Descriptor>)
    ensures Somes(returned + [r]) == Somes(returned) + (if r.Some? then [r.value] else [])
  {
    assert (returned + [r])[..|returned|] == returned;
  }

  lemma {:induction false} OutcomesAreHistory(lin: seq<Event>)
    ensures Somes(PushOutcomes(lin)) == Pushed(lin) && Somes(PopOutcomes(lin)) == Popped(lin)
  {
    hide Somes;
    if lin == [] {
      SomesNone();
    } else {
      var before, e := lin[..|lin| - 1], lin[|lin| - 1];
      OutcomesAreHistory(before);
      match e
      case PushOk(v) => SomesSnoc(PushOutcomes(before), Some(v));
      case PushFull(_) => SomesSnoc(PushOutcomes(before), None);
      case PopOk(v) => SomesSnoc(PopOutcomes(before), Some(v));
      case PopEmpty(_) => SomesSnoc(PopOutcomes(before), None);
    }
  }

  lemma SomesNone()
    ensures Somes([]) == []
  {
  }

  /** What the calls of the schedule returned, and nothing else, is what the history says. */
  lemma RepliesAreHistory(size: nat, steps: seq<Step>)
    requires SizeOk(size) && Run(size, steps).Some?
    ensures var s := Run(size, steps).value;
      && |s.pushReturned| <= |Offered(steps)|
      && Taken(Offered(steps), s.pushReturned) == Pushed(s.lin)
      && Somes(s.popReturned) == Popped(s.lin)
  {
    hide And, Lap, Next, Replay, PushOutcomes, PopOutcomes, Run, MemoryInv, ThreadsInv, QueueInv, Somes, Taken, Offered;
    RunInv(size, steps);
    CallsAreTheSchedule(size, steps);
    var s := Run(size, steps).value;
    OutcomesAreHistory(s.lin);
    SomesAreTaken(s.calls, s.pushReturned);
    SomesSnoc(s.pushReturned, None);
    SomesSnoc(s.popReturned, None);
    assert s.pushReturned + [] == s.pushReturned && s.popReturned + [] == s.popReturned;
  }

  // ---------------------------------------------------------------- main results

  /**
   Linearizability, on every interleaving and for stale loads too.  The events in
   `lin` form a history of the bounded queue; the k-th push of the schedule was
   accepted with the schedule's own k-th descriptor or refused, as its event says;
   and an event is placed between its call and its return, because this holds after
   every prefix of the schedule and histories only grow (`HistoryGrows`).
   */
  lemma Linearizable(size: nat, steps: seq<Step>)
    requires SizeOk(size) && Run(size, steps).Some?
    ensures var s := Run(size, steps).value;
      && Replay(s.lin, Modulus(size) - 1).Some?
      && s.pushReturned <= PushOutcomes(s.lin)
      && |PushOutcomes(s.lin)| <= |Offered(steps)|
      && (forall k :: 0 <= k < |PushOutcomes(s.lin)| && PushOutcomes(s.lin)[k].Some? ==>
            PushOutcomes(s.lin)[k].value == Offered(steps)[k])
      && s.popReturned <= PopOutcomes(s.lin)
      && |PopOutcomes(s.lin)| <= PopCalls(steps)
      && |Offered(steps)| == |s.pushReturned| + (if s.prod.PIdle? then 0 else 1)
      && PopCalls(steps) == |s.popReturned| + (if s.cons.CIdle? then 0 else 1)
  {
    hide And, Lap, Replay, PushOutcomes, PopOutcomes, Run, Offered, PopCalls;
    RunInv(size, steps);
    CallsAreTheSchedule(size, steps);
  }

  predicate Grown(before: State, after: State) {
    && before.lin <= after.lin && before.calls <= after.calls
    && before.pushReturned <= after.pushReturned && before.popReturned <= after.popReturned
    && before.popCalls <= after.popCalls
  }

  lemma StepGrows(size: nat, s: State, step: Step)
    requires size >= 1 && Enabled(s, step)
    ensures Grown(s, Do(size, s, step))
  {
  }

  /** Histories only grow: an event, a call or a returned value stays where it was put. */
  lemma {:induction false} HistoryGrows(size: nat, steps: seq<Step>, n: nat)
    requires size >= 1 && n <= |steps| && Run(size, steps).Some?
    ensures Run(size, steps[..n]).Some?
    ensures Grown(Run(size, steps[..n]).value, Run(size, steps).value)
    decreases |steps|
  {
    hide Do, Readable;
    if n == |steps| {
      assert steps[..n] == steps;
    } else {
      var init := steps[..|steps| - 1];
      HistoryGrows(size, init, n);
      StepGrows(size, Run(size, init).value, steps[|steps| - 1]);
      assert init[..n] == steps[..n];
    }
  }

  /** First in, first out: the values the pops returned are a prefix of the offers the
      pushes accepted, and the rest is in the ring, never more than one lap less one slot. */
  lemma FifoOrder(size: nat, steps: seq<Step>)
    requires SizeOk(size) && Run(size, steps).Some?
    ensures var s := Run(size, steps).value;
      && T(s) <= H(s) <= |s.writes|
      && |s.pushReturned| <= |Offered(steps)|
      && Taken(Offered(steps), s.pushReturned) == Somes(s.popReturned) + Values(s.writes, T(s), H(s))
      && Somes(s.popReturned) <= Taken(Offered(steps), s.pushReturned)
      && H(s) - T(s) <= (if size <= 0x1_0000_0000 then size - 1 else 0x1_0000_0000 - 1)
  {
    hide And, Lap, Replay, PushOutcomes, PopOutcomes, Run, ThreadsInv, RepliesInv, Taken, Somes, Offered;
    RunInv(size, steps);
    RepliesAreHistory(size, steps);
    Conservation(Run(size, steps).value.lin, Modulus(size) - 1);
  }

  /** Every load in the schedule returned the newest store. */
  ghost predicate CurrentLoads(size: nat, steps: seq<Step>)
    requires size >= 1
  {
    steps == [] ||
    (var before := steps[..|steps| - 1];
     && CurrentLoads(size, before)
     && Run(size, before).Some?
     && match steps[|steps| - 1]
        case LoadTail(m) => m == T(Run(size, before).value)
        case LoadHead(m) => m == H(Run(size, before).value)
        case _ => true)
  }

  /**
   When a refusal is spurious, on every run.  The k-th event met the queue `q`: a
   push was refused on the newest tail exactly when `q` was full, and a pop on the
   newest head exactly when `q` was empty.
   */
  lemma RefusalExactlyWhenCurrent(size: nat, steps: seq<Step>, k: nat)
    requires SizeOk(size) && Run(size, steps).Some? && k < |Run(size, steps).value.lin|
    ensures var lin := Run(size, steps).value.lin;
      var before := Replay(lin[..k], Modulus(size) - 1);
      && before.Some?
      && (lin[k].PushFull? ==> (lin[k].current <==> |before.value| == Modulus(size) - 1))
      && (lin[k].PopEmpty? ==> (lin[k].current <==> before.value == []))
  {
    hide And, Lap, Replay, Run;
    Linearizable(size, steps);
    RefusalMeaning(Run(size, steps).value.lin, Modulus(size) - 1, k);
  }

  /** A refusal comes from a load, and its flag says whether that load was current. */
  lemma RefusalComesFromLoad(size: nat, s: State, step: Step, e: Event)
    requires size >= 1 && Enabled(s, step) && e in Do(size, s, step).lin && e !in s.lin
    requires e.PushFull? || e.PopEmpty?
    ensures (step.LoadTail? && e.current == (step.m == T(s))) || (step.LoadHead? && e.current == (step.m == H(s)))
  {
    hide And, Readable;
  }

  lemma {:induction false} CurrentLoadsFlagged(size: nat, steps: seq<Step>, e: Event)
    requires size >= 1 && Run(size, steps).Some? && CurrentLoads(size, steps)
    requires e in Run(size, steps).value.lin && (e.PushFull? || e.PopEmpty?)
    ensures e.current
  {
    hide Do, Readable, Enabled;
    var before := steps[..|steps| - 1];
    if e in Run(size, before).value.lin {
      CurrentLoadsFlagged(size, before, e);
    } else {
      RefusalComesFromLoad(size, Run(size, before).value, steps[|steps| - 1], e);
    }
  }

  /** Under sequential consistency no refusal is spurious: a push refused met a full
      queue, a pop refused an empty one. */
  lemma RefusalsExact(size: nat, steps: seq<Step>, k: nat)
    requires SizeOk(size) && Run(size, steps).Some? && CurrentLoads(size, steps)
    requires k < |Run(size, steps).value.lin|
    ensures var lin := Run(size, steps).value.lin;
      var before := Replay(lin[..k], Modulus(size) - 1);
      && before.Some?
      && (lin[k].PushFull? ==> |before.value| == Modulus(size) - 1)
      && (lin[k].PopEmpty? ==> before.value == [])
  {
    hide And, Lap, Replay, Run, CurrentLoads;
    RefusalExactlyWhenCurrent(size, steps, k);
    var e := Run(size, steps).value.lin[k];
    if e.PushFull? || e.PopEmpty? {
      CurrentLoadsFlagged(size, steps, e);
    }
  }

  /** Data-race freedom by happens-before, and what it buys: no live slot is
      overwritten, no slot is read before it is written. */
  ghost predicate RaceFree(size: nat, s: State)
    requires Formed(s)
  {
    && (s.prod.PWrite? ==>
          && s.prod.h < size
          && (forall j :: 0 <= j < |s.slotReads| && s.slotReads[j] == s.prod.h ==>
                j < s.tails[s.seenTail].view)
          && !(s.cons.CRead? && s.cons.t == s.prod.h)
          && (forall k :: T(s) <= k < H(s) && 0 <= k < |s.writes| ==> s.writes[k].slot != s.prod.h))
    && (s.cons.CRead? ==>
          && s.cons.t < size
          && (forall k :: 0 <= k < |s.writes| && s.writes[k].slot == s.cons.t ==>
                k < s.heads[s.seenHead].view)
          && (exists k: nat :: Visible(s.writes, s.heads[s.seenHead].view, s.cons.t, k)))
  }

  lemma ProducerRaceFree(size: nat, s: State)
    requires Inv(size, s) && s.prod.PWrite?
    ensures s.prod.h < size
    ensures forall j :: 0 <= j < |s.slotReads| && s.slotReads[j] == s.prod.h ==>
                          j < s.tails[s.seenTail].view
    ensures !(s.cons.CRead? && s.cons.t == s.prod.h)
    ensures forall k :: T(s) <= k < H(s) && 0 <= k < |s.writes| ==> s.writes[k].slot != s.prod.h
  {
    hide And, Lap;
    IndexStep(size, H(s));
    forall k: nat | T(s) <= k < H(s) ensures IndexAfter(size, k) != s.prod.h {
      IndexDistinct(size, k, H(s));
    }
    forall j | 0 <= j < |s.slotReads| && s.slotReads[j] == s.prod.h ensures j < s.tails[s.seenTail].view {
      if s.seenTail <= j { IndexDistinct(size, j, H(s)); }
    }
  }

  lemma ConsumerRaceFree(size: nat, s: State)
    requires Inv(size, s) && s.cons.CRead?
    ensures s.cons.t < size
    ensures forall k :: 0 <= k < |s.writes| && s.writes[k].slot == s.cons.t ==>
                          k < s.heads[s.seenHead].view
    ensures Visible(s.writes, s.heads[s.seenHead].view, s.cons.t, T(s))
  {
    hide And, Lap;
    IndexStep(size, T(s));
    forall k: nat | T(s) < k < |s.writes| ensures s.writes[k].slot != s.cons.t {
      IndexDistinct(size, T(s), k);
    }
  }

  lemma AlwaysRaceFree(size: nat, steps: seq<Step>)
    requires SizeOk(size) && Run(size, steps).Some?
    ensures RaceFree(size, Run(size, steps).value)
  {
    RunInv(size, steps);
    var s := Run(size, steps).value;
    if s.prod.PWrite? { ProducerRaceFree(size, s); }
    if s.cons.CRead? { ConsumerRaceFree(size, s); }
  }

  // ---------------------------------------------------------------- nobody waits

  predicate ProducerStep(step: Step) {
    step.StartPush? || step.LoadTail? || step.TestFull? || step.WriteSlot? || step.StoreHead?
  }

  /** At most how many of its own steps a thread still needs to return from its call. */
  function ProducerLeft(p: Producer): nat {
    match p case PIdle => 0 case PLoadTail(_, _) => 4 case PTest(_, _, _) => 3 case PWrite(_, _) => 2 case PStore(_, _) => 1
  }

  function ConsumerLeft(c: Consumer): nat {
    match c case CIdle => 0 case CLoadHead(_) => 4 case CTest(_, _) => 3 case CRead(_) => 2 case CStore(_, _) => 1
  }

  /** In every reachable state either side can move, whatever the other is doing: a new
      call when idle, and any load no older than the last one seen. */
  lemma NeverBlocked(size: nat, steps: seq<Step>)
    requires SizeOk(size) && Run(size, steps).Some?
    ensures var s := Run(size, steps).value;
      && Formed(s)
      && (match s.prod
          case PIdle => forall d :: Enabled(s, StartPush(d))
          case PLoadTail(_, _) => forall m :: s.seenTail <= m <= T(s) ==> Enabled(s, LoadTail(m))
          case PTest(_, _, _) => Enabled(s, TestFull)
          case PWrite(_, _) => Enabled(s, WriteSlot)
          case PStore(_, _) => Enabled(s, StoreHead))
      && (match s.cons
          case CIdle => Enabled(s, StartPop)
          case CLoadHead(_) => forall m :: s.seenHead <= m <= H(s) ==> Enabled(s, LoadHead(m))
          case CTest(_, _) => Enabled(s, TestEmpty)
          case CRead(_) => T(s) < |s.writes| && Enabled(s, ReadSlot(s.writes[T(s)].value))
          case CStore(_, _) => Enabled(s, StoreTail))
  {
    hide And, Lap, Run, QueueInv, RepliesInv;
    RunInv(size, steps);
    var s := Run(size, steps).value;
    if s.cons.CRead? { ConsumerRaceFree(size, s); }
  }

  function CountSteps(steps: seq<Step>, producer: bool): nat {
    if steps == [] then 0
    else CountSteps(steps[..|steps| - 1], producer) + if ProducerStep(steps[|steps| - 1]) == producer then 1 else 0
  }

  /**
   Wait-freedom: a call in progress has returned once its thread has taken the steps
   it had left, four at most, no matter what the other thread did in between.
   */
  lemma {:induction false} WaitFree(size: nat, steps: seq<Step>, more: seq<Step>)
    requires size >= 1 && Run(size, steps).Some? && Run(size, steps + more).Some?
    ensures var s, s' := Run(size, steps).value, Run(size, steps + more).value;
      && |s'.pushReturned| >= |s.pushReturned| && |s'.popReturned| >= |s.popReturned|
      && (!s.prod.PIdle? && |s'.pushReturned| == |s.pushReturned| ==>
            !s'.prod.PIdle? && CountSteps(more, true) + ProducerLeft(s'.prod) <= ProducerLeft(s.prod))
      && (!s.cons.CIdle? && |s'.popReturned| == |s.popReturned| ==>
            !s'.cons.CIdle? && CountSteps(more, false) + ConsumerLeft(s'.cons) <= ConsumerLeft(s.cons))
      && (!s.prod.PIdle? && CountSteps(more, true) >= 4 ==> |s'.pushReturned| > |s.pushReturned|)
      && (!s.cons.CIdle? && CountSteps(more, false) >= 4 ==> |s'.popReturned| > |s.popReturned|)
  {
    if more == [] {
      assert steps + more == steps;
    } else {
      hide Do, Enabled, ProducerStep, ProducerLeft, ConsumerLeft;
      var before := more[..|more| - 1];
      assert (steps + more)[..|steps + more| - 1] == steps + before;
      assert Run(size, steps + before).Some?;
      var s := Run(size, steps + before).value;
      assert Run(size, steps + more) == Some(Do(size, s, more[|more| - 1]));
      hide Run;
      WaitFree(size, steps, before);
      MoveCounts(size, s, more[|more| - 1]);
      Lefts(Run(size, steps).value);
      Lefts(Run(size, steps + more).value);
    }
  }

  lemma Lefts(s: State)
    ensures ProducerLeft(s.prod) <= 4 && (s.prod.PIdle? <==> ProducerLeft(s.prod) == 0)
    ensures ConsumerLeft(s.cons) <= 4 && (s.cons.CIdle? <==> ConsumerLeft(s.cons) == 0)
  {
  }

  lemma MoveCounts(size: nat, s: State, step: Step)
    requires size >= 1 && Enabled(s, step)
    ensures var s' := Do(size, s, step);
      if ProducerStep(step)
      then s'.cons == s.cons && s'.popReturned == s.popReturned
           && (s.prod.PIdle? ==> s'.pushReturned == s.pushReturned)
           && (!s.prod.PIdle? ==> if s'.prod.PIdle? then |s'.pushReturned| == |s.pushReturned| + 1
                                  else s'.pushReturned == s.pushReturned && ProducerLeft(s'.prod) < ProducerLeft(s.prod))
      else s'.prod == s.prod && s'.pushReturned == s.pushReturned
           && (s.cons.CIdle? ==> s'.popReturned == s.popReturned)
           && (!s.cons.CIdle? ==> if s'.cons.CIdle? then |s'.popReturned| == |s.popReturned| + 1
                                  else s'.popReturned == s.popReturned && ConsumerLeft(s'.cons) < ConsumerLeft(s.cons))
  {
    hide And, Next, Readable;
  }

  // ---------------------------------------------------------------- staleness is real

  lemma RunSnoc(size: nat, steps: seq<Step>, s: State, step: Step)
    requires size >= 1 && Run(size, steps) == Some(s) && Enabled(s, step)
    ensures Run(size, steps + [step]) == Some(Do(size, s, step))
  {
    assert (steps + [step])[..|steps + [step]| - 1] == steps;
  }

  lemma OnePush(d: Descriptor) returns (steps: seq<Step>, s: State)
    ensures Run(2, steps) == Some(s)
    ensures s == State([HeadStore(0, 0), HeadStore(1, 1)], [TailStore(0, 0)],
                       [SlotWrite(0, d)], [], PIdle, 0, CIdle, 0, [PushOk(d)], [d], [Some(d)], 0, [])
  {
    assert Next(0, 2) == 1;
    steps, s := StartUp();
    steps, s := Extend(steps, s, StartPush(d));
    steps, s := Extend(steps, s, LoadTail(0));
    steps, s := Extend(steps, s, TestFull);
    steps, s := Extend(steps, s, WriteSlot);
    steps, s := Extend(steps, s, StoreHead);
  }

  lemma StartUp() returns (steps: seq<Step>, s: State)
    ensures Run(2, steps) == Some(s) && s == Init()
  {
    steps, s := [], Init();
  }

  /** One push and one pop, completed. */
  lemma OneTrip(d: Descriptor) returns (steps: seq<Step>, s: State)
    ensures Run(2, steps) == Some(s)
    ensures s == State([HeadStore(0, 0), HeadStore(1, 1)], [TailStore(0, 0), TailStore(1, 1)],
                       [SlotWrite(0, d)], [0], PIdle, 0, CIdle, 1,
                       [PushOk(d), PopOk(d)], [d], [Some(d)], 1, [Some(d)])
  {
    assert Next(0, 2) == 1;
    steps, s := OnePush(d);
    steps, s := Extend(steps, s, StartPop);
    steps, s := Extend(steps, s, LoadHead(1));
    steps, s := Extend(steps, s, TestEmpty);
    assert Visible(s.writes, 1, 0, 0);
    steps, s := Extend(steps, s, ReadSlot(d));
    steps, s := Extend(steps, s, StoreTail);
  }

  lemma Extend(steps: seq<Step>, s: State, step: Step) returns (steps': seq<Step>, s': State)
    requires Run(2, steps) == Some(s) && Enabled(s, step)
    ensures Run(2, steps') == Some(s') && s' == Do(2, s, step)
  {
    steps', s' := steps + [step], Do(2, s, step);
    RunSnoc(2, steps, s, step);
  }

  /** Without sequential consistency `push` can report a full ring that is empty:
      the condition of `RefusalsExact` cannot be dropped. */
  lemma SpuriousFull(d: Descriptor) returns (steps: seq<Step>)
    ensures Run(2, steps).Some?
    ensures var s := Run(2, steps).value;
      s.pushReturned == [Some(d), None] && s.prod.PIdle? && H(s) == T(s)
  {
    var s;
    steps, s := OneTrip(d);
    assert Next(1, 2) == 0;
    steps, s := Extend(steps, s, StartPush(d));
    steps, s := Extend(steps, s, LoadTail(0));
    steps, s := Extend(steps, s, TestFull);
  }

  /** And `pop` can report an empty ring that is full. */
  lemma SpuriousEmpty(d: Descriptor) returns (steps: seq<Step>)
    ensures Run(2, steps).Some?
    ensures var s := Run(2, steps).value;
      s.popReturned == [None] && s.cons.CIdle? && H(s) - T(s) == Modulus(2) - 1
  {
    var s;
    steps, s := OnePush(d);
    steps, s := Extend(steps, s, StartPop);
    steps, s := Extend(steps, s, LoadHead(0));
    steps, s := Extend(steps, s, TestEmpty);
  }
}
