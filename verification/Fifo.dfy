/**
 The reference queue: a bounded first-in first-out sequence, and what it means
 for a history of completed operations to be one of its histories.
 */
module Fifo {
  import opened Wrappers

  /** The unit of exchange, `PorthDescriptor`. */
  datatype Descriptor = Descriptor(addr: nat, len: nat)

  /** A completed queue operation.  `current` says whether a refusal was decided on
      the newest value of the other side's index. */
  datatype Event =
    | PushOk(value: Descriptor)
    | PushFull(current: bool)
    | PopOk(value: Descriptor)
    | PopEmpty(current: bool)

  /** One operation on the queue, or None where the queue does not allow it.  A
      refusal on current data is allowed only when it is true; a refusal on stale
      data is allowed only when it is false. */
  function Apply(q: seq<Descriptor>, capacity: nat, e: Event): Option<seq<Descriptor>> {
    match e
    case PushOk(v) => if |q| < capacity then Some(q + [v]) else None
    case PushFull(current) => if current == (|q| == capacity) then Some(q) else None
    case PopOk(v) => if q != [] && q[0] == v then Some(q[1..]) else None
    case PopEmpty(current) => if current == (q == []) then Some(q) else None
  }

  /** The queue after a history, or None when the history is not one of the queue's. */
  function Replay(history: seq<Event>, capacity: nat): Option<seq<Descriptor>> {
    if history == [] then Some([]) else
      match Replay(history[..|history| - 1], capacity)
      case None => None
      case Some(q) => Apply(q, capacity, history[|history| - 1])
  }

  function Pushed(history: seq<Event>): seq<Descriptor> {
    if history == [] then [] else
      var before := Pushed(history[..|history| - 1]);
      match history[|history| - 1]
      case PushOk(v) => before + [v]
      case _ => before
  }

  function Popped(history: seq<Event>): seq<Descriptor> {
    if history == [] then [] else
      var before := Popped(history[..|history| - 1]);
      match history[|history| - 1]
      case PopOk(v) => before + [v]
      case _ => before
  }

  lemma Snoc(history: seq<Event>, e: Event)
    ensures (history + [e])[..|history + [e]| - 1] == history
    ensures (history + [e])[|history + [e]| - 1] == e
  {
  }

  lemma ReplaySnoc(history: seq<Event>, capacity: nat, e: Event)
    ensures Replay(history + [e], capacity) ==
            match Replay(history, capacity)
            case None => None
            case Some(q) => Apply(q, capacity, e)
    ensures Pushed(history + [e]) == Pushed(history) + (if e.PushOk? then [e.value] else [])
    ensures Popped(history + [e]) == Popped(history) + (if e.PopOk? then [e.value] else [])
  {
    Snoc(history, e);
  }

  /** Nothing is lost, duplicated or reordered: what went in is what came out, then what is inside. */
  lemma {:induction false} Conservation(history: seq<Event>, capacity: nat)
    requires Replay(history, capacity).Some?
    ensures Pushed(history) == Popped(history) + Replay(history, capacity).value
    ensures |Replay(history, capacity).value| <= capacity
  {
    if history != [] {
      var n := |history| - 1;
      Conservation(history[..n], capacity);
      var q := Replay(history[..n], capacity).value;
      match history[n] {
        case PushOk(v) =>
          assert Popped(history[..n]) + q + [v] == Popped(history[..n]) + (q + [v]);
        case PopOk(v) =>
          assert q == [v] + q[1..];
          assert Popped(history[..n]) + [v] + q[1..] == Popped(history[..n]) + q;
        case _ =>
      }
    }
  }

  /** In a legal history every prefix is legal, and a refusal was decided on current
      data exactly when it was true of the queue it met. */
  lemma {:induction false} RefusalMeaning(history: seq<Event>, capacity: nat, k: nat)
    requires Replay(history, capacity).Some? && k < |history|
    ensures Replay(history[..k], capacity).Some?
    ensures var q := Replay(history[..k], capacity).value;
      && (history[k].PushFull? ==> (history[k].current <==> |q| == capacity))
      && (history[k].PopEmpty? ==> (history[k].current <==> q == []))
    decreases |history|
  {
    var n := |history| - 1;
    if k < n {
      RefusalMeaning(history[..n], capacity, k);
      assert history[..n][..k] == history[..k];
    }
  }
}
