/**
 The ring buffer object itself: `push` and `pop` as plain calls that change the
 slots and the two indices in place, specified by the sequence of waiting descriptors.
 */
module RingBuffer {
  import opened Bits
  import opened RingIndex
  import opened Fifo

  /** How far `head` is ahead of `tail`, going round. */
  function Gap(modulus: nat, head: nat, tail: nat): (r: nat)
    requires head < modulus && tail < modulus
    ensures r < modulus
  {
    if tail <= head then head - tail else head + modulus - tail
  }

  /** The slot i places after `tail`, going round. */
  function Place(modulus: nat, tail: nat, i: nat): (r: nat)
    requires tail < modulus && i < modulus
    ensures r < modulus
  {
    if tail + i < modulus then tail + i else tail + i - modulus
  }

  /** The descriptors waiting in the slots, oldest first. */
  function Waiting(slots: seq<Descriptor>, modulus: nat, head: nat, tail: nat): (r: seq<Descriptor>)
    requires head < modulus <= |slots| && tail < modulus
    ensures |r| == Gap(modulus, head, tail)
  {
    seq(Gap(modulus, head, tail), i requires 0 <= i < Gap(modulus, head, tail) =>
      slots[Place(modulus, tail, i)])
  }

  class Ring {
    const size: nat
    const slots: array<Descriptor>
    var head: nat
    var tail: nat

    ghost predicate Valid()
      reads this
    {
      SizeOk(size) && slots.Length == size && head < Modulus(size) && tail < Modulus(size)
    }

    ghost function Contents(): seq<Descriptor>
      requires Valid()
      reads this, slots
    {
      Waiting(slots[..], Modulus(size), head, tail)
    }

    ghost function Capacity(): nat
      requires Valid()
      reads this
    {
      Modulus(size) - 1
    }

    constructor (size: nat)
      requires SizeOk(size)
      ensures Valid() && this.size == size && Contents() == [] && fresh(slots)
    {
      this.size := size;
      slots := new Descriptor[size](_ => Descriptor(0, 0));
      head, tail := 0, 0;
    }

    /** Accepts exactly when there is room, and then appends at the back. */
    method Push(d: Descriptor) returns (ok: bool)
      requires Valid()
      modifies this`head, slots
      ensures Valid()
      ensures ok == (|old(Contents())| < Capacity())
      ensures Contents() == if ok then old(Contents()) + [d] else old(Contents())
    {
      hide And;
      NextWraps(head, size);
      hide Next;
      var h := head;
      var t := tail;
      if Next(h, size) == t {
        return false;
      }
      slots[h] := d;
      head := Next(h, size);
      assert Contents() == old(Contents()) + [d];
      return true;
    }

    /** Delivers exactly when something waits, and then the oldest. */
    method Pop(out: Descriptor) returns (ok: bool, out': Descriptor)
      requires Valid()
      modifies this`tail
      ensures Valid()
      ensures ok == (old(Contents()) != [])
      ensures ok ==> old(Contents()) == [out'] + Contents()
      ensures !ok ==> out' == out && Contents() == old(Contents())
    {
      hide And;
      NextWraps(tail, size);
      hide Next;
      var t := tail;
      var h := head;
      if h == t {
        return false, out;
      }
      out' := slots[t];
      tail := Next(t, size);
      assert old(Contents()) == [out'] + Contents();
      return true, out';
    }
  }

  // ---------------------------------------------------------------- saturation and drain

  const OVERFLOW_ITERATIONS: nat := 2048
  const JUNK: Descriptor := Descriptor(0xDEADBEEF, 64)

  function Copies(d: Descriptor, n: nat): (r: seq<Descriptor>)
    ensures |r| == n && forall i :: 0 <= i < n ==> r[i] == d
  {
    seq(n, _ => d)
  }

  /** `force_buffer_overflow`: whatever was waiting stays in front, junk fills every free place, no more. */
  method ForceBufferOverflow(ring: Ring)
    requires ring.Valid() && ring.size == SHUTTLE_SIZE
    modifies ring`head, ring.slots
    ensures ring.Valid() && |old(ring.Contents())| <= 1023
    ensures ring.Contents() == old(ring.Contents()) + Copies(Descriptor(0xDEADBEEF, 64), 1023 - |old(ring.Contents())|)
  {
    hide And;
    ghost var before := ring.Contents();
    assert |before| <= SHUTTLE_SIZE - 1;
    ghost var n := 0;
    assert before == before + Copies(JUNK, 0);
    for i := 0 to OVERFLOW_ITERATIONS
      invariant ring.Valid()
      invariant n == if i <= SHUTTLE_SIZE - 1 - |before| then i else SHUTTLE_SIZE - 1 - |before|
      invariant ring.Contents() == before + Copies(JUNK, n)
    {
      var ok := ring.Push(JUNK);
      if ok {
        assert before + Copies(JUNK, n) + [JUNK] == before + Copies(JUNK, n + 1);
        n := n + 1;
      }
    }
  }

  /** The drain loop of `process_dma`: empties the ring in order, and adds one to
      the 64-bit counter for each descriptor. */
  method Drain(ring: Ring, counter: nat) returns (counter': nat, ghost popped: seq<Descriptor>)
    requires ring.Valid() && counter < TWO_64
    modifies ring`tail
    ensures ring.Valid() && ring.Contents() == []
    ensures popped == old(ring.Contents())
    ensures counter' == Raised(counter, |old(ring.Contents())|)
  {
    RaisedStep(counter, 0);
    SplitStep(ring.Contents(), [], ring.Contents());
    hide *;
    ghost var before := ring.Contents();
    ghost var rest := before;
    counter', popped := counter, [];
    var desc := Descriptor(0, 0);
    var more;
    more, desc := ring.Pop(desc);
    while more
      invariant ring.Valid()
      invariant more ==> rest != [] && rest[0] == desc && ring.Contents() == rest[1..]
      invariant !more ==> rest == [] && ring.Contents() == []
      invariant Split(before, popped, rest)
      invariant counter' == Raised(counter, |popped|)
      decreases |rest|
    {
      RaisedStep(counter, |popped|);
      SplitStep(before, popped, rest);
      counter' := Bump(counter');
      popped, rest := popped + [desc], rest[1..];
      more, desc := ring.Pop(desc);
    }
    SplitStep(before, popped, rest);
  }

  ghost predicate Split(whole: seq<Descriptor>, front: seq<Descriptor>, back: seq<Descriptor>) {
    whole == front + back
  }

  lemma SplitStep(whole: seq<Descriptor>, front: seq<Descriptor>, back: seq<Descriptor>)
    ensures Split(whole, [], whole)
    ensures Split(whole, front, back) && back != [] ==> Split(whole, front + [back[0]], back[1..])
    ensures Split(whole, front, []) ==> front == whole
  {
  }
}
