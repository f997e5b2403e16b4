/**
 The driver and the network portal as one thread sees them: opening and closing,
 `transmit`, `receive` and `bridge_to_shuttle` over one shuttle, with or without a
 statistics block, and the watchdog's polling loop.  The interleaved view is in
 DataPlane and ControlLoop.
 */
module Driver {
  import opened Bits
  import opened Fifo
  import RingIndex
  import RingBuffer
  import DataPlane
  import ControlLoop

  datatype Status = SUCCESS | FULL | EMPTY

  /** The registers the driver touches. */
  class Registers {
    var control: nat
    var dataPtr: nat

    constructor (control: nat, dataPtr: nat)
      ensures this.control == control && this.dataPtr == dataPtr
    {
      this.control, this.dataPtr := control, dataPtr;
    }
  }

  /** A statistics block, and what has been counted in it. */
  class Stats {
    var packets: nat
    var bytes: nat
    var dropped: nat
    ghost var counted: seq<Descriptor>
    ghost var refused: nat

    ghost predicate Valid()
      reads this
    {
      && packets == Raised(0, |counted|)
      && bytes == Raised(0, DataPlane.TotalLen(counted))
      && dropped == Raised(0, refused)
    }

    constructor ()
      ensures Valid() && counted == [] && refused == 0
    {
      packets, bytes, dropped, counted, refused := 0, 0, 0, [], 0;
    }

    method CountAccepted(d: Descriptor)
      requires Valid()
      modifies this
      ensures Valid() && counted == old(counted) + [d] && refused == old(refused)
    {
      hide Raised, Bump, DataPlane.TotalLen;
      Booked(counted, d);
      packets := Bump(packets);
      bytes := Raised(bytes, d.len);
      counted := counted + [d];
    }

    method CountDropped()
      requires Valid()
      modifies this
      ensures Valid() && counted == old(counted) && refused == old(refused) + 1
    {
      RaisedStep(0, refused);
      dropped := Bump(dropped);
      refused := refused + 1;
    }
  }

  lemma Booked(counted: seq<Descriptor>, d: Descriptor)
    ensures Raised(0, |counted + [d]|) == Bump(Raised(0, |counted|))
    ensures Raised(0, DataPlane.TotalLen(counted + [d])) == Raised(Raised(0, DataPlane.TotalLen(counted)), d.len)
  {
    RaisedStep(0, |counted|);
    DataPlane.TotalLenSnoc(counted, d);
    RaisedRaised(0, DataPlane.TotalLen(counted), d.len);
  }

  /** What one offer leaves in a statistics block, if one is linked. */
  twostate predicate Noted(stats: Stats?, pushed: seq<Descriptor>, drops: nat)
    reads stats
  {
    stats != null ==>
      && stats.Valid()
      && stats.counted == old(stats.counted) + pushed
      && stats.refused == old(stats.refused) + drops
  }

  /** A driver, and what has gone through its shuttle so far. */
  class Driver {
    const regs: Registers
    const ring: RingBuffer.Ring
    var stats: Stats?
    var runWatchdog: bool
    var watchdogReady: bool
    ghost var accepted: seq<Descriptor>
    ghost var delivered: seq<Descriptor>

    /** Nothing is lost or reordered in the shuttle, and a linked block has its counts right. */
    ghost predicate Valid()
      reads this, ring, ring.slots, stats
    {
      && ring.Valid()
      && accepted == delivered + ring.Contents()
      && (stats != null ==> stats.Valid())
    }

    /** The linked block has counted everything this driver's shuttle accepted. */
    ghost predicate Balanced()
      reads this, stats
    {
      stats != null && stats.counted == accepted
    }

    /** Allocates the shuttle and commits its address to the device; no statistics yet. */
    constructor (regs: Registers, size: nat, deviceAddr: nat)
      requires RingIndex.SizeOk(size)
      modifies regs`dataPtr
      ensures Valid() && this.regs == regs && fresh(ring) && fresh(ring.slots) && ring.size == size
      ensures ring.Contents() == [] && accepted == [] && stats == null
      ensures regs.dataPtr == deviceAddr && runWatchdog && !watchdogReady
    {
      this.regs := regs;
      ring := new RingBuffer.Ring(size);
      stats := null;
      runWatchdog, watchdogReady := true, false;
      accepted, delivered := [], [];
      new;
      regs.dataPtr := deviceAddr;
    }

    /** The destructor takes the address back and tells the watchdog to stop. */
    method Close()
      modifies this`runWatchdog, regs`dataPtr
      ensures regs.dataPtr == 0 && !runWatchdog
    {
      regs.dataPtr := 0;
      runWatchdog := false;
    }

    /** Linking a new block before anything was accepted starts balanced books. */
    method SetStatsLink(link: Stats?)
      requires Valid() && (link != null ==> link.Valid())
      modifies this`stats
      ensures Valid() && stats == link
      ensures link != null && link.counted == accepted ==> Balanced()
    {
      stats := link;
    }

    method Transmit(d: Descriptor) returns (status: Status)
      requires Valid()
      modifies this`accepted, ring`head, ring.slots, stats
      ensures Valid()
      ensures status == if |old(ring.Contents())| < ring.Capacity() then SUCCESS else FULL
      ensures accepted == old(accepted) + (if status == SUCCESS then [d] else [])
      ensures Noted(stats, if status == SUCCESS then [d] else [], if status == SUCCESS then 0 else 1)
      ensures old(Balanced()) ==> Balanced()
    {
      hide And, RingBuffer.Waiting, Raised, DataPlane.TotalLen;
      var ok := ring.Push(d);
      if ok {
        if stats != null {
          stats.CountAccepted(d);
        }
        accepted := accepted + [d];
        assert accepted == delivered + ring.Contents();
        return SUCCESS;
      }
      if stats != null {
        stats.CountDropped();
      }
      return FULL;
    }

    method Receive(out: Descriptor) returns (status: Status, out': Descriptor)
      requires Valid()
      modifies this`delivered, ring`tail
      ensures Valid()
      ensures status == if old(ring.Contents()) != [] then SUCCESS else EMPTY
      ensures delivered == old(delivered) + (if status == SUCCESS then [out'] else [])
      ensures status == EMPTY ==> out' == out && ring.Contents() == old(ring.Contents())
    {
      hide And, RingBuffer.Waiting, Raised, DataPlane.TotalLen;
      var ok;
      ok, out' := ring.Pop(out);
      if ok {
        delivered := delivered + [out'];
        return SUCCESS, out';
      }
      return EMPTY, out';
    }

    /** The watchdog thread over the temperatures it happens to read until somebody
        stops it: it writes 0 to `control` exactly when one of them breaches, at the
        first that does, and then it is finished for good. */
    method WatchdogLoop(readings: seq<nat>) returns (polls: nat)
      modifies this`runWatchdog, this`watchdogReady, regs`control
      ensures watchdogReady && polls <= |readings|
      ensures !old(runWatchdog) ==> polls == 0 && !runWatchdog && regs.control == old(regs.control)
      ensures forall i :: 0 <= i < (if runWatchdog then polls else polls - 1) ==> readings[i] <= 45000
      ensures runWatchdog ==> polls == |readings| && regs.control == old(regs.control)
      ensures old(runWatchdog) && !runWatchdog ==>
                polls > 0 && readings[polls - 1] > 45000 && regs.control == 0
    {
      watchdogReady := true;
      polls := 0;
      while runWatchdog && polls < |readings|
        invariant runWatchdog == old(runWatchdog) && regs.control == old(regs.control)
        invariant polls <= |readings| && (!runWatchdog ==> polls == 0)
        invariant forall i :: 0 <= i < polls ==> readings[i] <= ControlLoop.TRIP
      {
        var temp := readings[polls];
        polls := polls + 1;
        if temp > ControlLoop.TRIP {
          regs.control := 0;
          runWatchdog := false;
          break;
        }
      }
    }
  }

  /** Opening a driver fails exactly on null registers, before anything is written. */
  method Open(regs: Registers?, size: nat, deviceAddr: nat) returns (d: Driver?)
    requires RingIndex.SizeOk(size)
    modifies regs
    ensures d == null <==> regs == null
    ensures regs != null ==> regs.control == old(regs.control)
    ensures d != null ==> fresh(d) && d.regs == regs && d.Valid() && d.ring.Contents() == [] && d.stats == null
    ensures d != null ==> d.ring.size == size && d.accepted == []
    ensures d != null ==> d.watchdogReady && d.runWatchdog && d.regs.dataPtr == deviceAddr
  {
    if regs == null {
      return null;
    }
    d := new Driver(regs, size, deviceAddr);
    d.watchdogReady := true;
  }

  // ---------------------------------------------------------------- the portal

  /** What the receive queue offers: a frame has its raw address, its translated address and length. */
  datatype Received = NoFrame | Frame(raw: nat, d: Descriptor)

  /** The portal's side of its queues: frames taken, given back, and put up for reuse. */
  class Portal {
    const umemStart: nat
    const umemEnd: nat
    var released: nat
    var recycled: seq<nat>
    ghost var taken: seq<nat>
    ghost var held: nat

    constructor (umemStart: nat, umemEnd: nat)
      ensures this.umemStart == umemStart && this.umemEnd == umemEnd
      ensures Valid() && released == 0 && recycled == [] && taken == [] && held == 0
    {
      this.umemStart, this.umemEnd := umemStart, umemEnd;
      released, recycled, taken, held := 0, [], [], 0;
    }

    /** Every frame taken was given back, except those a full shuttle left in hand. */
    ghost predicate Valid()
      reads this
    {
      |taken| == released + held
    }

    /** `is_addr_valid`, with the end of the frame computed in 64 bits. */
    predicate AddressValid(d: Descriptor) {
      d.addr >= umemStart && (d.addr + d.len) % TWO_64 <= umemEnd
    }

    method RecycleFrame(raw: nat, reserved: bool)
      modifies this`recycled
      ensures recycled == old(recycled) + (if reserved then [raw] else [])
    {
      if reserved {
        recycled := recycled + [raw];
      }
    }

    /** A frame outside the memory is dropped and given back; one the shuttle accepts
        is given back; one that meets a full shuttle is counted as dropped and kept. */
    method BridgeToShuttle(driver: Driver, stats: Stats?, r: Received, reserved: bool)
      requires Valid() && driver.Valid() && (stats != null ==> stats.Valid())
      modifies this, driver`accepted, driver.ring`head, driver.ring.slots, stats
      ensures Valid() && driver.Valid()
      ensures r.NoFrame? ==>
                && driver.accepted == old(driver.accepted) && Noted(stats, [], 0)
                && released == old(released) && recycled == old(recycled) && taken == old(taken)
      ensures r.Frame? ==>
                var pushed := AddressValid(r.d) && |old(driver.ring.Contents())| < driver.ring.Capacity();
                var kept := AddressValid(r.d) && !pushed;
                && driver.accepted == old(driver.accepted) + (if pushed then [r.d] else [])
                && Noted(stats, if pushed then [r.d] else [], if pushed then 0 else 1)
                && taken == old(taken) + [r.raw]
                && held == old(held) + (if kept then 1 else 0)
                && released == old(released) + (if kept then 0 else 1)
                && recycled == old(recycled) + (if !kept && reserved then [r.raw] else [])
      ensures stats == driver.stats && old(driver.Balanced()) ==> driver.Balanced()
    {
      hide And, RingBuffer.Waiting, Raised, DataPlane.TotalLen;
      if r.NoFrame? {
        return;
      }
      taken := taken + [r.raw];
      if !AddressValid(r.d) {
        if stats != null {
          stats.CountDropped();
        }
        RecycleFrame(r.raw, reserved);
        released := released + 1;
        return;
      }
      var ok := driver.ring.Push(r.d);
      if ok {
        released := released + 1;
        if stats != null {
          stats.CountAccepted(r.d);
        }
        driver.accepted := driver.accepted + [r.d];
        assert driver.accepted == driver.delivered + driver.ring.Contents();
        RecycleFrame(r.raw, reserved);
      } else {
        if stats != null {
          stats.CountDropped();
        }
        held := held + 1;
      }
    }
  }

  /** The address test is "the frame lies in the memory" for all frames but those that
      end past 2^64 and wrap to at most the memory's end; there it accepts wrongly. */
  lemma AddressTestExactly(p: Portal, d: Descriptor)
    requires p.umemEnd < TWO_64 && d.addr < TWO_64 && d.len < TWO_32
    ensures (p.AddressValid(d) <==> p.umemStart <= d.addr && d.addr + d.len <= p.umemEnd) <==>
            (p.umemStart <= d.addr && d.addr + d.len >= TWO_64 ==> d.addr + d.len - TWO_64 > p.umemEnd)
  {
    if d.addr + d.len >= TWO_64 {
      DivModUnique(d.addr + d.len, TWO_64, 1, d.addr + d.len - TWO_64);
    } else {
      ModSmall(d.addr + d.len, TWO_64);
    }
  }

  /** Every portal accepts the one-byte frame at the top of the address space, though
      it ends past any memory. */
  lemma WrappedFrameAccepted(p: Portal, d: Descriptor)
    requires p.umemStart < TWO_64 && p.umemEnd < TWO_64 && d == Descriptor(TWO_64 - 1, 1)
    ensures p.AddressValid(d) && d.addr + d.len > p.umemEnd
  {
    AddressTestExactly(p, d);
  }
}
