# Porth-IO: a verified model of the data plane and its digital twin

This project models the behaviour Porth-IO promises of its lock-free ring, of the
data plane around it, of the digital twin that drains it, and of the statistics and
packet filter beside it, and proves properties of that model with Dafny.  Run
`dafny verify dfyconfig.toml` here to check everything.

| file | models |
|---|---|
| `Wrappers.dfy`, `Bits.dfy`, `RingIndex.dfy` | an optional value; bitwise and / xor on naturals; index masking with 32-bit wrap |
| `Fifo.dfy` | the reference queue and its histories |
| `Spsc.dfy` | `push` and `pop` as atomic actions of two threads over release/acquire memory |
| `RingBuffer.dfy` | the ring object, its saturation loop and its drain loop, updated in place |
| `DataPlane.dfy` | `transmit`, `bridge_to_shuttle` and `process_dma` interleaved, with their counters |
| `Driver.dfy` | the driver, the portal and the statistics block as one thread sees them, and the watchdog loop |
| `DmaGuard.dfy` | the latched shuttle address against chaos flips, host writes and teardown |
| `Thermal.dfy`, `ControlLoop.dfy` | the thermal lattice, and the closed loop with the driver's watchdog |
| `SimPhy.dfy`, `SimDevice.dfy` | the PHY and the simulated device as objects, proved against those models |
| `LatencyMetric.dfy` | sample buffer, percentiles, variance |
| `PacketFilter.dfy` | XDP filter and payload extraction |
| `Handshake.dfy` | the START/READY demo handshake |

How the main parts are set up:

- **Memory of the ring.** An index cell is the list of its stores.  A load of the
  other side's index may return any store no older than the last one seen; its
  acquire brings the slot accesses that store released.  A slot read may return any
  write not known to be overwritten, and any value when no write is known.
  Sequential consistency is the special case in which every load is current.
- **Ring size.** `SIZE` is any value the compile-time guard lets through except 0,
  which it also lets through.  Sizes above 2^32 are covered: the ring then uses 2^32
  slots, because the index has 32 bits.
- **Schedules.** A run is a sequence of atomic actions; every theorem about runs is
  about all of them.  Real time, sleeps, spinning and random draws become arbitrary
  interleaving and arbitrary values in range.

Where code and expectation differ, the model follows the code:

- With stale loads `push` can report a full ring that is empty (`Spsc.SpuriousFull`)
  and `pop` an empty ring that is full (`Spsc.SpuriousEmpty`).
  On every run a refused push met a full queue, and a refused pop an empty one,
  exactly when the index it loaded was current (`Spsc.RefusalExactlyWhenCurrent`);
  with current loads throughout every refusal is right (`Spsc.RefusalsExact`).
- The ring holds one descriptor less than the "number of descriptors" its
  documentation gives for `SIZE`.
- A frame that meets a full shuttle is neither released nor recycled: the portal
  keeps it (`Driver.Portal.BridgeToShuttle`).  The portal's address test accepts a
  frame outside its memory exactly when the frame's end wraps past 2^64 to at most
  the end of the memory (`Driver.AddressTestExactly`); every portal accepts such a
  frame (`Driver.WrappedFrameAccepted`).
- The pointer guard trusts the first valid address it sees.  At any point of the
  physics loop the device stays on the shuttle exactly when the shuttle is latched, or
  a latch elsewhere has another high half than the address it will load, or nothing is
  latched and the very next guard will load the shuttle
  (`DmaGuard.StraysLaterExactly`).  The driver's write of the address to a
  device that has latched nothing is therefore safe exactly before the guard, or inside
  a flip that happens to yield that address (`DmaGuard.HandshakeWriteExactly`): between the guard and the flip the device can
  latch and drain the flipped address (`DmaGuard.LateWriteStrays`).
- The destructor's write of 0 keeps the physics thread off the ring for good exactly
  when the latched address is 4 GiB or more; made inside a flip it is overwritten and
  the address being flipped decides (`DmaGuard.TeardownExactly`,
  `DmaGuard.TeardownCanBeLost`).
- The filter accepts an IP header shorter than five words; such a frame can make the
  extractor's length wrap (`PacketFilter.ShortHeaderUnderflows`).  It also accepts
  longer headers; then the extractor returns bytes that are not the UDP payload,
  because it skips 42 bytes whatever the header says
  (`PacketFilter.ExtractionOfRedirected`, `PacketFilter.LongHeaderMisread`).
- The delay sum is right exactly when the jitter is at most the base delay plus 5 ns
  and the largest sum fits in 64 bits (`SimPhy.DelayRightExactly`).
- The handshake demo's RESET stops the hardware exactly when `control` reads IDLE
  just before it is written (`Handshake.ShutdownExactly`); a driver quicker than the
  hardware's IDLE write loses it (`Handshake.ResetCanBeLost`).
- The watchdog is one-shot.  The closed-loop ceiling needs that nobody writes 1 to
  `control` after it has halted: for every latency from 1 to 1760 some run that does
  reaches 89020 mC, and for no other latency is the ceiling exceeded
  (`ControlLoop.RestartExactly`).  The ceiling itself is the exact maximum over all
  runs, for every latency (`ControlLoop.CeilingExactly`); from 1761 on it is the top of
  the thermal band, so the watchdog guards nothing.

## Model

| member | source | states |
|---|---|---|
| Bits.PowerOfTwoGuard | include/porth/PorthRingBuffer.hpp:83-84 | a nonzero SIZE passes the compile-time guard exactly when it is a power of two |
| Bits.AndMaskIsMod | include/porth/PorthRingBuffer.hpp:144-154 | masking with 2^k - 1 is reduction modulo 2^k |
| Bits.AndBit | include/porth/PorthRingBuffer.hpp:144-154 | bit by bit, the masked value has exactly the bits both operands have |
| RingIndex.SizeOkExactly | include/porth/PorthRingBuffer.hpp:83-84 | the ring sizes every result covers are all the powers of two |
| RingIndex.NextWraps | include/porth/PorthRingBuffer.hpp:154 | advancing an index with the mask wraps like an increment modulo the slots in use, with 32-bit overflow |
| RingIndex.IndexStep | include/porth/PorthRingBuffer.hpp:171-179 | storing the masked successor keeps "index = count mod slots", always inside the array |
| RingIndex.FullTest | include/porth/PorthRingBuffer.hpp:144-148 | within a lap, the full test is true exactly when all slots but one are taken |
| Fifo.Conservation | include/porth/PorthRingBuffer.hpp:69-79 | for every legal queue history, what went in is what came out followed by what is inside |
| Spsc.ReadsTheNextValue | include/porth/PorthRingBuffer.hpp:166-181 | whatever the memory model lets the consumer read from its slot, it reads the next descriptor due |
| Spsc.StepInv | include/porth/PorthRingBuffer.hpp:140-181 | every atomic action of either side keeps the ring invariant |
| Spsc.CallsAreTheSchedule | include/porth/PorthRingBuffer.hpp:140-181 | on every run the recorded calls are exactly the descriptors and the number of pops the schedule itself starts |
| Spsc.Linearizable | include/porth/PorthRingBuffer.hpp:140-181 | on every interleaving, stale loads included, the events (push at the head store, pop at the tail store, refusals at the load) form a history of the bounded queue; the k-th push of the schedule is accepted with the schedule's k-th descriptor or refused, as its event says; only a call in progress has no reply |
| Spsc.HistoryGrows | include/porth/PorthRingBuffer.hpp:140-181 | events, calls and returned values are never revised, so each event stays between its call and its return |
| Spsc.RepliesAreHistory | include/porth/PorthRingBuffer.hpp:140-181 | the schedule's descriptors whose push returned true are the history's pushes, the values pops returned are its pops |
| Spsc.FifoOrder | include/porth/PorthRingBuffer.hpp:140-181 | the values the pops returned are a prefix of the schedule's accepted descriptors, the rest is in the slots, and the occupancy never exceeds one less than the slots in use |
| Fifo.RefusalMeaning | include/porth/PorthRingBuffer.hpp:142-148 | in every legal history each prefix is legal, and a refusal is flagged current exactly when the queue it met was full (push) or empty (pop) |
| Spsc.RefusalExactlyWhenCurrent | include/porth/PorthRingBuffer.hpp:142-148 | on every run, stale loads included: a refused push loaded the newest tail exactly when the queue was full, a refused pop the newest head exactly when it was empty |
| Spsc.RefusalsExact | include/porth/PorthRingBuffer.hpp:142-148 | when every load is current, the queue at a refused push held one less than the slots in use, and at a refused pop nothing |
| Spsc.SpuriousFull | include/porth/PorthRingBuffer.hpp:142-148 | a run with a stale load in which push reports full on an empty ring |
| Spsc.SpuriousEmpty | include/porth/PorthRingBuffer.hpp:166-175 | a run with a stale load in which pop reports empty on a full ring |
| Spsc.ProducerRaceFree | include/porth/PorthRingBuffer.hpp:146-154 | before a slot write, every earlier read of that slot happens-before it, nobody is reading it, and no unread descriptor is in it |
| Spsc.ConsumerRaceFree | include/porth/PorthRingBuffer.hpp:171-179 | before a slot read, every write to that slot happens-before it, and the slot has been written |
| Spsc.AlwaysRaceFree | include/porth/PorthRingBuffer.hpp:140-181 | both hold in every reachable state of every run |
| Spsc.NeverBlocked | include/porth/PorthRingBuffer.hpp:69-71 | in every reachable state each side can take its next step whatever the other is doing, with any load no older than the last one seen |
| Spsc.WaitFree | include/porth/PorthRingBuffer.hpp:140-181 | a call in progress has returned after at most four more steps of its own thread, on every interleaving |
| RingBuffer.Ring.constructor | include/porth/PorthRingBuffer.hpp:114-120 | a new ring is empty |
| RingBuffer.Ring.Push | include/porth/PorthRingBuffer.hpp:140-156 | accepts exactly when there is room, appends at the back, changes nothing otherwise |
| RingBuffer.Ring.Pop | include/porth/PorthRingBuffer.hpp:166-181 | delivers exactly when something waits, the oldest; leaves the out-parameter and the ring alone otherwise |
| RingBuffer.ForceBufferOverflow | include/porth/PorthSimDevice.hpp:267-272 | keeps the old contents in front, adds exactly 1023 less occupancy junk descriptors, ends full |
| RingBuffer.Drain | include/porth/PorthSimDevice.hpp:117-125 | terminates, pops everything in order, raises the 64-bit counter by the occupancy |
| DataPlane.RunInv | include/porth/PorthDriver.hpp:172-184 | every counter equals its start plus what was accepted, refused or delivered, less what is still uncounted, on every interleaving |
| DataPlane.NeverBlocked | include/porth/PorthXDPPortal.hpp:161-197 | at every point of every run both threads can go on, whatever the other is doing |
| DataPlane.PacketConservation | include/porth/PorthXDPPortal.hpp:185-196 | packets counted less work counted is the ring occupancy up to one, and exactly the occupancy when no count is pending, mod 2^64 |
| DataPlane.RingRuns | include/porth/PorthDriver.hpp:172-184 | every run of the data plane is a run of the ring, with the run's own descriptors as its pushes in order; offers are those plus the invalid frames |
| DataPlane.OffersAccountedFor | include/porth/PorthXDPPortal.hpp:172-196 | between operations total_bytes moved by the sum of the lengths of exactly those offered descriptors whose push was accepted, total_packets by their number, and every other offer or invalid frame was counted as dropped |
| DataPlane.WorkAccountedFor | include/porth/PorthSimDevice.hpp:117-125 | between pops the work counter moved by the number of descriptors pops returned |
| Driver.Open | include/porth/PorthDriver.hpp:116-139 | opening fails exactly on null registers and writes nothing then; otherwise data_ptr holds the shuttle's address, the shuttle has the given size and is empty, no statistics are linked and the watchdog is up |
| Driver.Driver.constructor | include/porth/PorthDriver.hpp:116-126 | allocates an empty shuttle of the given size and commits its address to data_ptr, no other register |
| Driver.Driver.Close | include/porth/PorthDriver.hpp:147-159 | takes the address back and clears the watchdog's run flag |
| Driver.Driver.SetStatsLink | include/porth/PorthDriver.hpp:162 | replaces the link, null included; a block that has counted what was accepted is balanced |
| Driver.Stats.CountAccepted | include/porth/PorthDriver.hpp:175-176 | packets and bytes stay the count and the total length of what was counted, mod 2^64 |
| Driver.Stats.CountDropped | include/porth/PorthDriver.hpp:181 | drops stay the count of refusals, mod 2^64 |
| Driver.Driver.Transmit | include/porth/PorthDriver.hpp:172-184 | with or without statistics: accepts exactly when there is room, accepted = delivered + waiting, and a linked block counts the descriptor or the drop; balanced books stay balanced |
| Driver.Driver.Receive | include/porth/PorthDriver.hpp:194-199 | delivers the oldest waiting descriptor, exactly when there is one, and keeps the books |
| Driver.Portal.BridgeToShuttle | include/porth/PorthXDPPortal.hpp:161-197 | with or without statistics: pushes a frame exactly when its address is valid and there is room, counts any other as dropped; releases and recycles it unless the shuttle was full, so frames taken = released + held |
| Driver.AddressTestExactly | include/porth/PorthXDPPortal.hpp:59-64 | the address test means "inside the memory" for exactly the frames whose end does not wrap to within it |
| Driver.WrappedFrameAccepted | include/porth/PorthXDPPortal.hpp:59-64 | the one-byte frame at 2^64 - 1 is accepted by every portal, though it ends past its memory |
| Driver.Driver.WatchdogLoop | include/porth/PorthDriver.hpp:89-103 | writes 0 to control exactly when a reading breaches, at the first that does, and then stops for good; does nothing once the run flag is cleared |
| DmaGuard.ValidMeansAligned | include/porth/PorthSimDevice.hpp:99-106 | the guard's address test is "nonzero and a multiple of 64" |
| DmaGuard.LoadsAreTheRun | include/porth/PorthSimDevice.hpp:97-98 | on every run data_ptr holds the last value the events wrote, and each guard loads what it holds then |
| DmaGuard.OneAddressEver | include/porth/PorthSimDevice.hpp:97-117 | over any run with host writes and flips at register level, the device drains only the first valid address its guards load, and exactly each time they load it |
| DmaGuard.DrainsExactlyWhenRestored | include/porth/PorthSimDevice.hpp:97-126 | latched at A with data_ptr last written A, an iteration drains exactly when each of the low 32 bits was flipped an even number of times |
| DmaGuard.AfterBits | include/porth/PorthSimDevice.hpp:171-178 | flips of the m low bits change exactly the oddly flipped ones and never what is above |
| DmaGuard.CanDrainExactly | include/porth/PorthSimDevice.hpp:97-111 | on device activity alone a future drain is possible exactly when nothing is latched or the high halves of data_ptr and latch agree |
| DmaGuard.NeverStraysExactly | include/porth/PorthSimDevice.hpp:97-117 | between whole iterations without host writes: no sequence of flips makes the device drain anything but the shuttle, if and only if the shuttle is latched or in data_ptr with nothing latched, or the latch is out of the flips' reach |
| DmaGuard.StraysLaterExactly | include/porth/PorthSimDevice.hpp:97-126 | at any point of the physics loop, register by register: no continuation without host writes drains anything but the shuttle, if and only if the shuttle is latched, or the latch's high half differs from that of the address pending, or nothing is latched and the next guard is bound to load the shuttle |
| DmaGuard.HandshakeWriteExactly | include/porth/PorthDriver.hpp:124-126 | the driver's address write to a device with nothing latched is safe exactly before the guard, or inside a flip that yields that address |
| DmaGuard.LateWriteStrays | include/porth/PorthSimDevice.hpp:192-202 | from power-on a write between guard and flip: data_ptr holds the shuttle, nothing is latched, and the device then latches and drains the flipped address |
| DmaGuard.StrayPath | include/porth/PorthSimDevice.hpp:108-117 | otherwise, with nothing latched, flips that make it latch and drain another address |
| DmaGuard.DrainsLaterExactly | include/porth/PorthSimDevice.hpp:97-126 | from any point of the physics loop, register by register, a later drain without host writes is possible exactly when nothing is latched or the high half of the address it will load agrees with the latch |
| DmaGuard.IterationsAreRuns | include/porth/PorthSimDevice.hpp:192-202 | every sequence of whole iterations is a register-level run to the same pointer and latch |
| DmaGuard.TeardownExactly | include/porth/PorthDriver.hpp:147-153 | after the destructor's write of 0, at any point of the loop, no event without a host write ever drains again exactly when an address of 4 GiB or more is latched; inside a flip the address being flipped decides |
| DmaGuard.TeardownCanBeLost | include/porth/PorthSimDevice.hpp:171-178 | a run from power-on after which the write of 0, landing inside the flip of the latched address, is undone: the device can drain it again |
| Thermal.StepPlain | include/porth/PorthSimDevice.hpp:129-153 | within the invariant the 32-bit steps are plain arithmetic: no overflow, no underflow |
| Thermal.StepStable | include/porth/PorthSimDevice.hpp:129-166 | one step keeps voltage a multiple of 4000 up to 800000, temperature a multiple of 5 in [24990, 89020], SNR in [1775, 3000] and one unit lower for every full 40 mC above 40000 |
| Thermal.AlwaysStable | include/porth/PorthSimDevice.hpp:129-166 | the same after every schedule of control values, from cold or from any state of the invariant |
| Thermal.LowestIsReached | include/porth/PorthSimPHY.hpp:169-180 | a schedule that undershoots to 24990 |
| Thermal.HighestIsReached | include/porth/PorthSimPHY.hpp:169-180 | a schedule that overshoots to 89020, so the band is sharp |
| Thermal.VoltSettles | include/porth/PorthSimDevice.hpp:132-144 | closed form of the voltage under constant control |
| Thermal.Settling | include/porth/PorthSimPHY.hpp:169-180 | the +25 / -15 steps always end on the target: a settling time exists and is bounded |
| Thermal.SettlesExactly | include/porth/PorthSimPHY.hpp:169-180 | with the voltage settled, the temperature is on target at step n exactly when n is at least the settling time |
| Thermal.Converges | include/porth/PorthSimDevice.hpp:129-153 | from any state of the invariant, under any constant control, within 4476 steps and for ever: 89000 driven, 25000 otherwise |
| Thermal.HeatingClosedForm | include/porth/PorthSimDevice.hpp:132-153 | voltage and temperature after n steps of control 1 from cold |
| Thermal.FirstBreach | include/porth/PorthDriver.hpp:60 | the 45000 mC limit is exceeded from step 803 on and not before |
| ControlLoop.StepInv | include/porth/PorthDriver.hpp:89-103 | every register access of physics, watchdog and application keeps the safety invariant |
| ControlLoop.NeverOverCeiling | include/porth/PorthDriver.hpp:89-103 | for every watchdog latency, every voltage an earlier run left and every schedule, the temperature never exceeds the ceiling: limit, plus 25 mC per step of latency, plus the coast while the voltage comes down |
| ControlLoop.CeilingIsReached | include/porth/PorthDriver.hpp:89-103 | for every latency and every voltage left over, a run that reaches the ceiling |
| ControlLoop.ColdUntilStarted | include/porth/PorthSimDevice.hpp:206-217 | as long as nobody writes 1 to control, a device without leftover voltage stays at 25000 mC |
| ControlLoop.CeilingExactly | include/porth/PorthDriver.hpp:89-103 | a number bounds the temperature of all runs if and only if it is at least the ceiling: the closed form is the exact maximum for every latency |
| ControlLoop.PromptCeiling | include/porth/PorthDriver.hpp:89-103 | for latency L from 1 to 31 the ceiling is 46625 + 25 L mC |
| ControlLoop.RestartIsUnguarded | include/porth/PorthDriver.hpp:97-100 | for every latency from 1 to 1760 a run in which control is written 1 after the halt: the twin reaches 89020 mC, over the ceiling, with the watchdog gone |
| ControlLoop.RestartExactly | include/porth/PorthDriver.hpp:97-100 | a restart takes some run over the ceiling if and only if the latency is 1 to 1760 |
| SimPhy.JitterExactly | include/porth/PorthSimPHY.hpp:103-112 | no thermal jitter up to 40000 mC, then one nanosecond per full 1000 mC above |
| SimPhy.ModularSum | include/porth/PorthSimPHY.hpp:198-208 | the sum built in 64-bit steps is the true signed sum mod 2^64 |
| SimPhy.DelayRightExactly | include/porth/PorthSimPHY.hpp:198-208 | no draw, temperature or retry makes the sum wrap or leave its band exactly when jitter <= base + 5 and the upper sum fits |
| SimPhy.Phy.constructor | include/porth/PorthSimPHY.hpp:157-163 | initial configuration and ambient temperature |
| SimPhy.Phy.SetConfig | include/porth/PorthSimPHY.hpp:227-232 | replaces base delay and jitter only |
| SimPhy.Phy.UpdateThermalLoad | include/porth/PorthSimPHY.hpp:169-180 | one inertial step towards the target |
| SimPhy.Phy.ApplyProtocolDelay | include/porth/PorthSimPHY.hpp:196-212 | for every configuration in range the delay is base + 5 + draw + one per full 1000 mC above 40000 + 500 on a retry; always that sum mod 2^64 |
| SimDevice.Device.constructor | include/porth/PorthSimDevice.hpp:206-217 | laser_temp, status and control are written, every other register stays as found in the shared memory, nothing is latched; the thermal invariant holds exactly when the voltage found is in its range |
| SimDevice.Device.ProcessDma | include/porth/PorthSimDevice.hpp:97-126 | latches exactly when the guard passes; on the shuttle the ring is then empty and the counter raised by what was in it; says exactly when the accepted address is another one |
| SimDevice.Device.UpdateThermalModel | include/porth/PorthSimDevice.hpp:129-166 | updates the registers by exactly one step of the thermal model |
| SimDevice.Device.ApplyChaosEffects | include/porth/PorthSimDevice.hpp:168-179 | flips one bit of data_ptr or of status, or nothing |
| SimDevice.Device.PhysicsIteration | include/porth/PorthSimDevice.hpp:192-201 | one loop turn is a thermal step and a guarded iteration together; nothing but the heartbeat under deadlock; exactly when it accesses a wrong address |
| SimDevice.Device.RunPhysicsLoop | include/porth/PorthSimDevice.hpp:191-203 | over any number of turns the registers are the thermal model run on the control values and the guard run on the flips; the ring is emptied once, if any turn drains; a wrong access happens exactly when the guard model strays, and never from a secured state |
| LatencyMetric.KeptExactly | include/porth/PorthMetric.hpp:149-153 | element by element, what is kept is what was recorded right after the last reset, as much as fits |
| LatencyMetric.Metric.constructor | include/porth/PorthMetric.hpp:138-140 | an empty buffer of the given capacity |
| LatencyMetric.Metric.RecordSample | include/porth/PorthMetric.hpp:149-153 | the buffer holds the first samples since the last reset, up to capacity |
| LatencyMetric.Metric.ResetSamples | include/porth/PorthMetric.hpp:228 | starts a new run |
| LatencyMetric.Metric.GetSortedSamples | include/porth/PorthMetric.hpp:62-67 | a sorted permutation of what was kept |
| LatencyMetric.RankCounts | include/porth/PorthMetric.hpp:100-110 | the i-th smallest sample has i + 1 samples no larger and n - i no smaller |
| LatencyMetric.QuantileCorrect | include/porth/PorthMetric.hpp:100-110 | for every record/reset history the nanoseconds reported, times cycles per nanosecond, are a kept sample with more than p% of the samples no larger (all at p = 100) and at least (100 - p)% no smaller |
| LatencyMetric.PercentileMonotone | include/porth/PorthMetric.hpp:188-195 | percentiles are monotone in p and the interquartile range is not negative |
| LatencyMetric.Extremes | include/porth/PorthMetric.hpp:217-220 | at p = 0 and p = 100 the times reported are those of the least and the greatest kept sample |
| LatencyMetric.MeanMinimises | include/porth/PorthMetric.hpp:74-78 | the mean is the one number from which the samples have the least squared deviation |
| LatencyMetric.VarianceIdentity | include/porth/PorthMetric.hpp:74-91 | the one-pass formula is the mean squared deviation |
| LatencyMetric.VarianceSign | include/porth/PorthMetric.hpp:86-91 | it is never negative, so the absolute value changes nothing, and zero exactly when all samples are equal |
| PacketFilter.FilterExactly | include/porth/porth_xdp_kern.c:37-71 | the verdict does not depend on the host's byte order: big- or little-endian, redirected are exactly the UDP over IPv4 frames with destination port bytes 0x30 0x39 |
| PacketFilter.UdpOffsetByBytes | include/porth/porth_xdp_kern.c:58-61 | for every value of the header-length nibble the UDP header is looked for that many words after the Ethernet header |
| PacketFilter.ExtractExactly | include/porth/PorthNetworkPortal.hpp:117-128 | for every buffer and received length: ignored exactly without the EtherType, else the bytes from 42 up to the received length one by one, and below 42 the wrapped length |
| PacketFilter.ExtractionOfRedirected | include/porth/PorthNetworkPortal.hpp:117-128 | a redirected frame at the front of any buffer passes the EtherType test, underflows exactly below 42 bytes, and yields its UDP payload exactly when IHL is 5 |
| PacketFilter.ShortHeaderUnderflows | include/porth/porth_xdp_kern.c:58-61 | a redirected 34-byte frame with IHL 0 whose length computation wraps |
| PacketFilter.LongHeaderMisread | include/porth/PorthNetworkPortal.hpp:117-128 | a redirected frame with IHL 6 and no payload, of which four header bytes are extracted |
| PacketFilter.RoundTrip | include/porth/PorthNetworkPortal.hpp:117-128 | building a frame around any payload, filtering it and extracting it from any buffer it lies at the front of returns the payload |
| Handshake.RunInv | examples/mock_handshake.cpp:63-95 | the phase invariant of both threads on every interleaving |
| Handshake.BusyUntilReady | examples/mock_handshake.cpp:73-87 | on every interleaving status reads BUSY from the hardware's BUSY write to its READY write, and READY from then on |
| Handshake.CorrectExactly | examples/mock_handshake.cpp:131-152 | START is served at most once and the driver reads the initial counter plus one, on all interleavings, exactly when the registers do not start with a stale START or READY |
| Handshake.ShutdownExactly | examples/mock_handshake.cpp:88-94 | when the driver is about to write RESET: every continuation with a hardware turn stops the hardware iff control reads IDLE, and some continuation does iff control reads IDLE |
| Handshake.ResetCanBeLost | examples/mock_handshake.cpp:88-94 | a schedule from zeroed registers after which the RESET is overwritten and the hardware never stops |

## Left out

- ControlLoop.NeverOverCeiling: the register block is shared memory and may be attached with anything in it; the voltage found is taken to be one an earlier run can have left (a multiple of 4000 up to 800000).
- Driver.Stats.constructor: the statistics block starts at zero in `Driver.dfy`; in `DataPlane.dfy` it starts with any counts.
- The objects in `Driver.dfy` and `SimDevice.dfy` are single-threaded; what other threads do between their steps is modelled on values in `DataPlane.dfy`, `DmaGuard.dfy` and `ControlLoop.dfy`, which do not capture aliasing of the register block. `receive` pops the same ring as the device and one consumer is assumed, so it is not an action there.
- Driver.Driver.constructor: thread start-up, pinning, joining and huge-page allocation are left out; the shuttle's device address is an input.
- The thermal update is two actions in the closed loop, the load of `control` and everything after it; the writes to `gan_voltage`, `rf_snr` and `laser_temp` within one step are not interleaved further.
- Registers other than the ring indices are interleaved with sequentially consistent loads and stores.
- The teardown result does not cover a `process_dma` loop that loaded the address before the write of 0; it keeps popping.
- SimDevice.Device.ProcessDma: what happens after it accepts an address that is not a mapped ring is undefined in the code; the model reports the access and ends the run there. The ring at the shuttle is taken to have the 1024 slots the device casts to.
- A jitter setting of 2^63 or more, whose distribution bounds are not defined, and the floating-point conversion of the delay to cycles.
- LatencyMetric.VarianceSign: speaks of the radicand in exact real arithmetic; the square root and floating-point rounding are not modelled.
- Driver.Portal.BridgeToShuttle: the frame at the queue, its translated address and whether the fill ring has a free place are inputs; they come from library code that is not part of this model, as does the wake-up call when no frame waits.
- Telemetry other than packets, bytes and drops; in the interleaved model the statistics link is fixed for a run.
- PorthSentinel, PorthPDK, huge pages, NUMA, VFIO, shared memory, transaction logging, reports and benchmarks: plumbing or display, and nothing in the twin depends on them.
