# Streaming in the SoapySDR driver plugins

This project models the streaming code of a collection of SoapySDR device plugins (Airspy, RTL-SDR, sound card,
SDRplay, HackRF, BladeRF, PlutoSDR, NetSDR) and of the multi-device wrapper SoapyMultiSDR, and proves what that code
promises to an application: samples arrive in order and unmangled, losses are reported, chunk sizes do not matter,
bursts are well formed, and several devices look like one.

How it is built:

- The parts that share state between a driver thread and a reader (or writer) are state machines. A step is one
  access to shared state, with the private accesses next to it, or one critical section, so that another thread can run
  between any two; a flag that only the reader clears is tested at the exchange that a raised flag leads to. `Ready`
  gives a step's control point, `Safe` what must hold for it to stay inside its buffers, `Apply` its effect. `Run` is a
  sequence of such steps, so a theorem about `Run` speaks about every interleaving. Each state also carries history,
  listed after the driver's own fields.
- For every object of the drivers there is a class with the object's fields (`RingStream`, `HackRfStream`,
  `BatchStream`, `BladeRfStream`, `PlutoStream`, `NetSdrStream`). Its methods run without interference, carry a ghost
  copy of the machine's state, and ensure that they took exactly the machine's steps.
- Ring positions are unbounded numbers; `RingIndex.Wrap` is the remainder, computed by subtraction so that proofs meet
  no division by a variable, and `RingIndex.WrapIsMod` equates the two. The class code uses `%` as the drivers do.
- Calls into vendor libraries, sockets and `select` are answered by arguments that may take any value the stated
  contract allows. Accesses to flags and counts that threads share are sequentially consistent, including
  the Airspy reset flag, which the driver declares as a plain `bool`.
- Reading functions that a proof does not need to look into are named in a `hide` statement at its head.

Where the code falls short of the plain statement of a property, the exact condition is proved: a reset request
that falls between a drain and the clearing of its flag is lost, and the Airspy driver also returns old samples it
holds or is about to take (`ResetFreshness`); an overflow flag raised during a drain is wiped out, and one raised
after the reader's test is reported late (`OverflowReports`); SDRplay batching is safe for uniform blocks exactly when
they are smaller than the slot and do not divide it, one-slot rings aside (`BatchRing`); HackRF return values are
honest unless an activation fails half way through a write (`HackRfTransmit`); a write after a refused END breaks
BladeRF nesting and a time refused inside a burst its response times (`BladeRfTransmit`); an empty Pluto send that
ends a burst reports an error (`PlutoTransmit`), and the Pluto fast path is chosen by a probe weaker than what it
needs (`PlutoCopy`); `select` errors lose saved NetSDR samples (`NetSdrReceive`); NetSDR gaps near the numbering cycle
go unseen, and a stream that does not start at 0 or 1 is reported at once (`NetSdrSequence`); leading empty strings
are lost by the CSV join (`MultiCsv`); an index must fit an unsigned long (`MultiNames`); and arguments with the local
prefix leak into all devices that do not shadow them (`MultiEnumerate`).

Conditions the rings rely on: one block is out with the reader at a time, and Airspy, RTL-SDR and sound-card streams
are activated only while no block is held (activation clears `bufferedElems` without a release), so that activation is
a reset request. SDRplay activation is modelled between calls, also while a block is held.

## Model

| member | source | states |
|---|---|---|
| RingIndex.WrapIsMod | SoapyAirspy/Streaming.cpp:105 | the positions used in the proofs wrap to slots as the drivers' remainder does |
| RingIndex.WrapAdd | SoapyAirspy/Streaming.cpp:289 | advancing a wrapped index by a drained count lands on the slot of the advanced position |
| BlockRing.StepSafe | SoapyAirspy/Streaming.cpp:85-328 | no step that any reachable state allows indexes outside a buffer or takes the atomic count below zero |
| BlockRing.ProducerSlotFree | SoapyAirspy/Streaming.cpp:99-105 | the slot the callback is writing is no queued slot and not the one the reader copies from, so torn data is never seen |
| BlockRing.RunInv | SoapyAirspy/Streaming.cpp:85-328 | every interleaving of callback accesses (the count test and the store of the overflow flag apart), reset requests and reader accesses keeps indices, slot contents, block order and returned samples consistent |
| BlockRing.RingLaw | SoapyAirspy/Streaming.cpp:276-328 | in every reachable state tail and head differ by count, held and pending blocks modulo the ring size, held blocks are counted, and the ring is never over-full |
| BlockRing.DeliveredInOrder | SoapyAirspy/Streaming.cpp:216-259 | over every interleaving the samples returned are prefixes of callback blocks in callback order, each block at most once, and all but the current one whole if remainders are not dropped |
| BlockRing.FragmentSizes | SoapyAirspy/Streaming.cpp:246-258 | over every interleaving no call returns more elements than asked for, and fewer only if nothing of the block is left |
| ResetFreshness.ResetFreshness | SoapyRTLSDR/Streaming.cpp:340-364 | for both drivers: no call that starts after a reset request returns a sample committed before it, over every interleaving in which no request is made in an exposed state; for RTL-SDR, which drops partly read blocks, exposed is only the window between a drain and the clearing of its flag with new samples committed meanwhile |
| ResetFreshness.ExposedIsStale | SoapyRTLSDR/Streaming.cpp:479-485 | from every reachable exposed state of either driver a request can be followed by a later call returning an older sample, past any empty blocks |
| ResetFreshness.WindowExact | SoapyRTLSDR/Streaming.cpp:469-485 | for both drivers: after a run without exposed requests, a request can lead to a stale read if and only if it is made in an exposed state; for Airspy these are the window, a partly read block, and a call past its reset test about to take a non-empty block |
| ResetFreshness.StaleRun | SoapyRTLSDR/Streaming.cpp:479-485 | every ring of either driver has a run that reaches the window and returns a stale sample |
| ResetFreshness.StaleRemainderRun | SoapyAirspy/Streaming.cpp:238-258 | every Airspy ring has a run in which a request made between calls is followed by the rest of an older block |
| OverflowReports.OverflowReported | SoapyAirspy/Streaming.cpp:85-118 | in the atomic rings, over every interleaving: successive deliveries without OVERFLOW return or reset drain are consecutive callbacks if the flag is never raised where it is wiped out or too late; and if it is nowhere wiped out, a gap is reported before a second block behind it is taken |
| OverflowReports.RaiseExact | SoapyAirspy/Streaming.cpp:286-320 | both conditions are exact: after a run in which the flag was heard, raising it can lead to an unreported gap if and only if a drain in progress is about to wipe it out with newer blocks queued or, where a late report does not do, the reader has passed its test and waits for the very next block |
| OverflowReports.UnreportedRun | SoapyRTLSDR/Streaming.cpp:479-495 | every ring has a run in which a lost block is not even reported late |
| OverflowReports.LateRun | SoapyRTLSDR/Streaming.cpp:121-127 | every ring has a run that reports a lost block only late, although no flag is wiped out |
| RingStream.Stream.constructor | SoapyAirspy/Streaming.cpp:160-168 | stream setup is the machine's initial state |
| RingStream.Stream.RxCallback | SoapyAirspy/Streaming.cpp:85-118 | the callback refuses, drops and then raises the overflow flag, or stores, as the corresponding steps |
| RingStream.Stream.StoreBlock | SoapyRTLSDR/Streaming.cpp:128-143 | storing a block is copy, tail increment and count increment, in that order |
| RingStream.Stream.RequestReset | SoapyRTLSDR/Settings.cpp:432-436 | a settings change raises the reset flag and nothing else of the ring |
| RingStream.Stream.AcquireReadBuffer | SoapyAirspy/Streaming.cpp:276-320 | acquire returns OVERFLOW exactly for an overflow without reset, TIMEOUT exactly when nothing is left to take, and otherwise holds the oldest block |
| RingStream.Stream.TestReset | SoapyAirspy/Streaming.cpp:286-292 | a reset empties the ring and clears both flags; without one nothing changes; the steps are named |
| RingStream.Stream.TestOverflow | SoapyAirspy/Streaming.cpp:295-302 | an overflow empties the ring, clears the flag and is returned; without one nothing changes; the steps are named |
| RingStream.Stream.ExtractBuffer | SoapyAirspy/Streaming.cpp:312-319 | the current buffer becomes the oldest block, whole |
| RingStream.Stream.ReleaseReadBuffer | SoapyAirspy/Streaming.cpp:322-328 | a release is the step that gives the oldest block's slot back |
| RingStream.Stream.ReadStream | SoapyRTLSDR/Streaming.cpp:340-452 | one call makes only reader steps, appends exactly one result to the history and returns it; it returns at most the number of elements asked for, and fewer only if the block is used up |
| RingStream.Stream.TakeFragment | SoapyAirspy/Streaming.cpp:246-258 | the fragment returned is the next part of the current block, as large as asked for or to the end of the block, and the steps are the copy and, exactly when the block is used up, its release |
| AudioRing.OverflowAlwaysReported | SoapyAudio/Streaming.cpp:622-669 | blocks delivered in succession without OVERFLOW return or reset drain were consecutive callbacks, also when the ring fills or the rate changes during the wait, and each OVERFLOW return stands for a lost block |
| AudioRing.LossIsFlagged | SoapyAudio/Streaming.cpp:100-105 | the overflow flag is up exactly when blocks were dropped since the last drain; while it is down and no reset or rate change is pending, the ring holds the latest callbacks without a gap, continuing the last delivered block |
| AudioRing.LossReturned | SoapyAudio/Streaming.cpp:622-645 | after a loss the next acquire that starts without a pending reset returns OVERFLOW for all blocks dropped since the last drain |
| AudioRing.RefinesBlockRing | SoapyAudio/Streaming.cpp:90-120 | every run of the mutex ring is a run of the atomic ring, so the ring law and in-order delivery hold for it |
| BatchRing.BasicSafe | SoapySDRPlay3/Streaming.cpp:485-545 | over every run with callbacks of any sizes the index law holds and no next step indexes outside the ring or the current slot or releases what is not held |
| BatchRing.SlotSizes | SoapySDRPlay3/Streaming.cpp:107-119 | slots grow in whole blocks to one full size, after which the remaining capacity is less than a block |
| BatchRing.BatchingSafe | SoapySDRPlay3/Streaming.cpp:78-157 | over every run with uniform blocks not dividing the capacity: no slot reaches its capacity, no slot in flight is appended to, slots beyond the tail are empty, and delivered, in-flight and filling samples are the stored callbacks, which are all callbacks exactly while the overflow flag is down |
| BatchRing.SafeBlocks | SoapySDRPlay3/Streaming.cpp:107-119 | for uniform blocks of any size: every run keeps slots inside their capacity and appends to no slot in flight if and only if the block is smaller than the slot and does not divide it, or the ring has one slot and the block is larger (none is then stored) |
| BatchRing.DividingBlocksBreak | SoapySDRPlay3/Streaming.cpp:108-119 | with uniform blocks that divide the capacity, the capacity itself included, every ring has a run that appends to a slot in flight |
| BatchRing.LargeBlocksOutgrow | SoapySDRPlay3/Streaming.cpp:108-119 | with blocks larger than the capacity every ring of more than one slot has a run that outgrows a slot |
| BatchRing.FragmentSizes | SoapySDRPlay3/Streaming.cpp:431-462 | over every run no call returns more elements than asked for, and fewer only if nothing of the slot is left |
| BatchStream.Stream.RxCallback | SoapySDRPlay3/Streaming.cpp:78-157 | the callback with its interleaving copy loop is one callback step, for any block size |
| BatchStream.Stream.ActivateStream | SoapySDRPlay3/Streaming.cpp:333-336 | activation requests a reset and forgets the current fragment |
| BatchStream.Stream.AcquireReadBuffer | SoapySDRPlay3/Streaming.cpp:485-537 | acquire drains on reset or overflow, returns OVERFLOW exactly for an overflow without reset, times out exactly when nothing is left to take, and otherwise holds the oldest slot; its steps are named |
| BatchStream.Stream.TakeOldest | SoapySDRPlay3/Streaming.cpp:515-537 | the slot at the head becomes the current buffer, or the wait times out when there is none |
| BatchStream.Stream.ReleaseReadBuffer | SoapySDRPlay3/Streaming.cpp:539-545 | a release empties the held slot and gives it back |
| BatchStream.Stream.ReadStream | SoapySDRPlay3/Streaming.cpp:389-463 | one call makes only reader steps, appends exactly one result to the history and returns it; it returns at most the number of elements asked for, and fewer only if the slot is used up |
| BatchStream.Stream.TakeFragment | SoapySDRPlay3/Streaming.cpp:431-462 | the fragment returned is the next part of the held slot, as large as asked for or to the end of the slot, and the steps are the copy and, exactly when the slot is used up, its release |
| HackRfTransmit.HeldSlotFree | SoapyHackRF/HackRF_Streaming.cpp:63-89 | the slot being filled is no queued slot, so a callback never takes it |
| HackRfTransmit.CallbackServes | SoapyHackRF/HackRF_Streaming.cpp:63-89 | a callback sends the oldest queued block whole, and zeros with the underflow flag exactly if there is none |
| HackRfTransmit.TransmitConserves | SoapyHackRF/HackRF_Streaming.cpp:652-718 | for any chunk sizes interleaved with callbacks, data blocks sent, queued blocks and the staged part of the held slot are together the samples stored, and underflow blocks are zeros |
| HackRfTransmit.ReturnValuesHonest | SoapyHackRF/HackRF_Streaming.cpp:693-699 | between calls the samples stored are those the return values reported if and only if no call failed in activation after storing some; otherwise exactly the samples of those calls are missing from the return values |
| HackRfTransmit.HalfwayReached | SoapyHackRF/HackRF_Streaming.cpp:676-699 | such a call happens in every ring with slots of at least two samples |
| HackRfStream.WriteBuf | SoapyHackRF/HackRF_Streaming.cpp:548-579 | the conversion loops write, into exactly the given stretch, I from I and Q from Q of each pair: whole numbers as they are, 16-bit ones rounded down to their high byte, floating ones times 127 cut toward zero |
| HackRfStream.Stream.constructor | SoapyHackRF/HackRF_Streaming.cpp:125-152 | a fresh stream is the machine's initial state |
| HackRfStream.Stream.TxCallback | SoapyHackRF/HackRF_Streaming.cpp:63-89 | a callback is one callback step and hands over the oldest queued block, or zeros with the underflow flag if there is none |
| HackRfStream.Stream.AcquireWriteBuffer | SoapyHackRF/HackRF_Streaming.cpp:817-854 | acquire fails exactly when activation fails, times out exactly when the ring is full, and otherwise holds the next slot |
| HackRfStream.Stream.ReleaseWriteBuffer | SoapyHackRF/HackRF_Streaming.cpp:856-869 | a release queues the held slot; at the first place it ends the call or moves on to acquire, at the second it ends the call |
| HackRfStream.Stream.WriteStream | SoapyHackRF/HackRF_Streaming.cpp:652-689 | a call is a run of writer steps only; the count it returns is exact for each combination of held slot, free slots and activation, and that many of its samples, converted one by one, are what was reported |
| HackRfStream.Stream.FinishWrite | SoapyHackRF/HackRF_Streaming.cpp:691-718 | after a timeout the part already stored is returned, if any, after an error nothing, otherwise the whole chunk, each exactly when the ring is full, activation fails, or neither |
| HackRfStream.Stream.StoreRest | SoapyHackRF/HackRF_Streaming.cpp:704-714 | the rest of the chunk goes to the start of the new slot |
| BladeRfTransmit.EveryEndAnswered | SoapyBladeRF/bladeRF_Streaming.cpp:394-519 | over every run, refused sends included, END goes out with a write only together with that call's last sample, each such END queues one end-of-burst response, and responses are read in order |
| BladeRfTransmit.WritesCarried | SoapyBladeRF/bladeRF_Streaming.cpp:402-505 | over every run the blocks of writes are, in order, the first samples of the accepted calls, clipped only by the buffer, with the requested time or at a burst start the present one; each underrun queues one underflow response; and deactivation sends one zero sample |
| BladeRfTransmit.BurstsWellNested | SoapyBladeRF/bladeRF_Streaming.cpp:241-275 | the accepted blocks form well-nested bursts if and only if no write is accepted at any time after the device refused the END of deactivation; while it refuses none, the driver's flag is the device's |
| BladeRfTransmit.LostEndBreaksNesting | SoapyBladeRF/bladeRF_Streaming.cpp:257-271 | any first write that leaves a burst open, a refused END and any accepted write are a run that breaks the nesting |
| BladeRfTransmit.ResponsesOnTime | SoapyBladeRF/bladeRF_Streaming.cpp:414-437 | over every run each end-of-burst response differs from the device's own time, last timestamp plus samples since, by exactly the drift there; so all are on time if and only if no burst ends with a drift, and there is none unless a timed block is refused inside a burst |
| BladeRfTransmit.RefusedTimeShiftsResponse | SoapyBladeRF/bladeRF_Streaming.cpp:483-516 | a run from the start in which a refused time makes the response wrong by the refused time minus the time the device has reached |
| BladeRfReceive.CommandsServed | SoapyBladeRF/bladeRF_Streaming.cpp:277-392 | over every run commands are served in activation order and never after being popped, a read stays inside a finite command and pops it exactly when its total is delivered, and each overrun is followed by exactly one OVERFLOW return before the device is read again, with the time after the last sample of the overrun read |
| BladeRfReceive.DeviceAskedRight | SoapyBladeRF/bladeRF_Streaming.cpp:308-334 | over every run the device is told a command's time at its first call and none later, is asked for as much as caller, buffer and command allow, and a failure pops a finite command |
| BladeRfStream.Device.constructor | SoapyBladeRF/bladeRF_Streaming.cpp:158-174 | a set-up device is the initial state of both machines |
| BladeRfStream.Device.ActivateRx | SoapyBladeRF/bladeRF_Streaming.cpp:224-231 | activation appends one command with the given time and size |
| BladeRfStream.Device.DeactivateRx | SoapyBladeRF/bladeRF_Streaming.cpp:249-253 | deactivation clears all commands |
| BladeRfStream.Device.DeactivateTx | SoapyBladeRF/bladeRF_Streaming.cpp:255-272 | deactivation ends an open burst whatever the device answers |
| BladeRfStream.Device.ReadStream | SoapyBladeRF/bladeRF_Streaming.cpp:277-392 | one call is one receive step; a timeout without a command, OVERFLOW for a pending overrun, and otherwise the result for each answer of the device |
| BladeRfStream.Device.WriteStream | SoapyBladeRF/bladeRF_Streaming.cpp:394-519 | one call is one transmit step; the END flag is cleared exactly when the samples were clipped |
| BladeRfStream.Device.ReadStreamStatus | SoapyBladeRF/bladeRF_Streaming.cpp:556-564 | the oldest response is returned and removed |
| BladeRfStream.ChannelsRoundTrip | SoapyBladeRF/bladeRF_Streaming.cpp:347-358 | interleaving two channels and separating them again gives both back |
| BladeRfStream.Interleave | SoapyBladeRF/bladeRF_Streaming.cpp:458-469 | the transmit loop writes the two channels element by element and nothing behind them |
| BladeRfStream.Deinterleave | SoapyBladeRF/bladeRF_Streaming.cpp:347-358 | the receive loop separates the two channels |
| PlutoTransmit.StagingConserves | SoapyPlutoSDR/PlutoSDR_Streaming.cpp:633-781 | over any run of sends and flushes the pushed buffers without padding and the staged items are the samples taken in, padding is zeros and occurs only in a buffer pushed by a flush or by a send that had END_BURST and took all its items, and every non-empty send takes at least one item |
| PlutoTransmit.SendCounts | SoapyPlutoSDR/PlutoSDR_Streaming.cpp:633-747 | the count send returns without an error is exactly the first items of the call that were taken in, all of them unless the buffer is full; an ended burst leaves nothing staged |
| PlutoTransmit.CountsAddUp | SoapyPlutoSDR/PlutoSDR_Streaming.cpp:733-746 | over a run the counts returned add up to the items taken in, exactly unless a send that took some in reported an error |
| PlutoTransmit.SendErrorExact | SoapyPlutoSDR/PlutoSDR_Streaming.cpp:733-745 | send reports an error exactly when a push came back short or failed, or when it was empty, ended a burst and nothing was staged |
| PlutoStream.TxStreamer.constructor | SoapyPlutoSDR/PlutoSDR_Streaming.cpp:610-618 | a new streamer is the machine's initial state, and takes the direct path exactly when the probe passes |
| PlutoStream.TxStreamer.Send | SoapyPlutoSDR/PlutoSDR_Streaming.cpp:633-747 | in CS16, CS12 and CS8 send is one staging step, on the samples in device form on the direct path and on those words converted and placed by lane on the generic path; without an error it returns how many of the first items it took in; CS12 throws exactly without direct copy |
| PlutoStream.TxStreamer.CopyIn | SoapyPlutoSDR/PlutoSDR_Streaming.cpp:650-729 | every format and path leaves the staged words followed by the words of the new samples |
| PlutoStream.DeviceMeans | SoapyPlutoSDR/PlutoSDR_Streaming.cpp:650-685 | the device form of CS16 is the words themselves, of CS8 256 times the signed bytes, and of CS12 the two halves of each three bytes at the top of their words |
| PlutoStream.TxStreamer.StagedPlain | SoapyPlutoSDR/PlutoSDR_Streaming.cpp:650-729 | on a plain layout the path makes no difference to the words staged |
| PlutoStream.TxStreamer.FlushBuffer | SoapyPlutoSDR/PlutoSDR_Streaming.cpp:749-752 | flush is one flush step |
| PlutoStream.TxStreamer.PushBuffer | SoapyPlutoSDR/PlutoSDR_Streaming.cpp:754-781 | the pushed buffer is the staged items followed by zeros; an empty buffer is not pushed |
| PlutoCopy.FastRefinesGeneric | SoapyPlutoSDR/PlutoSDR_Streaming.cpp:692-729 | on a contiguous I/Q layout with identity conversion the direct copy leaves the same buffer as the strided loops, for every item count and fill level |
| PlutoCopy.GenericAppends | SoapyPlutoSDR/PlutoSDR_Streaming.cpp:692-729 | for lanes in either order and any conversions, the two strided loops fill exactly the stretch behind the staged items, each word converted by its lane |
| PlutoCopy.FastPathExact | SoapyPlutoSDR/PlutoSDR_Streaming.cpp:650-654 | and on no other layout whose first lane starts the buffer |
| PlutoCopy.ProbeNotEnough | SoapyPlutoSDR/PlutoSDR_Streaming.cpp:784-803 | the probe accepts two contiguous channels of 13 bits, and some buffer and samples tell the paths apart there |
| PlutoCopy.CopyCs16 | SoapyPlutoSDR/PlutoSDR_Streaming.cpp:650-654 | the 16-bit direct copy appends the words |
| PlutoCopy.CopyCs12 | SoapyPlutoSDR/PlutoSDR_Streaming.cpp:655-672 | the 12-bit loop appends the unpacked words |
| PlutoCopy.CopyCs8 | SoapyPlutoSDR/PlutoSDR_Streaming.cpp:673-685 | the 8-bit loop appends the widened words |
| PlutoCopy.WidenMeans | SoapyPlutoSDR/PlutoSDR_Streaming.cpp:673-685 | a widened byte stands for 256 times its signed value |
| PlutoCopy.CopyLane | SoapyPlutoSDR/PlutoSDR_Streaming.cpp:692-707 | one strided loop writes every second word and no other |
| PlutoCopy.CopyGeneric | SoapyPlutoSDR/PlutoSDR_Streaming.cpp:692-729 | the two strided loops write one lane each |
| PlutoPacking.PackUnpack | SoapyPlutoSDR/PlutoSDR_Streaming.cpp:417-430 | packing and unpacking keeps the low 12 bits of every word, raised by four places, in order, in three bytes per pair |
| PlutoPacking.Cs12RoundTrip | SoapyPlutoSDR/PlutoSDR_Streaming.cpp:655-672 | signed 12-bit components come back multiplied by 16 |
| PlutoPacking.PackLayout | SoapyPlutoSDR/PlutoSDR_Streaming.cpp:417-430 | the three bytes, lowest first, are the 24-bit number with I in the low and Q in the high half |
| PlutoPacking.UnpackLayout | SoapyPlutoSDR/PlutoSDR_Streaming.cpp:655-672 | unpacking takes both halves of that number to the top of their words |
| PlutoPacking.RecvCs12 | SoapyPlutoSDR/PlutoSDR_Streaming.cpp:417-430 | the receive loop writes the packed bytes and nothing behind them |
| NetSdrReceive.ChunkingTransparent | SoapyNetSDR/NetSDR_Streaming.cpp:174-239 | over any read sizes, answers of select and datagrams the elements returned followed by the saved ones are the content of everything received, in order, if and only if no call failed in select after copying saved elements out; what is missing otherwise is what those calls had copied |
| NetSdrReceive.ReadReturns | SoapyNetSDR/NetSDR_Streaming.cpp:174-238 | a call returns as many elements as asked for unless the wait timed out or the last datagram was useless, a timeout only with nothing to return, an error only if select failed |
| NetSdrReceive.BrokenSelectLoses | SoapyNetSDR/NetSDR_Streaming.cpp:209-214 | when select fails after saved elements were copied out, exactly those are lost |
| NetSdrReceive.LossReachable | SoapyNetSDR/NetSDR_Streaming.cpp:209-214 | such a call happens for every packet size above one |
| NetSdrReceive.WholePacketsInOrder | SoapyNetSDR/NetSDR_Streaming.cpp:216-224 | the whole-packet loop takes the packets' elements in order |
| NetSdrStream.Receiver.constructor | SoapyNetSDR/NetSDR_Streaming.cpp:157-172 | an activated receiver has nothing saved |
| NetSdrStream.Receiver.ProcessUdp | SoapyNetSDR/NetSDR_Streaming.cpp:27-155 | a packet's elements are written and counted, anything else leaves the buffer alone |
| NetSdrStream.Receiver.CopyWhole | SoapyNetSDR/NetSDR_Streaming.cpp:216-224 | the loop fills the caller's buffer with whole packets |
| NetSdrStream.Receiver.ReadStream | SoapyNetSDR/NetSDR_Streaming.cpp:174-214 | one call is one read, with the returned elements in the caller's buffer |
| NetSdrStream.Receiver.Finish | SoapyNetSDR/NetSDR_Streaming.cpp:216-238 | the last packet is saved whole and its first part handed out |
| NetSdrSequence.Tracker.Track | SoapyNetSDR/NetSDR_Streaming.cpp:44-53 | the printed loss is the 16-bit difference when above one, and the number kept restarts at the wrap |
| NetSdrSequence.GapReportedExactly | SoapyNetSDR/NetSDR_Streaming.cpp:44-53 | for any gap at any number: whether it is reported, and which number is printed |
| NetSdrSequence.StreamReports | SoapyNetSDR/NetSDR_Streaming.cpp:44-53 | in a stream with any gaps, from any state of the tracker, a packet is reported exactly if the gap before it is not one the 16-bit difference hides, and for gaps below 65534 with one more than were lost, or two more across the wrap |
| NetSdrSequence.InOrderNeverReported | SoapyNetSDR/NetSDR_Streaming.cpp:44-53 | an in-order stream of any length read by a fresh tracker is reported nowhere but at its first packet, and there exactly if its number is above 1 |
| NetSdrSequence.GapAlwaysReported | SoapyNetSDR/NetSDR_Streaming.cpp:44-53 | while gaps are of at most 65533 packets, reports after the first packet are exactly at the gaps |
| MultiNames.DecimalRoundTrip | SoapyMultiSDR/MultiNameUtils.hpp:12-15 | parsing the decimal text of a number gives the number |
| MultiNames.DecimalPlaces | SoapyMultiSDR/MultiNameUtils.hpp:33-40 | a digit counts for its value times ten to the number of digits behind it |
| MultiNames.DecimalCanonical | SoapyMultiSDR/MultiNameUtils.hpp:12-15 | printed numbers have no leading zero |
| MultiNames.CheckIndexedName | SoapyMultiSDR/MultiNameUtils.hpp:18-30 | the loop decides the name[index] format |
| MultiNames.IndexedNameShape | SoapyMultiSDR/MultiNameUtils.hpp:18-30 | accepted are exactly a name, digits in brackets, and a rest free of brackets |
| MultiNames.SplitShape | SoapyMultiSDR/MultiNameUtils.hpp:33-40 | any accepted string splits into the name before its last bracket and the number inside, and fails without digits or when the number does not fit |
| MultiNames.IndexedNameRoundTrip | SoapyMultiSDR/MultiNameUtils.hpp:33-40 | every indexed name is recognised, and splits into both parts exactly when the index fits an unsigned long |
| MultiNames.ToIndexedNameInjective | SoapyMultiSDR/MultiNameUtils.hpp:12-15 | different names or indices give different indexed names |
| MultiCsv.CsvSplit | SoapyMultiSDR/MultiNameUtils.hpp:43-68 | the split and trim loops compute the trimmed pieces between commas |
| MultiCsv.CsvJoin | SoapyMultiSDR/MultiNameUtils.hpp:71-80 | the join loop separates by a comma and a space once something has been written |
| MultiCsv.SplitJoin | SoapyMultiSDR/MultiNameUtils.hpp:43-80 | of comma-free trimmed strings exactly the leading empty ones are lost |
| MultiCsv.SplitMeans | SoapyMultiSDR/MultiNameUtils.hpp:43-68 | any string is split at its commas: the pieces put back together with commas are the string, and each result is its piece without outer white space |
| MultiCsv.JoinMeans | SoapyMultiSDR/MultiNameUtils.hpp:71-80 | any list is joined by a comma and a space before all but the first non-empty element |
| MultiCsv.SplitIsClean | SoapyMultiSDR/MultiNameUtils.hpp:60-65 | every split yields comma-free trimmed strings |
| MultiCsv.CsvRoundTrip | SoapyMultiSDR/MultiNameUtils.hpp:43-80 | splitting a join gives the list back if and only if its strings are comma-free and trimmed and the first, if any, is not empty |
| MultiArgs.InsertIsRenamed | SoapyMultiSDR/Registration.cpp:24-54 | an insertion loop without key collisions writes the renamed map over what was there, in any iteration order |
| MultiArgs.TranslatedKeys | SoapyMultiSDR/Registration.cpp:16-57 | one device's arguments key by key: the last entry with the name and its index, else the one with the local prefix, else one passed on as it is (no index, no filter, no prefix anywhere), else the stop key, and no other |
| MultiArgs.TranslateOne | SoapyMultiSDR/Registration.cpp:16-57 | the three loops build exactly those arguments, key by key |
| MultiArgs.TranslatedMaps | SoapyMultiSDR/Registration.cpp:59-82 | translation throws exactly if an index cannot be parsed, and otherwise gives one map for each index up to the largest int |
| MultiArgs.Translate | SoapyMultiSDR/Registration.cpp:59-82 | the loops find the largest index and build one map for each index up to it, or throw |
| MultiArgs.MakeThrows | SoapyMultiSDR/Registration.cpp:134-146 | construction throws exactly for the stop key, an unparsable index, or no index |
| MultiEnumerate.CombineResults | SoapyMultiSDR/Registration.cpp:97-110 | the nested loops of discovery build the labelled union of the devices' arguments |
| MultiEnumerate.CleanUpMeans | SoapyMultiSDR/Registration.cpp:112-126 | the clean-up takes out the stop key, moves the filters under the local prefix and leaves the rest |
| MultiEnumerate.CleanUpIdle | SoapyMultiSDR/Registration.cpp:112-126 | the clean-up of discovery never changes a result |
| MultiEnumerate.EnumerateThenMake | SoapyMultiSDR/Registration.cpp:134-146 | making from an enumerated result gives one map per device, the i-th being device i's own over the stop key and the locally prefixed keys |
| MultiEnumerate.NothingLeaks | SoapyMultiSDR/Registration.cpp:35-43 | there are no such keys exactly when no device argument starts with the local prefix |
| MultiEnumerate.MakeUndoesEnumerate | SoapyMultiSDR/Registration.cpp:99-146 | making undoes enumerating, every device getting its own map over the stop key, if and only if the stripped key of every locally prefixed argument is among each device's own; in particular if there is no such argument |
| MultiEnumerate.PrefixLeaksEverywhere | SoapyMultiSDR/Registration.cpp:35-43 | otherwise the stripped key appears in every device's arguments, and a device that had it not is made with a different map |
| MultiEnumerate.PrefixBreaksRoundTrip | SoapyMultiSDR/Registration.cpp:35-43 | a single device with one prefixed argument is made with a second argument |
| MultiEnumerate.ShadowedPrefixIsHarmless | SoapyMultiSDR/Registration.cpp:35-54 | a prefixed argument that the device's own arguments shadow does no harm, so the prefix alone does not decide |
| MultiRouting.Wrapper.ReloadChanMaps | SoapyMultiSDR/Settings.cpp:37-54 | the nested loops rebuild both channel maps |
| MultiRouting.ChanMapAt | SoapyMultiSDR/Settings.cpp:37-54 | global channels run through the devices in order, and within a device through its channels |
| MultiRouting.ChanMapBijective | SoapyMultiSDR/Settings.cpp:37-54 | for distinct devices the map is a bijection onto the pairs of device and local channel |
| MultiRouting.SetupStream | SoapyMultiSDR/Streaming.cpp:43-77 | the loop groups the requested channels, entry i of the groups written out being the map's entry for channels[i], or channel 0 for an empty request, and fails exactly when one is out of range |
| MultiRouting.GroupedCanonical | SoapyMultiSDR/Streaming.cpp:56-67 | the groups written out are the request, none is empty, and neighbours differ in device |
| MultiRouting.CanonicalUnique | SoapyMultiSDR/Streaming.cpp:56-67 | there is no other such grouping |
| MultiRouting.ReadStream | SoapyMultiSDR/Streaming.cpp:125-168 | each device gets the caller's flags and exactly its own buffers, the first failure ends the call, and success returns the first device's flags and time |
| MultiRouting.WriteStream | SoapyMultiSDR/Streaming.cpp:170-207 | the same for writing: own buffers, the caller's flags, first failure, first device's flags |
| MultiRouting.ReadStreamStatus | SoapyMultiSDR/Streaming.cpp:209-234 | the first message found is returned with its mask shifted by the group's offset |
| MultiRouting.RequestRouted | SoapyMultiSDR/Streaming.cpp:43-77 | channels[i] belongs to exactly one group and place, of its own device and local channel, so buffer i and bit i of a shifted mask are that channel's |

## Left out

- Vendor library calls, sockets, USB, threads, sleeps, logging, discovery and the settings files other than `reloadChanMaps`: they are arguments or absent.
- HackRF receive, and HackRF bursts (END_BURST activation): only continuous transmit with transfers of one slot is modelled.
- RTL-SDR timestamps, look-up tables and sample conversion of the receivers; sound-card `sampleOffset`.
- SDRplay with decimation above 1; blocks of different sizes are covered only by BatchRing.BasicSafe. The capacity of a slot is taken to be exactly what was reserved.
- BladeRF float conversion and the polling loop of readStreamStatus; a device that returns more than requested.
- Pluto receive other than the CS12 loop, the CF32 transmit format, more than one I/Q channel, and buffers whose items are not two 16-bit words.
- NetSDR decoding of 16- and 24-bit samples and its TCP control messages; packets that do not carry `datasize` elements.
- Refused callbacks in OverflowReports: the sample rate is constant there; the sound-card ring in AudioRing has rate changes.
- The direct-access buffer calls of MultiSDR; Sidekiq, UHD, Osmo, RedPitaya and the other thin wrappers.
- RingStream.Stream.ReadStream: the class methods run without interference, so a wait in them ends in a timeout; waiting with callbacks in between is in the BlockRing, AudioRing and BatchRing machines.
- MultiRouting.RequestRouted: speaks about the first 64 mask bits, the width of the mask.
- MultiEnumerate.EnumerateThenMake: asks that the last device has an argument, that the number of devices fits the 32-bit index the code keeps, and that indices fit an unsigned long.
- HackRfStream.WriteBuf: floating-point samples are reals, and conversions out of the range of the target type are not given C's undefined result.
