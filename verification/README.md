# Verified models of the TME emulator's cores

TME is the machine emulator vendored in `contrib/tme-0.8`.  This project models the
parts of it that are state machines, protocols or address arithmetic, and proves what
they keep: over every run, for every tree of buses, for every interleaving.  It is
plain Dafny 4.11; `dafny verify dfyconfig.toml` checks all of it.

Each module is one component of the program:

- `BusAddressing`, `BusTlb`: the generic bus.  The sorted map of addressable regions,
  with its binary search, its fit test and its insertion; and the translations cached
  in TLB entries, which are filled down a tree of buses and mapped back up through it.
- `BusSignals`: the wired-OR signals of the generic bus: bitmaps, assert counts, the
  sets of signals that share one index space, and interrupt acknowledge.
- `EthernetCallouts`: the callout protocol of the host Ethernet element, as steps
  between the points where the mutex is dropped.
- `LanceRings`: the descriptor rings of the LANCE Ethernet chip, receive and the
  transmit scan.
- `KeyboardTime`, `KeyboardEvents`, `KeyboardModifiers` (input stage zero),
  `KeyboardModes` (input stage one), `KeyboardMacroTrie` and `KeyboardMacros` (input
  stage two), `KeyboardPipeline` (the three together): the input half of the keyboard
  buffer.
- `SerialRing`, `MouseRing`, with `RingSizes`: the flag-grouped serial buffer and the
  merging mouse buffer.
- `EthernetFrames`: the frame check sequence and the scatter/gather copy.
- `CounterCatchUp`: a timer counter catching up with elapsed ticks.
- `ScsiPhase`: the resumable parser that finds the length of a command or message.
- `Bits`, `Words`: masks of low bits and wrapping words, where C uses them.

What the program updates in place is a class here, whose methods keep its loops and
branches and carry its asserts; each method is proved to do what a function of the old
state says, and the lemmas and runs are about those functions.

Where the code departs from its own comments the model follows the code, and a lemma
says exactly when the promise is kept:

- The fit test of a connection subtracts its address from the bus mask, so it is exact
  only for an address that is on the bus, as the argument parser enforces
  (`BusAddressing.FitTestExactIff`).
- A modifier may be attached to an empty list of keysyms, and then cannot be set unseen:
  an assert stops the program (keyboard.c line 2619, `KeyboardModifiers.CanSynchronizeIff`).
- A keysym has one link, so a list that repeats a keysym can lose those between, and one
  that takes a keysym from another modifier leaves both lists wrong
  (`KeyboardModifiers.AttachingValidIff`, `KeyboardModifiers.BetweenIsLost`).
- The assert that at a press the modifiers mask is the event's (keyboard.c lines 2452-2453)
  fails when the pseudo-releases before it take a modifier out of the mask, or when the
  event has a modifier the stage knows nothing of: a repeated press of the one keysym that
  holds a modifier stops the program (`KeyboardModifiers.MaskAgreesIff`,
  `KeyboardModifiers.RepeatedModifierAborts`).
- The release made up before a repeated press is to be as soon as possible after the first
  press, but never after the second; the test for the latter takes the wrong branch
  (keyboard.c lines 2432-2436), so both hold at one distance of the presses only, and it is
  after a second press that comes within 80 ms
  (`KeyboardModifiers.PseudoTimeAsPromisedIff`, `KeyboardModifiers.ReleasedAfterPress`).
- A TLB entry for a hole ends before the next connection's address, not before the next
  region, which may start later (bus.c lines 182-186); the entry is faithful iff it does
  not run over that region (`BusTlb.FillFaithfulIff`, `BusTlb.HoleEntryCanRunOver`).
- A fast pointer that is moved to a lower address keeps its byte only up to the width of
  a bus address (`BusTlb.PointerKeptIff`, `BusTlb.FillPointersExactIff`).
- A LANCE receive ring of one descriptor is read again before its OWN bit is cleared
  (am7990.c line 851), so a long frame goes over its own start
  (`LanceRings.OneDescriptor`, `LanceRings.ReceiveCorrectIff`).
- The chip only adds marks to a descriptor, so one that the host hands over with ENP, BUFF
  or ERR set does not tell whether the frame fitted (`LanceRings.MarksTellIff`).
- The head of a serial buffer passes a tail at the start of the ring (serial.c line 110)
  when there is room for some of the bytes but not for all, and then bytes are lost
  (`SerialRing.RunConservesIff`).  The overrun mark of a full buffer goes to the empty
  slot: no byte is ever read with it (`SerialRing.ReadAsAccepted`), but a read of an empty
  buffer returns it when the tail has come there (`SerialRing.EmptyReadIff`).
- A repeating counter with zero in its load register never catches up once it has
  reached zero (`CounterCatchUp.EndsIff`).

## Model

| member | source | states |
|---|---|---|
| `BusAddressing.AddressSearch` | contrib/tme-0.8/generic/bus.c:45-94 | The binary search over the sorted regions returns what the map says about the address: the covering region, or where one would go. |
| `BusAddressing.LocateLocates` | contrib/tme-0.8/generic/bus.c:45-94 | In a sorted, disjoint map the answer is the region that covers the address, or -1 less the place where all regions before lie below it and all after lie above. |
| `BusAddressing.LocatedIsLocate` | contrib/tme-0.8/generic/bus.c:45-94 | A search has exactly one possible result. |
| `BusAddressing.SearchesAgreeIffFree` | contrib/tme-0.8/generic/bus.c:362-381 | Two failed searches stop at the same place iff no region shares an address with the range between them. |
| `BusAddressing.PassesIffAvailable` | contrib/tme-0.8/generic/bus.c:321-386 | The test passes iff every subregion is well formed, fits on the bus and overlaps nothing on it. |
| `BusAddressing.FitTestExactIff` | contrib/tme-0.8/generic/bus.c:348-360 | The wrapping fit test is exact for all maps and subregions iff the connection's address is on the bus. |
| `BusAddressing.InsertAllKeepsOrder` | contrib/tme-0.8/generic/bus.c:425-475 | Inserting a connection's subregions where the searches say keeps the map sorted, disjoint and on the bus, and adds exactly them. |
| `BusAddressing.RunKeepsOrder` | contrib/tme-0.8/generic/bus.c:321-478 | After any run of offered connections the map is sorted, disjoint and within the mask, and holds exactly what it held and the regions of the connections taken. |
| `BusAddressing.RunTakes` | contrib/tme-0.8/generic/bus.c:321-478 | After any run of offers the map holds what it held and the regions of those that fitted what was held in their turn, and the bus has a controller iff it had one or took one: one at most, and none if it had one. |
| `BusAddressing.Bus.ConnectionOk` | contrib/tme-0.8/generic/bus.c:321-386 | The loop over subregions computes the test. |
| `BusAddressing.Bus.ConnectionMake` | contrib/tme-0.8/generic/bus.c:388-478 | Making a connection returns EEXIST only for a second controller, and otherwise leaves the map with the subregions inserted; a connection that passed the test is taken as in a run. |
| `BusAddressing.Bus.AddRegion` | contrib/tme-0.8/generic/bus.c:438-460 | One region is put in at the place its search found; the search never finds it covered. |
| `BusTlb.MappedRange` | contrib/tme-0.8/generic/bus.c:489-529 | A mapped entry covers the address asked, lies in the new window, and stands for addresses of the old entry only. |
| `BusTlb.MappedAgrees` | contrib/tme-0.8/generic/bus.c:489-529 | Each address it covers does what the address it stands for did: cycles, offset, handler, and the same byte through a fast pointer. |
| `BusTlb.PointerKeptIff` | contrib/tme-0.8/generic/bus.c:512-525 | In one mapping, a fast pointer reaches the very same byte, not only one congruent to it, iff the address did not go down. |
| `BusTlb.FillPointersExactIff` | contrib/tme-0.8/generic/bus.c:96-239 | Over a whole fill, a fast pointer reaches the very bytes the device's own reaches iff no bus on the way lowers the address. |
| `BusTlb.FillAllows` | contrib/tme-0.8/generic/bus.c:96-239 | An entry has a fast pointer only for cycles that it allows, and allows reads and writes at most. |
| `BusTlb.WindowIff` | contrib/tme-0.8/generic/bus.c:118-126 | The asker's window is all there is below its sourced bits: an address is in it iff it is on the bus and it and every lower one mean a sum. |
| `BusTlb.FillingServed` | contrib/tme-0.8/generic/bus.c:96-239 | The answer for an address is an error iff the device it decodes to refuses, with that error; else the entry does at every address it covers what that device does there, or, for an address that nothing covers, faults reads and writes at the bus address it stands for. |
| `BusTlb.FillFaithfulIff` | contrib/tme-0.8/generic/bus.c:96-239 | For any finite tree of buses over correct devices and any address that stays below the sourced bits on its way, the entry covers the address; and every address it covers decodes through the same regions to the same device at the same distance iff the hole guard holds. |
| `BusTlb.FillCoversIff` | contrib/tme-0.8/generic/bus.c:96-239 | An entry leaves nothing out: it covers an address iff, on each bus on the way down, that address and the one asked lie in the asker's window and in the same region, or hole, and the device's own entry covers both. |
| `BusTlb.ZeroOffsetsAreSafe` | contrib/tme-0.8/generic/bus.c:170-188 | Where every region starts at its connection's own address the guard always holds, so every entry is faithful. |
| `BusTlb.HoleEntryCanRunOver` | contrib/tme-0.8/generic/bus.c:182-188 | Without the guard: a bus on which the entry for a hole covers a region and what lies after it. |
| `BusTlb.Tlb.Map` | contrib/tme-0.8/generic/bus.c:489-529 | The fields rewritten in place are those of the mapped entry. |
| `BusTlb.TlbFill` | contrib/tme-0.8/generic/bus.c:96-239 | Filling in place, bus by bus, leaves the entry and the return code of the whole tree. |
| `BusSignals.BitOps` | contrib/tme-0.8/tme/generic/bus.h:90-94 | Setting or clearing a bit of a bitmap byte changes that bit and no other. |
| `BusSignals.WordReads` | contrib/tme-0.8/tme/generic/bus.h:58-68 | A signal word is read back as it was written: signal, index, level and edge. |
| `BusSignals.SignalKeeps` | contrib/tme-0.8/generic/bus-el.c:180-355 | An edge changes one connection's bit and nothing else, its wiring included, keeps every count exact, and is broadcast iff the OR of all connections changes or it is a negating edge on a line nobody asserts; the answer is EDEADLK iff someone it was given to deadlocks. |
| `BusSignals.EdgeMeaning` | contrib/tme-0.8/generic/bus-el.c:180-355 | An edge of a signal by its number, or of the interrupt signal configured for the connection when that is unspecified: each other connection that has a signal handler is given the word once iff the line changes or a line nobody asserts is negated, and the answer is EDEADLK iff it was given to one that deadlocks. |
| `BusSignals.BroadcastMeaning` | contrib/tme-0.8/generic/bus-el.c:306-348 | A broadcast goes once, in list order, to every other connection that handles signals. |
| `BusSignals.AddKeeps` | contrib/tme-0.8/generic/bus-el.c:54-178 | Adding a set keeps the index ranges tiling [0, total), every existing signal's place and who asserts it; a refusal changes nothing. Only a set that is new must have signals. |
| `BusSignals.AddMeaning` | contrib/tme-0.8/generic/bus-el.c:75-178 | A set with no match goes after all signals there are; else the first match answers, refuses a set that does not go as far back, and is made as new as the newer of the two. |
| `BusSignals.MatchesIff` | contrib/tme-0.8/generic/bus-el.c:80-88 | Two sets match iff they are of the same kind and some version is one of both. |
| `BusSignals.AddAgain` | contrib/tme-0.8/generic/bus-el.c:75-87 | Adding the same set again finds it, with the same first signal, and changes nothing. |
| `BusSignals.MakeKeeps` | contrib/tme-0.8/generic/bus-el.c:543-585 | A new connection goes first on the list, wired as it was configured and asserting nothing; no line, no count and no other connection changes. |
| `BusSignals.IntackKeeps` | contrib/tme-0.8/generic/bus-el.c:357-433 | Acknowledge finds nobody iff the count is zero; otherwise the first connection of the list that asserts the signal answers. |
| `BusSignals.IntackAnswers` | contrib/tme-0.8/generic/bus-el.c:390-425 | One that is asked for its vector asserts the signal and has an acknowledge handler; a vector given is the one configured for a connection that asserts the signal and has none. |
| `BusSignals.RunKeeps` | contrib/tme-0.8/generic/bus-el.c:54-585 | In every reachable state each assert count is the number of connections with the bit set, bitmaps have the right length and clean padding, and the sets tile. |
| `BusSignals.SignalInBounds` | contrib/tme-0.8/generic/bus-el.c:242-304 | In every reachable state an edge from a full connection stays inside its bitmap and the counts. |
| `BusSignals.GenericBus.SignalEdge` | contrib/tme-0.8/generic/bus-el.c:180-355 | The element's handler does what an edge does, and its asserts on the counts hold. |
| `BusSignals.GenericBus.CountEdge` | contrib/tme-0.8/generic/bus-el.c:246-304 | The bitmap and the count are updated together, and the flag to propagate is right. |
| `BusSignals.GenericBus.SignalsAdd` | contrib/tme-0.8/generic/bus-el.c:54-178 | Search, growth of the arrays and version update leave what adding a set leaves. |
| `BusSignals.GenericBus.IntAck` | contrib/tme-0.8/generic/bus-el.c:357-433 | The loop over connections gives the answer of the first that asserts. |
| `EthernetCallouts.StepKeeps` | contrib/tme-0.8/host/eth-impl.c:80-246 | Every step, by whichever thread, keeps that nothing is lost and that RUNNING tells the truth; the first step of a new element, with its configuration callout pending, makes it so. |
| `EthernetCallouts.RunKeeps` | contrib/tme-0.8/host/eth-impl.c:80-246 | In every interleaving from the making of the element on, at most one activation is in the loop, RUNNING is set iff one is, and each requested callout, the first configuration included, is in the flags, in the runner's hands or kept for later until an action begun after the request is performed. |
| `EthernetCallouts.QuietMeansServed` | contrib/tme-0.8/host/eth-impl.c:105-246 | When nobody runs, the first configuration waits for the first call, and after that every request has been tried by an action begun after it, and has been performed by one, but for CTRL requests since which a CTRL has failed, and which wait in the flags. |
| `EthernetCallouts.AnyCallRetries` | contrib/tme-0.8/host/eth-impl.c:93-120 | A call, even for nothing new, starts what waits in the flags: the configuration of a new element, or what an earlier failure left over. |
| `EthernetCallouts.FirstCallConfigures` | contrib/tme-0.8/host/eth-impl.c:80-162 | Whatever it asks for, the first call begins with the configuration callout, and keeps the rest for after it. |
| `EthernetCallouts.ConfiguredOnce` | contrib/tme-0.8/host/eth-impl.c:915-945 | Since no call asks for it, the configuration callout pending at the start is the only one ever begun. |
| `EthernetCallouts.ReadIsWritten` | contrib/tme-0.8/host/eth-impl.c:215-231 | In any run a read that got a frame leaves its activation out on the write of it. |
| `EthernetCallouts.WriteReadsAgain` | contrib/tme-0.8/host/eth-impl.c:226-231 | After a write the activation is on its way to another read. |
| `EthernetCallouts.ReadsAreWritten` | contrib/tme-0.8/host/eth-impl.c:80-246 | In every interleaving as many frames have been written as were read, but for one that is being written. |
| `EthernetCallouts.NoneMadeUp` | contrib/tme-0.8/host/eth-impl.c:80-246 | In every interleaving a callout is begun, or held to be begun, no more often than it was asked for, had failed, or, for a read, than a frame was written. |
| `EthernetCallouts.Ethernet.constructor` | contrib/tme-0.8/host/eth-impl.c:915-945 | A new element has its configuration callout pending, and nobody runs. |
| `EthernetCallouts.RunnerFinishes` | contrib/tme-0.8/host/eth-impl.c:105-246 | Left alone, an activation leaves the loop after a bounded number of steps. |
| `EthernetCallouts.Ethernet.Callout` | contrib/tme-0.8/host/eth-impl.c:80-246 | A call takes exactly the step of the protocol. |
| `EthernetCallouts.Ethernet.ControlChanged` | contrib/tme-0.8/host/eth-impl.c:409-438 | The control handler asks for the callout its change calls for. |
| `LanceRings.DteAddressWraps` | contrib/tme-0.8/ic/am7990.c:325-356 | The masked address of a descriptor word is in the current descriptor, or in the next one of the ring, and is even. |
| `LanceRings.NextWraps` | contrib/tme-0.8/ic/am7990.c:885-889 | The masked index is the next descriptor of the ring. |
| `LanceRings.FillResult` | contrib/tme-0.8/ic/am7990.c:781-891 | On a ring of two or more descriptors the loop ends within five DMA operations for each descriptor, wherever a bus error may stop it, having made as many as it had to. |
| `LanceRings.ReceiveResult` | contrib/tme-0.8/ic/am7990.c:754-899 | A frame goes into owned buffers only, in ring order, as many as it needs or there are, each handed back; MCNT is written and ENP added at the last iff all fitted, else BUFF and ERR are added. It takes one DMA operation, four for each descriptor and one for each piece of data; when these run out, what the last descriptor and its buffer hold is told by how many were left, the descriptor stays the chip's and no receive interrupt is raised. |
| `LanceRings.ReceiveMissed` | contrib/tme-0.8/ic/am7990.c:754-776 | A frame that finds the descriptor the host's leaves ring, index and memory as they were and sets MISS and no other bit; a bus error on the way there sets MERR and no other. |
| `LanceRings.PiecesHoldPrefix` | contrib/tme-0.8/ic/am7990.c:802-827 | The bytes written, one buffer after the other, are the longest prefix of the frame that has room. |
| `LanceRings.CountNegates` | contrib/tme-0.8/ic/am7990.c:800-803 | The length of a buffer is what the twelve low bits of RMD2 lack to their end, and nothing else is. |
| `LanceRings.AddressHalves` | contrib/tme-0.8/ic/am7990.c:800-802 | The address of a buffer has RMD0 for its low half and the low byte of RMD1 above that. |
| `LanceRings.AfterFrameMeaning` | contrib/tme-0.8/ic/am7990.c:826-890 | What the host finds in each descriptor: OWN clear where used; STP, ENP, BUFF and ERR set iff this frame set them or the host had left them set; MCNT in the last one iff all fitted; all else as it was. |
| `LanceRings.MarksTellIff` | contrib/tme-0.8/ic/am7990.c:826-883 | The marks of the last descriptor say whether the frame fitted iff the host had cleared ENP, BUFF and ERR there, and say nothing iff it had set all three. |
| `LanceRings.OneDescriptor` | contrib/tme-0.8/ic/am7990.c:848-890 | On a ring of one, a frame too long for the buffer is written over its own start, and STP is lost. |
| `LanceRings.ReceiveCorrectIff` | contrib/tme-0.8/ic/am7990.c:779-891 | With no bus error a frame is received as it should be iff the ring has two descriptors, or the frame fits the one, or that one has no room and already had STP. |
| `LanceRings.TransmitScanResult` | contrib/tme-0.8/ic/am7990.c:557-625 | With the transmitter off nothing happens. With it on the scan takes TDMD back and hands back, in ring order, exactly the owned descriptors before a start of packet, stops there or at one of the host's, requests an interrupt iff it skipped any, and makes two DMA operations for each and one more; a bus error stops it just when these run out. |
| `LanceRings.Lance.ReceiveFrame` | contrib/tme-0.8/ic/am7990.c:754-899 | The chip's loop leaves the ring, index, memory writes and CSR0 of a received frame, MISS when the descriptor is the host's. |
| `LanceRings.Lance.FillBuffers` | contrib/tme-0.8/ic/am7990.c:781-891 | The do loop, descriptor word by descriptor word. |
| `LanceRings.Lance.ScanTransmit` | contrib/tme-0.8/ic/am7990.c:557-625 | The endless loop ends, and leaves what the scan leaves. |
| `KeyboardTime.EventTimeDiff` | contrib/tme-0.8/generic/keyboard.c:1421-1433 | A moved time is never the undefined time. |
| `KeyboardTime.DiffMoves` | contrib/tme-0.8/generic/keyboard.c:1421-1433 | It moves by the difference, or by one more the same way when that would land on the undefined time. |
| `KeyboardTime.EventTimeSubtract` | contrib/tme-0.8/generic/keyboard.c:1435-1492 | The wrapped subtraction is the signed 32-bit reading of the true difference. |
| `KeyboardTime.SignedReadingUnique` | contrib/tme-0.8/generic/keyboard.c:1435-1492 | There is only one such reading. |
| `KeyboardModifiers.BottomKeeps` | contrib/tme-0.8/generic/keyboard.c:2371-2502 | One event leaves its key as it says, changes no other key and no other modifier, and keeps the mask and the calls exact. |
| `KeyboardModifiers.SynchronizeMatches` | contrib/tme-0.8/generic/keyboard.c:2542-2639 | After the inferred releases and presses the mask is the event's, over the modifiers known, and only keysyms of modifiers that differed have changed. |
| `KeyboardModifiers.TakeKeycodeKeeps` | contrib/tme-0.8/generic/keyboard.c:2685-2727 | A keysym that held the event's keycode is released, and the keycode recorded. |
| `KeyboardModifiers.DirectIsUnknown` | contrib/tme-0.8/generic/keyboard.c:2656-2683 | Over any run the events passed on directly are, in order and with their times, those of keysyms without state, if there are no output stages, and none otherwise. |
| `KeyboardModifiers.TopKeeps` | contrib/tme-0.8/generic/keyboard.c:2504-2733 | A raw event that no assert stops keeps everything, leaves its keysym pressed iff it is a press, releases a keysym whose keycode it takes, and at a press leaves in the mask the event's modifiers and the keysym's own. |
| `KeyboardModifiers.RunKeeps` | contrib/tme-0.8/generic/keyboard.c:2371-2733 | Whatever raw events arrive, as long as no assert stops the program, the next stage sees each keysym pressed and released in turn, and a modifier is in the mask iff an attached keysym is down. |
| `KeyboardModifiers.RunExplained` | contrib/tme-0.8/generic/keyboard.c:2371-2733 | In any run each call that comes of an event is the event itself, or the release that must have come before a repeated press, or the release of the keysym whose keycode it takes, or brings the mask to the event's: a release for a modifier cleared unseen, or a press of the first keysym of one set unseen; each with its time. |
| `KeyboardModifiers.RunOrdered` | contrib/tme-0.8/generic/keyboard.c:2504-2733 | In any run the calls that come of an event are, in this order, for keysyms attached to modifiers, list by list, for the first keysyms of modifiers, for the one that held the keycode, and for the event's own. |
| `KeyboardModifiers.BottomCalls` | contrib/tme-0.8/generic/keyboard.c:2371-2502 | The calls of one event through the bottom half: none for the release of a keysym that is up, two for the press of one that is down. |
| `KeyboardModifiers.PseudoTimeAsPromisedIff` | contrib/tme-0.8/generic/keyboard.c:2416-2436 | The release that must have come before a repeated press is never after that press iff 80 ms after the first press is not, and is as soon as possible without being after it iff that time is just before the second press. |
| `KeyboardModifiers.ReleasedAfterPress` | contrib/tme-0.8/generic/keyboard.c:2416-2436 | An input for which it is after: a key pressed again 50 ms after a press. |
| `KeyboardModifiers.MaskAgreesIff` | contrib/tme-0.8/generic/keyboard.c:2414-2457 | In every state the assert on the mask holds at a press iff the event's mask is within the modifiers known, taking the keycode releases no last holder of a modifier, and the keysym is not pressed already as the only holder of its own; all told from the state before the event. |
| `KeyboardModifiers.SynchronizePresses` | contrib/tme-0.8/generic/keyboard.c:2542-2639 | Which keysyms are pressed once the mask has been brought to the event's: the first of a modifier set unseen, none of one cleared, all others as before. |
| `KeyboardModifiers.StepRunsIff` | contrib/tme-0.8/generic/keyboard.c:2371-2733 | An event goes through iff every modifier it sets unseen has a keysym and, at a press, the mask stays the event's. |
| `KeyboardModifiers.RepeatedPressAborts` | contrib/tme-0.8/generic/keyboard.c:2414-2457 | A press repeated while its keysym alone holds a modifier stops the program, with the very mask the stage has. |
| `KeyboardModifiers.RepeatedModifierAborts` | contrib/tme-0.8/generic/keyboard.c:2414-2457 | An input that does so: two presses of the one keysym of a modifier, the second with the modifier in its mask. |
| `KeyboardModifiers.CanSynchronizeIff` | contrib/tme-0.8/generic/keyboard.c:2606-2639 | The assert that a modifier set unseen has a keysym to press holds in every state, for every mask, iff no modifier was given an empty list. |
| `KeyboardModifiers.AnyStreamPlays` | contrib/tme-0.8/generic/keyboard.c:2504-2733 | With no empty list, a stream of events with defined times goes through iff every press in it meets a mask that stays. |
| `KeyboardModifiers.TruthfulStreamPlays` | contrib/tme-0.8/generic/keyboard.c:2371-2733 | A stream that misses nothing (each keysym pressed and released in turn, with the true masks, no keycode shared by two keysyms that are down) goes through, and exactly its events are passed on. |
| `KeyboardModifiers.InputStage0.AttachModifier` | contrib/tme-0.8/generic/keyboard.c:651-692 | Attaching detaches the old list, attaches and links the new, whatever it repeats or takes from other lists; lists and keysyms stay in agreement iff linking loses no keysym and none is attached elsewhere. |
| `KeyboardModifiers.AttachingValidIff` | contrib/tme-0.8/generic/keyboard.c:651-692 | When lists and keysyms stay in agreement. |
| `KeyboardModifiers.LinksMake` | contrib/tme-0.8/generic/keyboard.c:676-685 | Writing one link for each keysym of a list, first to last, makes the linked list, and of any other list what is said of it. |
| `KeyboardModifiers.BetweenIsLost` | contrib/tme-0.8/generic/keyboard.c:676-685 | An input that loses a keysym: one that is listed between two places of another. |
| `KeyboardModifiers.InputStage0.BottomHalf` | contrib/tme-0.8/generic/keyboard.c:2371-2502 | The bottom half, recursion and search included; its asserts on automatic events hold, and it says whether the one on the mask does. |
| `KeyboardModifiers.InputStage0.MatchMask` | contrib/tme-0.8/generic/keyboard.c:2564-2639 | The loops over modifiers; all that had to be cleared are clear, all that had to be set are set, and none pressed twice; it says whether each had a keysym. |
| `KeyboardModifiers.InputStage0.Event` | contrib/tme-0.8/generic/keyboard.c:2504-2733 | The top half; it goes through exactly when no assert stops it. |
| `KeyboardEvents.BetweenTwo` | contrib/tme-0.8/generic/keyboard.c:2371-2378 | In alternating events, between two presses of a key there is a release of it, and the other way round. |
| `KeyboardModes.AcceptedModes` | contrib/tme-0.8/generic/keyboard.c:694-743 | A mode input stage one accepts never keeps releases back, and an unlock or lock bit decides alone. |
| `KeyboardModes.AcceptedIff` | contrib/tme-0.8/generic/keyboard.c:708-738 | Accepted are the unlock bit and the lock bit, each by itself, and without them any bits that keep no releases back, are no soft lock, and withhold autorepeats only where events pass. |
| `KeyboardModes.StageKeeps` | contrib/tme-0.8/generic/keyboard.c:1494-1741 | One event keeps what the stage knows of every key; every call it makes is accounted for; no other settled key is left waiting. |
| `KeyboardModes.RunKeeps` | contrib/tme-0.8/generic/keyboard.c:1494-1741 | Over every alternating run no key is on the list twice, each listed key defers, is pressed and remembers its last raw release, and the next stage sees each key alternate. |
| `KeyboardModes.RunMeans` | contrib/tme-0.8/generic/keyboard.c:1494-1741 | Over every alternating run the next stage has a locking key as pressed from the press of every other genuine pair to the release of the pair after it, a key without autorepeats until its release is believed, an unlocking key never, any other as it is; and has had just the calls that takes, one for each genuine pair of a locking key. |
| `KeyboardModes.PairToggles` | contrib/tme-0.8/generic/keyboard.c:1650-1692 | A genuine press and release of a locking key, however it bounces and whatever other keys do between, makes one call for it and turns it over. |
| `KeyboardModes.LatestReleasedFirst` | contrib/tme-0.8/generic/keyboard.c:1509-1596 | Keys whose releases one event lets through are released in the order they came onto the list, the last first. |
| `KeyboardModes.DeferredReleases` | contrib/tme-0.8/generic/keyboard.c:1532-1577 | A deferred release comes only when the key's last raw event was a release more than 80 ms before, and is timed just before the event that reveals it. |
| `KeyboardModes.WalkStep` | contrib/tme-0.8/generic/keyboard.c:1509-1596 | At each position of the walk its asserts hold: a key whose last event was a press is being released, one whose last was a release is being pressed. |
| `KeyboardModes.ListedDefers` | contrib/tme-0.8/generic/keyboard.c:1509-1692 | Only keys that lock or must not autorepeat wait on the list, and they are pressed. |
| `KeyboardModes.KeymodeStage.InMode` | contrib/tme-0.8/generic/keyboard.c:694-743 | Which mode bits are refused. |
| `KeyboardModes.KeymodeStage.Event` | contrib/tme-0.8/generic/keyboard.c:1494-1741 | The stage on its list, in place; all its asserts hold. |
| `KeyboardMacroTrie.EntriesMeaning` | contrib/tme-0.8/generic/keyboard.c:778-835 | A macro releases the keysyms only on its left and presses all on its right; its last entry is a press iff the right adds a keysym or keeps the left's last. |
| `KeyboardMacroTrie.AcceptAllPrefixFree` | contrib/tme-0.8/generic/keyboard.c:837-924 | After any additions no accepted left-hand side starts another, and each accepted macro was asked for and well formed. |
| `KeyboardMacroTrie.DenotesUnique` | contrib/tme-0.8/generic/keyboard.c:233-267 | A set of macros has exactly one tree. |
| `KeyboardMacroTrie.DeeperGrows` | contrib/tme-0.8/generic/keyboard.c:867-900 | Following one more keysym makes the branch and the child iff they were not there. |
| `KeyboardMacroTrie.LeafCompletes` | contrib/tme-0.8/generic/keyboard.c:909-912 | Finishing the leaf of a left-hand side that clashes with none gives the tree of the larger set. |
| `KeyboardMacroTrie.MacroTree.AddMacro` | contrib/tme-0.8/generic/keyboard.c:745-924 | The tree stays that of the accepted macros; EINVAL iff a side is empty or the last entry no press, EEXIST iff a prefix relation exists; a rejected macro leaves the tree unchanged. |
| `KeyboardMacroTrie.MacroTree.Follow` | contrib/tme-0.8/generic/keyboard.c:837-900 | The descent finds a clash iff there is one, having made nothing. |
| `KeyboardMacros.SequenceAfterPress` | contrib/tme-0.8/generic/keyboard.c:243-246 | A press continues the sequences it ends and breaks none. |
| `KeyboardMacros.SequenceAfterRelease` | contrib/tme-0.8/generic/keyboard.c:243-246 | A release breaks exactly the sequences its keysym is in. |
| `KeyboardMacros.PressAdvances` | contrib/tme-0.8/generic/keyboard.c:2242-2271 | A press turns the list of held nodes into that of the nodes held after it. |
| `KeyboardMacros.ReleaseRetreats` | contrib/tme-0.8/generic/keyboard.c:2272-2297 | So does a release. |
| `KeyboardMacros.ApplyKeeps` | contrib/tme-0.8/generic/keyboard.c:2299-2330 | Doing or undoing a macro counts each of its entries once, and tells the next stage of every keysym that flips, but the event's own. |
| `KeyboardMacros.StageKeeps` | contrib/tme-0.8/generic/keyboard.c:2212-2338 | One event keeps the active list, the counters and the calls exact. |
| `KeyboardMacros.StageCallsAt` | contrib/tme-0.8/generic/keyboard.c:2325-2337 | Every call an event makes has the event's time. |
| `KeyboardMacros.RunKeeps` | contrib/tme-0.8/generic/keyboard.c:2212-2338 | After every alternating run the active list has no node twice and the root last, and holds exactly the nodes whose keysyms are all down and were pressed in path order; the counters count the entries of the active leaves; output stage zero is told of each flip, in turn. |
| `KeyboardMacros.RunMeans` | contrib/tme-0.8/generic/keyboard.c:2212-2338 | After every alternating run a keysym is pressed for the output stages iff a macro whose left-hand side is held in sequence presses it, or none such releases it and it is pressed in the stages before. |
| `KeyboardMacros.StageTouches` | contrib/tme-0.8/generic/keyboard.c:2242-2338 | The calls of an event are for the keysyms of the macros the walk comes to, in its order and each macro's from the last to the first, and then for the event's own keysym. |
| `KeyboardMacros.RunInOrder` | contrib/tme-0.8/generic/keyboard.c:2242-2297 | After every run the active nodes are walked in one order, told from the events: a node after those that go on from it, and of two that part, the one that went on with the keysym pressed earlier first. |
| `KeyboardMacros.TreeIsShaped` | contrib/tme-0.8/generic/keyboard.c:256-266 | A tree built by accepted additions is one the stage can walk. |
| `KeyboardMacros.InputStage2.WalkPress` | contrib/tme-0.8/generic/keyboard.c:2242-2330 | The walk of a press; the child it activates is never active already. |
| `KeyboardMacros.InputStage2.WalkRelease` | contrib/tme-0.8/generic/keyboard.c:2242-2330 | The walk of a release. |
| `KeyboardMacros.InputStage2.ApplyEntry` | contrib/tme-0.8/generic/keyboard.c:2306-2329 | One entry; its counter never underflows. |
| `KeyboardMacros.InputStage2.Event` | contrib/tme-0.8/generic/keyboard.c:2212-2338 | The stage in place. |
| `KeyboardPipeline.PipelineKeeps` | contrib/tme-0.8/generic/keyboard.c:2212-2733 | For every raw event stream stage zero goes through with, each stage meets what the next one relies on, and what leaves input stage two alternates. |
| `KeyboardPipeline.KeyboardMeans` | contrib/tme-0.8/generic/keyboard.c:2212-2733 | What the output stages have as pressed, told from the events: each key as its mode means it, and over that the macros that are held. |
| `KeyboardPipeline.PlainKeyboardIsTransparent` | contrib/tme-0.8/generic/keyboard.c:2212-2369 | With no modes and no macros, stages one and two pass on exactly what stage zero gave. |
| `KeyboardPipeline.TruthfulKeyboardIsTransparent` | contrib/tme-0.8/generic/keyboard.c:2212-2733 | And when the raw events miss nothing, the output stages see exactly those of known keysyms. |
| `SerialRing.TakenIsLongest` | contrib/tme-0.8/generic/serial.c:184-194 | A read takes the longest run of equal flags, up to the count. |
| `SerialRing.PutLaps` | contrib/tme-0.8/generic/serial.c:114-130 | However much is written round the ring, it holds the last lap of all that was written. |
| `SerialRing.CopyInMeaning` | contrib/tme-0.8/generic/serial.c:72-137 | A copy leaves the last lap of what was held and copied; that is all of it, and a queue with as much appended as has room, iff the head does not pass the tail. |
| `SerialRing.RunConservesIff` | contrib/tme-0.8/generic/serial.c:72-219 | Over any run of the ring nothing accepted is lost, doubled, reordered or given other flags, iff in no copy the head passes the tail; else items are lost for good. |
| `SerialRing.FillingLoses` | contrib/tme-0.8/generic/serial.c:72-137 | An input that does so: as many bytes as a fresh ring has slots are all counted as copied, and some are lost. |
| `SerialRing.ReadAsAccepted` | contrib/tme-0.8/generic/serial.c:72-219 | Over any run no byte is read that was not accepted with the very flags it is read with, so never with a mark. |
| `SerialRing.MarkedIff` | contrib/tme-0.8/generic/serial.c:90-130 | A slot is marked iff some copy found the ring full there and none has written to it since. |
| `SerialRing.EmptyReadIff` | contrib/tme-0.8/generic/serial.c:158-171 | A read of an empty ring returns the overrun flag iff the tail stands at a slot marked and not written since, or written with that flag. |
| `SerialRing.EmptyReadOfMark` | contrib/tme-0.8/generic/serial.c:72-219 | An input that does so: a full ring is found full, is drained, and is read once more. |
| `SerialRing.SerialBuffer.constructor` | contrib/tme-0.8/generic/serial.c:42-70 | The size is the least power of two not less than the request. |
| `SerialRing.SerialBuffer.CopyIn` | contrib/tme-0.8/generic/serial.c:72-137 | The loop over stretches leaves the ring and the count of a copy; the queue is the last lap, and what was held with as much appended as has room when the head does not pass the tail. |
| `SerialRing.SerialBuffer.MarkOverrun` | contrib/tme-0.8/generic/serial.c:96-99 | Marking an overrun marks that slot, and changes no other and no byte. |
| `SerialRing.SerialBuffer.CopyOut` | contrib/tme-0.8/generic/serial.c:139-219 | A read gives the longest run of equal flags up to the count, in order across the wrap, with the flags found at the tail, and takes it off unless it only peeks. |
| `SerialRing.SerialBuffer.SpaceBusy` | contrib/tme-0.8/generic/serial.c:221-238 | The busy count is the length of the queue. |
| `SerialRing.SerialBuffer.SpaceFree` | contrib/tme-0.8/generic/serial.c:240-247 | The free count is what a copy can append. |
| `RingSizes.RoundUp` | contrib/tme-0.8/generic/serial.c:46-52 | Clearing low bits and doubling gives the least power of two not less than the request. |
| `RingSizes.MaskWraps` | contrib/tme-0.8/generic/serial.c:126-127 | A masked position is the position in the ring. |
| `MouseRing.DeltasOpposite` | contrib/tme-0.8/generic/mouse.c:91-102 | The sign-bit arithmetic tells deltas that are both nonzero and of different signs. |
| `MouseRing.MergeGrows` | contrib/tme-0.8/generic/mouse.c:118-164 | A merged event sums up a group in which nothing moves against anything else. |
| `MouseRing.RunGroups` | contrib/tme-0.8/generic/mouse.c:104-231 | After any run, delivered and waiting events are the accepted ones, in order, taken in groups. |
| `MouseRing.RunConserves` | contrib/tme-0.8/generic/mouse.c:104-231 | They move as far as the accepted ones, both in sum and in distance, on each axis, through the same buttons and units in the same order. |
| `MouseRing.RunMerges` | contrib/tme-0.8/generic/mouse.c:104-179 | In any run a new event goes into the last one waiting iff its movement, buttons and units can be told from the sum of both without loss; else it waits itself if there is room, and is refused if there is none. |
| `MouseRing.MouseBuffer.CopyIn` | contrib/tme-0.8/generic/mouse.c:104-179 | An event is merged into the last one, appended, or refused with the queue unchanged. |
| `MouseRing.MouseBuffer.CopyOut` | contrib/tme-0.8/generic/mouse.c:181-231 | The oldest events come out, up to the count. |
| `EthernetFrames.TableIsEightBits` | contrib/tme-0.8/generic/ethernet.c:198-212 | Two table steps for a byte are eight steps of the bit-serial division. |
| `EthernetFrames.Crc32` | contrib/tme-0.8/generic/ethernet.c:193-216 | The checksum is the remainder of the message's bits, as they go on the wire, divided by 0xEDB88320 reflected, from all ones and not complemented. |
| `EthernetFrames.Piecewise` | contrib/tme-0.8/generic/ethernet.c:193-216 | It can be computed over any split of the message. |
| `EthernetFrames.BurstDetected` | contrib/tme-0.8/generic/ethernet.c:193-216 | What the sequence is for: every burst of errors of at most 32 bits changes it, in a message of any length. |
| `EthernetFrames.ChunksCopy` | contrib/tme-0.8/generic/ethernet.c:124-191 | The destination chunks, one after the other, hold the longest prefix of the source chunks that fits, all other memory is unchanged, and the source's whole length is returned, with or without a destination; chunks of no bytes may only come after all that is copied, as the assert asks. |
| `EthernetFrames.CopiedMore` | contrib/tme-0.8/generic/ethernet.c:154-177 | One more stretch is read where nothing was written and written where nothing copied is. |
| `CounterCatchUp.RepeatClosed` | contrib/tme-0.8/ic/am9513.c:398-443 | A repeating counter's expiries and its final count, in closed form. |
| `CounterCatchUp.RepeatLeaves` | contrib/tme-0.8/ic/am9513.c:398-443 | The final count is at least one, and at most the load when it started so. |
| `CounterCatchUp.RepeatSplits` | contrib/tme-0.8/ic/am9513.c:398-443 | Catching up in two goes gives the same expiries and count as in one. |
| `CounterCatchUp.CatchUpSplits` | contrib/tme-0.8/ic/am9513.c:398-443 | And the same output pin. |
| `CounterCatchUp.PinStep` | contrib/tme-0.8/ic/am9513.c:402-429 | Each expiry leaves an inactive output, sets an interrupt, and changes any other output. |
| `CounterCatchUp.EndsIff` | contrib/tme-0.8/ic/am9513.c:399-442 | The loop of a repeating counter ends iff its load is not zero or it does not reach zero at all. |
| `CounterCatchUp.Counter.CatchUp` | contrib/tme-0.8/ic/am9513.c:388-450 | The loop leaves that count and that pin; a counter that does not repeat stops at zero, disarmed. |
| `ScsiPhase.UnpackPack` | contrib/tme-0.8/generic/scsi.c:109-119 | What was packed in the opaque state comes out again; it fits 32 bits and is never the stop state. |
| `ScsiPhase.CommandLengthMeaning` | contrib/tme-0.8/generic/scsi.c:143-155 | Which operation codes have which length. |
| `ScsiPhase.WaitingMeaning` | contrib/tme-0.8/generic/scsi.c:205-223 | Only nothing, or the first byte of an extended message, leaves the parser waiting, and the opaque state then comes apart as what has been seen. |
| `ScsiPhase.PhaseResid` | contrib/tme-0.8/generic/scsi.c:88-225 | The function as it runs does what one call does: it takes the opaque word apart, skips, steps byte by byte and packs again, or stops at an assert or an unknown group. |
| `ScsiPhase.CallIsOneShot` | contrib/tme-0.8/generic/scsi.c:88-225 | A call that is given the word of a waiting call and a buffer that has grown answers as the bytes' own length says, as if it had had all of it at once. |
| `ScsiPhase.CallMeaning` | contrib/tme-0.8/generic/scsi.c:88-225 | A call in any state that can be packed: what was seen and not transferred is skipped and is the residual to begin with; the length the other bytes tell is added, or they are counted as seen. |
| `ScsiPhase.CallsAreOneShot` | contrib/tme-0.8/generic/scsi.c:88-225 | However the buffer grows, calls that hand the returned word on come to the answer of one call: the residual is found as soon as the bytes tell it. |

## Left out

- Buses with a controller, and `tme_bus_tlb_set_add`: a bus here answers for itself, and TLB sets are not modelled.
- `tme_bus_cycle_xfer` and the register form of it: the lane and router macros they use are not part of this model.
- `BusTlb.MappedAgrees`: fast pointers are integers compared modulo the width of a bus address, because host pointers may be wider; a pointer that would land on the undefined value is not told from a pointer.
- The last-address field of a connection, and the growth of arrays: only what they hold matters here.
- A connection's own subregions are taken to be disjoint, as the source's note at bus.c lines 339-340 asks and does not check.
- `BusSignals.SignalKeeps`: the edge comes from a full connection; a half connection is not on the list, and its bitmap is replaced when it is made in full.
- `BusSignals.GenericBus.SignalEdge`: an unconfigured interrupt signal, or a level that is neither asserted nor negated, aborts the program and is excluded.
- `BusSignals.GenericBus.SignalsAdd`: the age of a version is taken not to be greater than its number, where the source would wrap.
- What another element does inside a signal or acknowledge handler is a parameter: the set of those that answer EDEADLK, or the question passed on.
- The mutex, threads and file I/O of the Ethernet element appear only as the points between steps; packet filters and frame lengths do not appear.
- The other elements with callouts: several clear RUNNING in their resets, so the same exclusivity does not hold of them.
- `LanceRings.ReceiveResult`: DMA stops at a bus error after any number of operations; a STOP written by the host meanwhile is not modelled, and a write cut short counts as none.
- The LANCE host is taken not to change the ring while the chip works, and the buffers not to overlap it; address filtering, loopback and the transmit data path are not modelled.
- `KeyboardModifiers.DirectIsUnknown`: events passed through for keysyms without state are logged apart from the calls, so their order among these is not modelled.
- The keyboard is set up before its first event: attachments, modes and macros do not change during a run. Events are followed only where lists and keysyms agree, as `KeyboardModifiers.AttachingValidIff` says they do.
- The output stages of the keyboard: several keysyms may share a keycode there, and soft locks are marked broken in the source.
- The event ring of the keyboard is an unbounded log of calls; keysym states are looked up in maps instead of hash tables, tree nodes are named by their paths instead of linked, and memory is never freed.
- `MouseRing.RunConserves`: deltas are unbounded, as the source notes an unchecked overflow.
- `CounterCatchUp.Counter.CatchUp`: ticks are those of the counter's own clock; the division from basic ticks and the sleep time are not modelled.
- `ScsiPhase.PhaseResid`: nothing in the source ever counts bytes as transferred, so that count stays zero from the start state; only its packing is covered in general.
- The display element repeats the callout protocol of the Ethernet element; clock chips, disk controllers and the framebuffer are register files or stubs.
