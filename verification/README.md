# Verified model of the CoreVM core

CoreVM is a virtual machine monitor with a clustered storage back end. This project models the
parts of it whose correctness is hardest to see, and proves what they keep:

- **SMP device dispatch** (`MmioRouter`, `SmpDispatch`, `SmpAccesses`, `SmpSafety`, `SmpReset`,
  `SmpSlots`). Any number of threads run the device entry points; every entry point is a small program
  over four locks, and one step runs one action of one thread. The AHCI controller queues disk requests
  under AHCI_LOCK, the thread executes them without it and completes them under it again.
- **The shared interrupt line and the handle table** (`IrqLine`, `IrqOverlap`, `VmRegistry`). The
  sections that share line 11 are modelled twice: as atomic steps, and as single reads and writes.
- **x86 architectural state** (`Bits`, `Flags`, `FlagMeaning`, `ConditionCodes`, `RegisterFile`,
  `InterruptController`). Bit tricks are proved against integer arithmetic, a byte store and sets.
- **The legacy configuration file** (`StdText`, `LegacyConfig`, `ConfigRoundTrip`, `ConfigDefaults`).
- **The iSCSI target** (`IscsiPdu`, `IscsiResponses`, `IscsiSession`, `IscsiGuarantees`,
  `IscsiDelivery`, `IscsiStorage`, `IscsiCommands`, `IscsiWire`), from the bytes of one connection to the
  numbering and answering of requests over a whole session, and to what reaches the volume.
- **The block sockets behind it** (`BlockSocket`): one connection per volume, shared by all sessions
  under one lock, and the storage service at the other end, byte by byte.
- **Pooled SAN sockets** (`SanProtocol`, `SanExchange`, `SocketPool`), with an arbitrary conforming peer,
  from any state earlier calls may have left a connection in.
- **Smaller loops** (`PacketBuffer`, `Tokenizer`, `IoHarness`).

`Basics`, `Wrappers` and `Bytes` are shared. The classes and methods follow the structure of the
source; each is tied to a function of its inputs or of the old state, and the theorems are
about those functions, over all inputs, all runs or all interleavings. `dafny verify
dfyconfig.toml` checks everything.

The release build enables overflow checks, so an arithmetic overflow is modelled as a panic.

## What the proofs found

- ADC and SBB fold the carry into the second operand, so OF is inverted exactly when the carry is
  set and the second operand is the largest positive value. The ADD and SUB helpers are documented
  for ADC and SBB too; used that way they lose CF exactly when the second operand is all ones, or
  when the operands are equal.
- The MMIO bus takes the first registered region that holds an address, and the standard setup
  registers the VGA adapter's windows before the PCI router. A guest that moves AHCI's BAR5 to
  0xFEBE_0000 makes the lock test skip MMIO_LOCK while the access goes to the VGA adapter. MMIO exits
  are protected exactly when the AHCI window avoids every region registered before the router. The
  guest can move such a region too: PCIEXBAR set to 0xF000_0000 puts the 256 MiB of PCI configuration
  space over the router and hides every device behind it. An HPET set up early counts as well.
- These entry points reach a device without its lock: the VGA ports (they hold IO_LOCK, while the
  same registers are reached under MMIO_LOCK by MMIO), the HPET in `corevm_poll_irqs`, VirtIO-Net in
  `corevm_net_poll` and `corevm_virtio_net_process_rx`, the VirtIO GPU, keyboard and tablet calls of the host,
  the framebuffer views of the VGA, VirtIO and Intel adapters, and
  `corevm_set_io_activity_callbacks` for AHCI and VirtIO-Net.
- An HBA reset clears PORT_CI but not deferred_ci. The slots in flight read as busy throughout a run
  exactly when the guest never resets the HBA with requests in flight. After such a reset a command
  issued in a slot that reads as free can be lost: it is never queued, and the older completion clears
  its bit. The comment on `complete_io` that CI was cleared before is not what the code does.
- Two devices that raise and lower line 11 in overlapping sections, under different locks, can leave a
  request with the line low. That happens exactly when one of them, having seen the other's flag
  clear, writes the line low after the other has raised it and nothing settles it later; the line
  never stays high for nobody. Both orders are possible.
- In the configuration reader the numbered-disk guard shadows both disk cache settings, so they
  never load. `disk0=` brings the reader down.
- While a write collects its data, the first unit that is no Data-Out is swallowed: if it is a
  request it is never answered. What has been gathered by then is passed on under a header that
  announces more. On a connection in step the storage service waits for the rest and the target waits
  for the reply, without a timeout and under the one lock of all block sockets: neither this write nor
  any later command that needs the block service, of any session and on any volume, is ever answered.
- A write whose Data-Outs overshoot what it announces is answered, and leaves its extra bytes in the
  block socket. If they begin with a header that is no request, the service closes the connection and
  the next block request of whichever session fails; if they are a request, it is carried out, and every
  reply from then on belongs to the request before it.
- Nobody waits and every block connection is in step, so that each request gets the reply to itself,
  exactly as long as the data of every write that gets through is as long as its header says.
- An initiator gets exactly one readable answer to each request if and only if the units it sends do not
  run out inside a write, none that a write takes is a request, no command panics, the block service
  replies to every command that needs it, every answer fits its length field and the peer, and no request
  follows the end of the session. From a connection in step the service replies to, or closes on,
  everything but a write that falls short of what it announces.
- A READ(10) or READ(16) of 32768 blocks or more, served in full, overflows the 24-bit length field of
  its Data-In. Only the storage service's own limit of 4 MiB per request keeps that from happening.
- The target's comment promises the wire format of RFC 3720. But the status of a SCSI command stands in byte
  21 of its answer, while sections 10.4.2 and 10.7.3 have it in byte 3, which is 0 in every answer: an
  initiator that follows the standard reads GOOD whatever became of the command. The number a login
  answers as ExpCmdSN is bytes 28 to 31 of the request, the ExpStatSN of section 10.12, not the CmdSN at
  24; above 0xFFFF_FFDF it panics. And the login promises InitialR2T=Yes, though no answer is ever an R2T.
- A volume smaller than one block, or a capacity query that failed, is announced as one block.
- A caller that gives up on a pooled exchange (a dropped future) leaves the connection in the pool
  between messages; only exchanges that return an error are evicted. If its request was out and the
  reply was not in, every later caller gets the reply to the call before its own. If its request was cut
  off inside key or body, the next one is taken for the rest of it. A key of 4 GiB or more has its length cut, is taken
  for another request and leaves the connection out of step as well. The connection is in step between
  all calls exactly when none of them does either; a caller on a connection out of step may still get
  its own reply by accident.

## Model

| member | source | states |
|---|---|---|
| MmioRouter.ReadAndWriteAgree | libs/libcorevm/src/ffi.rs:2079-2428 | by the raw BAR registers and the masks of the nine devices alone, an absent device or bus giving no window: every address goes to the first window in priority order that holds it, with its offset there, for reads and writes alike |
| MmioRouter.DispatchExactly | libs/libcorevm/src/memory/mmio.rs:103-131 | an access goes to the device of the first registered region that holds the address, from the catch-all region to that window, and without a region to the page at the adapter's raw BAR2 or nowhere |
| MmioRouter.RoutedAhciPassesTest | libs/libcorevm/src/ffi.rs:2321-2347 | an address that the first region holding it sends to the AHCI controller always passes the lock test |
| MmioRouter.TestImpliesAhciExactly | libs/libcorevm/src/ffi.rs:1518-1525 | every address that passes the lock test reaches AHCI iff the AHCI window lies in the catch-all region and is disjoint from every region registered before the router's and from the E1000 window |
| MmioRouter.WindowReachesRouter | libs/libcorevm/src/memory/mmio.rs:123-131 | over any list of regions, all of a window reaches the router iff it lies in the catch-all region and overlaps no region before the router's |
| MmioRouter.StandardWindowRouted | libs/libcorevm/src/vm.rs:318-326 | with the standard regions: iff the AHCI window avoids the framebuffer, the VGA memory at its default BAR and the DISPI page |
| MmioRouter.DispiPageShadowsAhci | libs/libcorevm/src/vm.rs:318-326 | with BAR5 at 0xFEBE_0000 the lock test says AHCI and the access goes to the VGA adapter |
| MmioRouter.MovedConfigSpaceHidesAll | libs/libcorevm/src/memory/mmio.rs:103-120 | with configuration space moved to 0xF000_0000 no address of the catch-all region reaches the router any more |
| SmpSafety.OperationsDisciplined | libs/libcorevm/src/ffi.rs:1534-1553 | every entry point takes locks in rank order, releases only its own, and queues, takes, executes and completes requests in that order, even if a BAR moves between test and routing |
| SmpAccesses.ExitReaches | libs/libcorevm/src/ffi.rs:1534-1553 | along every path an MMIO exit makes exactly one access, to the device the address is dispatched to: the E1000's under its mutex, a write to AHCI queued under AHCI_LOCK, executed without it and completed under it; and MMIO_LOCK is held throughout unless the lock test says AHCI |
| SmpAccesses.PortReaches | libs/libcorevm/src/ffi.rs:1421-1486 | a port instruction holds IO_LOCK and reaches its device exactly once per repetition |
| SmpAccesses.PollReaches | libs/libcorevm/src/ffi.rs:687-1089 | the IRQ poll reaches AHCI once if its lock is free and every other device that is there exactly once, in order and each under its own lock, the HPET under none |
| SmpAccesses.SectionsReach | libs/libcorevm/src/ffi.rs:1753-1780 | the AHCI and E1000 sections reach their device once under its lock, the cache check only if the lock is free |
| SmpAccesses.NetPollReaches | libs/libcorevm/src/ffi.rs:3080-3167 | a network poll reaches one card, VirtIO-Net if it is there and otherwise the E1000, once per round |
| SmpAccesses.HostCallReaches | libs/libcorevm/src/ffi.rs:3594-3898 | each call of the host reaches exactly the devices it is about and that are there, without a lock |
| SmpAccesses.CallbacksReach | libs/libcorevm/src/ffi.rs:3911-3944 | setting the callbacks changes AHCI and VirtIO-Net without a lock and the E1000 under its mutex, once each |
| SmpSafety.ReachableInv | libs/libcorevm/src/ffi.rs:71-175 | the lock, ledger and slot invariants hold in every state any interleaving of any number of threads can reach |
| SmpSafety.MutualExclusion | libs/libcorevm/src/ffi.rs:71-129 | one holder per lock, empty AHCI queue whenever AHCI_LOCK is free, no request executed by a thread holding it |
| SmpSafety.ExactlyOnce | libs/libcorevm/src/ffi.rs:2321-2347 | no request runs or completes twice or completes before it ran, and once all threads have returned each has done both exactly once |
| SmpSafety.DeferredSlots | libs/libcorevm/src/devices/ahci.rs:863-1100 | deferred_ci is exactly the set of slots in flight, one request per slot |
| SmpSlots.BusyExactly | libs/libcorevm/src/devices/ahci.rs:783-825 | in any run a slot reads as busy iff the last thing that happened to it is that a command was issued in it, and no reset, port write or completion freed it since |
| SmpSlots.AnyWriteGoesOn | libs/libcorevm/src/ffi.rs:2321-2347 | every run with no lock held goes on with every possible port write, which leaves PORT_CI, the slots in flight and what its thread has to execute, in order, as the commands issued, finished and deferred say |
| SmpReset.CoverExactly | libs/libcorevm/src/devices/ahci.rs:1283-1294 | in any run the slots in flight stay covered by PORT_CI throughout iff no HBA reset comes while requests are in flight |
| SmpReset.LossNeedsReset | libs/libcorevm/src/devices/ahci.rs:1283-1294 | a guest that issues commands only in slots it reads as free hits a slot in flight only in a run with such a reset |
| SmpReset.ResetUncoversSlot | libs/libcorevm/src/devices/ahci.rs:1283-1294 | a run exists in which a slot is in flight with its PORT_CI bit clear, because reset leaves deferred_ci |
| SmpReset.CommandIsLost | libs/libcorevm/src/devices/ahci.rs:783-825 | that run goes on: a command issued in the slot is never queued, and when both threads have returned the slot reads as free as if it had been done |
| SmpSafety.NoCyclicWait | libs/libcorevm/src/ffi.rs:29-175 | no reachable state has a cycle of threads each waiting for the next one's lock |
| SmpSafety.NoDeadlock | libs/libcorevm/src/ffi.rs:32-58 | while some entry point has not returned, some thread can take a step |
| SmpSafety.ProtectedExactly | libs/libcorevm/src/ffi.rs:3080-3167 | an entry point makes an access without the lock it needs exactly when lock test and routing disagree, or it is one of the listed unlocked paths and its device is there |
| SmpSafety.FixedBars | libs/libcorevm/src/ffi.rs:2079-2135 | with BARs that stay put, all MMIO exits are protected iff the AHCI window lies in the catch-all region and overlaps no region registered before the router's, and skipping MMIO_LOCK means AHCI iff it is also disjoint from E1000's |
| SmpSafety.DispiPageUnprotected | libs/libcorevm/src/ffi.rs:1534-1553 | with BAR5 at 0xFEBE_0000 the exit touches the VGA adapter with no lock at all |
| SmpSafety.AccessesLocked | libs/libcorevm/src/ffi.rs:1534-1551 | in every run of protected entry points each device access happens under the lock it needs |
| SmpSafety.NoRaces | libs/libcorevm/src/ffi.rs:130-175 | in no reachable state of protected entry points are two threads about to make conflicting accesses to one device |
| IrqLine.SharedLine.TryPollAhci | libs/libcorevm/src/ffi.rs:782-813 | the AHCI section of the IRQ poll acts on flag and line as the transition function says |
| IrqLine.SharedLine.PollAhci | libs/libcorevm/src/ffi.rs:1099-1214 | the AHCI poll after an exit, with the line as backup under MSI |
| IrqLine.SharedLine.PollNet | libs/libcorevm/src/ffi.rs:998-1014 | the VirtIO-Net section of the IRQ poll |
| IrqLine.LineIsWiredOr | libs/libcorevm/src/ffi.rs:788-813 | after any run of poll sections the line is the or of what each sharer last wanted: no deassert drops another's request |
| IrqLine.StuckGetsEdge | libs/libcorevm/src/ffi.rs:797-801 | a stuck controller on a high line gets a fresh rising edge; a poll that agrees with the line leaves it alone |
| IrqLine.TwoPollsSettle | libs/libcorevm/src/ffi.rs:1154-1212 | one deciding AHCI poll and one net poll, in either order, leave the line high iff one of them wants it |
| IrqLine.MessagesCounted | libs/libcorevm/src/ffi.rs:790-795 | over any run exactly one message is sent for each poll that gets to look at AHCI and finds the interrupt wanted by a guest that uses MSI |
| IrqLine.WantedIsDelivered | libs/libcorevm/src/ffi.rs:782-813 | every such poll, MSI or not, sends a message or leaves the line high |
| IrqLine.EdgesExactly | libs/libcorevm/src/ffi.rs:788-813 | over any run a poll drives the line exactly when what the sharers last wanted calls for it, and then to that level |
| IrqLine.OverlapLosesInterrupt | libs/libcorevm/src/ffi.rs:1009-1012 | a flag left set with the line low is not repaired by any later quiet poll |
| IrqOverlap.WrongExactly | libs/libcorevm/src/ffi.rs:1154-1212 | any number of sections of all three kinds, MSI backup included, interleaved in any way leave the line wrong iff one lowered it over the other's raise and nothing settled that; it is then low, never high for nobody |
| IrqOverlap.PairWrongExactly | libs/libcorevm/src/ffi.rs:998-1014 | for one AHCI and one network section, the line ends wrong iff one lowers it over the other's raise |
| IrqOverlap.NetLowersOverAhci | libs/libcorevm/src/ffi.rs:1009-1012 | an interleaving in which the network section lowers the line over AHCI's raise |
| IrqOverlap.AhciLowersOverNet | libs/libcorevm/src/ffi.rs:807-813 | an interleaving in which the AHCI section lowers it over the network card's raise |
| IrqOverlap.UninterruptedIsAtomic | libs/libcorevm/src/ffi.rs:782-813 | run without interruption the read and write steps do what the atomic sections do, for every finding of a poll |
| VmRegistry.Registry.Create | libs/libcorevm/src/ffi.rs:299-324 | creation reuses the first free slot or grows the table by one, failure changes nothing but the error |
| VmRegistry.Registry.Destroy | libs/libcorevm/src/ffi.rs:328-336 | destruction empties exactly the named slot |
| VmRegistry.Registry.GetVm | libs/libcorevm/src/ffi.rs:208-214 | lookup of a handle, zero and out of range included |
| VmRegistry.LengthIsPeak | libs/libcorevm/src/ffi.rs:299-336 | after any run the table length is NEXT_HANDLE - 1 and the peak number of simultaneously live VMs |
| VmRegistry.LookupFindsInstalled | libs/libcorevm/src/ffi.rs:206-214 | get_vm finds exactly the VM last installed under the handle and not destroyed since; zero never names one |
| VmRegistry.CreateKeepsOthers | libs/libcorevm/src/ffi.rs:302-316 | a new handle is non-zero and differs from all live ones, and all other handles keep their VM |
| Flags.BuildParityTable | libs/libcorevm/src/flags.rs:105-119 | entry v says whether v has an even number of one bits |
| Flags.ParityFlips | libs/libcorevm/src/flags.rs:105-119 | no ones are even, and setting any one of the eight bits flips it |
| FlagMeaning.AddExact | libs/libcorevm/src/flags.rs:134-166 | after ADD bit 0 is the carry, 2 the parity, 4 the half carry, 6 zero, 7 the sign and 11 the overflow by their integer definitions, and no other bit is set; with a carry-in only the carry differs, exactly when op2 is all ones |
| FlagMeaning.SubExact | libs/libcorevm/src/flags.rs:170-203 | SUB and CMP at the same bit positions; with a borrow-in only the carry differs, exactly when the operands are equal |
| FlagMeaning.AdcExact | libs/libcorevm/src/flags.rs:207-237 | ADC at the same bit positions, bit 11 inverted exactly when carry is set and op2 is the largest positive value |
| FlagMeaning.SbbExact | libs/libcorevm/src/flags.rs:241-270 | SBB at the same bit positions, with the same single exception |
| FlagMeaning.IncExact | libs/libcorevm/src/flags.rs:299-323 | INC at the same bit positions: the flags of adding one, bit 0 clear |
| FlagMeaning.DecExact | libs/libcorevm/src/flags.rs:329-353 | DEC at the same bit positions: the flags of subtracting one, bit 0 clear |
| FlagMeaning.AddLimbsExact | libs/libcorevm/src/flags.rs:207-237 | chaining CF over limb lists of any length adds exactly, final carry included |
| FlagMeaning.SubLimbsExact | libs/libcorevm/src/flags.rs:241-270 | chaining CF over limb lists of any length subtracts exactly |
| FlagMeaning.BorrowCompares | libs/libcorevm/src/flags.rs:241-252 | the final borrow is the unsigned comparison of the whole numbers |
| ConditionCodes.FlagRegister.UpdateFlags | libs/libcorevm/src/flags.rs:388-390 | merges the six arithmetic flags |
| ConditionCodes.FlagRegister.UpdateFlagsPreserveCf | libs/libcorevm/src/flags.rs:394-397 | merges five of them |
| ConditionCodes.UpdateIsExact | libs/libcorevm/src/flags.rs:388-390 | an update brings the six flags to bits 0, 2, 4, 6, 7 and 11 of RFLAGS and leaves each of the other 58 bits alone |
| ConditionCodes.PreserveCfIsExact | libs/libcorevm/src/flags.rs:394-397 | the update after INC and DEC does the same for all but bit 0, which stays |
| ConditionCodes.EvalIsCondition | libs/libcorevm/src/flags.rs:404-426 | each of the sixteen codes decides from the flags at those bits, whatever the other bits of RFLAGS are |
| ConditionCodes.CompareDecides | libs/libcorevm/src/flags.rs:404-426 | CMP followed by any of the sixteen condition codes decides the promised unsigned, signed or equality relation, at every size and for all operands |
| RegisterFile.Registers.ReadGpr8 | libs/libcorevm/src/registers.rs:403-410 | byte reads with and without REX |
| RegisterFile.Registers.WriteGpr8 | libs/libcorevm/src/registers.rs:414-423 | byte writes with and without REX |
| RegisterFile.Registers.WriteGpr16 | libs/libcorevm/src/registers.rs:433-436 | 16-bit merge |
| RegisterFile.Registers.WriteGpr32 | libs/libcorevm/src/registers.rs:449-451 | 32-bit zero extension |
| RegisterFile.Registers.WriteGpr64 | libs/libcorevm/src/registers.rs:461-463 | whole-register write |
| RegisterFile.Registers.ReadGpr | libs/libcorevm/src/registers.rs:469-476 | reads by operand width |
| RegisterFile.Registers.WriteGpr | libs/libcorevm/src/registers.rs:480-487 | writes by operand width |
| RegisterFile.WriteRefines | libs/libcorevm/src/registers.rs:414-463 | one write of any width overwrites exactly its own bytes of a 128-byte store |
| RegisterFile.RunRefines | libs/libcorevm/src/registers.rs:414-487 | any sequence of mixed-width writes acts as it acts on the byte store |
| RegisterFile.ReadsAgree | libs/libcorevm/src/registers.rs:403-476 | every read returns the bytes it covers, high-byte aliases included |
| RegisterFile.NarrowStoresLowBytes | libs/libcorevm/src/registers.rs:480-487 | a write by width stores the low bytes of its value, and zeros above for 32 bits |
| RegisterFile.BytesDetermine | libs/libcorevm/src/registers.rs:455-463 | equal bytes mean equal registers, so the store loses nothing |
| InterruptController.Controller.RaiseIrq | libs/libcorevm/src/interrupts.rs:85-89 | adds exactly one vector to the pending set |
| InterruptController.Controller.ClearIrq | libs/libcorevm/src/interrupts.rs:93-97 | removes exactly one |
| InterruptController.Controller.Acknowledge | libs/libcorevm/src/interrupts.rs:128-130 | removes exactly one |
| InterruptController.Controller.PendingInterrupt | libs/libcorevm/src/interrupts.rs:107-125 | nothing under shadow or with bit 9 of RFLAGS clear, otherwise the lowest vector of the set |
| InterruptController.Controller.LowestPendingVector | libs/libcorevm/src/interrupts.rs:141-149 | the lowest vector of the set |
| InterruptController.SetRefinement | libs/libcorevm/src/interrupts.rs:85-97 | the four-word bitmap acts as a set under raise and clear |
| InterruptController.PendingIffLastRaised | libs/libcorevm/src/interrupts.rs:85-130 | after any run a vector is pending iff its last operation was a raise |
| InterruptController.DrainExists | libs/libcorevm/src/interrupts.rs:107-130 | repeated deliver-and-acknowledge comes to an end |
| InterruptController.DrainEmitsSorted | libs/libcorevm/src/interrupts.rs:107-130 | it emits exactly the pending set in strictly ascending order |
| LegacyConfig.SaveLegacy | libs/vmm-core/src/config.rs:272-343 | writes one line per entry, numbered disk lines from the loop included |
| LegacyConfig.PlaceDisk | libs/vmm-core/src/config.rs:374-384 | grows the disk list with empty names up to the position, or panics at the capacity |
| LegacyConfig.ReadLine | libs/vmm-core/src/config.rs:355-433 | one line applied to the configuration, arms in source order |
| LegacyConfig.LoadLegacy | libs/vmm-core/src/config.rs:346-439 | the line loop and the final trimming of the disk list |
| ConfigRoundTrip.CacheArmsAreShadowed | libs/vmm-core/src/config.rs:374-431 | no key at all reaches the two cache arms; their keys land in the numbered-disk guard |
| ConfigRoundTrip.DiskStep | libs/vmm-core/src/config.rs:365-384 | reading the line of one more disk keeps the list equal to the saved one less trailing empty names |
| ConfigRoundTrip.SaveLoadNormalForm | libs/vmm-core/src/config.rs:272-439 | every configuration without newlines comes back with trailing empty disks dropped, SDN cleared, cache settings at their defaults, and each string less one trailing CR |
| ConfigRoundTrip.RoundTripExactly | libs/vmm-core/src/config.rs:354-355 | loading what was saved gives the normal form iff no string holds a newline or ends in CR |
| ConfigRoundTrip.ParsedHasNoNewlines | libs/vmm-core/src/config.rs:354-357 | no loaded string ever holds a newline |
| ConfigRoundTrip.SaveLoadIdempotence | libs/vmm-core/src/config.rs:272-439 | a second save and load changes nothing iff no string ended in two CRs |
| ConfigRoundTrip.LoadFailsExactly | libs/vmm-core/src/config.rs:375-381 | loading panics iff some line is a disk number zero, or a named disk past the capacity |
| ConfigRoundTrip.NoiseIsIgnored | libs/vmm-core/src/config.rs:396-432 | lines without an equals sign or with an unknown key change nothing, wherever they stand |
| ConfigDefaults.UnsetIsDefault | libs/vmm-core/src/config.rs:236-265 | a setting no line is about has its default, written out here, after loading, whatever else the file says |
| ConfigDefaults.UuidIsGiven | libs/vmm-core/src/config.rs:346-349 | the identifier is the given one and a file never sets up an SDN |
| ConfigDefaults.NewMachineFile | libs/vmm-core/src/config.rs:272-343 | the file of a new machine, every key and value in order |
| ConfigDefaults.GuestSystemsExactly | libs/vmm-core/src/config.rs:481-502 | the spellings of the guest systems; any other value is read as another system |
| ConfigDefaults.ChoicesExactly | libs/vmm-core/src/config.rs:385-431 | the spellings of every other choice; any other value is read as the default one |
| ConfigDefaults.BlanksAroundKey | libs/vmm-core/src/config.rs:354-356 | blanks around a key change nothing, those around a value belong to it |
| ConfigDefaults.NumbersExactly | libs/vmm-core/src/config.rs:363-364 | a number is read iff it is its decimal digits after any zeros and at most one plus sign, and fits |
| ConfigDefaults.NumberedDiskLine | libs/vmm-core/src/config.rs:374-384 | what a numbered disk line does to the list, panics included |
| ConfigDefaults.UnreadableNumbers | libs/vmm-core/src/config.rs:362-431 | a number that cannot be read or does not fit leaves a fixed value |
| IscsiPdu.ToBytes | apps/vmm-iscsi/src/pdu.rs:47-58 | the 48 header bytes |
| IscsiPdu.ReadFrom | apps/vmm-iscsi/src/pdu.rs:68-80 | takes one unit with its padding off the stream, or fails |
| IscsiPdu.WriteTo | apps/vmm-iscsi/src/pdu.rs:82-93 | puts header, data and padding on the stream, as far as the peer takes bytes |
| IscsiPdu.PduRoundTripExactly | apps/vmm-iscsi/src/pdu.rs:35-93 | one unit reads back with the rest of the stream untouched iff opcode < 64 and the length field tells the truth below 2^24 |
| IscsiPdu.ListRoundTripExactly | apps/vmm-iscsi/src/pdu.rs:68-93 | any list of units reads back, rest untouched, iff every unit is well formed |
| IscsiPdu.ReadStaysInStep | apps/vmm-iscsi/src/pdu.rs:68-80 | whatever bytes arrive, a unit read is well formed and took as many bytes as writing it would |
| IscsiPdu.EncodeTextParams | apps/vmm-iscsi/src/pdu.rs:159-163 | the encoding loop |
| IscsiPdu.TextRoundTripExactly | apps/vmm-iscsi/src/pdu.rs:152-163 | parsing undoes encoding iff no key or value holds NUL and no key holds an equals sign |
| IscsiResponses.ResponseCarries | apps/vmm-iscsi/src/pdu.rs:96-150 | a response carries its StatSN, and fits the wire format iff its data is below 2^24 bytes |
| IscsiWire.HeaderOnWire | apps/vmm-iscsi/src/pdu.rs:47-93 | a unit on the wire by byte positions: opcode at 0, flags at 1, data length at 5, LUN at 8, tag at 16, the rest from 20 on, data at 48 |
| IscsiWire.AnswersOnWire | apps/vmm-iscsi/src/pdu.rs:96-150 | opcode, flags, no LUN, tag, StatSN at 24, ExpCmdSN at 28 and MaxCmdSN at 32 of every answer but Data-In, and what is a login's or a NOP-In's own |
| IscsiWire.StatusOnWire | apps/vmm-iscsi/src/pdu.rs:114-133 | the same for SCSI answers and the Data-In that ends a read, with the status in byte 21 |
| IscsiWire.StandardStatusIsGood | apps/vmm-iscsi/src/pdu.rs:47-58 | byte 3, where RFC 3720 has the status, is 0 in every answer of every session |
| IscsiWire.FailureLooksGood | apps/vmm-iscsi/src/pdu.rs:114-121 | so a failed command shows CHECK CONDITION in byte 21 and GOOD in byte 3 |
| IscsiWire.VerdictExactly | apps/vmm-iscsi/src/session.rs:31-54 | a login is refused with detail 0 iff its volume is not known and with detail 1 iff a non-empty access list does not name the initiator |
| IscsiWire.RequestsExactly | apps/vmm-iscsi/src/session.rs:61-84 | the units that are answered, by opcode, and with what; every other unit is passed over |
| IscsiWire.ParamIsFirst | apps/vmm-iscsi/src/session.rs:13-17 | a setting of the login is the value of the first pair under its key, and the default if there is none |
| IscsiWire.LoginOnWire | apps/vmm-iscsi/src/session.rs:13-56 | the answer to any login on the wire, its ExpCmdSN being bytes 28 to 31 of the request |
| IscsiWire.LoginUnanswered | apps/vmm-iscsi/src/session.rs:21-40 | a login is not answered iff its bytes 28 to 31 are above 2^32 - 33, which panics, or the management service fails |
| IscsiWire.RefusalEnds | apps/vmm-iscsi/src/session.rs:31-45 | a refused login gets its one answer and is the end of the session |
| IscsiWire.OffersExactly | apps/vmm-iscsi/src/session.rs:47-54 | the twelve settings an admitted initiator reads of the login's answer |
| IscsiWire.NeverAsksForData | apps/vmm-iscsi/src/session.rs:47-84 | the login promises InitialR2T, but no answer of any session is an R2T |
| IscsiSession.CollectWriteData | apps/vmm-iscsi/src/scsi.rs:133-142 | the collection loop against its recursive definition, units taken included |
| IscsiSession.HandleScsiCommand | apps/vmm-iscsi/src/scsi.rs:10-131 | one command to its response, stream end, panic, or a wait for the block service without end |
| IscsiSession.HandleRequests | apps/vmm-iscsi/src/session.rs:61-84 | the request loop sends exactly the transcript's responses |
| IscsiSession.HandleConnection | apps/vmm-iscsi/src/session.rs:7-86 | the whole connection, bytes on the wire included, however early the peer stops taking them |
| IscsiGuarantees.SessionNumbers | apps/vmm-iscsi/src/session.rs:21-85 | the k-th response of every session carries StatSN k |
| IscsiGuarantees.SessionKeeps | apps/vmm-iscsi/src/session.rs:7-86 | each response bears its request's task tag and kind; the first answers a login; nothing more is read or sent unless that login was admitted |
| IscsiGuarantees.CollectionIs | apps/vmm-iscsi/src/scsi.rs:133-142 | a collection takes consecutive units, all Data-Outs except perhaps the last, keeps their data in order, and is short only if that last one is something else |
| IscsiGuarantees.WriteHandledIs | apps/vmm-iscsi/src/scsi.rs:90-111 | the same for a whole write, immediate data included |
| IscsiGuarantees.ServeReads | apps/vmm-iscsi/src/session.rs:61-84 | the log lists the units read in stream order without a gap, up to the end of the stream |
| IscsiGuarantees.RequestsBalance | apps/vmm-iscsi/src/session.rs:61-84 | requests read are requests answered plus requests swallowed |
| IscsiGuarantees.ResponsesArePaired | apps/vmm-iscsi/src/session.rs:61-84 | the k-th response answers the k-th request answered, under its tag and with the next number |
| IscsiGuarantees.NextUnitIsSwallowed | apps/vmm-iscsi/src/scsi.rs:136-140 | any unit but a Data-Out that arrives inside a write is consumed and the data so far passed on; from a connection in step the session then waits for ever |
| IscsiDelivery.CollectOnList | apps/vmm-iscsi/src/scsi.rs:133-142 | over a list of units the collection takes exactly as many as the announced bytes call for, and keeps their data |
| IscsiDelivery.DispatchOnList | apps/vmm-iscsi/src/scsi.rs:10-131 | what one request comes to, panic, end of stream, endless wait or reply, is decided by it, the backend and the units after it |
| IscsiDelivery.WaitsExactly | apps/vmm-iscsi/src/socket.rs:102-120 | from a free lock and a connection in step a command waits for ever iff it is a write whose gathered data falls short of what it announces and whose block address does not overflow |
| IscsiDelivery.ServeAnswers | apps/vmm-iscsi/src/session.rs:61-84 | the request loop answers every request sent, and the answers arrive whole and readable, iff the units are orderly, block connections as they are found included |
| IscsiDelivery.EveryRequestAnsweredOnce | apps/vmm-iscsi/src/session.rs:7-86 | for any login and units sent and any state of the block sockets, the initiator reads exactly one answer to each request, in order and numbered from 1, iff the session is orderly |
| IscsiDelivery.SentDecodesExactly | apps/vmm-iscsi/src/pdu.rs:82-93 | for any bytes sent, the initiator can read every response iff the peer takes them all and no request served calls for 2^24 bytes or more |
| BlockSocket.RequestTakenExactly | apps/vmm-san/src/engine/iscsi_server.rs:134-196 | the service takes a request as sent iff its data is as long as the payload its header announces and the offset does not overflow |
| BlockSocket.OverflowsExactly | apps/vmm-san/src/engine/iscsi_server.rs:152-185 | the service's offset arithmetic overflows iff a read or write starts at block 2^55 or later, or is at most 4 MB long and ends past 2^64 - 1 |
| BlockSocket.ExchangeExactly | apps/vmm-iscsi/src/socket.rs:102-120 | from a connection in step: closed on overflow, endless on too little data, otherwise answered for what the service took; in step afterwards iff the data matches |
| BlockSocket.DoBlockRequest | apps/vmm-iscsi/src/socket.rs:102-120 | header, data, one reply, on a connection in any state |
| BlockSocket.BlockPool.Request | apps/vmm-iscsi/src/socket.rs:84-100 | connects lazily, evicts after an error, keeps the lock while it waits |
| BlockSocket.CallKeepsOthers | apps/vmm-iscsi/src/socket.rs:84-100 | a call leaves the connections of all other volumes alone, keeps its own iff it does not err, and keeps the lock iff it never ends |
| BlockSocket.CleanExactly | apps/vmm-iscsi/src/socket.rs:84-120 | over any calls of any sessions, nobody waits and every connection stays in step iff no call that gets through has data that does not match its header |
| BlockSocket.OwnReplies | apps/vmm-iscsi/src/socket.rs:84-120 | while that holds every call that gets through gets the service's reply to its very own request |
| BlockSocket.OneHangStopsAll | apps/vmm-iscsi/src/socket.rs:87 | a call that never ends stops every later one on every volume |
| BlockSocket.ShortWriteStopsAll | apps/vmm-san/src/engine/iscsi_server.rs:168-184 | in particular a write with too little data, sent while all was in step |
| BlockSocket.GarbageTailCloses | apps/vmm-san/src/engine/iscsi_server.rs:130-142 | extra data that is no request costs the next request its connection |
| BlockSocket.RequestTailIsServed | apps/vmm-san/src/engine/iscsi_server.rs:128-150 | extra data shaped as a request is carried out and leaves its reply unread |
| BlockSocket.RepliesLagForever | apps/vmm-iscsi/src/socket.rs:110-119 | from then on every request is answered with the reply to the one before |
| IscsiStorage.ReadFitsExactly | apps/vmm-iscsi/src/scsi.rs:70-89 | a READ(10) or READ(16) panics, waits, fails with CHECK CONDITION or returns the service's bytes; served in full it is readable iff it asks for fewer than 32768 blocks, and always within the service's limit |
| IscsiStorage.WritePassesOnExactly | apps/vmm-iscsi/src/scsi.rs:90-142 | a write passes on exactly the bytes it announces iff it carries enough itself or its Data-Outs end exactly there; it waits as long as the service does not reply, and its status says what the reply said |
| IscsiStorage.SaidIsPoolCall | apps/vmm-iscsi/src/socket.rs:84-100 | what a session hears of a block request is what the shared pool's call returns |
| IscsiStorage.HangLocksOutAll | apps/vmm-iscsi/src/socket.rs:84-100 | after one call that hangs, every command of every session that needs the block service waits for ever |
| IscsiStorage.WriteFromStep | apps/vmm-iscsi/src/scsi.rs:90-111 | from a connection in step a write is answered iff its data reaches what it announces, with the status of the service's reply to the data cut there, and leaves the connection in step iff the data matches |
| IscsiStorage.CutWriteIsNeverAnswered | apps/vmm-iscsi/src/scsi.rs:133-142 | a one-block write without data and then a foreign unit is not orderly, and the session stops there without an answer |
| IscsiStorage.OvershootSpoilsNext | apps/vmm-iscsi/src/scsi.rs:133-142 | a one-block write with a two-block Data-Out is answered; the second block costs the next request its connection, or is carried out as a request |
| IscsiStorage.CapacityTenExactly | apps/vmm-iscsi/src/scsi.rs:33-42 | over every volume, READ CAPACITY(10) waits for the service or tells the number of whole blocks and their size iff there are 1 to 2^32 of them and the size fits 32 bits |
| IscsiStorage.CapacitySixteenExactly | apps/vmm-iscsi/src/scsi.rs:43-58 | over every volume, READ CAPACITY(16) does iff there is at least one block and the size fits 32 bits |
| IscsiStorage.EmptyVolumeClaimsOneBlock | apps/vmm-iscsi/src/scsi.rs:33-42 | a volume smaller than one block, or a failed query, is announced as one block |
| IscsiCommands.ReadAsksExactly | apps/vmm-iscsi/src/scsi.rs:70-89 | for every address and count, a read whose command block holds them most significant byte first at the standard's places asks the service for exactly those blocks, and returns the bytes of its reply |
| IscsiCommands.WriteAsksExactly | apps/vmm-iscsi/src/scsi.rs:90-111 | and a write brought to what it announces by its own data and its Data-Outs has just those bytes written there |
| IscsiCommands.BlockBytes | libs/vmm-core/src/san_iscsi.rs:80-113 | the bytes such a request is on the block socket |
| IscsiCommands.OtherCommandsExactly | apps/vmm-iscsi/src/scsi.rs:20-129 | what every other command is answered by the bytes of its command block, truncations included; a command the target does not know fails |
| IscsiCommands.CapacityOnWire | apps/vmm-iscsi/src/scsi.rs:33-58 | the bytes of both capacity answers: the last block, cut off at 0xFFFF_FFFF in the short one, and the low 32 bits of the block size |
| IscsiGuarantees.ScsiPanicsExactly | apps/vmm-iscsi/src/scsi.rs:43-111 | a command panics iff it is a 16-byte read or write of 2^23 blocks or more, or a capacity query with block size zero |
| SanProtocol.RequestTakenExactly | libs/vmm-core/src/san_mgmt.rs:116-151 | the peer takes the very request written iff the key length fits 32 bits |
| SanProtocol.RequestTaken | apps/vmm-s3gw/src/socket.rs:112 | which request the peer takes from what is written, and which bytes it leaves, for keys of every length |
| SanProtocol.FedExactly | apps/vmm-san/src/engine/mgmt_server.rs:60-104 | a peer fed one request answers first what it took it for, and has nothing left over iff the key length fits 32 bits |
| SanProtocol.ResponseTaken | libs/vmm-core/src/san_mgmt.rs:188-206 | a response is taken whole, with what follows it left |
| SanProtocol.RequestOnWire | libs/vmm-core/src/san_mgmt.rs:105-151 | a request by byte positions: magic, command, key length cut to 32 bits, body length, zeros, key, body |
| SanProtocol.ResponseOnWire | libs/vmm-core/src/san_mgmt.rs:155-206 | a response by byte positions |
| SanProtocol.MagicOnWire | libs/vmm-core/src/san_mgmt.rs:6-9 | the four magic numbers and the two refusals as the bytes on the wire |
| SocketPool.WriteRequest | apps/vmm-s3gw/src/socket.rs:112-132 | header, key and body, as far as the transport lets them through |
| SocketPool.ReadResponse | apps/vmm-s3gw/src/socket.rs:134-168 | one reply read off any bytes: taken whole, cut short, or an error, and what is left |
| SocketPool.DoRequest | apps/vmm-s3gw/src/socket.rs:106-169 | one exchange on a connection in any state acts as the exchange function says |
| SanExchange.ExchangeExactly | apps/vmm-s3gw/src/socket.rs:106-169 | from a connection in step it is answered iff enough bytes get through, by the reply to what the peer took the request for; in step afterwards iff answered with a key length that fits, or no byte got out |
| SocketPool.SocketPool.MgmtRequest | apps/vmm-s3gw/src/socket.rs:81-104 | a call on whatever state earlier calls left: outcome and connection as the call function says, errors evicted, given-up calls not |
| SocketPool.SocketPool.ObjectRequest | apps/vmm-s3gw/src/socket.rs:171-198 | the same per volume, all other connections untouched |
| SanExchange.EvictsExactly | apps/vmm-s3gw/src/socket.rs:81-104 | from any slot, the connection is gone after a call iff the call fails, or there was none and none could be made |
| SanExchange.CallExactly | apps/vmm-s3gw/src/socket.rs:81-104 | from a clean slot, for every key length, when a call is answered and by what, and that it leaves the slot clean unless it is given up midway or answered with an oversize key |
| SanExchange.CleanExactly | apps/vmm-s3gw/src/socket.rs:81-104 | over any list of calls the connection is in step between all of them iff no call is given up midway and none with an oversize key is answered |
| SanExchange.AnswersAreOwn | apps/vmm-s3gw/src/socket.rs:81-104 | as long as that holds, a call is answered iff enough bytes get through, by the reply to itself |
| SanExchange.GivingUpShiftsReplies | apps/vmm-s3gw/src/socket.rs:98-101 | after a caller gave up waiting, every later call gets the reply to the call before it |
| SanExchange.PartialWriteMerges | apps/vmm-s3gw/src/socket.rs:112-132 | after a caller gave up inside its key or body, the next request completes it: the peer waits, or answers the two as one |
| SanExchange.NextTakenForBody | apps/vmm-s3gw/src/socket.rs:112-132 | at one input the next request is taken for the body of the one given up, and the connection is then in step again |
| SanExchange.OwnReplyByAccident | apps/vmm-s3gw/src/socket.rs:112-132 | at another the next caller gets its own reply although the connection is out of step |
| PacketBuffer.PackInto | libs/libcorevm/src/ffi.rs:2909-2922 | fills the buffer with exactly the longest prefix that fits, leaving the rest of it alone |
| PacketBuffer.TakeTx | libs/libcorevm/src/ffi.rs:2903-2923 | empties the card's queue, so packets behind that prefix are lost |
| PacketBuffer.UnpackTx | libs/libcorevm/src/net.rs:173-184 | the unpacking loop with its early exits |
| PacketBuffer.RoundTripExactly | libs/libcorevm/src/ffi.rs:2915-2917 | unpacking a packed buffer gives the very packets iff each is shorter than 2^16 bytes |
| PacketBuffer.PollTx | libs/libcorevm/src/net.rs:170-184 | with 65536 bytes no length is cut and the unpacker never stops early: the frames are the longest fitting prefix, in order |
| Tokenizer.Tokenize | libs/vmm-term/src/parser.rs:19-51 | the scanner computes the tokens of the recursive grammar |
| Tokenizer.NoEmptyTokens | libs/vmm-term/src/parser.rs:39-49 | no token is ever empty |
| Tokenizer.LexInvertsQuoting | libs/vmm-term/src/parser.rs:25-46 | words in any mix of bare and quoted runs, apart by any blanks, come back as what they mean |
| Tokenizer.UnclosedIsClosed | libs/vmm-term/src/parser.rs:25-50 | a line that ends inside a quote means what it means with that quote closed |
| Tokenizer.QuotedTokensComeBack | libs/vmm-term/src/parser.rs:19-51 | every list of non-empty tokens, quoted and joined by spaces, tokenizes to itself |
| Tokenizer.NothingExactly | libs/vmm-term/src/parser.rs:47-50 | no tokens iff the text is blanks and empty quotes with at most one dangling mark |
| Tokenizer.ParseLine | libs/vmm-term/src/parser.rs:6-16 | no command iff the trimmed line says nothing, otherwise the lower-cased name and the remaining tokens |
| IoHarness.Harness.Write | apps/san-testbed/src/io_harness.rs:163-190 | an accepted write overwrites the zero-extended ground truth, a refused one changes nothing |
| IoHarness.WriteTakenExactly | apps/san-testbed/src/io_harness.rs:163-168 | the server takes the write the ground truth mirrors, and leaves what follows it, iff the data is shorter than 2^32 bytes |
| IoHarness.WriteOnWire | apps/san-testbed/src/io_harness.rs:20-30 | a write by byte positions, its length cut to 32 bits |
| IoHarness.GroundTruthIs | apps/san-testbed/src/io_harness.rs:182-187 | after any writes each byte is the last one written there, the initial one, or zero, and the length is the furthest reach |
| IoHarness.FindMismatch | apps/san-testbed/src/io_harness.rs:266-288 | the first position where two blocks differ |
| IoHarness.MismatchIs | apps/san-testbed/src/io_harness.rs:268-288 | what the report of a mismatch says: byte, chunk, offset, and up to 32 bytes on either side |
| IoHarness.Harness.VerifyAll | apps/san-testbed/src/io_harness.rs:246-294 | the block loop against its recursive definition, with the exact error |
| IoHarness.OkExactly | apps/san-testbed/src/io_harness.rs:253-293 | success iff every block of 256 KiB asked for, and the rest at the end, came back equal to the ground truth, whatever the server answers |
| IoHarness.FirstBadBlock | apps/san-testbed/src/io_harness.rs:253-293 | otherwise the error names the first block that did not, and how its reply was wrong |
| IoHarness.VerifyExactly | apps/san-testbed/src/io_harness.rs:246-294 | against full-length reads, success iff the file starts with the ground truth, otherwise the reported byte is the first that differs, with its place among chunks of 4 MiB |

## Left out

- Spin loops, back-off and weak memory ordering: a lock is one atomic test-and-set.
- Poisoned mutexes and threads that die inside an entry point.
- Device internals of AHCI, E1000, VirtIO, SLIRP, PIC and PIT: what they want, which slots they finish and what they answer are inputs.
- UHCI, AC97, the timers and the other port devices, the reads of PCI configuration space that the lock test and the routers make, and the GPU's and the keyboard's interrupt lines.
- The set-up, attachment, cache and reset calls made before the vCPUs run.
- SmpDispatch: `corevm_net_poll` is a number of rounds, each touching the network device once.
- SmpSafety.NoDeadlock: says some thread can step, not that each eventually does; the spin locks are not fair.
- IrqLine.LineIsWiredOr: takes each poll section as one step; IrqOverlap says what interleaving adds. The E1000 flag is never set by any code, so the E1000 pulse on line 11 is absent.
- RegisterFile.Registers.WriteGpr: a register index of 16 or more panics in the source and is a precondition here, as for all register accesses. Segment, control and model-specific registers are left out.
- The logic, shift and rotate flag functions, and exceptions and interrupt-table lookup.
- LegacyConfig.LoadLegacy: file reading and writing, the path a configuration is stored under, UTF-8 decoding and running out of memory before the vector's capacity limit. The generated default identifier is a parameter.
- The JSON form of the configuration and its validation against the file system.
- IscsiSession.HandleScsiCommand: inquiry pages, target port groups, discovery text and what the JSON of a capacity reply says are inputs, and only their truncation and framing is modelled.
- IscsiSession.HandleConnection: text is compared as bytes, so invalid UTF-8 is not replaced. What other sessions do to the block sockets in between is the state each request finds them in; the management service is taken to reply.
- BlockSocket.Exchange: the service has done all it can before the next request is written, its socket buffers never fill up, and it is not restarted while a call waits.
- iSCSI digests, additional headers, command windows and data sequencing.
- SocketPool.SocketPool.ObjectRequest: the socket path is the volume name; the peer has done all it can before the next call. A request header made up of other bytes that announces a body of 2^63 bytes or more leaves the peer waiting. A caller that waits for a peer which has nothing to say ends in trouble of its own choosing.
- PacketBuffer.TakeTx: the handle lookup and the missing-card results.
- PacketBuffer.PollTx: the receive half, and errors of the TAP device, which the source ignores.
- Tokenizer.ParseLine: lower-casing is a parameter.
- IoHarness.Harness.Write: whether the server accepts is an input, not tied to what it takes off the socket; durations are not kept.
- Quorum, leader election, replication, the web front ends and everything else of the repository.
