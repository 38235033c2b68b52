# ZeldaOS in Dafny

A model of the stateful core of ZeldaOS, a small x86_64 kernel with a VT-x virtual machine monitor, and proofs about it.
`dafny verify dfyconfig.toml` checks the whole project.

| modules | what they model |
|---|---|
| `PhysicalMemory` | the bump allocator and its page bitmap |
| `Frames`, `PageTree`, `HostPaging`, `Machines` | physical memory as pages of 512 words, the four-level radix tree, `pa`, `map_address`, `paging_init` |
| `ExtendedPaging`, `GuestImage` | the extended page tables (EPT) and the guest image loader, over the same memory, tree and allocator |
| `EptHardware` | the processor's walk over those tables, as section 28.2 of volume 3 of the Intel SDM has it |
| `ByteRing`, `InterruptDelivery`, `VirtualMachine` | the keyboard ring, interrupt delivery as a state machine, and the handlers that refine it |
| `Tables`, `PioTable`, `MmioTable` | bubble sort, the two-ended binary search and the two registries built on them |
| `TetrisBoard`, `Tetris` | the guest's Tetris engine |
| `Bytes`, `InstructionDecoder` | the MOV decoder against an encoder |
| `Formatting`, `Printing` | the two formatters against one meaning of a format string |
| `Spinlock`, `VmxControls` | the spinlock under interleaving; the control-word fix-ups |

## Main results

- **Page tables.** Every page handed out has one owner, a node of one tree or a guest page. Tables are therefore pairwise
  distinct, and a write to one changes one entry of one tree. `map_address` refines a partial map: `pa` answers exactly what the
  history of successful calls says, for every address, after every sequence of calls, and a failed call changes no
  translation even when it has already installed tables. The one exception, a 4 KB request under a 2 MB page whose frame
  starts with one of these tables, is stated below. Whatever translates can be written by the kernel.
- **Guest memory.** `setup_basic_physical_memory` gives each guest page a zeroed frame of its own, shared with no table, no
  other page and no other guest, also of guests set up later. After the image is loaded, each image byte is found through
  the EPT walk where it belongs. The processor lets the guest read, write and execute all of its RAM, at the host addresses
  `guestpa_to_hostpa` gives, and traps every access to the video page. The loader's own assertions never fail.
- **Interrupts.** For every interleaving: keyboard codes are presented and retired exactly once and in order, injections
  alternate with EOIs, and with no further raises at most a computed number of injections follow, under every schedule,
  before the window closes. By then every code that arrived unmasked has been presented.
- **Spinlock.** For every interleaving at most one CPU is in the section. A holder that takes its five release steps is out,
  whatever the others do, and a spinning CPU then gets the lock.
- **Registries, Tetris, decoder, formatters, control words.** Each is tied to an independent definition: a last-wins map, an
  interval map, "keep the rows that are not full" and quarter turns, an encoder, a numeral reader, and bitwise and/or.

## Where the code does less than it seems to

Each of these is stated as an exact condition.

- A 4 KB `map_address` under an existing 2 MB page takes the large-page entry for a table pointer and writes into the mapped
  frame. `Machine.MapAddress` gives the exact effect. The tables go on denoting the history exactly unless it stored its leaf
  in a frame that starts with a host table, of any level (`CoveredRequestKeepsIff`); otherwise it maps nothing. After
  `paging_init` every request below 2 GB is of this kind (`IdentityCovers`).
- The leaf test of `guestpa_to_hostpa` lets an empty leaf through. An unmapped guest address fails to translate exactly when
  its whole 2 MB region is unmapped (`UnbackedTranslation`). The page after the monitor's 16 MB translates to host address 0
  (`FirstPageBeyondGuestRam`).
- For the same reason an IO page disturbs its neighbours. An address off the page keeps its translation exactly when it had a
  page table or lies in another 2 MB region; otherwise it goes from -1 to an offset into host page 0 (`SetupIoMemory`). The
  monitor's video page does this (`VideoPageDisturbsNeighbour`).
- So `guestpa_to_hostpa` agrees with the processor exactly on RAM and in 2 MB regions without any (`WalksAgreeIff`).
- A key that comes while its line is masked is queued and its line not raised, so it waits for another key. In runs without
  such keys every accepted code is presented (`EveryKeyPresented`). A code queued with its line down is never presented until
  the next key (`MaskedKeyUnannounced`, `UnannouncedNeverPresented`).
- The tick arithmetic multiplies by 1000 before it divides. It is exact exactly while that product fits 64 bits
  (`ElapsedExactIff`).
- A raise of the very line that the next window exit retires is lost (`RaisedLineSurvivesIff` has the exact condition). That
  is a tick while the previous one is in service (`TickInServiceLost`), and, since `interrupt_delivery_vector` starts at 0 and
  not at the invalid vector, a tick before the first window exit (`EarlyTimerTickLost`).
- A granted block can hold unusable bytes: over the hole between the two memory regions, or past a region end inside a page.
  `GrantedBlockUsableIff` and `SmallRequestUsableIff` say exactly when, and `GrantedButUnusable` shows both.
- `port_ops_compare` subtracts 32-bit ports into an `int` (`CompareCorrectIff`).
- `search_mmio_callback` traps on the last 64-bit address, whose one-byte target wraps around (`MmioRegistry.Lookup`).
- `register_mmio_operation` checks only the low end of a region. One that reaches into a registered region from below has no
  sorted and disjoint arrangement with the table (`LayeredNeedsDisjoint`).
- `%d` misprints the most negative 32-bit value and nothing else (`DecimalTextCorrectIff`).
- Pressing Enter resumes play on top of set cells exactly in the game-over state (`TetrisStart`). In every run the block
  overlaps set cells exactly while it has not moved since a game over, and a landing breaks the plain cell count exactly
  then: the set cells are 4 per landed block, less 16 per purged row, less the points landed on set cells.
- The decoder takes a REX byte only after every other prefix, and counts the 0x0f escape among these. A MOVZX that needs REX,
  for a register numbered 8 or above or a 64-bit result, has it before the escape, and does not decode (`DecodedMoveIff`,
  `MovzxToHighRegister`).
- With both the 0x66 prefix and REX.W, a MOV of register or immediate is reported as 2 bytes, where the processor lets REX.W win
  (`OperandSizeWinsOverRexW`).
- The spinlock's owner field uses 0xff for "nobody". A CPU with that id would pass for the owner (`StrayReleaseByLastId`).

## How the source is read

- A failing `ASSERT`, a `PANIC` or a trap stops the machine. It appears as a status, a `None` or a `false`.
- GCC shifts a bit-field within its own width, so a table address is cut to 40 bits of page number (host), 22 bits (2 MB
  frames) or 28 bits (EPT). `Mapping.Target` has the cut, and `TargetExactIff` says when it loses nothing.
- Physical memory is read and written directly by its physical address, as the identity map makes it.
- `is_interrupt_pin_masked` shifts by a negative count for lines 0 to 7. The model follows the intent: the master mask for
  lines 0 to 7, the slave mask for the rest.
- Signed negation in the formatters wraps in two's complement.
- Guest `memset` is modelled as zeroing, since guest page 0 is zero.
- The Tetris handlers take the next block as a parameter; `NewBlock` is what `new_block` makes of three random picks.
- Time stamps, random picks, scancodes, the memory map and the end of the kernel image are parameters.

## Model

| member | source | states |
|---|---|---|
| `PhysicalMemory.PageAllocator.constructor` | memory/physical_memory.c:60-78 | the bitmap marks exactly the pages below the reserved end; allocation starts one page above it, with nothing granted |
| `PhysicalMemory.PageAllocator.MarkPageAsOccupied` | memory/physical_memory.c:50-58 | the addresses of one page stop being free and no other address changes |
| `PhysicalMemory.PageAllocator.GetPhysicalPages` | memory/physical_memory.c:90-106 | every run keeps all granted blocks aligned, pairwise disjoint and above the reserved prefix; failure exactly when an end page is unusable; the cursor skips no usable page, and stands on a usable one while any remains |
| `PhysicalMemory.GrantedBlockUsableIff` | memory/physical_memory.c:87-106 | every byte of a granted block is usable exactly when it ends within the low region, lies in the high one, or crosses adjoining regions and ends within the high one |
| `PhysicalMemory.SmallRequestUsableIff` | memory/physical_memory.c:90-106 | a request spanning no more than the hole is wholly usable exactly when its last byte is |
| `PhysicalMemory.SmallRequestUsable` | memory/physical_memory.c:90-106 | where the regions end on page boundaries, such a request is always wholly usable |
| `PhysicalMemory.GrantedButUnusable` | memory/physical_memory.c:97-99 | two granted blocks with unusable bytes: past an unaligned region end, and over the hole |
| `PageTree.WalkReachesOwner` | memory/paging.c:61-92 | the walk to any node ends in the page that this node owns |
| `PageTree.PathAccess` | memory/paging.c:112-123 | an upper entry on the way to a table has exactly the full access bits of its kind, and one without a table is not present |
| `PageTree.TablesDistinct` | memory/paging.c:109-173 | two distinct nodes of a tree never share a page |
| `PageTree.TreeFrame` | memory/paging.c:109-173 | writes outside a tree's tables, and pages handed to others, leave the tree a tree |
| `PageTree.LeafWrite` | memory/paging.c:182-185 | storing a leaf changes one entry of one node, and moves no table |
| `PageTree.Install` | memory/paging.c:112-123 | linking a fresh zeroed page adds one empty table and changes one entry |
| `PageTree.PlacedAfterInstall` | memory/paging.c:112-123 | no table is ever lost: the walk to each table's node ends in that table, also after one more is linked |
| `HostPaging.PaByEntries` | memory/paging.c:52-99 | the level-by-level walk depends only on the level-2 and level-1 entries of the tree |
| `HostPaging.IndicesNameThePage` | memory/include/paging.h:66-69 | two addresses have the same four (three) indices exactly when they are in the same 4 KB (2 MB) page modulo 2^48 |
| `HostPaging.Digits` | memory/include/paging.h:66-69 | the four indices are the base-512 digits of the page number, the level-4 index first |
| `HostPaging.TargetExactIff` | memory/paging.c:77-94 | an aligned frame address comes back with the offset added exactly when it is below 2^52 (4 KB) or 2^43 (2 MB) |
| `HostPaging.OverlapIffShared` | memory/paging.c:147-180 | two mappings overlap exactly when some address is in both |
| `HostPaging.ReplayOfMapped` | memory/paging.c:100-187 | in a disjoint history every mapping answers for all its addresses, whatever the order |
| `HostPaging.ReplayOfUnmapped` | memory/paging.c:97-98 | the result is -1 exactly for addresses no mapping covers |
| `HostPaging.TranslationsPersist` | memory/paging.c:100-187 | later mappings never change an earlier translation |
| `HostPaging.IdentityMapReplay` | memory/paging.c:30-34 | the boot-time mappings denote the identity below their end and -1 above |
| `Machines.TranslatedIsWritable` | memory/paging.c:120-185 | every entry on the way to a translated address lets the kernel, and only the kernel, write |
| `Machines.DirEntryMeaning` | memory/paging.c:142-173 | a level-2 entry is present exactly when a mapping lies in its region, and large exactly when that is a 2 MB one |
| `Machines.SmallOverlapIff` | memory/paging.c:178-180 | the 4 KB duplication test holds exactly when an earlier mapping overlaps |
| `Machines.LargeOverlapIff` | memory/paging.c:147-149 | the 2 MB duplication test holds exactly when an earlier mapping overlaps |
| `Machines.AbsentRegionFree` | memory/paging.c:162-167 | where a page table is missing nothing is mapped, so running out of memory there hides no duplication |
| `Machines.StoreSmallLeaf` | memory/paging.c:174-186 | a 4 KB leaf, with or without a new page table, extends the denoted map by exactly that page |
| `Machines.StoreLargeLeaf` | memory/paging.c:143-157 | a 2 MB leaf extends the denoted map by exactly that page |
| `Machines.UpperLevelsInvisible` | memory/paging.c:109-140 | installing upper tables changes no translation |
| `Machines.CoveredRequestIgnored` | memory/paging.c:159-186 | a 4 KB request under a 2 MB page changes no translation, and the tables still denote the history, unless the large frame starts with a host table |
| `Machines.CoveredRequestHitsTable` | memory/paging.c:174-186 | if it starts with a page table, another address gets mapped and the history is no longer what the tables denote |
| `Machines.ForeignLinkBreaksTree` | memory/paging.c:182-185 | a link stored where an upper table had none leads out of the tree, since every table already has another place |
| `Machines.CoveredRequestKeepsIff` | memory/paging.c:159-186 | a covered request that stores its leaf keeps the refinement exactly when the large frame starts with no host table |
| `Machines.IdentityCovers` | memory/paging.c:30-34 | after `paging_init` every 4 KB request below 2 GB is under a 2 MB page |
| `Machines.IdentityPersists` | memory/paging.c:30-34 | addresses below 2 GB translate to themselves after every later history of calls |
| `Machines.ForeignPagesReached` | vm_monitor/vmx_ept.c:64-138 | in every valid state the kernel reaches each EPT table and guest frame at its physical address |
| `Machines.Machine.GetPhysicalPage` | memory/physical_memory.c:108-112 | a page that nobody owns, or none and the cursor unchanged |
| `Machines.Machine.LinkTable` | memory/paging.c:112-123 | one entry of one tree changes, one table is added, every other owner keeps its pages |
| `Machines.Machine.MapAddress` | memory/paging.c:100-187 | success appends exactly this mapping; duplication exactly when an earlier mapping overlaps; any other outcome changes no translation; a covered 4 KB request has exactly the stated effect, and keeps the refinement exactly unless it wrote into a host table |
| `Machines.Machine.PagingInit` | memory/paging.c:18-34 | `pa` is the identity below 0x80000000 and -1 on every other 48-bit address; it fails only when memory runs out |
| `ExtendedPaging.GuestToHostByLeaf` | vm_monitor/vmx_ept.c:10-45 | the EPT walk depends only on whether a page table exists and on its leaf |
| `ExtendedPaging.AssertionsHoldBelowCeiling` | vm_monitor/vmx_ept.c:64-138 | the identity assertions of EPT construction fail only once memory below 2 GB is used up |
| `ExtendedPaging.EptGrowth` | vm_monitor/vmx_ept.c:48-126 | work on an EPT changes none of the kernel's own translations |
| `ExtendedPaging.MapEptPage` | vm_monitor/vmx_ept.c:48-126 | exactly one leaf changes, no page outside this tree is written, and duplication is reported exactly for a leaf in use |
| `ExtendedPaging.ExtendRam` | vm_monitor/vmx_ept.c:136-141 | mapping the next guest page to a fresh frame keeps every earlier page and its zeroed frame |
| `ExtendedPaging.ExtendTables` | vm_monitor/vmx_ept.c:136-141 | page tables exist exactly for the 2 MB regions that meet the range |
| `ExtendedPaging.SetupBasicPhysicalMemory` | vm_monitor/vmx_ept.c:127-143 | exactly the guest pages from low through high are mapped, each to a zeroed frame of its own; all other owners keep their pages and contents |
| `ExtendedPaging.RamTranslation` | vm_monitor/vmx_ept.c:10-45 | a mapped address translates into the frame owned by its guest page, plus the offset |
| `ExtendedPaging.RamInjective` | vm_monitor/vmx_ept.c:127-143 | distinct guest addresses, of one guest or two, never share a host byte or a table's page |
| `ExtendedPaging.OtherGuestKeepsRam` | vm_monitor/vmx_ept.c:127-151 | setting up another guest, or growing its tables, leaves every translation of this one |
| `ExtendedPaging.GuestsApart` | vm_monitor/vmx_ept.c:127-143 | two guests set up one after the other never share a host page, and the first keeps its translations |
| `ExtendedPaging.UnbackedTranslation` | vm_monitor/vmx_ept.c:31-41 | an unmapped address fails to translate exactly when its 2 MB region is wholly unmapped |
| `ExtendedPaging.FirstPageBeyondGuestRam` | vm_monitor/vmx_vmcs.c:532-537 | with the monitor's range, guest address 0x1001000 translates to host address 0 |
| `ExtendedPaging.SetupIoMemory` | vm_monitor/vmx_ept.c:145-151 | the IO page translates to -1; any other address keeps its translation exactly when it had a page table or lies in another 2 MB region, and otherwise becomes an offset into host page 0 |
| `ExtendedPaging.VideoPageDisturbsNeighbour` | vm_monitor/device_video.c:86-89 | over the monitor's 16 MB, mapping the video page takes guest address 0x1000b9000 from -1 to host address 0 |
| `ExtendedPaging.IoKeepsRam` | vm_monitor/vmx_ept.c:145-151 | an IO page outside the guest's RAM leaves that RAM mapped to its own frames |
| `EptHardware.ReachesTables` | vm_monitor/vmx_ept.c:57-99 | the processor reaches exactly the tables of the tree, with all rights, and faults where one is missing |
| `EptHardware.WalkByLeaf` | vm_monitor/vmx_ept.c:57-126 | its walk ends as the leaf says, no upper entry taking a right away |
| `EptHardware.RamAccess` | vm_monitor/vmx_ept.c:106-115 | guest RAM may be read, written and executed in both modes, as write-back memory whatever the guest's PAT, at the address `guestpa_to_hostpa` gives |
| `EptHardware.UnbackedFaults` | vm_monitor/vmx_ept.c:127-143 | any other access below 2^48 is an EPT violation |
| `EptHardware.IoTraps` | vm_monitor/vmx_ept.c:116-124 | every access to an IO page is an EPT misconfiguration |
| `EptHardware.IoLeafBits` | vm_monitor/vmx_ept.c:116-124 | the IO leaf allows all but reading, is write-back and has no frame |
| `EptHardware.WalksAgreeIff` | vm_monitor/vmx_ept.c:10-45 | `guestpa_to_hostpa` agrees with the processor exactly on RAM and in 2 MB regions that hold none |
| `GuestImage.CopiedByte` | vm_monitor/vmx_vmcs.c:573-573 | a page copied word by word has the source's bytes, at any source alignment |
| `GuestImage.FramesCarryNoTables` | vm_monitor/vmx_vmcs.c:570-577 | writing guest frames changes no EPT walk of any guest |
| `GuestImage.CopyOnePage` | vm_monitor/vmx_vmcs.c:570-577 | one more image page is in place and no earlier one was overwritten |
| `GuestImage.NoFrameLost` | vm_monitor/vmx_vmcs.c:570-577 | whatever was copied into guest frames, the kernel reaches each at its physical address |
| `GuestImage.LoadGuestImage` | vm_monitor/vmx_vmcs.c:558-578 | its assertions never fail; guest-physical byte 4096+i is image byte i for every image that fits; no translation changed |
| `GuestImage.SetUpGuest` | vm_monitor/vmx_vmcs.c:650-665 | EPT, image and video page in sequence: all 4097 pages keep frames of their own, the processor lets the guest read, write and execute them, the video page is -1 and traps, every image byte reads back as it was at the start; it halts only where memory ran out or a page taken for a table or frame is not identity mapped |
| `ByteRing.Ring.Length` | lib64/include/ring.h:33-37 | the number of queued bytes, wherever the indices have wrapped |
| `ByteRing.Ring.TestsAgree` | lib64/include/ring.h:25-31 | the emptiness and fullness tests agree with the queued bytes |
| `ByteRing.Ring.Peek` | lib64/include/ring.h:86-90 | the oldest queued byte |
| `ByteRing.Ring.Write` | lib64/include/ring.h:39-54 | the longest prefix that fits is appended |
| `ByteRing.Ring.Read` | lib64/include/ring.h:56-72 | bytes leave in order, as many as asked for or until the ring is empty |
| `InterruptDelivery.OneMaskBitPerLine` | vm_monitor/vmx_event.c:24-30 | each line has a mask bit of its own, in the master for lines 0 to 7, which stops that line alone |
| `InterruptDelivery.MaskIsItsBits` | vm_monitor/vmx_event.c:24-30 | a mask stops exactly what its bits stop one by one |
| `InterruptDelivery.ElapsedExactIff` | vm_monitor/vmx_schedule.c:28-29 | the elapsed milliseconds are right exactly while a thousand times the difference fits 64 bits |
| `InterruptDelivery.KeyRaises` | vm_monitor/vmx_schedule.c:38-46 | an unmasked key raises line 1 and opens the window |
| `InterruptDelivery.TimerRaisesIff` | vm_monitor/vmx_schedule.c:22-36 | a tick raises line 0 exactly when unmasked, not the first, and the threshold has passed; the stamp is always taken |
| `InterruptDelivery.InitiallyDeaf` | vm_monitor/vmx_vmcs.c:41-66 | no line can be raised before the guest unmasks it |
| `InterruptDelivery.LowestLineFirst` | vm_monitor/vmx_event.c:105-116 | a window exit injects exactly the lowest line that remains, if any |
| `InterruptDelivery.PicInitialisation` | vm_monitor/device_8259pic.c:36-53 | after ICW1 the first data byte is the offset, across any command between; later ones are masks |
| `InterruptDelivery.StepFrame` | vm_monitor/vmx_event.c:32-125 | each event leaves alone what it has nothing to do with |
| `InterruptDelivery.EveryKeyPresented` | vm_monitor/vmx_event.c:75-125 | if no key comes while masked, any run followed by enough acknowledged exits has presented every accepted code, in order, and ends quiet with an empty ring |
| `InterruptDelivery.UnannouncedNeverPresented` | vm_monitor/vmx_event.c:105-123 | codes queued with line 1 down are presented in no run without a further key |
| `InterruptDelivery.MaskedKeyUnannounced` | vm_monitor/vmx_schedule.c:38-46 | a key on a masked line is queued that way |
| `InterruptDelivery.StepKeepsInv` | vm_monitor/vmx_event.c:32-125 | pending implies a set line below 15; line 1 implies a non-empty ring; a closed window implies no line and nothing pending |
| `InterruptDelivery.InitialSafe` | vm_monitor/vmx_vmcs.c:41-66 | the initial state, with vector 0, has the invariant |
| `InterruptDelivery.EveryReachableStateSafe` | vm_monitor/vmx_event.c:75-125 | the invariant holds after every possible run |
| `InterruptDelivery.StepConservesKeys` | vm_monitor/vmx_event.c:92-99 | one step neither loses, duplicates nor reorders an accepted code |
| `InterruptDelivery.StepConservesInFlight` | vm_monitor/vmx_event.c:83-116 | one step presents, keeps or retires the code in flight, and never two of these |
| `InterruptDelivery.KeyboardFifo` | vm_monitor/vmx_schedule.c:38-47 | over every run, accepted codes are the retired codes followed by the queued ones |
| `InterruptDelivery.PresentedExactlyOnce` | vm_monitor/vmx_event.c:87-116 | over every run, each code presented by an IRQ1 injection is retired once, in the same order |
| `InterruptDelivery.InFlightUntilEoi` | vm_monitor/device_keyboard.c:10-25 | between an injection and its EOI nothing is injected and every read of port 0x60 gives the same code |
| `InterruptDelivery.InjectionsNeedEois` | vm_monitor/device_8259pic.c:36-44 | two injections are always separated by an EOI |
| `InterruptDelivery.RaisedLineSurvivesIff` | vm_monitor/vmx_event.c:83-104 | a raised line survives the next EOI and window exit exactly unless it is the vector retired there, with no further keyboard code |
| `InterruptDelivery.TickInServiceLost` | vm_monitor/vmx_event.c:100-103 | a tick that comes while the previous one is in service leaves no request after EOI and window exit |
| `InterruptDelivery.EarlyTimerTickLost` | vm_monitor/vmx_event.c:84-103 | a run from the initial state in which a tick is raised, nothing is injected and the window closes |
| `InterruptDelivery.RoundShrinks` | vm_monitor/vmx_event.c:82-123 | a completed delivery strictly shrinks set lines plus queued codes |
| `InterruptDelivery.PendingDrains` | vm_monitor/vmx_event.c:82-123 | a pending state is quiet within that many rounds |
| `InterruptDelivery.Drains` | vm_monitor/vmx_event.c:118-123 | from every reachable state the window closes with no line set within lines + codes + 1 rounds |
| `InterruptDelivery.ExitProgress` | vm_monitor/vmx_event.c:82-123 | a window exit with nothing pending uses up one injection that was due, or leaves the machine quiet |
| `InterruptDelivery.EveryScheduleDrains` | vm_monitor/vmx_event.c:75-125 | in every run without raises at most lines + codes injections happen, and more acknowledged window exits than that leave the window closed with no line set |
| `VirtualMachine.Vm.constructor` | vm_monitor/vmx_vmcs.c:41-66 | the fields start as the machine's initial state |
| `VirtualMachine.Vm.RaiseInterrupt` | vm_monitor/vmx_event.c:13-42 | refines the raise of the state machine |
| `VirtualMachine.Vm.HostTimer` | vm_monitor/vmx_schedule.c:22-37 | refines the timer step |
| `VirtualMachine.Vm.HostKey` | vm_monitor/vmx_schedule.c:38-47 | refines the key step, on the ring |
| `VirtualMachine.Vm.KeyboardDataInb` | vm_monitor/device_keyboard.c:10-25 | the oldest code or 0, without removing it |
| `VirtualMachine.Vm.MasterPicOutb` | vm_monitor/device_8259pic.c:30-58 | refines the master command and data steps |
| `VirtualMachine.Vm.SlavePicOutb` | vm_monitor/device_8259pic.c:78-106 | refines the slave command and data steps |
| `VirtualMachine.Vm.RetireLast` | vm_monitor/vmx_event.c:83-104 | refines the retirement of the last vector |
| `VirtualMachine.Vm.FirstRequest` | vm_monitor/vmx_event.c:106-111 | the lowest requesting line, or none |
| `VirtualMachine.Vm.DeliverFirst` | vm_monitor/vmx_event.c:105-123 | refines the delivery, and injects the PIC offset plus that line |
| `VirtualMachine.Vm.InterruptWindowExit` | vm_monitor/vmx_event.c:75-125 | refines the window-exit step, and injects exactly when that step does |
| `Tables.BubblePass` | lib64/include/sort.h:12-27 | a pass moves a greatest element to its end and only permutes |
| `Tables.BubbleSort` | lib64/include/sort.h:12-27 | an ascending permutation for every total preorder, the rest of the array untouched |
| `Tables.Search` | lib64/include/search.h:10-37 | terminates; finds an equal element exactly when there is one |
| `PioTable.CompareCorrectIff` | vm_monitor/vmx_pio.c:13-18 | the comparison orders two ports correctly exactly when their difference fits an `int` |
| `PioTable.LastWinsMeaning` | vm_monitor/vmx_pio.c:30-44 | the specification map holds, for each registered port, its last registration |
| `PioTable.Overwrite` | vm_monitor/vmx_pio.c:30-44 | overwriting an entry keeps the order and updates the map |
| `PioTable.Insert` | vm_monitor/vmx_pio.c:30-44 | any ascending arrangement with a new port is strictly sorted and extends the map |
| `PioTable.PioRegistry.Lookup` | vm_monitor/vmx_pio.c:20-28 | finds a port exactly when it was registered, at its last registration |
| `PioTable.PioRegistry.Register` | vm_monitor/vmx_pio.c:30-44 | the table stays strictly sorted and denotes the registrations so far, the last one winning |
| `MmioTable.OwnerUnique` | vm_monitor/vmx_mmio.c:40-49 | at most one region contains an address |
| `MmioTable.ByteCompares` | vm_monitor/vmx_mmio.c:13-38 | a one-byte target never reaches the partial-overlap trap |
| `MmioTable.Insert` | vm_monitor/vmx_mmio.c:51-62 | any ascending arrangement with a disjoint region is sorted and disjoint |
| `MmioTable.LayeredNeedsDisjoint` | vm_monitor/vmx_mmio.c:51-62 | only a region disjoint from the whole table has a sorted and disjoint arrangement with it |
| `MmioTable.MmioRegistry.Lookup` | vm_monitor/vmx_mmio.c:40-49 | the region containing the address, none if there is none; the only trap |
| `MmioTable.MmioRegistry.Register` | vm_monitor/vmx_mmio.c:51-62 | adds the region exactly when there is room and it is disjoint; sorted and disjoint always |
| `TetrisBoard.KeptOrFull` | guest/tetris.c:180-218 | every row is kept or full |
| `TetrisBoard.PurgedIsCompacted` | guest/tetris.c:180-218 | the purged well is the rows that are not full, in order at the bottom, and clear rows above |
| `TetrisBoard.ClearedKeepColours` | guest/tetris.c:212-217 | the rows cleared on top keep their colours |
| `TetrisBoard.PurgeCount` | guest/tetris.c:180-218 | a purge removes exactly 16 cells per full row |
| `TetrisBoard.StampCell` | guest/tetris.c:166-178 | freezing sets exactly the block's cells, in its colour |
| `TetrisBoard.StampCount` | guest/tetris.c:166-178 | freezing adds one cell per point that is not on a set cell |
| `TetrisBoard.OverlapIffClashing` | guest/tetris.c:146-164 | the clash test counts exactly the points outside or on set cells |
| `TetrisBoard.FreeIff` | guest/tetris.c:146-164 | a block is free exactly when all its points are in columns 0 to 15 and lines 0 to 19 on unset cells |
| `TetrisBoard.ShapesGood` | guest/tetris.c:9-71 | every shape has four distinct points in a 4 by 4 box |
| `TetrisBoard.NextShapeIsTurned` | guest/tetris.c:9-71 | each shape of a group is the one before it turned by a quarter, up to its place |
| `TetrisBoard.RotatedIsTurned` | guest/tetris.c:125-144 | rotating turns the block by a quarter and leaves its place |
| `TetrisBoard.FullTurn` | guest/tetris.c:125-144 | rotating once per shape of the group gives the block back |
| `TetrisBoard.NewBlockFits` | guest/tetris.c:222-233 | a new block is in the top four lines and the middle columns 8 to 11 |
| `Tetris.SinkRow` | guest/tetris.c:180-218 | copying kept rows bottom-up never overwrites a row before it is read |
| `Tetris.SunkIsPurged` | guest/tetris.c:204-217 | copying then clearing gives exactly the purged well |
| `Tetris.LandingBooks` | guest/tetris.c:260-262 | a landing adds four cells, less those on set cells and 16 per completed row; some are on set cells exactly when the block clashes |
| `Tetris.Game.PurgeGrid` | guest/tetris.c:180-218 | in-place compaction equals that definition; the score rises by the number of full rows |
| `Tetris.Game.IsBlockClashing` | guest/tetris.c:146-164 | true exactly when a point is outside or on a set cell |
| `Tetris.Game.FinalizeBlock` | guest/tetris.c:166-178 | the block's cells are frozen into the well |
| `Tetris.Game.RotateBlock` | guest/tetris.c:125-144 | the next shape of the group |
| `Tetris.Game.OnKeyBlank` | guest/tetris.c:234-247 | rotates exactly when running and free; keeps the run invariant |
| `Tetris.Game.OnKeyArrowSideways` | guest/tetris.c:278-306 | moves exactly when running and free; keeps the run invariant |
| `Tetris.Game.OnKeyArrowDown` | guest/tetris.c:252-276 | moves, or lands, purges, scores and spawns; in every run set cells + 16 × purged rows + overlapped points = 4 × landed |
| `Tetris.Game.TetrisStart` | guest/tetris.c:341-353 | begins, pauses and resumes; afterwards a running block overlaps set cells exactly if this was a game-over state |
| `Tetris.PlayBars` | guest/tetris.c:252-353 | a game of bars dropped on one another ends, and Enter then runs a block on top of set cells |
| `Tetris.Game.TetrisReset` | guest/tetris.c:355-365 | a blank well and a running game with a clean count, once started |
| `Tetris.Game.constructor` | guest/tetris.c:366-370 | a blank well, no score and no game; the run invariant holds |
| `InstructionDecoder.PrefixSetsItsField` | vm_monitor/vmx_instruction_decoding.c:122-153 | each field is set by exactly its own prefix bytes |
| `InstructionDecoder.FlagSetIff` | vm_monitor/vmx_instruction_decoding.c:122-153 | a field is reported exactly when one of its bytes is among the prefixes |
| `InstructionDecoder.ReadPrefixes` | vm_monitor/vmx_instruction_decoding.c:114-197 | consumes exactly the leading prefix bytes and sets exactly their flags |
| `InstructionDecoder.FindOpcode` | vm_monitor/vmx_instruction_decoding.c:160-163 | the table scan finds an entry exactly for the eight opcodes, with its operand hint |
| `InstructionDecoder.Resolve` | vm_monitor/vmx_instruction_decoding.c:11-94 | each resolver gives the access size, bytes used and immediate of its opcode under the prefixes and REX |
| `InstructionDecoder.Decode` | vm_monitor/vmx_instruction_decoding.c:114-197 | reports the meaning of the instruction at the front of the stream, or none if its opcode is not in the table |
| `InstructionDecoder.ReportedBytes` | vm_monitor/vmx_instruction_decoding.c:114-197 | the reported REX, opcode, ModRM and immediate are the bytes at their places in the stream |
| `InstructionDecoder.OperandSizeWinsOverRexW` | vm_monitor/vmx_instruction_decoding.c:23-38 | with 0x66 and REX.W together the reported size is 2 |
| `InstructionDecoder.DecodeEncode` | vm_monitor/vmx_instruction_decoding.c:114-197 | decoding inverts encoding whatever bytes follow |
| `InstructionDecoder.EncodeDecode` | vm_monitor/vmx_instruction_decoding.c:114-197 | whatever decodes is the encoding of its result, of the reported length |
| `InstructionDecoder.PrefixOrderIrrelevant` | vm_monitor/vmx_instruction_decoding.c:114-197 | reordering prefixes changes nothing |
| `InstructionDecoder.RegistersRecovered` | vm_monitor/vmx_instruction_decoding.c:11-94 | all sixteen register numbers come back from ModRM and REX |
| `InstructionDecoder.DecodedMoveIff` | vm_monitor/vmx_instruction_decoding.c:11-197 | an assembled load, store, immediate store or MOVZX decodes exactly unless it is a MOVZX that needs REX, and then reports its direction, size, registers, immediate and length |
| `InstructionDecoder.EscapeTakenForOpcode` | vm_monitor/vmx_instruction_decoding.c:154-195 | no stream with a REX byte before the 0x0f escape decodes |
| `InstructionDecoder.MovzxToHighRegister` | vm_monitor/vmx_instruction_decoding.c:154-195 | MOVZX into R8D from the byte at RAX is 44 0F B6 00, of that kind |
| `InstructionDecoder.DisplacementNotCounted` | vm_monitor/vmx_instruction_decoding.c:23-38 | a load with a displacement byte is reported one byte too short |
| `Formatting.NumeralRoundTrip` | lib64/string.c:36-81 | every number reads back from its numeral, which has no leading zero |
| `Formatting.WordDigits` | lib64/printk.c:21-63 | 64-bit values take at most 20 decimal or 16 hexadecimal digits |
| `Formatting.DecimalTextCorrectIff` | lib64/string.c:82-142 | `%d` prints a negative value correctly unless it is the most negative one |
| `Formatting.QuadTextCorrect` | lib64/string.c:82-142 | `%q` prints every negative value correctly |
| `Formatting.UsualDigits` | lib64/string.c:36-81 | the digits are 0 to 9 and a to f, or A to F |
| `Formatting.HexReadsBack` | lib64/string.c:128-134 | `%x` prints a lower-case hexadecimal numeral of every value, without leading zeros |
| `Formatting.UpperHexReadsBack` | lib64/string.c:128-134 | `%X` prints an upper-case one |
| `Formatting.TextsAsGiven` | lib64/string.c:94-107 | `%s` prints the text itself, `%c` the low byte |
| `Formatting.SignedMeaning` | lib64/string.c:108-119 | the signed reading is the value in the signed range congruent to the argument |
| `Formatting.DecimalReadsBackIff` | lib64/string.c:108-117 | `%d` reads back as the signed 32-bit value exactly unless that is the most negative one |
| `Formatting.QuadReadsBack` | lib64/string.c:118-127 | `%q` reads back as the signed 64-bit value, always |
| `Formatting.LiteralPrints` | lib64/string.c:87-89 | a plain character prints itself, then the rest |
| `Formatting.ConversionPrints` | lib64/string.c:90-135 | a conversion prints its own argument, then the rest with the other arguments |
| `Formatting.UnknownPrintsNothing` | lib64/string.c:136-137 | an unknown letter prints nothing and takes no argument |
| `Printing.StackDigits` | lib64/string.c:36-81 | the digit stack holds the numeral reversed, and its guard never truncates |
| `Printing.ConvertToBuffer` | lib64/string.c:82-142 | appends what the conversion prints and nothing else |
| `Printing.Sprintf` | lib64/string.c:82-142 | writes the format's text and a NUL, and leaves the rest of the buffer alone |
| `Printing.SerialLine.Resolve` | lib64/printk.c:21-63 | sends the numeral of every 64-bit value |
| `Printing.SerialLine.Printk` | lib64/printk.c:91-154 | sends the same text as `sprintf_raw`, for every format and argument list |
| `Spinlock.InitialSafe` | x86_64/spinlock.c:9-14 | a fresh lock has the invariant |
| `Spinlock.StepKeepsInv` | x86_64/spinlock.c:18-35 | each atomic step of each CPU keeps exclusion, the lock word and the owner field honest |
| `Spinlock.EveryRunSafe` | x86_64/spinlock.c:18-35 | in every run of CPUs with ids below 0xff at most one CPU is in the section, and a free lock has owner 0xff |
| `Spinlock.ReleaseHaltsIffStray` | x86_64/spinlock.c:28-35 | a release assertion fails exactly for a caller that does not hold the lock |
| `Spinlock.NoEntryWhileHeld` | x86_64/spinlock.c:18-26 | the exchange of a spinning CPU cannot win while another CPU is in the section |
| `Spinlock.SpinnerWinsFreeLock` | x86_64/spinlock.c:18-26 | a spinning CPU takes a free lock and becomes its owner |
| `Spinlock.ReleaseFreesLock` | x86_64/spinlock.c:28-35 | a holder's release ends with the lock free, owner 0xff and nothing else changed |
| `Spinlock.ReleaseCompletes` | x86_64/spinlock.c:28-35 | under every interleaving a CPU in the section that takes the steps it has left is out |
| `Spinlock.HandOver` | x86_64/spinlock.c:18-35 | a release followed by two steps of a spinning CPU hands the lock over |
| `Spinlock.OutsideCalls` | x86_64/spinlock.c:18-35 | an idle CPU's acquire spins; its release halts |
| `Spinlock.StrayReleaseByLastId` | x86_64/spinlock.c:28-35 | with a CPU of id 0xff the lock can be opened under its winner, so the bound on ids is needed |
| `VmxControls.ValidateVmxCapability` | vm_monitor/vmx_vmcs.c:257-272 | accepts exactly the words between allowed0 and allowed1 |
| `VmxControls.FixReserved1Bits` | vm_monitor/vmx_vmcs.c:274-287 | the loop computes target or allowed0 |
| `VmxControls.FixReserved0Bits` | vm_monitor/vmx_vmcs.c:289-302 | the loop computes target and allowed1 |
| `VmxControls.FixedValidatesIff` | vm_monitor/vmx_vmcs.c:257-302 | the fixed word validates exactly when allowed0 is contained in allowed1 |
| `VmxControls.FixUpsCommuteIff` | vm_monitor/vmx_vmcs.c:274-302 | the fix-ups commute exactly then; together they are idempotent |
| `VmxControls.FixedIsNearest` | vm_monitor/vmx_vmcs.c:257-302 | a valid word is left alone, and every changed bit had to change |

## Left out

- PhysicalMemory.PageAllocator.constructor: an image end that is not page aligned, which the linker script rules out, or too high for the bitmap.
- PhysicalMemory.PageAllocator.GetPhysicalPages: requests of 0x80000 pages or more, whose byte count overflows a C `int`; regions that are out of order, unaligned above 4 GB, or end above 1 TB.
- Machines.Machine.PagingInit: the root page is taken unchecked in the source, so the model asks for one page to be available.
- ExtendedPaging.SetupBasicPhysicalMemory: guest addresses from 2^48 up, where the walk drops the high bits.
- ExtendedPaging.MapEptPage: an assertion that fails stops before the entry is half written; the source has set its access bits by then, and the machine halts.
- GuestImage.LoadGuestImage: an image larger than the mapped guest pages, and one outside the kernel's reserved memory.
- PioTable.PioRegistry.Register: ports from 2^31 up, which `port_ops_compare` can misorder; real ports have 16 bits.
- MmioTable.MmioRegistry.Register: a region that reaches into a registered one from below; no arrangement of the table is then sorted and disjoint, and whether the sort traps on the way is not modelled.
- Printing.Sprintf: formats that end in a lone percent sign or whose arguments do not match, and buffers that are too small.
- InstructionDecoder.Decode: SIB bytes, displacements and sign extension, which the source does not decode either, so the assembler makes only ModRM forms without them; bytes past the end of the modelled stream read as 0.
- VmxControls.ValidateVmxCapability: words are their 32 bits; the upper half of the 64-bit target is never looked at.
- VirtualMachine.Vm.HostKey: the scancode is an arbitrary byte, also when the device had none ready.
- VirtualMachine.Vm.MasterPicOutb: reads of the PIC ports, and the panics on other ports.
- Page faults taken while the kernel touches physical memory by its address.
- Scanning the BIOS memory list in physical_memory_init.
- Boot and entry assembly, interrupt stubs, descriptor tables, CPUID, MSR, LAPIC and IOAPIC set-up.
- VMCS fields and the instructions that read and write them; only the window bit and the injected vector appear.
- Video, serial and banner output and Tetris plotting.
- PIT divisor set-up and the RDTSC, EFER and CR3 exit handlers, which are each one branch.
- The guest's own paging code, guest/trivial_paging.c, which makes a single mapping.
