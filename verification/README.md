# Control plane of the BCM56846 driver: model and proofs

The software here drives a switch chip. A kernel routine exchanges S-Channel messages with the
chip through a message buffer that lies over live registers. A user-space layer turns register
and table accesses into such messages. Table managers (ECMP, L3, L2, VLAN) keep software state
beside bit-packed hardware entries, and a netlink listener drives them from kernel events. Beside
these stand the SerDes driver, a script interpreter and the packet DMA code.

Each component is a module. Where the C code updates static arrays, registers or buffers in place,
the module has a class or a method that does the same, and its contract equates the new state with
a function of the old one. The lemmas are about those functions: over every run of operations,
over every pattern of failing hardware accesses, and, for the S-Channel, the shared bus and the
receive ring, over every interleaving.

| File | Content |
|---|---|
| Wrappers.dfy, Bits.dfy, BitFields.dfy | options; 32-bit words, bit set and clear, bitwise operators, field insertion |
| Schan.dfy, SchanSafety.dfy, SchanProgress.dfy | the S-Channel PIO protocol as a state machine of callers, mutex and device, what it keeps, and that calls return |
| Sbus.dfy, Chip.dfy, SbusCalls.dfy | message header, block routing, a chip that decodes and serves messages, and what the calls do to it |
| SbusDriver.dfy | the PIO routine over registers and the SBUS calls on top of it |
| SharedBus.dfy | any number of callers sharing the chip: each call acts at one moment |
| Transport.dfy, TableDelivery.dfy, TableAccess.dfy | the reads and writes that the tables assume, what SBUS really delivers, and the calls that deliver it |
| IdMaps.dfy, Macs.dfy | used-maps and addresses |
| Ecmp.dfy, EcmpIds.dfy | ECMP groups and member slots, and which group ids are live |
| L3.dfy, L3Tables.dfy, L3Objects.dfy, Defip.dfy, ForwardingChain.dfy | interfaces, next hops, routes and the chain they form |
| L2.dfy, L2Lookup.dfy, L2User.dfy | the L2 hash table, what adds and deletes do to lookups, and the L2 user entries |
| NeighCache.dfy, Netlink.dfy, NetlinkForwarding.dfy | neighbour cache, netlink event handlers, and what each event comes to in the hardware |
| Vlan.dfy, VlanHardware.dfy | VLAN shadow tables and the two hardware tables |
| Microcode.dfy, Warpcore.dfy, Serdes.dfy | WARPcore registers behind MIIM, firmware download, port initialisation, link status |
| Soc.dfy | SOC scripts |
| Dma.dfy, RxRing.dfy, RxRuns.dfy, PktIo.dfy | DMA pool, receive ring, its runs, receiver set-up |

## What the proofs found

- The buffer word that MISC_CONTROL shadows is restored before START, so a message of eight words
  or more carries MISC_CONTROL in word 7. A table entry of six words or more is therefore delivered
  with data word 5 replaced (`Chip.ReadsBackIff`). Routes, ingress VLAN rows and ECMP headers do
  not use that word; egress VLAN rows and the last three ECMP fast-path members do
  (`TableDelivery.EgressVlanIntactIff`, `TableDelivery.EcmpLateMemberIff`). MISC_CONTROL is
  kept safe, as the comment at bde/nos_kernel_bde.c:55-57 wants, but the message is not. The
  routine's own header comment (line 345) has a step that writes data words after the command;
  the code has none, and the model follows the code.
- A 21-word command is accepted and its last word is written to SCHAN_CTRL
  (`SchanSafety.TwentyFirstWordIsControl`); `SchanSafety.TwentyFirstWordHarmlessIff` says when
  that does no harm.
- Register writes, register reads and table reads report success when the target answered with an
  error; only table writes look at the response header. A refused read of a modify is merged and
  written back, and the register then holds its own address
  (`SbusCalls.RefusedReadIsWrittenBack`, exact condition in `SbusCalls.ModifyKeepsOthersIff`).
- For the same reason the search for a free user entry takes a refused read of a valid slot for a
  free slot and overwrites it (`L2User.ValidSlotLostIff`; `TableDelivery.RefusalLosesEntry` gives
  the answer that does it, `TableDelivery.RefusedSlotLooksFreeIff` the slots it does it to), and an
  L2 lookup misses an entry whose read is refused (`L2Lookup.OnlyEntryFoundIff`,
  `TableDelivery.RefusalMissesEntry`).
- MISC_CONTROL is saved before stale operations are aborted. When a device that still works on an
  old message answers in between, the first call saves a word of that answer, and every call
  restores it from then on (`SchanSafety.StaleAnswerIsSaved`, `SchanSafety.FirstIsFinal`, exact
  condition in `SchanSafety.OriginalKeptIff`).
- The explicit-block write does not check its block number: from 64 on, the high bits reach the
  opcode (`Sbus.HeaderDecodes`, `Sbus.OpcodeIntactIff`).
- A route delete whose hardware write fails leaves the route in the TCAM and reports success
  (`Defip.DeleteRefines`). What the TCAM then holds is in `Defip.EveryRun`.
- An L2 add or delete works on a slot of its window without looking whose it is
  (`L2Lookup.AddKeepsOthersIff`, `L2Lookup.DeleteKeepsIff`), and an add that reports success can be
  hidden by an older entry of the same address (`L2Lookup.AddThenGet`,
  `L2Lookup.StaleAddressWins`).
- A Clause 45 read ignores its intermediate results: when its first write is lost, the next one
  clears a register (`Warpcore.Cl45StraysIff`); when its last write is lost, the link is reported
  down (`Serdes.LostStepReportsDown`). It always reads lane 0, so ports on one PHY are told the
  same link status (`Serdes.SharedLinkStatus`, `Serdes.OwnLaneIff`).
- The firmware download ignores lost data writes, and the microcontroller closes the gaps: success
  is reported over a wrong RAM (`Serdes.LoseFirstWord`). The result of a download is only logged: a
  PHY is marked as initialised whatever comes of it, and is not tried again
  (`Serdes.Driver.InitPhyOnce`, `Serdes.EachPhyOnce`).
- A field modification in a script writes zeros around the field when its read fails
  (`Soc.FailedReadClears`).
- After a receiver set-up that ran out of memory half-way, the next start goes ahead without the
  missing buffers (`PktIo.StartTwice`, `PktIo.StartInSmallPool`).

## Model

| member | source | states |
|---|---|---|
| `BitFields.SetFieldBits` | sdk/src/ecmp.c:31-37 | insertion sets exactly the bits of its field to the value's bits and frames every other bit, for any field in range |
| `BitFields.FieldRoundTrip` | sdk/src/l3.c:60-66 | a field reads back as the value modulo 2^width |
| `BitFields.OtherFieldKept` | sdk/src/l3.c:60-66 | inserting one field leaves the number in any disjoint field unchanged |
| `BitFields.WordFrame` | sdk/src/l3.c:48-58 | replacing a word leaves fields outside it unchanged |
| `Bits.MergeBits` | sdk/src/sbus.c:112 | (cur & ~mask) or-ed with (value & mask): masked bits from the value, the others from cur |
| `BitFields.SetBit` | sdk/src/ecmp.c:19-29 | the in-place bit setter is PutBit on the array's contents; a bit past the end changes nothing |
| `BitFields.SetBitsU64` | sdk/src/ecmp.c:31-37 | the in-place loop is SetField on the array's contents, for widths up to 64 |
| `SchanSafety.ReachableInv` | bde/nos_kernel_bde.c:353-439 | over every interleaving of callers, interrupts, deadlines and device answers, whatever status bits were set and whatever message the device was still working on at first, whoever holds the mutex has the registers in the state its program point needs |
| `SchanSafety.ResultsAreFaithful` | bde/nos_kernel_bde.c:383-435 | every call that returned sent at its START exactly its own command, word 7 of a long one being MISC_CONTROL as the first call saved it, and reports status 0 with the device's answer to that START, or EIO or ETIMEDOUT accordingly |
| `SchanSafety.AnswersAreNotShared` | bde/nos_kernel_bde.c:112-117 | two calls never report the same START or the same device answer |
| `SchanSafety.RestBetweenCalls` | bde/nos_kernel_bde.c:365-437 | whenever the mutex is free and a first call has been made, MISC_CONTROL has the value that call saved, the device is quiet and the six status bits are clear; only the holder is in the registers |
| `SchanSafety.OriginalKeptIff` | bde/nos_kernel_bde.c:369-381 | between calls MISC_CONTROL has its original value exactly when no answer of a device still at work, before the first call saved it, changed word 7; always when the device was idle |
| `SchanSafety.StaleAnswerIsSaved` | bde/nos_kernel_bde.c:369-381 | an input: such an answer comes between the taking of the mutex and the save, and its word 7 is what is saved |
| `SchanSafety.FirstIsFinal` | bde/nos_kernel_bde.c:369-437 | what the first call saved is never replaced by a later save |
| `SchanSafety.AbortClears` | bde/nos_kernel_bde.c:131-141 | each write of the abort sequence clears one more status bit and at its end all six are clear |
| `Schan.CtrlBits` | bde/nos_kernel_bde.c:69-77 | a byte write to SCHAN_CTRL changes exactly the one bit it names |
| `SchanSafety.CommandFitsBuffer` | bde/nos_kernel_bde.c:383-385 | writing up to 20 words changes only the buffer, never SCHAN_CTRL or the device |
| `SchanSafety.TwentyFirstWordIsControl` | bde/nos_kernel_bde.c:65-67 | writing any 21-word command is loading its first 20 words and writing the last to SCHAN_CTRL |
| `SchanSafety.TwentyFirstWordHarmlessIff` | bde/nos_kernel_bde.c:65-77 | SCHAN_CTRL stays as it was exactly when the bit that the last word names already has the value it asks for; when the device does |
| `SchanProgress.HolderReturns` | bde/nos_kernel_bde.c:365-437 | whatever the device and other callers do, a caller that has the mutex is the next to return, with its own command, after at most 64 more of its steps, not counting polls in time that find no answer |
| `Sbus.HeaderDecodes` | sdk/src/sbus.c:32-38 | length and the low six bits of any block number decode back from the header, and the opcode comes back or-ed with the block's higher bits |
| `Sbus.OpcodeIntactIff` | sdk/src/sbus.c:32-38 | the opcode arrives unchanged exactly when the block's bits above the sixth are among its own |
| `Sbus.BlockBits` | sdk/src/sbus.c:41-44 | the block number is address bits 23:20 with bits 31:30 above |
| `Sbus.PortAddrBits` | sdk/src/sbus.c:51-55 | every bit of a per-port address, including bits 25:24 gained from the block number |
| `Sbus.PortAddrRoutes` | sdk/src/sbus.c:46-55 | a port below 256 keeps the register in its block |
| `Sbus.PortAddrsDistinct` | sdk/src/sbus.c:46-55 | ports of a register with a blank port field have distinct addresses |
| `Chip.Transact` | bde/nos_kernel_bde.c:376-437 | one whole exchange: MISC_CONTROL comes back; status is ETIMEDOUT exactly when the answer does not come in time, EIO exactly when it comes in time with NAK or TIMEOUT, and else 0 |
| `Chip.WriteEffect` | sdk/src/sbus.c:123-151 | a write message that takes effect replaces exactly the entry that its header names on arrival, by the data with word 5 of a long entry replaced by MISC_CONTROL |
| `Chip.ReadEffect` | sdk/src/sbus.c:156-179 | a read message changes no entry and, when performed, brings back the entry |
| `Chip.RefusedRead` | sdk/src/sbus.c:82-99 | when the target answers with an error a read brings back what came with the error and then the old buffer, first the address itself |
| `Chip.ReadsBackIff` | bde/nos_kernel_bde.c:396-398 | an entry reads back as written exactly when it has at most five words or its sixth equals MISC_CONTROL |
| `SbusDriver.Driver.Abort` | bde/nos_kernel_bde.c:131-141 | clears the six status bits, takes the buffer back from the device and leaves its words alone |
| `SbusDriver.Driver.Load` | bde/nos_kernel_bde.c:383-398 | the buffer at START is the command over the old contents, with MISC_CONTROL put back when it was hit |
| `SbusDriver.Driver.Poll` | bde/nos_kernel_bde.c:403-429 | the loop sees DONE exactly when the device answers before the deadline, with the answer's flags, buffer and effect |
| `SbusDriver.Driver.SchanOp` | bde/nos_kernel_bde.c:353-439 | EINVAL exactly for bad lengths; otherwise the status bits are clear, MISC_CONTROL is back, and up to 20 words have exactly the effect of one exchange, with status ETIMEDOUT exactly when the answer misses the deadline and EIO exactly when it comes in time with NAK or TIMEOUT |
| `SbusDriver.Driver.BdeSchanOp` | sdk/src/bde_ioctl.c:75-93 | the user-space hop refuses 0 or more than 16 words and otherwise passes the exchange through |
| `SbusDriver.Driver.RegWrite` | sdk/src/sbus.c:62-77 | writes exactly one register when the answer takes effect; success is an answer without NAK or TIMEOUT |
| `SbusDriver.Driver.RegRead` | sdk/src/sbus.c:82-99 | changes nothing and returns what the read message brought back, the register's value when the target performed it |
| `SbusDriver.Driver.RegModify` | sdk/src/sbus.c:107-114 | two exchanges; after a reported read the register gets the value's bits under the mask and elsewhere those of the word brought back; nothing is written after a failed read |
| `SbusCalls.ModifyKeepsOthersIff` | sdk/src/sbus.c:101-114 | a modify that writes keeps the register's bits outside the mask exactly when the word its read brought back has them, as it does when the target performed the read |
| `SbusCalls.RefusedReadIsWrittenBack` | sdk/src/sbus.c:91-113 | an input: after a refused read that is reported as a success, a modify with an empty mask leaves the register's address in the register |
| `SbusDriver.Driver.MemWrite` | sdk/src/sbus.c:123-151 | replaces exactly the indexed entry, with all of up to 14 words and the first 14 of more; success exactly when the target performed the write |
| `SbusDriver.Driver.MemWriteBlk` | sdk/src/sbus.c:193-221 | the same with any explicit block number, acting on the entry that the header names on arrival |
| `SbusDriver.Driver.MemRead` | sdk/src/sbus.c:156-179 | changes nothing and returns what the read message brought back, as many words as were asked for but at most 14: the entry's first words when the target performed it |
| `SharedBus.Reachable` | bde/nos_kernel_bde.c:353-439 | over every interleaving the chip's contents are the messages answered or carried out late, applied in turn, and every clean answer carries the contents at its moment |
| `SharedBus.ContentsInStartOrder` | bde/nos_kernel_bde.c:353-439 | the contents are what the chip held before, possibly after a stale message, and then the messages that took effect in the order of their STARTs: those answered without an error and those carried out without ever raising DONE |
| `SharedBus.LateMeansTimedOut` | bde/nos_kernel_bde.c:403-437 | a call whose message was carried out without an answer reports ETIMEDOUT |
| `SharedBus.WriteActsAtItsMoment` | sdk/src/sbus.c:62-77 | a successful write changes the contents at the moment of its answer, by its own entry only, and not at all when the header reports an error |
| `SharedBus.ReadActsAtItsMoment` | sdk/src/sbus.c:82-99 | a successful read changes nothing and returns the entry as it was at the moment of its answer |
| `SharedBus.MomentsFollowReturns` | bde/nos_kernel_bde.c:365-437 | calls act in the order in which they return |
| `SharedBus.ReadSeesLastWrite` | sdk/src/sbus.c:123-179 | whoever writes and whoever reads, with no write of the entry answered in between the read returns what was delivered |
| `SharedBus.ModifyIsOneStepIff` | sdk/src/sbus.c:107-114 | for the two calls of a modify, whatever others do in between, the register ends up as if the modify had been one step exactly when its contents at the read and just before the write-back agree outside the mask |
| `SharedBus.StaleModifyIff` | sdk/src/sbus.c:112 | merging into two words comes to the same exactly when they agree outside the mask |
| `Transport.EntryAddressesDistinct` | sdk/src/ecmp.c:7-13 | distinct entries of distinct tables have distinct addresses |
| `Transport.Asic.MemWrite` | sdk/src/l3.c:75-97 | a table write replaces one entry or fails and changes nothing |
| `TableDelivery.TableKeysDistinct` | sdk/src/sbus.c:133-135 | table entries map to distinct chip keys |
| `TableDelivery.TransportRefined` | sdk/src/sbus.c:123-179 | over any sequence of table reads and writes, none of the writes outliving its deadline, the chip holds exactly what the transport holds, as delivered, with the same failures |
| `TableDelivery.ReadRefined` | sdk/src/sbus.c:156-179 | a performed read brings back what the transport holds, as delivered, word for word exactly when the entry was never written, has at most five words or agrees with MISC_CONTROL; failed and refused reads report the same in both |
| `TableDelivery.ReadsRefined` | sdk/src/sbus.c:123-179 | so over any sequence of table reads and writes every read of a table of at most five words reports what the transport reports |
| `TableDelivery.RefusedSlotLooksFreeIff` | sdk/src/l2.c:214-218 | a user-table read that meets an error without data looks like a free slot exactly for even slots |
| `TableDelivery.RefusalLosesEntry` | sdk/src/l2.c:205-227 | an input: with that answer to its first read an add overwrites slot 0 whatever it held and reports success |
| `TableDelivery.RefusalMissesEntry` | sdk/src/l2.c:128-159 | an L2 lookup takes such an answer for a slot without a match, for every address that does not begin with 7 |
| `TableDelivery.ShortTablesExact` | sdk/src/ecmp.c:7-12 | which tables are delivered word for word, and the exact condition for the others |
| `TableDelivery.RouteUnharmed` | sdk/src/l3.c:192-207 | delivery changes neither which addresses a route entry hits nor its next hop |
| `TableDelivery.IngressVlanUnharmed` | sdk/src/vlan.c:20-50 | delivery changes no field of an ingress VLAN row |
| `TableDelivery.EgressVlanDelivered` | sdk/src/vlan.c:52-79 | the delivered egress row has MISC_CONTROL's high 30 bits as its low member bits and its low 2 bits above the untagged set |
| `TableDelivery.EgressVlanIntactIff` | sdk/src/vlan.c:61-68 | in every run an egress row arrives intact exactly when MISC_CONTROL is four times the low 30 member bits |
| `TableDelivery.EcmpHeaderUnharmed` | sdk/src/ecmp.c:138-154 | delivery keeps a group's base, count and first five fast-path members |
| `TableDelivery.EcmpLateMemberIff` | sdk/src/ecmp.c:145-154 | a fast-path member 5..7 arrives intact exactly when it agrees with MISC_CONTROL where they overlap |
| `TableAccess.PutEntry` | sdk/src/sbus.c:123-151 | a write of a whole table entry leaves the chip as the delivered operation does, all words of the entry included, and reports success exactly when the target performed it |
| `TableAccess.FetchEntry` | sdk/src/sbus.c:156-179 | a read of a whole table entry changes nothing, fails exactly when the chip reports nothing, and otherwise returns what it brought back, as many words as the entry has |
| `IdMaps.FirstFree` | sdk/src/l3.c:31-40 | the least free index of a range, or -1 exactly when there is none |
| `IdMaps.AllocId` | sdk/src/l3.c:31-40 | marks that index and no other |
| `IdMaps.FreeId` | sdk/src/l3.c:42-46 | clears an index above 0 in range and otherwise nothing |
| `Macs.Mac48Injective` | sdk/src/l3.c:68-73 | distinct addresses have distinct 48-bit numbers |
| `Ecmp.NextGroupIsCyclicallyFirst` | sdk/src/ecmp.c:51-68 | group allocation takes the first free id in cyclic order from the cursor, never 0, and fails exactly when ids 1..1023 are all used |
| `Ecmp.LeastFreeRun` | sdk/src/ecmp.c:76-97 | the least base whose whole run is free, or -1 exactly when there is none |
| `Ecmp.SkipAhead` | sdk/src/ecmp.c:84-90 | skipping past a used slot loses no candidate |
| `Ecmp.EcmpTables.AllocEcmpSlots` | sdk/src/ecmp.c:76-97 | returns and marks the first free run, and inspects slots in strictly increasing order, so each at most once |
| `Ecmp.EcmpTables.AllocGroupId` | sdk/src/ecmp.c:51-68 | the two loops compute the cyclically first id and move the cursor past it |
| `Ecmp.EcmpTables.FreeEcmpSlots` | sdk/src/ecmp.c:99-107 | unmarks a run inside the table and otherwise nothing |
| `Ecmp.DescriptorDecodes` | sdk/src/ecmp.c:138-154 | a descriptor decodes to its base, count and more-than-eight flag, and for small groups to every member id modulo 8192 |
| `Ecmp.HeaderBits` | sdk/src/ecmp.c:138-140 | every bit of a group's header: count, base and nothing else |
| `Ecmp.DescriptorBits` | sdk/src/ecmp.c:138-154 | outside the fast path a descriptor is its header and the more-than-eight flag |
| `Ecmp.MemberStored` | sdk/src/ecmp.c:130-134 | a member entry holds the whole next-hop id exactly when that is below 16384 |
| `Ecmp.FailedCreateRestores` | sdk/src/ecmp.c:109-164 | a create that fails anywhere gives back both used-maps, leaves every group descriptor and every entry of a used slot as it was |
| `Ecmp.ReachableInv` | sdk/src/ecmp.c:109-178 | over every run and any write failures: all created runs are held and pairwise disjoint, each descriptor is that of its own run or zero, and the used slots number the members of all successful creates |
| `Ecmp.DescriptorNamesOwnRun` | sdk/src/ecmp.c:130-154 | every non-zero descriptor names a run of used slots holding the member ids its create was given |
| `Ecmp.DescriptorsNameDisjointRuns` | sdk/src/ecmp.c:109-178 | the runs named by two descriptors never meet, stale ones included |
| `EcmpIds.UsedIffLive` | sdk/src/ecmp.c:51-74 | over every run and any write failures an id is marked used exactly when some create returned it and no destroy was called for it since |
| `EcmpIds.CreateReports` | sdk/src/ecmp.c:109-164 | over every run: a create fails for space exactly when 1023 ids are live or no free run of slots is long enough, with EIO exactly when one of its writes is lost; the id it returns was not live |
| `EcmpIds.NotReusedAtOnce` | sdk/src/ecmp.c:51-74 | an id just given back is handed out by the next create exactly when no other id is free |
| `Ecmp.EcmpTables.PackGroup` | sdk/src/ecmp.c:136-154 | the in-place packing yields the descriptor |
| `Ecmp.EcmpTables.Create` | sdk/src/ecmp.c:109-164 | the method's new state, result and id are those of CreateResult, roll-back included |
| `Ecmp.EcmpTables.Destroy` | sdk/src/ecmp.c:166-178 | the method's new state and result are those of DestroyResult; EINVAL exactly for an id outside 1..1023, and otherwise the id is given back, whatever becomes of the write |
| `L3.IntfDecodes` | sdk/src/l3.c:110-113 | an interface entry decodes to its VLAN (12 bits) and address |
| `L3.IngDecodes` | sdk/src/l3.c:151-154 | the port decodes back exactly when it is below 128 |
| `L3.EgrDecodes` | sdk/src/l3.c:156-160 | a next-hop entry decodes to its interface (12 bits) and address |
| `L3.IntfBits` | sdk/src/l3.c:110-113 | every bit of an interface entry |
| `L3.IngBits` | sdk/src/l3.c:151-154 | every bit of an ingress next-hop entry |
| `L3.EgrBits` | sdk/src/l3.c:156-160 | every bit of an egress next-hop entry |
| `L3.DefipBits` | sdk/src/l3.c:192-207 | every bit of a route entry |
| `L3.DefipNextHop` | sdk/src/l3.c:205-206 | the next hop decodes back in 14 bits |
| `L3.Find` | sdk/src/l3.c:183-190 | the least used slot with the key, or -1 exactly when no used slot has it |
| `L3Tables.Tables.IntfCreate` | sdk/src/l3.c:99-122 | new state, result and id are those of IntfCreateResult |
| `L3Tables.Tables.IntfDestroy` | sdk/src/l3.c:124-132 | new state and result are those of IntfDestroyResult |
| `L3Tables.Tables.EgressCreate` | sdk/src/l3.c:134-169 | new state, result and id are those of EgressCreateResult |
| `L3Tables.Tables.EgressDestroy` | sdk/src/l3.c:171-181 | new state and result are those of EgressDestroyResult |
| `L3Tables.Tables.PackV4Ucast` | sdk/src/l3.c:192-207 | the in-place packing yields the route entry |
| `L3Tables.Tables.DefipFind` | sdk/src/l3.c:183-190 | the search loop is Find |
| `L3Tables.Tables.RouteAdd` | sdk/src/l3.c:209-238 | new state and result are those of RouteAddResult |
| `L3Tables.Tables.RouteDelete` | sdk/src/l3.c:240-261 | new state and result are those of RouteDeleteResult |
| `L3Tables.Tables.HostAdd` | sdk/src/l3.c:263-277 | a host is a route of length 32 |
| `L3Objects.EveryObject` | sdk/src/l3.c:99-181 | over every run and any write failures an interface or next hop is marked used exactly when a create returned it and no destroy was called for it since; it then has the entries it was created with; an entry that is not live is zero unless its destroy's write was lost |
| `L3Objects.IntfReports` | sdk/src/l3.c:99-122 | over every run: an interface create returns the least id that is not live, and fails exactly when there is none or its write is lost |
| `L3Objects.EgressReports` | sdk/src/l3.c:134-169 | the same of next hops, with EINVAL exactly for a port outside 1..255 or an interface outside 1..4095 |
| `L3Objects.DestroyReports` | sdk/src/l3.c:124-181 | destroys report an id out of range and nothing else, whatever becomes of their writes |
| `L3Objects.RouteReports` | sdk/src/l3.c:209-261 | each result of a route add, by the arguments, the slots left and the write; a delete reports only bad arguments |
| `L3Objects.HostForwards` | sdk/src/l3.c:263-277 | after a host add the host's own address and no other hits its entry, which names its next hop |
| `L3Objects.HostReports` | sdk/src/l3.c:263-277 | IPv6 hosts are refused and change nothing; EINVAL exactly for a next hop outside 1..16383 |
| `Defip.PackedHit` | sdk/src/l3.c:192-207 | a packed entry hits an address exactly when its prefix covers it |
| `Defip.EntryLayout` | sdk/src/l3.c:192-207 | every bit of a packed entry in terms of prefix, length and next hop |
| `Defip.AddRefines` | sdk/src/l3.c:209-238 | an add updates the route map exactly when it reports success and otherwise leaves it |
| `Defip.RetryReusesSlot` | sdk/src/l3.c:224-236 | a retry after a failed write goes to the slot already claimed and changes no bookkeeping |
| `Defip.DeleteRefines` | sdk/src/l3.c:240-261 | a delete removes its key from the map if and only if the key was absent or the write went through; it reports success either way |
| `Defip.LookupIsExact` | sdk/src/l3.c:183-261 | the entries that hit an address are exactly the installed prefixes covering it, with their next hops |
| `Defip.RunRefinesMap` | sdk/src/l3.c:209-261 | over every run in which deletes of installed routes land, whatever adds fail, the table is the map the reported results describe |
| `Defip.EveryRun` | sdk/src/l3.c:183-261 | over every run, deletes that are lost included: used slots have distinct keys, and every slot holds the entry of the last route whose write reached it, or zeros once a clearing write has |
| `Defip.EveryRunHits` | sdk/src/l3.c:192-261 | so in every run a slot hits an address exactly when its last writer's prefix covers it, with that writer's next hop |
| `ForwardingChain.ChainForwards` | sdk/src/l3.c:99-238 | after interface, next hop and route creation, with any operations in between that spare what exists by then, following the decoded chain yields the given addresses, and the given VLAN and port exactly when they fit 12 and 7 bits |
| `ForwardingChain.ChainSurvives` | sdk/src/l3.c:99-277 | a chain stays in place through any operations, failing or not, that do not destroy or re-add its objects |
| `ForwardingChain.HeldFollows` | sdk/src/l3.c:110-207 | what following a chain in the hardware yields |
| `L2.HomeIsVlanAndLowBit` | sdk/src/l2.c:18-24 | the home slot is VLAN*16 + (low address bit)*65536 and its window never wraps |
| `L2.WindowsDisjoint` | sdk/src/l2.c:85-106 | windows of different (VLAN, low bit) pairs do not meet |
| `L2.PackRoundTrip` | sdk/src/l2.c:27-83 | an entry unpacks to its address, with 12 bits of VLAN and 7 of port |
| `L2.PackOtherBits` | sdk/src/l2.c:27-49 | nothing else is in an entry |
| `L2.ReachableInWindow` | sdk/src/l2.c:85-126 | over every run and any write failures each valid entry lies in the window of its own address |
| `L2.GetIsFullScan` | sdk/src/l2.c:128-159 | in such a state, with reads that bring back the entries, the six-probe lookup equals a first-match scan of all 131072 slots |
| `L2.ReachableGetIsFullScan` | sdk/src/l2.c:85-159 | hence in every reachable state |
| `L2Lookup.GetIsLookup` | sdk/src/l2.c:128-159 | with reads that bring back the entries the probing lookup is the first match of the window |
| `L2Lookup.LookupIsTrueIff` | sdk/src/l2.c:128-159 | through reads that fail, tell the truth or are refused, the lookup answers with the window's first match exactly when slots and reads both have none or their first matches unpack alike |
| `L2Lookup.OnlyEntryFoundIff` | sdk/src/l2.c:128-159 | an entry that stands once in its window is found exactly when the read of its slot is neither failed nor refused |
| `L2Lookup.OwnAddressMatches` | sdk/src/l2.c:58-83 | the words of a refused read, which begin with the slot's own address, match only addresses that begin with 7 |
| `L2Lookup.WriteLands` | sdk/src/l2.c:97-105 | under any failures the probing write changes exactly one slot of the window, the first whose write goes through, or none |
| `L2Lookup.AddReports` | sdk/src/l2.c:85-106 | an add fails with ENOSPC exactly when the writes of all six probes are lost |
| `L2Lookup.AddThenGet` | sdk/src/l2.c:85-159 | an add that reports success is found by the next lookup exactly when no earlier slot of the window holds the key, or the first that does holds the same entry; otherwise that older entry is found |
| `L2Lookup.StaleAddressWins` | sdk/src/l2.c:85-159 | an input: an address moved to another port with one lost write is still found on the old port |
| `L2Lookup.AddKeepsOthersIff` | sdk/src/l2.c:100-104 | under any failures an add leaves another address's lookup unchanged exactly when it did not land on the slot that lookup finds, or the rest of the window has a copy |
| `L2Lookup.DeleteKeepsIff` | sdk/src/l2.c:108-126 | the same of a delete, whoever is in the slot it clears |
| `L2Lookup.AddEvictsSameHome` | sdk/src/l2.c:100-104 | an address that was only in the home slot is lost to an add with the same home |
| `L2.WriteFirst` | sdk/src/l2.c:100-104 | the probing loop writes the first slot of the window whose write goes through |
| `L2.AddrAdd` | sdk/src/l2.c:85-106 | new hardware state and result are those of Add |
| `L2.AddrDelete` | sdk/src/l2.c:108-126 | new hardware state is that of Delete; the result is always 0 |
| `L2.AddrGet` | sdk/src/l2.c:128-159 | result is that of Get, whatever comes of the reads, ENOENT exactly when nothing is found |
| `L2User.AddressRoundTrip` | sdk/src/l2.c:179-203 | a packed user entry is valid and all 48 address bits decode back |
| `L2User.MaskRoundTrip` | sdk/src/l2.c:179-203 | all 64 mask bits, spread over three words, decode back, with VLAN and key type |
| `L2User.DataRoundTrip` | sdk/src/l2.c:179-203 | CPU copy, port (7 bits) and BPDU flag decode back |
| `L2User.PackOtherBits` | sdk/src/l2.c:179-203 | nothing else is in an entry |
| `L2User.AddTakesFirstThatLooksFree` | sdk/src/l2.c:205-227 | whatever reads and writes do, a slot is overwritten exactly when no earlier slot looks free, it does, and the write goes through; success names exactly that slot |
| `L2User.NoSpaceIff` | sdk/src/l2.c:214-226 | an add fails with ENOSPC exactly when no slot looks free |
| `L2User.ValidSlotLostIff` | sdk/src/l2.c:205-227 | a valid slot is lost exactly when the search comes to it, its read is refused with VALID clear in the words brought back, and the write goes through |
| `L2User.RefusedReadLosesEntry` | sdk/src/l2.c:214-224 | an input: the refused read of slot 0 brings back the table's address, and the add replaces the valid entry and reports success |
| `L2User.AddTakesFreeSlot` | sdk/src/l2.c:205-227 | without refused reads an add never touches a valid slot, fills the first readable free one, and fails with ENOSPC only when every slot was valid or unreadable |
| `L2User.EntryAdd` | sdk/src/l2.c:205-227 | the loop is AddFrom on the hardware |
| `L2User.EntryDelete` | sdk/src/l2.c:229-235 | writes zeros to an index in range and rejects the others |
| `NeighCache.SetIsMapUpdate` | switchd/src/netlink.c:69-84 | set is a map update, except that a new key in a full cache changes nothing |
| `NeighCache.RemoveIsMapRemoval` | switchd/src/netlink.c:98-109 | remove takes out its key and no other |
| `NeighCache.SetRepresents` | switchd/src/netlink.c:69-84 | set keeps a cache without repeated keys in step with a map of at most 256 keys |
| `NeighCache.RemoveRepresents` | switchd/src/netlink.c:98-109 | so does remove |
| `NeighCache.Cache.Set` | switchd/src/netlink.c:69-84 | the array is updated as WithEntry says |
| `NeighCache.Cache.Get` | switchd/src/netlink.c:86-96 | returns what the cache holds for the key |
| `NeighCache.Cache.Remove` | switchd/src/netlink.c:98-109 | the array and count after the shift are WithoutEntry |
| `Netlink.ReachableInv` | switchd/src/netlink.c:111-310 | over every event sequence and any write failures the port interfaces are live and distinct and the routes resolve |
| `Netlink.ReachableCache` | switchd/src/netlink.c:174-223 | over every event sequence the cache has no key twice and answers as the map of the neighbour events heard on interfaces with a port, a new neighbour being forgotten when 256 others are known |
| `Netlink.ReachableRoutesResolve` | switchd/src/netlink.c:225-286 | in every reachable state each valid route entry, stale ones included, names an allocated next hop whose egress entry has a non-zero interface |
| `Netlink.ReachablePortIntfsLive` | switchd/src/netlink.c:138-172 | in every reachable state a port's interface is allocated and no other port has it |
| `NetlinkForwarding.ReachablePorts` | switchd/src/netlink.c:111-136 | over every event sequence the port of an interface is the one that the last link event for it gave |
| `NetlinkForwarding.ReachableEntries` | switchd/src/netlink.c:138-172 | in every reachable state the interface of a port has the entry with the port's own source address, on VLAN 0 |
| `NetlinkForwarding.LearnedRouteForwards` | switchd/src/netlink.c:257-285 | after any events, a new route whose writes land and whose port has an interface is followed in the hardware to that port, with the address that the neighbour events gave the gateway on that interface (zeros if none), source address 02:00:00:00:00:port and VLAN 0 |
| `NetlinkForwarding.RouteNotLearned` | switchd/src/netlink.c:237-278 | a route that is not unicast, or through an interface without a port, or whose port has no address, changes nothing |
| `NetlinkForwarding.RouteForgotten` | switchd/src/netlink.c:248-255 | a removed route's slot is free and zero when the write lands; an unknown route changes nothing |
| `NetlinkForwarding.AddressGivesIntf` | switchd/src/netlink.c:138-172 | an address gives its port the least free interface id, with the port's source address and VLAN 0, and changes no other port |
| `NetlinkForwarding.AddressTakesIntf` | switchd/src/netlink.c:138-172 | its removal gives the interface back, and clears the entry when the write lands |
| `NetlinkForwarding.NeighbourIsSwitched` | switchd/src/netlink.c:174-223 | after any events the address of a new neighbour is found by the next L2 lookup, static, on the interface's port and VLAN, when its first write lands |
| `NetlinkForwarding.NeighbourIsForgotten` | switchd/src/netlink.c:174-223 | when a neighbour goes, the home slot of the address that the event names, or else of the one heard before, is cleared; with neither nothing changes |
| `Netlink.Switchd.HandleLink` | switchd/src/netlink.c:111-136 | the arrays after a link event are OnLink |
| `Netlink.Switchd.HandleAddr` | switchd/src/netlink.c:138-172 | arrays and tables after an address event are OnAddr, of which AddressGivesIntf and AddressTakesIntf say what it comes to |
| `Netlink.Switchd.HandleNeigh` | switchd/src/netlink.c:174-223 | cache and tables after a neighbour event are OnNeigh, of which NeighbourIsSwitched and NeighbourIsForgotten say what it comes to |
| `Netlink.Switchd.HandleRoute` | switchd/src/netlink.c:225-286 | tables after a route event are OnRoute, of which LearnedRouteForwards, RouteNotLearned and RouteForgotten say what it comes to |
| `Vlan.IngSettersFrame` | sdk/src/vlan.c:20-50 | each ingress setter writes its own field and no other, shared words included |
| `Vlan.EgrSettersFrame` | sdk/src/vlan.c:52-79 | each egress setter writes its own field and no other |
| `Vlan.RunKeepsRows` | sdk/src/vlan.c:93-164 | over every run each row decodes to its VLAN's port sets, STG and VALID; ingress and egress members agree, untagged is a subset, only ports 1..52 occur |
| `Vlan.StepKeepsRows` | sdk/src/vlan.c:118-149 | one operation turns its own VLAN's row into the next membership and leaves the others; re-adding a port as tagged keeps it untagged |
| `Vlan.SuccessSyncsHardware` | sdk/src/vlan.c:81-149 | a successful create or add leaves both hardware rows equal to the shadow |
| `VlanHardware.Reports` | sdk/src/vlan.c:81-164 | EINVAL exactly for bad arguments, EIO exactly when a write of a create or add is lost; a destroy never reports a lost write |
| `VlanHardware.LandedWritesSync` | sdk/src/vlan.c:81-164 | when no write is lost both hardware rows are the shadow's after every operation, zeros after a destroy |
| `VlanHardware.DestroyEffect` | sdk/src/vlan.c:151-164 | a destroy clears each of the two rows whose write lands, and no other |
| `VlanHardware.OthersUntouched` | sdk/src/vlan.c:81-164 | no operation touches the rows of another VLAN or another table |
| `VlanHardware.SyncedSince` | sdk/src/vlan.c:81-164 | over every run a VLAN's hardware rows are the shadow's as long as no write of the last operation on it was lost |
| `Vlan.Tables.Create` | sdk/src/vlan.c:93-116 | arrays and result are those of CreateResult |
| `Vlan.Tables.PortAdd` | sdk/src/vlan.c:118-149 | arrays and result are those of PortAddResult |
| `Vlan.Tables.Destroy` | sdk/src/vlan.c:151-164 | arrays and result are those of DestroyResult |
| `Warpcore.ParamDecodes` | sdk/src/serdes.c:56-60 | bus, PHY and data decode back from the MIIM parameter |
| `Warpcore.SelectEffect` | sdk/src/serdes.c:231-236 | selecting touches no register of the file and no other PHY, however far it gets |
| `Warpcore.WriteRefinesFlat` | sdk/src/serdes.c:244-256 | a write changes exactly its own register of the flat file, only once selected, and certainly when it reports success; one to the block or lane register changes none |
| `Warpcore.ReadRefinesFlat` | sdk/src/serdes.c:226-238 | a successful read returns its register of the flat file and changes nothing in it |
| `Warpcore.AerIrrelevant` | sdk/src/serdes.c:226-256 | outcomes do not depend on where earlier accesses left the window |
| `Warpcore.ReadBackIff` | sdk/src/serdes.c:220-256 | exactly which addresses read back what was written |
| `Warpcore.RunRefinesFlat` | sdk/src/serdes.c:226-278 | over any run of reads, writes, Clause 45 reads and resets of the window, and any failures, the registers of every PHY are the flat file left by the writes that landed and the Clause 45 reads that strayed |
| `Warpcore.Cl45ReadsLaneZero` | sdk/src/serdes.c:263-278 | when every step takes effect the read returns lane 0's device register, with the latched link bit for PCS status, and disturbs nothing but the latch |
| `Warpcore.Cl45StraysIff` | sdk/src/serdes.c:266-278 | the read disturbs the register file exactly when its lane write goes through a window never moved there, and what it then clears |
| `Warpcore.Cl45WithoutDataFunction` | sdk/src/serdes.c:271-277 | when only the step that asks for data is lost, the read succeeds and returns the register's number |
| `Serdes.Driver.MiimWrite` | sdk/src/serdes.c:149-180 | the register sequence and poll perform one write on the addressed PHY, or fail |
| `Serdes.Driver.MiimRead` | sdk/src/serdes.c:182-216 | the register sequence and poll return one register of the addressed PHY, or fail |
| `Serdes.Driver.WcRead` | sdk/src/serdes.c:226-238 | result and bus state are those of the window read |
| `Serdes.Driver.WcWrite` | sdk/src/serdes.c:244-256 | result and bus state are those of the window write |
| `Serdes.Driver.WcCl45Read` | sdk/src/serdes.c:263-278 | result and bus state are those of the Clause 45 read |
| `Microcode.TakeStreams` | sdk/src/serdes.c:735-745 | each data word moves the download on by two bytes, low byte first |
| `Serdes.Driver.StreamImage` | sdk/src/serdes.c:735-745 | on a reliable bus the loop leaves the RAM holding the image, zero-padded, and nothing left to stream; with lost data writes the microcontroller takes exactly the words that landed |
| `Serdes.Driver.WcFirmwareDownload` | sdk/src/serdes.c:685-781 | on a reliable bus with the PLL off, as wc_phy_init leaves it, an image of up to 65536 bytes ends up in the RAM zero-padded to a multiple of 16 and is let run, unless RAM initialisation times out, which it does exactly when none of 500 polls shows it done; when data writes alone are lost, success is reported and the RAM holds the words that landed, without gaps; no other PHY and no register but the download's own is touched |
| `Serdes.AllLandIff` | sdk/src/serdes.c:738-745 | every word is taken exactly when every data write happens |
| `Serdes.LoseFirstWord` | sdk/src/serdes.c:735-780 | an input: the first data write of a two-byte image is lost, the download returns 0, and the RAM does not hold the image |
| `Serdes.PortsHaveOwnLanes` | sdk/src/serdes.c:282-325 | every port has a lane of its own |
| `Serdes.EachPhyOnce` | sdk/src/serdes.c:964-989 | over any run of port initialisations each PHY that some port needs is initialised exactly once, whatever comes of it |
| `Serdes.Driver.InitPhyOnce` | sdk/src/serdes.c:970-989 | mask and order after a port's initialisation are InitPort; a marked PHY is left alone, another one is initialised and, on a reliable bus, configured as WcPhyInit does, and marked |
| `Serdes.Driver.WcPhyInit` | sdk/src/serdes.c:854-960 | no other PHY is touched; the download is skipped exactly when the version read is 0x0101; on a reliable bus the RAM then is as it was, or holds the padded image after a download, or zeros after one that timed out; and the PLL runs (bit 13 of 0x8000 is set), bits 12:8 of 0x8308 are 0x12, 0x8015 is 0, all other bits of these and all other registers outside the download's own are as before, the microcontroller is let run with its timers on, and the window is parked |
| `Serdes.Driver.LinkGet` | sdk/src/serdes.c:1154-1184 | EINVAL exactly for a port outside 1..52 and EIO exactly when the last step of one of the two reads misses its deadline; result and bus state are those of two Clause 45 reads and a parked window; when all steps take effect the link is reported up exactly when it was up at the first read of lane 0's status and stayed up through the second |
| `Serdes.TwoReads` | sdk/src/serdes.c:1167-1173 | what the two reads of the latched-low bit show: the link since the read before the call, and the link since the first of the two |
| `Serdes.SteadyLinkReported` | sdk/src/serdes.c:1167-1175 | a link that does not change between the two reads is reported as it is |
| `Serdes.OneReadIsStale` | sdk/src/serdes.c:1167-1173 | an input: a link that was down for a moment before the call would be reported down after one read, and is reported up |
| `Serdes.SharedLinkStatus` | sdk/src/serdes.c:282-325 | two ports are told the same link status exactly when they sit on one PHY: the same block of four up to port 48, and ports 51 and 52 |
| `Serdes.OwnLaneIff` | sdk/src/serdes.c:282-325 | the lane read is the port's own for exactly one port in four up to 48 and for ports 49 to 51 |
| `Serdes.LostStepReportsDown` | sdk/src/serdes.c:1170-1178 | with one step of the second read lost, the link is reported down without an error, whatever its state |
| `Soc.RunIsExpansion` | sdk/src/soc.c:128-279 | the interpreter's register trace is that of the script expanded to the remaining depth |
| `Soc.ExpansionIsFinal` | sdk/src/soc.c:121-123 | once nesting fits, expanding deeper changes nothing |
| `Soc.TruncatedIff` | sdk/src/soc.c:176-183 | some existing script is left out exactly when nesting exceeds the limit |
| `Soc.CyclesNeverFit` | sdk/src/soc.c:121-123 | scripts including one another in a circle fit at no depth |
| `Soc.RunIsInlining` | sdk/src/soc.c:176-183 | with includes nested at most eight deep the trace is that of complete inlining |
| `Soc.ModifiedBits` | sdk/src/soc.c:260-266 | a modification changes exactly its field's bits of the value read |
| `Soc.FailedReadClears` | sdk/src/soc.c:262-266 | the register's other bits survive exactly when the read succeeded or they were clear |
| `Soc.NameResolves` | sdk/src/soc.c:81-119 | a register name, in any case of letters, stands for its entry of the table, and any other name for none |
| `Soc.LowerChars` | sdk/src/soc.c:109-112 | names are compared with capital letters made small |
| `Soc.SetAndGet` | sdk/src/soc.c:185-213 | a set is one write of its value and a get one read, of the register named, over BAR0 below 0x40000 and over SBUS from there on; an unknown name is skipped |
| `Soc.ModifyIsReadAndWrite` | sdk/src/soc.c:215-272 | a modification of the one known field is a read of its register and a write of what was read, or of zeros, with bit 0 from the value; any other is none |
| `Soc.EveryRunIsRouted` | sdk/src/soc.c:38-52 | every access of every run goes to the bus that its address belongs to |
| `Soc.Runner.RunInternal` | sdk/src/soc.c:128-279 | the loop and its recursion yield the interpreter's trace, terminate, and bring the depth counter back |
| `Soc.Runner.Execute` | sdk/src/soc.c:185-272 | one command adds exactly its register accesses to the trace |
| `Soc.Runner.SocRun` | sdk/src/soc.c:282-290 | a run starts at depth 0 and reports a missing script |
| `Dma.MaskDownIsFloor` | sdk/src/pktio.c:54 | masking with a power of two drops the remainder |
| `Dma.AlignUpIsLeast` | sdk/src/pktio.c:53-54 | the aligned address is the least multiple at or above the pointer, unless the addition wraps |
| `Dma.RequestIsSound` | sdk/src/pktio.c:53-58 | a request is granted exactly when it fits; the block is aligned and inside the pool, and a refused request changes nothing |
| `Dma.GrantIsSoundIff` | sdk/src/pktio.c:53-58 | with 32-bit pointers a granted block lies inside the pool exactly when neither its alignment nor its end wraps, which can be computed before the request |
| `Dma.BlocksAreDisjoint` | sdk/src/pktio.c:37-59 | over any sequence of requests, from before the pool is mapped and however often mapping fails, all blocks are aligned, inside the pool past its first 4096 bytes, and pairwise disjoint, or the pool has no room and all are empty |
| `Dma.BlocksFromBoot` | sdk/src/pktio.c:37-59 | so from an unmapped pool on, two blocks that are not empty never meet, and each is aligned and inside the pool |
| `Dma.FailedInfoIsFinal` | sdk/src/pktio.c:42-51 | once the size query has failed, no sequence of requests is granted a block of non-zero size, and the pool stays as it is |
| `Dma.BusAddressesTrueIff` | sdk/src/pktio.c:61-64 | 32-bit bus addresses are right for the whole pool exactly when it lies below 4 GiB |
| `Dma.BusRangesDisjoint` | sdk/src/pktio.c:61-64 | below 4 GiB disjoint blocks have disjoint bus ranges |
| `Dma.Allocator.DmaAlloc` | sdk/src/pktio.c:37-59 | pool and address are those of AllocResult, lazy mapping included |
| `RxRing.DeliversExactlyOnce` | sdk/src/pktio.c:75-96 | over every interleaving of device and thread each slot's completions are handled in order and each good one is delivered exactly once with its own length, port and buffer contents |
| `RxRing.HandledWithin256` | sdk/src/pktio.c:75-96 | 256 thread steps handle any waiting completion, whatever the device does meanwhile |
| `RxRing.WantedIff` | sdk/src/pktio.c:87-88 | a completion is delivered exactly when it has 1..2048 bytes and there was a callback |
| `RxRuns.FrameIsDelivered` | sdk/src/pktio.c:75-96 | after any run, a frame that the device puts in a free descriptor and completes while the driver runs with a callback is the next that the callback gets from that descriptor, with its length, port and bytes, within 256 steps of the thread |
| `RxRuns.StopEnds` | sdk/src/pktio.c:185-193 | after a stop the thread ends within 256 steps and delivers nothing from then on |
| `RxRuns.StartSweeps` | sdk/src/pktio.c:176-182 | a start sweeps from the first descriptor and hands on in order all that waits |
| `RxRing.SweepDelivers` | sdk/src/pktio.c:81-92 | an undisturbed sweep delivers the completed slots in slot order |
| `RxRing.SweepHandsBack` | sdk/src/pktio.c:81-92 | an undisturbed sweep re-arms exactly the completed slots |
| `PktIo.Rx.Sweep` | sdk/src/pktio.c:81-92 | the loop over the descriptor words delivers and re-arms what such a sweep does |
| `PktIo.SlotBits` | sdk/src/pktio.c:83-87 | which bits of the two descriptor words are done flag, length and port |
| `PktIo.Rx.AddBuffer` | sdk/src/pktio.c:160-169 | one descriptor gets its own buffer and bus address, or is left without |
| `PktIo.Rx.SetUp` | sdk/src/pktio.c:154-170 | in a sane pool set-up works exactly when ring and all buffers fit, and the ring alone is allocated exactly when it fits; buffers lie one behind the other and are armed |
| `PktIo.Rx.RxStart` | sdk/src/pktio.c:147-183 | a first start fails for memory exactly when the pool has no room, and then leaves no ring or a ring without all its buffers; a start with a ring never looks at the buffers |
| `PktIo.StartTwice` | sdk/src/pktio.c:147-183 | over two starts, the second succeeds exactly when the ring fits, and then has all buffers exactly when they fit |
| `PktIo.StartInSmallPool` | sdk/src/pktio.c:154-182 | an input: in a pool of 16 KiB the first start runs out of memory, the second succeeds, and slots have no buffer |

## Left out

- Words are natural numbers below 2^32; the or of disjoint fields is written as a sum, and a bit is set or cleared by adding or subtracting its power of two.
- Null-pointer arguments and their EINVAL paths.
- Byte order: prefixes are taken in host order, as on the big-endian target, where ntohl and htonl change nothing.
- Wall-clock delays: a poll deadline is a number of polls that is given for each operation.
- Opening and closing devices, ioctl dispatch, copying to and from user space, mmap, sockets, netlink attribute parsing and interface-name parsing.
- MIIM and S-Channel use of register 0x50 at the same time: each model has the register to itself.
- The 64-bit register calls, the explicit-block variants of the register write and of the table read, and sdk/src/reg.c: the same message path with other constants.
- Port-to-block tables, statistics, chip initialisation sequences, the retimer, TX descriptors and sdk/src/schan.c: straight-line constants.
- IPv6 routes, which the code rejects, and longest-prefix-match order, next-hop reclamation and ECMP slot reclamation, which it does not provide.
- Tokenising of script lines: scripts start as commands.
- Schan.Step: a begun call has 1..20 message words; a 21-word command is covered by TwentyFirstWordIsControl and TwentyFirstWordHarmlessIff alone, because its last word is a control write and no message is well defined.
- Transport.Write: a failed write leaves the entry as it was; that a write may outlive its deadline is in the SBUS models only, and TransportRefined names the condition.
- SharedBus.ReadActsAtItsMoment: block numbers below 64, as every read that the program makes has; writes are covered for all block numbers.
- SharedBus.Step: a message that has missed its deadline takes effect, if it does, before the abort takes the buffer back.
- SbusDriver.Driver.SchanOp: a device that still works on an old message is aborted before it answers; that it may answer first is in Schan and SharedBus.
- Warpcore.ReadRefinesFlat: the download status, firmware version and PLL status are driven by the chip, so reading them is not reading back a write.
- Serdes.Driver.InitPhyOnce: the per-lane speed and receiver settings that follow in a port's initialisation are not part of this model.
- Serdes.Driver.WcFirmwareDownload: an empty image and images past 65536 bytes are modelled but nothing is stated of the RAM after them.
- RxRing.DeliversExactlyOnce: the callback pointer is read once for the check and the call together; replacing it between the two is not modelled.
- PktIo.Rx.RxStart: starting the DMA channel and creating the thread succeed or fail by parameter.
