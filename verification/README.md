# Verified model of the AXC3000 board's update flash stack and clocked interfaces

A Dafny model, with proofs, of the parts of the repository that keep state across failures and across
clocks. `dafny verify dfyconfig.toml` checks the whole project.

## What is modelled

**The remote system update (RSU) flash stack.** The library keeps two copies of a partition table (SPT)
and of a boot-priority table (CPB) in NOR flash, programs bitstreams into slots, and runs on a driver
that turns flash requests into mailbox commands.

| file | what it holds |
|---|---|
| `Bits` | words and their bytes, AND, bit and byte swaps, CRC-32 (clause 3.2.9 of IEEE 802.3), memcpy |
| `Crc` | polynomials over two elements: the CRC is a remainder, and what it detects |
| `Flash` | NOR flash: programming ANDs, erasing sets pages to 0xFF, any operation may fail half-way |
| `DualCopy` | two copies of a table rewritten as erase, body, magic; stopping, loading and repairing them |
| `Tables` | the SPT and CPB structs, their bytes, what the checks accept |
| `CpbUpdate` | one CPB entry programmed in place: every table a stop can leave, and when all is well |
| `Priority` | the log-structured CPB as a priority list |
| `SptOps` | table edits, slot numbers, sealing the checksum |
| `RsuOps` | class `Database`: `libRSU_ops.c` over its tables, flags and flash |
| `Protection` | `libRSU_cfg.c`: the configuration lines and the write-protect mask |
| `RsuSlots` | class `Rsu`: the slot API of `libRSU.c` |
| `RsuBoot` | opening the library on any flash, and the load after a stop |
| `Board` | this board's flash layout: it meets the assumptions, and which of its updates can be torn |
| `Image`, `ImageBlocks` | the bitstream's block state machine, as a function on images and as mutable state |
| `ImageSections` | which blocks of an image are signature blocks, said without the state machine |
| `ImageTwice`, `ImageFails` | programming an image that is in flash already: when nothing changes, and images that fail |
| `CbProgram`, `CbFails`, `RsuProgram` | streaming an image into a slot and verifying it there, and data that never verifies |
| `RsuMgmt` | the chunked upload, the erase-program-verify request, and the host's upload loop |
| `QspiDriver` | the QSPI driver under all this: chunks, tiles, retries |

**Clocked machines and an arithmetic kernel**, each by itself.

| file | what it holds |
|---|---|
| `Ring` | ring buffers hold queues |
| `AxiBridge`, `AxiSystem` | the HyperRAM bridge (AXI4-Lite: chapter B1 of ARM IHI 0022), its registers, and whole runs with two masters and the core |
| `SyncFifo`, `Uart` | the FIFO and the UART's two byte streams |
| `PllReconfig` | phase requests across a clock domain and the read-modify-write machine |
| `SerialProtocol` | the byte-serial register protocol, its board and host ends |
| `FloatToFixed` | binary32 (section 3.4 of IEEE 754-2019) to fixed point through a pipeline |

Code that changes state is modelled as classes with the source's fields and methods that change them.
Their contracts name the new state through functions (`Prio`, `Sealed`, `Deleted`, `Relocate`, `Served`,
`Latched`, `Step`, ...) or through predicates over the flash before and after (`WroteBoth`, `LoadSpec`,
`Committed`, `Isolated`, `HoldsImage`), about which the lemmas are stated.

Faults and power loss are one thing here: every flash operation may fail and leave a partial effect, the
caller then stops or goes on as the code does, and a counter of faults says when a call may fail. A
method's failure postcondition therefore lists the states a loss of power can leave, and the lemmas of
`DualCopy` say what the next load makes of each.

The driver's contracts for reading, writing and erasing are the ones `FlashDev.Flash` has, so the library
is verified against what the driver is proved to do.

## Findings

- `update_cpb` programs both copies in place. A stop inside a write can leave one copy with an entry that
  nobody wrote, and that copy may pass `check_cpb`. `CpbUpdate.TornTables` says which tables those are, and
  `CpbUpdate.UpdateSafeIff` when none of them passes: exactly when no other slot's offset lies, bit by bit,
  between the old entry and the new one. On this board adding P2 and removing P1 are safe; adding P1 and
  removing P2 are not (`Board.BoardUpdates`), and `Board.RemovalTornIntoP1` is a removal of P2 that leaves a
  copy booting P1. The next load then sees two good copies that differ and reports corruption.
- `load_cpb` takes a copy it cannot read for a bad one and rewrites it from the other. One failed read makes
  it settle on either of two good copies that differ, and report nothing
  (`RsuOps.Database.LoadCpbMissing`). `load_spt` does not: a failed read ends it with nothing written
  (`RsuOps.Database.LoadSpt`).
- Two valid but different copies, both readable, are reported as corruption and not resolved. After a stopped
  rewrite this happens exactly when the stop fell between the two copies (`DualCopy.StoppedRewriteIsSafe`).
- Programming an already relocated image again is the identity only under a condition. The second pass must list
  the same sections as the first, which it does if no pointer becomes zero by being moved, or if the image fits
  the slot and the first pass has room for all sections (`ImageTwice.ListsAgreeWhen`). Then it is the identity
  exactly when the second pass sees that the image is absolute (`ImageTwice.RelocatingTwice`), and the slots
  with an image that fails are those whose offset lies between 0 and their size
  (`ImageFails.FailsWithSameLists`). Among all images that fit, the slots with one that fails are those that have
  two blocks, do not begin at 0, and begin below their own size or have 34 blocks (`ImageFails.SlotsThatFail`).
  This board's P1 and P2 are among them (`Board.SlotImagesFail`).
- Data that is not raw and not in whole 4 KB blocks is processed, and compared when it is verified, together with
  what the buffers held before. What is behind a short last block agrees or not depending on the last whole block,
  or on uninitialised memory if there is none (`CbProgram.TailAgreesIff`). Some data is programmed into every
  partition that has room for it and is verified in none (`CbFails.ProgramsUnverified`).
- An offset equal to one of the two entry markers can be added to the CPB and is then not in the boot order,
  whether the add takes an erased entry or compacts (`Priority.AddVisibleIff`).
- An add of an offset at which a reserved partition comes first writes a table that `check_cpb` refuses
  (`RsuOps.AddedIsGoodIff`). `rsu_slot_create` lets such slots through, and slots at marker offsets, if their
  length is zero (`Board.ZeroLengthSlots`). Enabling the one at the address of SPT0 leaves the CPB flagged as
  corrupted, and no call on the boot order works until it is emptied or restored (`Board.BlockedByEnable`).
- `priority_remove` of a slot at 2^64-1 takes the first erased entry for the slot's own and spends it. Between two
  compactions, hence erases, of the CPB there are 381 adds at least if no partition stands there, and possibly none
  if one does (`Priority.AddsBetweenIff`); `Board.WearWithoutAdds` is such a run.
- The SPT's checksum does not protect its version word. Damage in up to four bytes in a row is refused, but for
  damage that clears the version: the checksum is then not looked at (`SptOps.DamageRefused`,
  `SptOps.VersionUnprotected`).
- Write protection goes by slot number, and deleting a slot shifts the numbers: a protected partition can be
  erased after a slot before it has been deleted (`Board.ProtectionMoves`).
- A byte written to DATA while the UART's transmit FIFO is full is acknowledged on the bus and lost
  (`Uart.Transmitter.Intact`); nothing counts it.
- A byte that the UART drops in the very clock of an ERRORS write is counted nowhere. `Uart.Receiver.Intact`
  accounts for every received byte, `Uart.Receiver.Clock` says that a dropped byte moves the counter exactly
  when the clock does not clear it and it is not saturated, and `Uart.LoseUnseen` loses one.
- A stray byte on the serial line that is a multiple of 8 announces no bytes, but the next byte is stored behind
  it: the frame that follows within the timeout is heard as no frame (`SerialProtocol.StrayByteIff`).
- `float_to_fixed` is exact exactly when no left shift is needed and the stages can do the whole right shift or
  empty the mantissa (`FloatToFixed.ExactIff`). Where a left shift is needed the result is off by 2 to the 22
  or more (`LeftShiftMissed`). That every other result is within one holds for pipeline depths 1, 2, 11, 22
  and 23 only, and fails for every other depth (`WithinOneIff`, `GoodDepths`, `TooFar`).

## Assumptions

- The CPB header's `image_ptr_slots` is 508; `load_cpb` does not check it, the model's check does.
- `off_t`, which is not defined in the repository, has 64 bits: a partition's offset reaches the driver as it is.
- SPT names are NUL-terminated, `offset + length` of a partition does not wrap, the two SPT partitions are
  where the firmware says the SPTs are, the table partitions are page-aligned and at least 32 KB, and the
  flash is smaller than 2 GB. `mtd_part_offset` is 0.
- The firmware reports no CPB corruption of its own.
- A page (4 KB) is erased or not; an erase that fails has erased a leading run of pages.
- The library is used after a successful load (`RsuSlots.Ready`). After a failed write-back the source keeps
  a RAM table that flash may not hold, so nothing is claimed for the next call without a reload.
- The QSPI flash's size is a whole number of words, and a mailbox read that succeeds returns all its words.
- The memory core behind the bridge takes commands and write beats in order, serves the commands in order
  and answers in order; it decodes 64-bit beats.
- The UART's serial transmitter takes a byte only while one is offered.
- The PLL's bus slave answers only what it has accepted and drops what it has accepted when the machine is
  held; a phase request is stable for a clock after its enable rises.

## Model

| member | source | states |
|---|---|---|
| `FlashDev.Flash.Write` | niosv_zephyr/zephyr_module/lib/unilibrsu/zephyr/rsu_plat_zephyr.c:251-266 | a program ANDs the data into the flash, or fails leaving each byte between its old value and that AND; nothing else changes; it fails only on a fault or on arguments that are out of range or not whole words |
| `FlashDev.Flash.Erase` | niosv_zephyr/zephyr_module/lib/unilibrsu/zephyr/rsu_plat_zephyr.c:268-282 | an erase sets exactly the range to 0xFF, or fails having erased a leading run of its pages |
| `DualCopy.RewriteDone` | niosv_zephyr/zephyr_module/lib/unilibrsu/src/libRSU_ops.c:801-820 | erase, body without magic, magic leave exactly the new table and touch nothing outside the erased range; no intermediate step shows a magic |
| `DualCopy.StoppedInErase` | niosv_zephyr/zephyr_module/lib/unilibrsu/src/libRSU_ops.c:801-805 | a copy whose erase was cut short after any run of pages is untouched or has no magic |
| `DualCopy.StoppedInBody` | niosv_zephyr/zephyr_module/lib/unilibrsu/src/libRSU_ops.c:807-812 | a copy whose body write was torn anywhere has no magic |
| `DualCopy.StoppedInMagic` | niosv_zephyr/zephyr_module/lib/unilibrsu/src/libRSU_ops.c:814-820 | a copy whose magic write was torn is the new table or fails every check that requires the magic |
| `DualCopy.StoppedRewriteIsSafe` | niosv_zephyr/zephyr_module/lib/unilibrsu/src/libRSU_ops.c:782-898 | a rewrite of both copies stopped anywhere, torn writes included, leaves at least one good copy, every good copy is wholly old or wholly new, the next load settles on one of the two, and it reports corruption if and only if the stop fell between the two copies |
| `DualCopy.StoppedUpdateIsSafe` | niosv_zephyr/zephyr_module/lib/unilibrsu/src/libRSU_ops.c:739-780 | programming both copies in place, stopped anywhere, leaves one good copy at least, and each good copy lies byte by byte between the old table and the new one |
| `DualCopy.StoppedUpdateExactly` | niosv_zephyr/zephyr_module/lib/unilibrsu/src/libRSU_ops.c:739-780 | corruption is reported only between the old and the new table, after every stop, if and only if no table that lies between the two passes the checks |
| `DualCopy.TornSafeOutcome` | niosv_zephyr/zephyr_module/lib/unilibrsu/src/libRSU_ops.c:739-780 | then a load settles on the old table, settles on the new one, or reports corruption because one copy is the old and the other the new one |
| `DualCopy.LoadStepKeepsOutcome` | niosv_zephyr/zephyr_module/lib/unilibrsu/src/libRSU_ops.c:405-461 | a repair stopped at any step, torn writes included, leaves the table that a load settles on what it was |
| `DualCopy.RepairsConverge` | niosv_zephyr/zephyr_module/lib/unilibrsu/src/libRSU_ops.c:676-731 | after any number of interrupted repairs a load still settles on the same table, and an uninterrupted one makes both copies that table |
| `DualCopy.ProgramInPlace` | niosv_zephyr/zephyr_module/lib/unilibrsu/src/libRSU_ops.c:758-772 | programming a table over another without erasing yields it when only bits are cleared; cut short, it leaves each byte between its old and its new value |
| `Tables.SptRoundTrip` | niosv_zephyr/zephyr_module/lib/unilibrsu/src/libRSU_ops.c:352-403 | an encoded partition table decodes to itself |
| `Tables.CpbRoundTrip` | niosv_zephyr/zephyr_module/lib/unilibrsu/src/libRSU_ops.c:576-640 | an encoded pointer block decodes to itself |
| `Tables.CpbBytesRoundTrip` | niosv_zephyr/zephyr_module/lib/unilibrsu/src/libRSU_ops.c:576-640 | decoding any 4 KB and encoding again gives the same bytes: the in-RAM table and the copy in flash determine each other |
| `Tables.PartLayout` | niosv_zephyr/zephyr_module/lib/unilibrsu/src/priv_include/libRSU_hl_intf.h:32-37 | a partition entry in flash: name, offset, length, flags, the numbers low byte first |
| `Tables.SptLayout` | niosv_zephyr/zephyr_module/lib/unilibrsu/src/priv_include/libRSU_hl_intf.h:25-38 | the partition table in flash: magic, version, count and checksum, 16 bytes, and entry i at 32 + 32 * i |
| `Tables.CpbLayout` | niosv_zephyr/zephyr_module/lib/unilibrsu/src/priv_include/libRSU_hl_intf.h:44-54 | the pointer block in flash: its six header words, 8 bytes, and entry i at 32 + 8 * i |
| `Tables.HeaderBytes` | niosv_zephyr/zephyr_module/lib/unilibrsu/src/libRSU_ops.c:652-656 | the header is accepted if and only if bytes 0 to 3, 16 to 19 and 20 to 23 are the magic number, 32 and 508, low byte first; the last is an assumption |
| `Tables.EntryUpdateOnlyClears` | niosv_zephyr/zephyr_module/lib/unilibrsu/src/libRSU_ops.c:749-770 | an entry update that only clears bits of the 64-bit entry only clears bits of the whole table |
| `Tables.EntryCanChange` | niosv_zephyr/zephyr_module/lib/unilibrsu/src/libRSU_ops.c:1248-1296 | an erased entry can become any pointer and any entry can be spent without an erase |
| `CpbUpdate.TornTables` | niosv_zephyr/zephyr_module/lib/unilibrsu/src/libRSU_ops.c:739-780 | the tables that a stopped update can leave in one copy are the old table with any entry that has lost some of the bits it is to lose, and no others |
| `CpbUpdate.UpdateSafeIff` | niosv_zephyr/zephyr_module/lib/unilibrsu/src/libRSU_ops.c:739-780 | every copy that passes check_cpb after a stop is the old or the new table if and only if no other acceptable slot offset lies bitwise between the old and the new entry: a condition on the partition table and two numbers, before the call |
| `Priority.AddIsFront` | niosv_zephyr/zephyr_module/lib/unilibrsu/src/libRSU_ops.c:1215-1271 | in both the fast and the compacting path, adding puts the partition at the front of the boot order and keeps the rest |
| `Priority.AddKeepsWf` | niosv_zephyr/zephyr_module/lib/unilibrsu/src/libRSU_ops.c:1215-1271 | adding keeps erased entries a suffix and live entries distinct, and says how many entries it uses up |
| `Priority.RemoveIsWithout` | niosv_zephyr/zephyr_module/lib/unilibrsu/src/libRSU_ops.c:1273-1296 | removing deletes exactly that partition from the boot order and keeps the order of the others |
| `Priority.RemoveKeepsWf` | niosv_zephyr/zephyr_module/lib/unilibrsu/src/libRSU_ops.c:1273-1296 | removing keeps the invariant of the entry array and uses up no entry |
| `Priority.EnableIsMoveToFront` | niosv_zephyr/zephyr_module/lib/unilibrsu/src/libRSU.c:1038-1086 | remove then add is move-to-front |
| `Priority.AddVisibleIff` | niosv_zephyr/zephyr_module/lib/unilibrsu/src/libRSU_ops.c:1215-1271 | an added offset comes first in the boot order if and only if it is neither marker value, on both paths; if it is one the boot order stays |
| `Priority.NeverRunsOut` | niosv_zephyr/zephyr_module/lib/unilibrsu/src/libRSU_ops.c:1230-1262 | if the live entries are distinct offsets of at most 127 partitions, compaction finds a free entry |
| `Priority.RunKeepsApiState` | niosv_zephyr/zephyr_module/lib/unilibrsu/src/libRSU_ops.c:1215-1296 | every run of adds, removes and partition-table edits that the slot API makes, slots at marker offsets among them, keeps the invariant, with at most 127 offsets at a time and any number in all |
| `Priority.CompactionsAreRare` | niosv_zephyr/zephyr_module/lib/unilibrsu/src/libRSU_ops.c:1215-1296 | in every such run at least 381 entries are spent between two compactions, whatever slots are created and deleted; if no partition stands at 2^64-1 meanwhile, that is 381 adds |
| `Priority.AddsBetweenIff` | niosv_zephyr/zephyr_module/lib/unilibrsu/src/libRSU_ops.c:1215-1296 | among runs whose tables list only given offsets there are always 381 adds between two compactions if and only if 2^64-1 is none of them |
| `Priority.ReachedThen` | niosv_zephyr/zephyr_module/lib/unilibrsu/src/libRSU_ops.c:1215-1296 | what one sequence of operations reaches and another goes on from, both together reach: the steps that the contracts of the slot API name add up to the runs above |
| `SptOps.SlotNumbersBijective` | niosv_zephyr/zephyr_module/lib/unilibrsu/src/libRSU_misc.c:66-93 | slot numbers are an order-preserving bijection onto the non-reserved partitions |
| `SptOps.SlotsAfterCreate` | niosv_zephyr/zephyr_module/lib/unilibrsu/src/libRSU_ops.c:1127-1189 | a created slot gets the next slot number and no other slot moves |
| `SptOps.SlotsAfterDelete` | niosv_zephyr/zephyr_module/lib/unilibrsu/src/libRSU_ops.c:1086-1117 | deleting a slot removes exactly it; later slots shift down by one |
| `SptOps.SlotsAfterRename` | niosv_zephyr/zephyr_module/lib/unilibrsu/src/libRSU_ops.c:1042-1078 | renaming changes no slot number |
| `SptOps.CreateKeepsPartsOk` | niosv_zephyr/zephyr_module/lib/unilibrsu/src/libRSU_ops.c:1127-1189 | creating keeps names unique, partitions apart and the four tables present |
| `SptOps.RenameKeepsPartsOk` | niosv_zephyr/zephyr_module/lib/unilibrsu/src/libRSU_ops.c:1042-1078 | renaming keeps names unique, partitions apart and the four tables present |
| `SptOps.DeleteKeepsPartsOk` | niosv_zephyr/zephyr_module/lib/unilibrsu/src/libRSU_ops.c:1086-1117 | deleting a slot keeps names unique, partitions apart and the four tables present |
| `SptOps.SealedIsOk` | niosv_zephyr/zephyr_module/lib/unilibrsu/src/libRSU_ops.c:833-860 | after the checksum is stored the table passes check_spt, checksum included |
| `SptOps.DeleteKeepsPointer` | niosv_zephyr/zephyr_module/lib/unilibrsu/src/libRSU_ops.c:489-525 | deleting a partition that no boot entry refers to leaves every entry acceptable to check_cpb |
| `SptOps.SlotIff` | niosv_zephyr/zephyr_module/lib/unilibrsu/src/libRSU_misc.c:9-74 | a slot is a partition with neither of the two lowest flags and none of the eight names, spelt out |
| `SptOps.ChecksumBytes` | niosv_zephyr/zephyr_module/lib/unilibrsu/src/libRSU_ops.c:254-277 | a table with a version passes the check if and only if its partitions are sound and its checksum bytes are the CRC of the table, bits of every byte reversed and zeros for the checksum, high byte first |
| `SptOps.DamageRefused` | niosv_zephyr/zephyr_module/lib/unilibrsu/src/libRSU_ops.c:254-277 | a good table damaged in up to four bytes in a row outside the checksum is refused, unless the damage has cleared the version |
| `SptOps.VersionUnprotected` | niosv_zephyr/zephyr_module/lib/unilibrsu/src/libRSU_ops.c:254 | and then it is accepted, whatever the checksum |
| `RsuOps.Database.ReadPart` | niosv_zephyr/zephyr_module/lib/unilibrsu/src/libRSU_ops.c:103-124 | reads exactly the bytes of the partition and fails for every range that leaves it |
| `RsuOps.Database.CheckSpt` | niosv_zephyr/zephyr_module/lib/unilibrsu/src/libRSU_ops.c:236-346 | accepts a table if and only if it has the version, at most 127 partitions, unique names, no overlap, the four tables and, when enabled, the checksum |
| `RsuOps.Database.CheckCpb` | niosv_zephyr/zephyr_module/lib/unilibrsu/src/libRSU_ops.c:489-525 | accepts the entries if and only if each is erased, spent or the offset of a partition that is not reserved |
| `RsuOps.Database.LoadSpt` | niosv_zephyr/zephyr_module/lib/unilibrsu/src/libRSU_ops.c:352-466 | from any flash: settles on the table that the two copies determine, whatever operation fails, repairs the other copy without touching the good one, writes only if exactly one copy is good, and flags corruption exactly when neither copy is good or two good ones differ |
| `RsuOps.Database.LoadCpb` | niosv_zephyr/zephyr_module/lib/unilibrsu/src/libRSU_ops.c:576-737 | the same for the pointer block when no operation fails |
| `RsuOps.Database.LoadCpbMissing` | niosv_zephyr/zephyr_module/lib/unilibrsu/src/libRSU_ops.c:623-731 | with two good copies that differ, one failed read and no other failure, the load succeeds with the copy that was read in RAM and in both places |
| `RsuOps.Database.RewriteCpb` | niosv_zephyr/zephyr_module/lib/unilibrsu/src/libRSU_ops.c:801-820 | one copy by erase, body, magic; a failure leaves one of the stopped states |
| `RsuOps.Database.WritebackCpb` | niosv_zephyr/zephyr_module/lib/unilibrsu/src/libRSU_ops.c:782-831 | both copies become the table, or a failure leaves one of the stopped states of the pair; only the two CPB partitions change |
| `RsuOps.Database.WritebackSpt` | niosv_zephyr/zephyr_module/lib/unilibrsu/src/libRSU_ops.c:833-898 | seals the table and rewrites both copies, with the stopped states on failure; only the two SPT partitions change |
| `RsuOps.Database.UpdateCpb` | niosv_zephyr/zephyr_module/lib/unilibrsu/src/libRSU_ops.c:739-780 | without erasing, both copies follow the RAM table when the entry only loses bits, and the update is refused exactly when it would not; a failure leaves one copy done or untouched and the other somewhere between old and new |
| `RsuOps.Database.PriorityGet` | niosv_zephyr/zephyr_module/lib/unilibrsu/src/libRSU_ops.c:1191-1213 | the 1-based position in the boot order, 0 if absent (as a marker offset always is), negative for a bad partition number |
| `RsuOps.Database.ChangeEntry` | niosv_zephyr/zephyr_module/lib/unilibrsu/src/libRSU_ops.c:1227-1237 | an entry changed in both copies and loaded again, also when the change failed: without further faults RAM is then what both copies hold, or the corruption is flagged |
| `RsuOps.AddedIsGoodIff` | niosv_zephyr/zephyr_module/lib/unilibrsu/src/libRSU_ops.c:1227-1258 | the table an add writes, on either path, passes check_cpb if and only if no reserved partition comes first at the offset added |
| `RsuOps.Database.PriorityAdd` | niosv_zephyr/zephyr_module/lib/unilibrsu/src/libRSU_ops.c:1215-1271 | for any partition: without faults it succeeds if and only if no reserved partition comes first at the offset, so its out-of-room error cannot happen; RAM table and both flash copies are then the table with the entry added; otherwise both copies hold a table that is refused and the CPB is flagged; after a fault a good copy is left, and every good copy lies between the old table and the new one, or is one of the two when it compacts |
| `RsuOps.Database.PriorityRemove` | niosv_zephyr/zephyr_module/lib/unilibrsu/src/libRSU_ops.c:1273-1296 | for any partition: the first entry equal to its offset is spent; RAM table and both flash copies stay equal; after a failure a good copy is left, and every good copy lies between the old table and the new one |
| `RsuOps.RoomForAll` | niosv_zephyr/zephyr_module/lib/unilibrsu/src/libRSU_ops.c:1230-1262 | a table that check_cpb accepts and whose live entries are distinct has room for one more partition of the SPT |
| `RsuOps.OverlapIff` | niosv_zephyr/zephyr_module/lib/unilibrsu/src/libRSU_ops.c:288-300 | partitions that are not empty and do not wrap overlap if and only if they share a byte |
| `RsuOps.CreateAllowedIff` | niosv_zephyr/zephyr_module/lib/unilibrsu/src/libRSU_ops.c:1127-1189 | partition_create takes exactly what check_spt accepts afterwards |
| `RsuOps.RenameAllowedIff` | niosv_zephyr/zephyr_module/lib/unilibrsu/src/libRSU_ops.c:1042-1078 | partition_rename too, but for the name that the partition has already |
| `RsuOps.EmptyBytes` | niosv_zephyr/zephyr_module/lib/unilibrsu/src/libRSU_ops.c:1585-1600 | the empty pointer block in flash: a header with its sizes, 24 and 4096, and behind the header nothing but 0xFF |
| `RsuOps.Database.PartitionCreate` | niosv_zephyr/zephyr_module/lib/unilibrsu/src/libRSU_ops.c:1127-1189 | succeeds without faults exactly when there is room, the name is new and short enough and nothing overlaps; the table in RAM and both copies are then the sealed new table and the load after it succeeds; stopped, one copy is good and every good copy is wholly the old or wholly the new table |
| `RsuOps.Database.PartitionRename` | niosv_zephyr/zephyr_module/lib/unilibrsu/src/libRSU_ops.c:1042-1078 | the same for renaming |
| `RsuOps.Database.PartitionDelete` | niosv_zephyr/zephyr_module/lib/unilibrsu/src/libRSU_ops.c:1086-1117 | the same for deleting, with later entries moved down |
| `RsuOps.Database.EmptyCpb` | niosv_zephyr/zephyr_module/lib/unilibrsu/src/libRSU_ops.c:1565-1615 | both copies become a pointer block without entries, whatever was there |
| `RsuSlots.ReadyIsApiState` | niosv_zephyr/zephyr_module/lib/unilibrsu/src/libRSU_ops.c:489-525 | tables that pass the checks, with a well-formed entry array, are a state that the runs of the slot API start from |
| `Protection.Configure` | niosv_zephyr/zephyr_module/lib/unilibrsu/src/libRSU_cfg.c:109-176 | after reading the configuration lines up to the first bad one the mask protects exactly the slots named there, and the negative numbers; the last checksum line decides about checksums, which are on if there is none |
| `RsuSlots.Rsu.SlotToPart` | niosv_zephyr/zephyr_module/lib/unilibrsu/src/libRSU_misc.c:76-93 | the partition behind a slot number, or failure exactly for numbers that are no slot |
| `RsuSlots.Rsu.SlotCount` | niosv_zephyr/zephyr_module/lib/unilibrsu/src/libRSU.c:217-247 | the number of slots |
| `RsuSlots.Rsu.SlotByName` | niosv_zephyr/zephyr_module/lib/unilibrsu/src/libRSU.c:249-286 | the slot number of the slot with that name, or failure exactly when there is none |
| `RsuSlots.Rsu.SlotPriority` | niosv_zephyr/zephyr_module/lib/unilibrsu/src/libRSU.c:368-401 | the 1-based place of a slot in the boot order, 0 if it is not in it |
| `RsuSlots.Rsu.SlotDisable` | niosv_zephyr/zephyr_module/lib/unilibrsu/src/libRSU.c:994-1036 | a step of the slot API, the removal of its offset: the boot order without the slot; only the CPB partitions change; wherever it stops, every acceptable copy has the old order or that without the slot, if no other slot lies between the entry and zero |
| `RsuSlots.Rsu.SlotEnable` | niosv_zephyr/zephyr_module/lib/unilibrsu/src/libRSU.c:1038-1086 | two steps, a removal and an add: the slot at the front of the boot order, the rest in order; only the CPB partitions change; wherever it stops, every acceptable copy has the old order, that without the slot or that with it in front, under the same condition; a slot with a reserved partition first at its offset is refused and the CPB flagged |
| `RsuSlots.Rsu.SlotErase` | niosv_zephyr/zephyr_module/lib/unilibrsu/src/libRSU.c:403-450 | the slot leaves the boot order by a removal and its partition, of length zero too, is all 0xFF; no byte outside the partition and the two CPB partitions changes, however it ends, and the boot orders left are those of a disable; wherever it stops, the partition is untouched or no boot order in flash has the slot; protected slots are untouched |
| `RsuSlots.Rsu.SlotCreate` | niosv_zephyr/zephyr_module/lib/unilibrsu/src/libRSU.c:1305-1338 | one step, an edit of the table: the slot list grows by the new slot at the end; only the SPT partitions change; the library is ready for the next call; the slot can be put in the boot order if and only if its offset is no marker value and no reserved partition comes first at it |
| `RsuSlots.Rsu.SlotRename` | niosv_zephyr/zephyr_module/lib/unilibrsu/src/libRSU.c:1191-1231 | one step, an edit of the table: the slot list changes in that one name; reserved names are refused; only the SPT partitions change; the library is ready for the next call |
| `RsuSlots.Rsu.SlotDelete` | niosv_zephyr/zephyr_module/lib/unilibrsu/src/libRSU.c:1239-1295 | two steps, a removal and an edit of the table: the slot leaves the boot order, its partition is erased, it leaves the slot list and later slots shift down by one; no byte outside its partition and the four tables changes, however it ends, the boot orders left are those of a disable, and the partition is untouched or no boot order in flash has the slot; the library is ready for the next call; all slots can still be put in the boot order if and only if none is left behind a reserved partition at the deleted slot's offset |
| `RsuSlots.NonEmptyUnshared` | niosv_zephyr/zephyr_module/lib/unilibrsu/src/libRSU.c:1239-1295 | among partitions of non-zero length deleting never leaves one |
| `RsuSlots.NonEmptySlotPointers` | niosv_zephyr/zephyr_module/lib/unilibrsu/src/libRSU_ops.c:489-525 | slots of non-zero length can always be named in the boot order |
| `RsuBoot.LoadAfterStop` | niosv_zephyr/zephyr_module/lib/unilibrsu/src/libRSU_ops.c:576-831 | the load after a rewrite of either table that was stopped anywhere ends with the old or the new table in RAM and in both copies, or reports corruption and changes nothing, the latter if and only if one copy is the old and the other the new table |
| `RsuBoot.SptAfterStop` | niosv_zephyr/zephyr_module/lib/unilibrsu/src/libRSU_ops.c:352-466 | after a partition-table edit was stopped anywhere in its write-back, both copies are what load_spt may be given, and it ends in just these ways |
| `RsuBoot.SptAfterRepairs` | niosv_zephyr/zephyr_module/lib/unilibrsu/src/libRSU_ops.c:352-466 | after any number of calls of load_spt stopped anywhere, in repairs or elsewhere, both copies are what load_spt may be given and it still settles on the same table, or still finds two that differ |
| `RsuBoot.LoadAfterStoppedUpdate` | niosv_zephyr/zephyr_module/lib/unilibrsu/src/libRSU_ops.c:576-780 | the same after an update in place: the old or the new table in RAM and in both copies, or corruption is reported and nothing changed; if the update is safe, the latter if and only if one copy is the old and the other the new table |
| `RsuBoot.Open` | niosv_zephyr/zephyr_module/lib/unilibrsu/src/libRSU_ops.c:1892-1962 | opening fails only on a fault; without one it flags the SPT, or else the CPB, if and only if its copies do not settle on a table; it takes the tables that they settle on, and leaves an unflagged library ready for the slot API when the boot order's entries are distinct and its erased entries come last |
| `Board.NewBoard` | niosv_zephyr/zephyr_module/lib/unilibrsu/src/libRSU.c:1397-1413 | a flash with both copies of this board's partition table and nothing else can be opened and given an empty boot order, and is then ready: what the slot API asks for can be met |
| `Board.BoardUpdates` | niosv_zephyr/hw/flash/initial_image.pfg.in:22-29 | of this board's changes to the boot order, adding P2 and removing P1 are safe to stop, adding P1 and removing P2 are not |
| `Board.RemovalTornIntoP1` | niosv_zephyr/zephyr_module/lib/unilibrsu/src/libRSU_ops.c:758-772 | a removal of P2 that is stopped in the first copy can leave it a table that passes every check and boots P1; a load then reports that the copies differ |
| `Board.ZeroLengthSlots` | niosv_zephyr/zephyr_module/lib/unilibrsu/src/libRSU_ops.c:1127-1189 | slots of length zero at offset 0, at 2^64-1 and at the address of SPT0 pass every check of rsu_slot_create and cannot be put in the boot order |
| `Board.BlockedByEnable` | niosv_zephyr/zephyr_module/lib/unilibrsu/src/libRSU.c:1038-1086 | creating the second and enabling it, without faults, ends with the CPB flagged as corrupted |
| `Board.WearWithoutAdds` | niosv_zephyr/zephyr_module/lib/unilibrsu/src/libRSU_ops.c:1273-1296 | on this board, with a slot created at 2^64-1, calls of the slot API that succeed compact the entry array twice with no add in between |
| `Board.ProtectionMoves` | niosv_zephyr/zephyr_module/lib/unilibrsu/src/libRSU.c:1239-1295 | with slot 1 protected, erasing it is refused; after slot 0 is deleted its partition is erased as slot 0 |
| `Bits.SwapSeqInvolution` | niosv_zephyr/zephyr_module/lib/unilibrsu/src/libRSU_misc.c:21-37 | reversing the bits of every byte twice gives the bytes back |
| `Bits.LEDigits` | niosv_zephyr/zephyr_module/lib/unilibrsu/src/priv_include/libRSU_hl_intf.h:25-54 | byte i of a stored word is its digit of 256 to the i |
| `Crc.CrcIffRemainder` | niosv_zephyr/zephyr_module/lib/unilibrsu/src/libRSU_ops.c:264 | a word is the CRC of a message if and only if its bits are the complement of the remainder, by the generator of clause 3.2.9, of the message with 32 zeros behind it and its first 32 bits complemented; division is by polynomials |
| `Crc.BurstDetected` | niosv_zephyr/zephyr_module/lib/unilibrsu/src/libRSU_ops.c:264 | messages of the same length whose bits differ within one burst of at most 32 have different CRCs |
| `Crc.BytesDetected` | niosv_zephyr/zephyr_module/src/rsu_mgmt.c:185-188 | so have messages that differ in up to four bytes in a row |
| `Bits.SwapBits` | niosv_zephyr/zephyr_module/lib/unilibrsu/src/libRSU_misc.c:21-37 | the in-place loop reverses the bits of the first len bytes and leaves the rest |
| `Bits.SwapEndian32Involution` | niosv_zephyr/zephyr_module/lib/unilibrsu/src/libRSU_misc.c:39-51 | the bytes of the swapped word are those of the word in reverse order, and swapping twice gives the word back |
| `Image.SealedCrcOk` | niosv_zephyr/zephyr_module/lib/unilibrsu/src/libRSU_image.c:170-186 | a block whose CRC word has been recomputed passes the bit-swapped CRC check |
| `Image.RelocationIsExact` | niosv_zephyr/zephyr_module/lib/unilibrsu/src/libRSU_image.c:126-188 | a relocated signature block differs in its four pointers and CRC word only, each non-zero pointer moved by exactly the slot offset, and passes the CRC check |
| `Image.CrcBytes` | niosv_zephyr/zephyr_module/lib/unilibrsu/src/libRSU_image.c:133-145 | a block passes if and only if, with the bits of every byte reversed, its last word is the CRC of the others, high byte first |
| `Image.DamageRefused` | niosv_zephyr/zephyr_module/lib/unilibrsu/src/libRSU_image.c:133-145 | a block that passes and is then damaged in up to four bytes in a row before its CRC word is refused |
| `Image.RelocateAt` | niosv_zephyr/zephyr_module/lib/unilibrsu/src/libRSU_image.c:287-342 | what flash must hold for block i is that block relocated in the state reached after the blocks before it |
| `Image.ImageRelocationIsExact` | niosv_zephyr/zephyr_module/lib/unilibrsu/src/libRSU_image.c:287-342 | in the states of the block machine only signature blocks of a relative image change, and those exactly as above |
| `ImageSections.ProgrammedExactly` | niosv_zephyr/zephyr_module/lib/unilibrsu/src/libRSU_image.c:35-113 | which blocks change, said of the image and its pointers alone: block i + 1 if and only if block i starts with the magic number and begins a section, being the first block or named by an earlier such signature block among the first 64 places named, and block i + 1 begins none; in an absolute image none changes |
| `ImageSections.AcceptedExactly` | niosv_zephyr/zephyr_module/lib/unilibrsu/src/libRSU_image.c:126-166 | an image is accepted if and only if each of these blocks has a good CRC and pointers that are zero or, counted from the slot's offset in an absolute image, name a place in the slot |
| `ImageTwice.HighSlotIsRecognised` | niosv_zephyr/zephyr_module/lib/unilibrsu/src/libRSU_image.c:81-113 | a slot whose offset is at least its size is always recognised: the relocated second block of a relative image sets absolute |
| `ImageTwice.ListsAgreeWhen` | niosv_zephyr/zephyr_module/lib/unilibrsu/src/libRSU_image.c:48-113 | both passes list the same sections if no pointer becomes zero when it is moved, or if the image fits the slot and no section is dropped |
| `ImageTwice.RelocatingTwice` | niosv_zephyr/zephyr_module/lib/unilibrsu/src/libRSU_image.c:81-188 | if they do, programming an already relocated image into the same slot changes nothing if and only if the offset is 0, the second block has no pointers, or one of its relocated pointers exceeds the slot size |
| `ImageFails.FailsWithSameLists` | niosv_zephyr/zephyr_module/lib/unilibrsu/src/libRSU_image.c:81-188 | among images whose sections are listed alike, a slot has one that is accepted and fails to be the same when programmed again if and only if its offset lies between 0 and its size |
| `ImageFails.SlotsThatFail` | niosv_zephyr/zephyr_module/lib/unilibrsu/src/libRSU_image.c:48-188 | among all images that fit, a slot has one if and only if it does not begin at 0, has two blocks, and begins below its own size or has 34 blocks |
| `Board.SlotImagesFail` | niosv_zephyr/hw/flash/initial_image.pfg.in:28-29 | P1 and P2 have such images |
| `ImageBlocks.ImageState.FindSection` | niosv_zephyr/zephyr_module/lib/unilibrsu/src/libRSU_image.c:35-46 | finds a section exactly when it is in the list |
| `ImageBlocks.ImageState.AddOne` | niosv_zephyr/zephyr_module/lib/unilibrsu/src/libRSU_image.c:55-68 | adds a section once, up to the capacity |
| `ImageBlocks.ImageState.SigBlockProcess` | niosv_zephyr/zephyr_module/lib/unilibrsu/src/libRSU_image.c:81-113 | recognises an absolute image at its second block and collects the sections its pointers name |
| `ImageBlocks.ImageState.SigBlockAdjust` | niosv_zephyr/zephyr_module/lib/unilibrsu/src/libRSU_image.c:126-188 | refuses a block exactly for a wrong CRC or a pointer outside the slot, and otherwise leaves the relocated, re-sealed block in the buffer |
| `ImageBlocks.ImageState.SigBlockCompare` | niosv_zephyr/zephyr_module/lib/unilibrsu/src/libRSU_image.c:229-272 | equal exactly when flash holds what adjusting would have produced; the caller's block is left alone |
| `ImageBlocks.ImageState.BlockCompare` | niosv_zephyr/zephyr_module/lib/unilibrsu/src/libRSU_image.c:199-215 | equal exactly when all 4096 bytes are |
| `ImageBlocks.ImageState.Process` | niosv_zephyr/zephyr_module/lib/unilibrsu/src/libRSU_image.c:287-342 | programming and verifying move the state alike; programming yields the expected block, verifying accepts exactly it |
| `CbProgram.Source.FromBuffer` | niosv_zephyr/zephyr_module/lib/unilibrsu/src/libRSU_cb.c:87-115 | hands out the buffer in order without loss, as much as is asked for while there is that much, and 0 only at the end |
| `CbProgram.FillBlock` | niosv_zephyr/zephyr_module/lib/unilibrsu/src/libRSU_cb.c:183-198 | however the callback splits the data, the buffer holds the next 4096 bytes or all that is left |
| `CbProgram.WriteBuffer` | niosv_zephyr/zephyr_module/lib/unilibrsu/src/libRSU_cb.c:212-249 | on success the flash reads back as the buffer; on erased flash it fails only for lack of room, alignment or a fault; nothing else changes |
| `CbProgram.WholeIsImage` | niosv_zephyr/zephyr_module/lib/unilibrsu/src/libRSU_cb.c:163-203 | what is programmed of data in whole blocks is the relocated image, and every block is accepted exactly if the image is |
| `CbProgram.HeldExactly` | niosv_zephyr/zephyr_module/lib/unilibrsu/src/libRSU_cb.c:163-252 | a slot that holds an image: block i of it is block i of the data, but in an image that is not absolute the signature blocks, as ImageSections says which, have their pointers moved by the slot's offset and a fresh CRC |
| `CbProgram.FitsExactly` | niosv_zephyr/zephyr_module/lib/unilibrsu/src/libRSU_cb.c:163-220 | data in whole blocks fits if and only if its signature blocks are sound, it is no longer than the slot, the slot is below 2 GB, word-aligned and inside the flash |
| `CbProgram.ProgramPart` | niosv_zephyr/zephyr_module/lib/unilibrsu/src/libRSU_cb.c:163-252 | success means that the partition holds the relocated image, a short last block cut off included, that every block was accepted and that the data fits; without faults and on erased flash these two suffice; any partition, inside the flash or not |
| `CbProgram.VerifyPart` | niosv_zephyr/zephyr_module/lib/unilibrsu/src/libRSU_cb.c:325-376 | without faults it accepts exactly a partition that holds the relocated image, where what the two buffers hold behind a short last block agrees; it changes nothing |
| `CbProgram.VerifiesIff` | niosv_zephyr/zephyr_module/lib/unilibrsu/src/libRSU_cb.c:325-376 | comparing block by block over whole buffers is comparing with the image, and the agreement behind a short last block |
| `CbProgram.WholeTailAgrees` | niosv_zephyr/zephyr_module/lib/unilibrsu/src/libRSU_cb.c:325-376 | for data in whole blocks there is nothing to agree |
| `CbProgram.TailAgreesIff` | niosv_zephyr/zephyr_module/lib/unilibrsu/src/libRSU_cb.c:325-376 | otherwise: less than a block agrees if and only if the buffers happened to; else the last whole block decides, and if no signature block follows it must end as relocating leaves it |
| `CbFails.ProgramsUnverified` | niosv_zephyr/zephyr_module/lib/unilibrsu/src/libRSU_cb.c:117-376 | data of two blocks and four bytes that every partition with room for it takes and never verifies |
| `RsuProgram.ProgramCommon` | niosv_zephyr/zephyr_module/lib/unilibrsu/src/libRSU_cb.c:117-262 | one add to the boot order at most: refuses protected slots and slots in the boot order, streams the image in, makes the slot first in the boot order; only the slot and the CPB partitions change; wherever it stops, every acceptable copy has the old order or that with the slot in front, if no other slot lies between an erased entry and it; and wherever it stops, the slot holds the whole image or the boot order in flash is the old one |
| `RsuProgram.VerifyCommon` | niosv_zephyr/zephyr_module/lib/unilibrsu/src/libRSU_cb.c:264-376 | accepts exactly a slot that is in the boot order (unless raw) and holds the relocated image, with the same exception |
| `RsuMgmt.ChunkServed` | niosv_zephyr/zephyr_module/src/rsu_mgmt.c:134-160 | a chunk of the image, new or repeated, leaves the board with a prefix of it; it is taken exactly when there is something to append it to, and then covers its end |
| `RsuMgmt.RunHoldsPrefix` | niosv_zephyr/zephyr_module/src/rsu_mgmt.c:114-161 | in every run of chunks of one image the board holds a prefix of it |
| `RsuMgmt.ServedExactly` | niosv_zephyr/zephyr_module/src/rsu_mgmt.c:114-161 | the handler case by case: which requests are refused and what they leave, and that bytes taken stand at their offset with every other byte received as it was |
| `RsuMgmt.Mgmt.Upload` | niosv_zephyr/zephyr_module/src/rsu_mgmt.c:114-161 | the handler with its buffer and two counters serves a request as Served says |
| `RsuMgmt.EraseProgramVerify` | niosv_zephyr/zephyr_module/src/rsu_mgmt.c:190-210 | erase, program, verify: success means the slot holds the relocated image and is first in the boot order; without faults the number is that of the first step that cannot be done: 1 if and only if the slot cannot be erased, 2 if and only if it can and the data does not fit, is not accepted or cannot be put in the boot order, 3 only at a marker offset or behind a short last block; wherever it stops, no boot order in flash has a half-written slot; only the slot and the CPB partitions change |
| `RsuMgmt.DoneIff` | niosv_zephyr/zephyr_module/src/rsu_mgmt.c:193-214 | for data in whole blocks, without faults, the reply is step 0 if and only if the slot exists, is not protected, can be erased, takes the data and has an offset that is no marker value |
| `RsuMgmt.Mgmt.Program` | niosv_zephyr/zephyr_module/src/rsu_mgmt.c:163-220 | refuses exactly an incomplete image or a wrong CRC, keeps the buffer unless all three steps succeed, and on success the slot holds the uploaded image; without faults it does succeed if the slot can be erased and programmed with it and has no marker offset, for whole blocks, and the step replied is the one that cannot be done; wherever it stops, no boot order in flash has a half-written slot |
| `RsuMgmt.UploadImage` | niosv_zephyr/mcuboot/update_bitstream.py:187-194 | the offset strictly increases, and when the loop ends the board holds exactly the image, whatever was there before and whatever repeats arrive; it does end so if the RAM is up, the image is not too long and no repeated first chunk restarts the upload |
| `QspiDriver.PartialThenEffect` | niosv_zephyr/zephyr_module/drivers/flash/flash_axc3000_sdm_qspi.c:251-280 | repeating a command after any partial effect ends in the same flash as running it once |
| `QspiDriver.PartialTwice` | niosv_zephyr/zephyr_module/drivers/flash/flash_axc3000_sdm_qspi.c:251-280 | several partial attempts are one partial attempt |
| `QspiDriver.Driver.Retried` | niosv_zephyr/zephyr_module/drivers/flash/flash_axc3000_sdm_qspi.c:260-280 | a command has all of its effect or a partial one, and all of it if and only if fewer than three attempts are lost; each lost one had a fault, except a first one in a session the SDM had dropped |
| `QspiDriver.Driver.OpenFlash` | niosv_zephyr/zephyr_module/drivers/flash/flash_axc3000_sdm_qspi.c:211-249 | opens and selects the flash, or leaves it closed after a fault |
| `QspiDriver.Driver.Read` | niosv_zephyr/zephyr_module/drivers/flash/flash_axc3000_sdm_qspi.c:289-322 | any range of any alignment, in word-aligned commands of at most 1024 words: exactly those bytes; in range it fails if and only if one command loses all three attempts, whatever the others lose |
| `QspiDriver.Driver.Write` | niosv_zephyr/zephyr_module/drivers/flash/flash_axc3000_sdm_qspi.c:324-349 | whole words of any length: one flat program of exactly the range, or a torn one on failure |
| `QspiDriver.Driver.Erase` | niosv_zephyr/zephyr_module/drivers/flash/flash_axc3000_sdm_qspi.c:351-375 | whole pages: one flat erase of exactly the range, or a leading run of its pages on failure, by the sectors Greedy lists |
| `QspiDriver.GreedyTiles` | niosv_zephyr/zephyr_module/drivers/flash/flash_axc3000_sdm_qspi.c:359-371 | the sectors chosen are aligned and tile the range exactly |
| `QspiDriver.GreedyIsMinimal` | niosv_zephyr/zephyr_module/drivers/flash/flash_axc3000_sdm_qspi.c:359-371 | no tiling of the range by aligned 4, 32 and 64 KB sectors uses fewer commands |
| `AxiBridge.Registers.Drive` | niosv_zephyr/hw/hyperram_axi4lite_bridge.vhd:143-180 | the ports driven from the registers are those driven from the queue of half-selects |
| `AxiBridge.CommandPorts` | niosv_zephyr/hw/hyperram_axi4lite_bridge.vhd:143-180 | the first of data write, data read, instruction write and instruction read that asks and is not held back, and no other, is presented to the core with its address and told of acceptance exactly when the core is ready; a write is held back while another's data is outstanding, a read while the ring is full |
| `AxiBridge.DataPorts` | niosv_zephyr/hw/hyperram_axi4lite_bridge.vhd:220-249 | write data reaches the core as soon as the pending write's master offers it and is told so as soon as the core takes it; responses pass both ways between the core and their owner, with the half that the oldest read asked for |
| `AxiBridge.Registers.Clock` | niosv_zephyr/hw/hyperram_axi4lite_bridge.vhd:182-218 | the head, tail and count registers and the 16-entry ring behave as a queue, the write latch as an option |
| `AxiSystem.OneCommand` | niosv_zephyr/hw/hyperram_axi4lite_bridge.vhd:143-180 | at most one command changes hands in a clock, at the master that the arbiter chose, and only when the ring has room or no write data is outstanding |
| `AxiSystem.OneBeat` | niosv_zephyr/hw/hyperram_axi4lite_bridge.vhd:222-235 | write data is taken only from the master whose write is pending, into its half of the beat, with the other half strobed off |
| `AxiSystem.OneAnswer` | niosv_zephyr/hw/hyperram_axi4lite_bridge.vhd:237-249 | a response goes to the master that its tag names, with the half the oldest read asked for |
| `AxiSystem.ClockIsHandshakes` | niosv_zephyr/hw/hyperram_axi4lite_bridge.vhd:143-249 | a clock of bridge and core is its handshakes, one after the other |
| `AxiSystem.WordInBeat` | niosv_zephyr/hw/hyperram_axi4lite_bridge.vhd:232-249 | the word index of an address is its beat index and its bit 2 |
| `AxiSystem.ServeKeeps` | niosv_zephyr/hw/hyperram_axi4lite_bridge.vhd:143-249 | serving a command in the 64-bit core matches running it in the plain 32-bit memory |
| `AxiSystem.MastersSeePlainMemory` | niosv_zephyr/hw/hyperram_axi4lite_bridge.vhd:143-249 | in every state of every run: returned data are the answers of a plain 32-bit memory in acceptance order, owner by owner; the k-th write data belongs to the k-th accepted write; the ring neither overflows nor underflows |
| `AxiSystem.NeverStuck` | niosv_zephyr/hw/hyperram_axi4lite_bridge.vhd:143-249 | in every reachable state with something unfinished a step is possible that gets on with it, without a new request |
| `AxiSystem.RunsCanFinish` | niosv_zephyr/hw/hyperram_axi4lite_bridge.vhd:143-249 | from every state of every run all accepted commands can be finished, and then every one has been answered as by the plain memory |
| `SyncFifo.Fifo.Clock` | niosv_zephyr/hw/uart/sync_fifo.vhd:46-84 | the ring buffer is a bounded queue whose popped word is at the output the clock after |
| `Ring.Push` | niosv_zephyr/hw/uart/sync_fifo.vhd:56-71 | writing at the tail appends to the queue the ring holds |
| `Ring.Pop` | niosv_zephyr/hw/uart/sync_fifo.vhd:59-74 | the word at the head is the oldest, and moving the head removes it |
| `Uart.TxStep` | niosv_zephyr/hw/uart/uart_axi4lite.vhd:141-165 | one clock of the transmit side neither loses, repeats nor reorders a byte, and the popped byte finds the hold register free |
| `Uart.RxStep` | niosv_zephyr/hw/uart/uart_axi4lite.vhd:201-251 | one clock of the receive side neither loses, repeats nor reorders a byte that had room |
| `Uart.Transmitter.Clock` | niosv_zephyr/hw/uart/uart_axi4lite.vhd:141-165 | a byte written to DATA is lost if and only if the FIFO is full; bytes taken, then hold register, popped byte and FIFO, are the others in order |
| `Uart.Receiver.Clock` | niosv_zephyr/hw/uart/uart_axi4lite.vhd:201-264 | bytes returned by DATA reads, then the one in flight and the FIFO, are the received bytes that had room, in order; every other received byte is lost since the last clear, lost before, or unseen; a dropped byte moves the counter if and only if the clock does not clear it and it is not saturated |
| `Uart.Uart.Clock` | niosv_zephyr/hw/uart/uart_axi4lite.vhd:201-286 | both hold for the whole UART in every clock of every run; the read channel is that of the bus: a received byte leaves the FIFO exactly when a read of DATA is accepted, and each read is answered with what its own register shows |
| `Uart.ReadRegister` | niosv_zephyr/hw/uart/uart_axi4lite.vhd:186-251 | a read over two clocks, whatever else happens: DATA gives the oldest received byte or says that there is none; STATUS the free transmit places above and the received bytes below; ERRORS the framing errors above and the lost bytes below |
| `Uart.LoseUnseen` | niosv_zephyr/hw/uart/uart_axi4lite.vhd:253-262 | with any FIFO depth, a byte that arrives at a full FIFO in the clock of an ERRORS write is lost and no counter shows it |
| `PllReconfig.MaskAndShift` | niosv_zephyr/hw/hyperram_pll_reconfig.vhd:243-247 | the word read AND the complement of the mask, OR the phase shifted and masked, is the word with the new phase |
| `PllReconfig.WithPhaseIs` | niosv_zephyr/hw/hyperram_pll_reconfig.vhd:243-247 | the word written back has the requested phase and every other bit of the word read |
| `PllReconfig.Crossing.Clock` | niosv_zephyr/hw/hyperram_pll_reconfig.vhd:173-176 | every rise of the request line comes out as one edge with the phase that was at the port |
| `PllReconfig.Reconfig.Transact` | niosv_zephyr/hw/hyperram_pll_reconfig.vhd:203-256 | a bus transaction keeps AXI4-Lite's rules: each line is held until it is accepted, then taken back, and when all have been the response is waited for; a completed counter write changes only the phase, and the done line toggles exactly then |
| `PllReconfig.Reconfig.Clock` | niosv_zephyr/hw/hyperram_pll_reconfig.vhd:170-280 | while not held the newest request is never lost, every step is the next of the sequence, and the done line toggles exactly once per completed counter write |
| `PllReconfig.Reconfig.IdleMeansApplied` | niosv_zephyr/hw/hyperram_pll_reconfig.vhd:170-280 | idle with no request waiting: counter 1 has the newest request's phase and no other bit of it has changed |
| `PllReconfig.Reconfig.NothingBeforeLock` | niosv_zephyr/hw/hyperram_pll_reconfig.vhd:266-279 | nothing is presented on the bus before the PLL has locked |
| `PllReconfig.Reconfig.NothingBeforeEnabled` | niosv_zephyr/hw/hyperram_pll_reconfig.vhd:179-189 | until the slave has carried out the enabling write, nothing but that write is presented; counter 1 changes only after it |
| `SerialProtocol.RegisterFields` | source/fpga_communication/serial_protocol_generic_pkg.vhd:284-300 | the written register is its address and its data, big-endian |
| `SerialProtocol.HeardIsEncoded` | source/fpga_communication/serial_protocol_generic_pkg.vhd:313-350 | the command, address and data read from a received frame are those of the frame sent |
| `SerialProtocol.WaitRuns` | source/fpga_communication/serial_protocol_generic_pkg.vhd:145-152 | idle clocks only run down the timeout |
| `SerialProtocol.LongGapDropsFrame` | source/fpga_communication/serial_protocol_generic_pkg.vhd:145-152 | a gap of the timeout inside a frame drops it and synchronises the receiver |
| `SerialProtocol.FrameArrives` | source/fpga_communication/serial_protocol_generic_pkg.vhd:143-181 | one frame, its bytes spaced within the timeout, is announced once, as itself |
| `SerialProtocol.FramesArrive` | source/fpga_communication/serial_protocol_generic_pkg.vhd:143-181 | any sequence of read and write frames is heard as exactly that sequence and leaves the receiver synchronised |
| `SerialProtocol.FrameAfterTimeout` | source/fpga_communication/serial_protocol_generic_pkg.vhd:145-152 | whatever came before, a frame that begins after the timeout is heard |
| `SerialProtocol.StrayByteIff` | source/fpga_communication/serial_protocol_generic_pkg.vhd:154-178 | a stray byte that is a multiple of 8 makes the frame after it unheard if and only if that begins before the timeout |
| `SerialProtocol.FramesBecomeRequests` | source/fpga_communication/communications.vhd:64-119 | any sequence of read and write frames becomes exactly the bus reads and writes that the host meant |
| `SerialProtocol.ReplyDecodes` | test_uart.py:63-79 | the reply to a read decodes on the host to the register's 32-bit value |
| `SerialProtocol.Protocol.Receive` | source/fpga_communication/serial_protocol_generic_pkg.vhd:143-181 | the receive half of the clocked procedure is the step that the run lemmas are about |
| `SerialProtocol.Protocol.Transmit` | source/fpga_communication/serial_protocol_generic_pkg.vhd:132-141 | bytes handed to the transmitter, then those left in the buffer, are the reply; one byte per clock in which it can be taken |
| `SerialProtocol.Protocol.RespondToDataRequest` | source/fpga_communication/serial_protocol_generic_pkg.vhd:200-214 | a reply is its length and its words |
| `SerialProtocol.Communications.Clock` | source/fpga_communication/communications.vhd:64-119 | an announced frame becomes that request on the bus; a word from the bus becomes its reply frame |
| `FloatToFixed.StageShifts` | float_to_fixed.vhd:175-184 | splitting the shift over the stages loses nothing |
| `FloatToFixed.Pipeline.Clock` | float_to_fixed.vhd:195-209 | every register holds what the input of that many clocks ago has become |
| `FloatToFixed.PipelineConverts` | float_to_fixed.vhd:167-215 | each request comes out converted, whatever is requested before and after it |
| `FloatToFixed.ReadyIff` | float_to_fixed.vhd:195-215 | it says that it is ready exactly as many clocks after a request as there are stages |
| `FloatToFixed.TruncatedIsShift` | float_to_fixed.vhd:127-143 | where a right shift is needed, dropping the fraction's last bit loses nothing; where a left shift is needed, the number to reach is the whole significand shifted |
| `FloatToFixed.LeftShiftMissed` | float_to_fixed.vhd:167-215 | where a left shift is needed every depth is off by 2 to the 22 or more |
| `FloatToFixed.ExactIff` | float_to_fixed.vhd:167-215 | the result is the truncation of value times 2 to the radix if and only if no left shift is needed and the stages can do the whole right shift or empty the mantissa |
| `FloatToFixed.WithinOneIff` | float_to_fixed.vhd:172-173 | no conversion that needs a left shift is within one of the truncation; all others are if and only if the stages can together shift by at least 22 |
| `FloatToFixed.GoodDepths` | float_to_fixed.vhd:172-173 | those pipeline depths are 1, 2, 11, 22 and 23 |
| `FloatToFixed.TooFar` | float_to_fixed.vhd:172-173 | for every other depth, an input whose result is off by two or more |
| `FloatToFixed.OutOfRangeIsZero` | float_to_fixed.vhd:133-134 | zeros, subnormals and exponents above 200 convert to zero |

## Left out

- RsuOps.Database.LoadCpb: does not model the firmware's own report of a corrupted CPB nor restoring the CPB from
  it; the flag that records it stays false.
- RsuOps.Database.CheckSpt: does not model the truncation of unterminated names; names are NUL-terminated.
- RsuOps.Database.PartitionCreate: asks for a range that does not wrap the 64-bit address space.
- RsuOps.Database.PartitionRename: asks for a partition that is none of the four tables; its only caller gives
  it a slot. Renaming a table takes away a name that the next load asks for.
- RsuOps.Database.PartitionDelete: asks for a partition that is none of the four tables; its only caller gives
  it a slot.
- RsuBoot.Open: allocation, asking the firmware for the SPT addresses and closing again after a failure are
  left out.
- RsuSlots.Rsu.SlotCreate: does not model the search for free space; the caller's address is used, as in
  `rsu_slot_create`.
- RsuSlots.Rsu.SlotErase: error codes are collapsed to success or failure, here and in the whole library; which calls
  fail is modelled.
- FlashDev.Flash.Write: the windows that `may_write` checks in `rsu_plat_zephyr.c` are not modelled; being refused by
  them counts as one of the failures allowed.
- FlashDev.Flash.Erase: does not model those windows either.
- ImageTwice.RelocatingTwice: asks that both passes list the same sections, up to the last block. Where the first
  drops one because a vanished pointer holds the last place, the second looks at blocks that the first took for
  data, and what becomes of the image depends on their contents. It asks for a slot below 2 GB too; nothing can
  be programmed into a larger one.
- PllReconfig.Crossing.Clock: asks that the phase does not change in the clock after the request line rises, which
  is when the crossing samples it.
- AxiBridge.Registers.Clock: asks that no read response is taken while the ring is empty;
  `AxiSystem.MastersSeePlainMemory` shows that the system never does.
- Uart.Uart.Clock: does not model BIT_TIME, the interrupt conditions and the receive timeout; reading those
  registers returns an arbitrary value.
- SerialProtocol.Communications.Clock: does not model the stream commands; other headers are heard as no request.
- PllReconfig.Reconfig.Clock: asks for the same stable phase, and does not model a transaction that the slave
  completes after the machine has been held.
- Database's and `Pipeline`'s tables and stage registers are values in fields and array elements, not the
  source's buffers and records with addresses; nothing is claimed about aliasing of those buffers.
- Mailbox register polling, deadlines, mutexes, logging, allocation failure in the library and cache
  instructions: a mailbox command is one step that succeeds or fails after a partial effect.
- Protection.Configure: takes the lines of the configuration as words and numbers; splitting them is not modelled.
- Saving and restoring tables to files and buffers.
- `librsu_init`, `librsu_exit`, the status, notify, retry-counter and DCMF calls and reading a slot back to a
  buffer: each checks its argument and passes one mailbox command or one partition read on.
- `save_cpb_to_buf` right after a partition has been deleted: its cached partition number is refreshed by
  loading only.
- CBOR and SMP encoding, the asynchronous client, timeouts of the host: a request is served with its fields,
  and its reply arrives or the loop ends.
- Reset of the bridge while commands are in flight in the core; a run starts from reset.
- `uart_serial.vhd`, `hyperram_axi`, `fpga_interconnect`, the IOSSM bridge and the PLL itself: their behaviour
  is an assumption above.
- HyperRAM calibration, partial reconfiguration streaming, warm reboot and the JTAG UART rest on hardware
  timing or inline assembly.
- The FMA IP and the floating-point library beyond the converter.
