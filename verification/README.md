# Verified model of the Blue Pill self-updating bootloader

The firmware in `stm32/` turns a 64 KB STM32F103 board into a USB flashing target that can also replace its own
bootloader. This project models the parts of it that can destroy a board or corrupt data, and proves what they keep:

| file | models |
|---|---|
| `Platform.dfy`, `Flash.dfy` | memory map, little-endian words, the flash controller: erase a page, program a half-word |
| `Baseloader.dfy` | `baseloader_start`: the erase/program/verify copy loop, in preview and for real |
| `PageCache.dfy` | the one-page write-back cache in front of flash, and the millisecond tick |
| `Hf2Flashing.dfy` | `handle_flash_write`: staging a new image above the old application start, and detecting a changed bootloader |
| `Hf2Targets.dfy` | the same for any 32-bit target address: where its block goes, and which packets reach the running bootloader |
| `Hf2Safety.dfy` | exactly when a session leaves the running bootloader alone, for every image and whatever lies at the old application start |
| `Hf2Faults.dfy` | the same sessions on hardware that times out at any point |
| `Hf2Install.dfy` | sessions that install an application under an unchanged bootloader |
| `Update.dfy` | `baseloader_fetch` and `prepare_baseloader`; the end-to-end update, and the upgrade in two sessions |
| `Uf2Format.dfy`, `VirtualDisk.dfy`, `Uf2Writer.dfy` | UF2 blocks, the synthesised FAT16 volume, and the reception of UF2 files |
| `Hf2Framing.dfy`, `Msc.dfy`, `Dfu.dfy` | the USB transports: HF2 packets, Bulk-Only reads, DFU downloads and uploads |
| `Serial.dfy` | the interrupt-driven serial rings |

Each source file that works by changing variables is modelled twice. A function over values says what one call does
(`Start`, `Flush`, `HandleFlashWrite`, `Tx`, `Control`, ...). A class with the source's own fields does it in place, loop
for loop, and each of its methods is proved to take the class from the old value to the function's result. The theorems
are lemmas about the functions and about runs of them. The serial rings are the exception: their methods are specified
directly by the queues they implement, because interrupts come between the steps of one call.

## How the main ideas are modelled

*Flash* is 65536 bytes behind a controller. A script of busy-wait outcomes makes timeouts nondeterministic; an empty
script is fault-free hardware. A half-word is programmed only if it is erased, as the controller insists. Every
operation is logged, so that "programmed at most once, and only while erased" is a statement about the log.

*The copy loop's proof* rests on one bookkeeping invariant (`Primed`): either the page of the next cell is due for
erasing, or the rest of that page is erased. From it follow, whatever times out, confinement and discipline
(`CopyConfined`), that the verification never fails (`CopyExit`), and that each erase destroys only source already
consumed: a loop that ends as copied has moved the bytes (`CopyMoves`).

*The cache's view* is flash overlaid with the cached page. Writes change the view as plain byte writes would; flushes and
ticks never change it. All session theorems are about the view, and about flash after the last flush.

*A session* starts on a device with nothing cached and its own base vector table in place, and receives pages in address
order with any number of timer ticks before each. `Ready` adds that the hardware is fault-free and no reset is pending;
`Fresh` adds that no valid table lies at the old application start. Sizes are parameters: where the old application
starts, where the old baseloader ends, where in its page the base vector table lies (`Firmware`), and the whole image.

*The running bootloader's own table* is read from flash at every packet by the source; in the model its start is a
parameter. It decides something only when a session begins, while no table has been found, for pages that are staged or
start an update, or when the application start found is 0. Page 0 is still as it was whenever one of these is the case (`RunningTable` in `Ready`, `Settled` in `Hf2Safety`), except
over a left-over table that names address 0: there the statements about writing in place end with the page that brings
another table (`StartKept`). `SafeIff` needs no such proviso, because the first page that differs is written by then.

*Formats* (UF2 sectors, the boot block and directory, base vector tables, HF2 tags, command blocks and status wrappers) are
stated on bytes and literal codes, not through the functions that read and write them, so a field or a code at the wrong
place contradicts a lemma.

*Safety of sessions* has two forms. `Hf2Safety.SafeIff` is exact: it computes, from flash and the image, the first page
that a session may write over the running bootloader (`FirstDirect`), and proves that sessions of the image are safe, for
all lengths and ticks, if and only if the image agrees with the running bootloader from there on.
`Hf2Faults.SessionSafe` is for any hardware: a write-back that times out leaves the old page or the new one up to some
point, and erased from there; a table torn in this way is no table, so a session never acts on one.

## What turned out false, and exactly when it holds

- The copy loop's per-half-word comparison does not make it a move. Within flash and to a page boundary it is one, for
  all contents, if and only if the source starts at least a page above the destination or ends at or below it
  (`Baseloader.MoveIff`).
- A session can overwrite the running bootloader although the pages arrive in order. Without a table at the old
  application start this happens if the image's own table names a start below the second page boundary: pages from the
  sixth on, or from the one after the table on, are taken for application pages. Whenever some page from the sixth on
  tells image and bootloader apart, sessions are safe if and only if the image's table, if there is one, names two pages
  or more (`Hf2Safety.SafeIffTwoPages`); with no such proviso `Hf2Safety.SafeIff` gives the condition.
- A valid table left at the old application start is taken for the image's own (`Hf2Safety.StaleTableDecides`). If it
  names that start or more, every session is safe, on any hardware (`Hf2Faults.SessionSafe`). If it names the flash base
  or less, only images that agree with the whole bootloader are. In between, with room for the staging, a session is safe
  if and only if the image differs from the running bootloader below the start named or agrees with all of it
  (`Hf2Safety.StaleSafeIff`). An update to a bootloader of the same size leaves such a table, naming the right start
  (`Update.EqualSizeHarmless`).
- One packet can overwrite the running bootloader, even the first of a session. The shift that stages bootloader pages is
  added to every target below the new application start, before the address is checked, so a target as far below flash as
  the shift is long lands on the bootloader (`Hf2Targets.FirstPacketOverwrites`). In any state of a session, a packet
  can change the running bootloader if and only if the session is not waiting for an update, the packet does not start one,
  and its target is below the application start and in that stretch, or is not below it and in the bootloader
  (`Hf2Targets.ReachesIff`).
- An update over the table that an update to the same size left behind writes as much of the copier as the left-over
  table says, not as the image's own does. If no table lies behind the staging yet, the copier is found after the restart
  if and only if that length covers the table and fits (`Update.LeftoverFoundIff`). Where it covers the image's whole
  copier, the update completes (`Update.EndToEnd`, `Update.UpdateTwice`).
- `flash_write` stays inside its page buffer if and only if the write starts on a page boundary or lies in one page
  (`PageCache.ChunksFitIff`). The callers in the model are proved to meet this for the targets they take.
- The bounds of `flash_write` are strict and those of its callers inclusive: the last 256-byte block of flash is never
  written (`PageCache.LastBlockNeverWritten`), so copying a UF2 file to another device stops one block short
  (`Uf2Writer.CopyToAnotherDevice`).
- The address checks form sums of 32 bits. A UF2 block, or an HF2 page, at the very top of the address space passes them
  (`Uf2Writer.StrayBlockAccepted`, `Hf2Targets.StrayTargetsAccepted`). What they let through lies in flash if and only
  if the end does not wrap (`Uf2Writer.AcceptedIff`); for HF2 pages, whose alignment is not checked, the destination lies
  in flash and in the page buffer if and only if its end does not wrap and no flash page boundary is straddled
  (`Hf2Targets.AcceptedTargetIff`).
- The volume's file allocation table takes files that the volume does not: the clusters of CURRENT.UF2 all lie inside it
  if and only if flash has at most 7927 blocks of 256 bytes (`VirtualDisk.InsideVolumeIff`).
- HF2 messages whose length is a multiple of 63 never end; the framing round trip holds if and only if the length is not
  (`Hf2Framing.RoundTripIff`), and the next message is glued on (`Hf2Framing.UnfinishedIsGlued`).
- DFU programs whole half-words: what was written is the concatenation of the accepted blocks if and only if every
  block has even length (`Dfu.DownloadWritten`).
- READ(10) does not reset the current block. It starts at the right sector only because idle means block 0
  (`Msc.ReadTenTrustsIdle`).
- A response is sent from the buffer that receives the next message. A packet that arrives before it has all been sent
  leaves the rest intact if and only if the data received so far ends at or before the data still to be sent, or starts
  behind it (`Hf2Framing.RestIntactIff`).
- A command block that arrives in fragments draws a status wrapper for its first fragment, with the signature and tag of
  the last complete command, or zeroes before there was one (`Msc.FragmentDrawsStatus`).
- An ASYNC `read` takes one byte more than fits and drops it if, without further arrivals, more bytes waited than the
  caller's buffer holds, and only then (`Serial.SerialPort.Read`).
- A serial port whose transmit buffer size is 0 never finishes a SYNC_SPINWAIT `send`; the method requires room for one
  byte.

## Model

| member | source | states |
|---|---|---|
| FlashHardware.Flash.WaitForLastOperation | stm32/baseloader/baseloader.c:123-133 | a wait consumes one outcome of the hardware's script and reports a timeout exactly if that outcome is one; flash and log stay |
| FlashHardware.Flash.EraseFlashPage | stm32/baseloader/baseloader.c:175-198 | a page erase on mutable cells: 0, or -12 before or -13 after the erase took effect, with exactly the page blank and the operation logged |
| FlashHardware.Flash.ProgramFlashHalfWord | stm32/baseloader/baseloader.c:145-163 | programming one half-word: 0, -10 or -11; the cell changes only if it was erased, and nothing else does |
| FlashHardware.EraseOutcome | stm32/baseloader/baseloader.c:175-198 | by the outcomes of its two waits an erase ends with -12 and nothing done, with -13 and the page blank all the same, or with 0 and the page blank; nothing else changes |
| FlashHardware.ProgramOutcome | stm32/baseloader/baseloader.c:145-163 | likewise -10, -11 or 0 for a half-word: the cell takes the value exactly if it was erased, and no other cell changes |
| Baseloader.ProgramKeepsSource | stm32/baseloader/baseloader.c:332-340 | programming a blank cell with what an aligned source holds leaves that source as it was, even where they coincide |
| Baseloader.PrimedImage | stm32/baseloader/baseloader.c:324-344 | one iteration keeps the bookkeeping invariant, changes only the rest of its page, and ends with the cell holding what the source held after the erase |
| Baseloader.IterationConfined | stm32/baseloader/baseloader.c:324-340 | the same under any timeout, with the operations logged in between disciplined |
| Baseloader.CopyConfined | stm32/baseloader/baseloader.c:314-345 | every run of the loop, whatever times out: only the pages overlapping the destination change, each half-word is programmed at most once and only while erased, each page erased at most once |
| Baseloader.StartConfined | stm32/baseloader/baseloader.c:257-362 | the same of every real call on any hardware, for all parameters with even addresses, page-aligned or not |
| Baseloader.CopyExit | stm32/baseloader/baseloader.c:314-345 | whatever times out, the verification never fails: the loop ends with a timeout code, or as its bounds check alone decides; without timeouts always the latter |
| Baseloader.CopyMoves | stm32/baseloader/baseloader.c:314-345 | on any hardware: when no source byte lies between the first erased address and the page of its own destination, and the loop ends as copied, the destination ends up with the original source, overlapping or not |
| Baseloader.ReadsBack | stm32/baseloader/baseloader.c:324-344 | a cell already below the copy that is still to be read is read back as it is now, not as it was at first |
| Baseloader.SamePageCopyFails | stm32/baseloader/baseloader.c:324-337 | a source inside the page erased first reads erased bytes: zeros are not moved |
| Baseloader.UpwardCopyFails | stm32/baseloader/baseloader.c:333-342 | copying upwards over the end of the source repeats its beginning: a concrete image is not moved |
| Baseloader.MoveIff | stm32/baseloader/baseloader.c:314-345 | to a page-aligned destination, the copy is a move for every contents of flash if and only if the source starts a page or more above, or ends at or below, the destination |
| Baseloader.StartMoves | stm32/baseloader/baseloader.c:257-362 | on any hardware, a real call that reports success has moved all the bytes, to any even address, from RAM or from a source clear of the pages being erased |
| Baseloader.PreviewLoop | stm32/baseloader/baseloader.c:314-345 | a preview loop changes nothing and ends as the bounds check decides |
| Baseloader.PreviewPredicts | stm32/baseloader/baseloader.c:278-350 | for all parameters with even addresses a preview changes nothing, does not reset, and returns what the real call returns on fault-free hardware |
| Baseloader.PreviewMeansFits | stm32/baseloader/baseloader.c:278-350 | a positive preview result means the whole copy lies in flash and is its size |
| Baseloader.RefusedIff | stm32/baseloader/baseloader.c:278-308 | for all parameters with even addresses: exactly which call is refused with which of the codes -2 to -6, by 32-bit sums; a refused call leaves the chip as it was and returns |
| Baseloader.AcceptedIff | stm32/baseloader/baseloader.c:278-308 | without wrap-around a call is accepted if and only if destination and source lie in flash, or the source in RAM |
| Baseloader.ResetIff | stm32/baseloader/baseloader.c:348-361 | a call restarts the device if and only if it was asked to, was no preview, and ended with a count or a failed verification; all other results are the refusals and timeouts, which return |
| Baseloader.Copier.ValidatePara | stm32/baseloader/baseloader.c:278-308 | the checks on destination, source and size give the error codes -2 to -6 of the specification, or 0 |
| Baseloader.Copier.FlashHalfWord | stm32/baseloader/baseloader.c:324-340 | one pass over mutable flash is one iteration of the specification, including both timeouts |
| Baseloader.Copier.CopyHalfWords | stm32/baseloader/baseloader.c:314-345 | the loop over mutable flash ends in the chip and the way the specification gives, with the bytes counted |
| Baseloader.Copier.BaseloaderStart | stm32/baseloader/baseloader.c:257-362 | the whole call on mutable flash ends in the chip, result and reset the specification gives |
| PageCache.ChunksFitIff | stm32/bootloader/ghostfat.c:170-187 | every memcpy of the loop stays in the page buffer if and only if the write is page-aligned or lies in one page |
| PageCache.ProgramPageConfined | stm32/bootloader/ghostfat.c:128-138 | writing the buffer back changes nothing outside its page, even when the hardware times out |
| PageCache.ProgramPageStores | stm32/bootloader/ghostfat.c:128-138 | on fault-free hardware the page then holds exactly the buffer |
| PageCache.FlushConfined | stm32/bootloader/ghostfat.c:140-153 | a flush changes at most the cached page, under any hardware behaviour |
| PageCache.FlushKeepsView | stm32/bootloader/ghostfat.c:140-153 | a flush never changes the view, and after it flash equals the view |
| PageCache.WriteLoopView | stm32/bootloader/ghostfat.c:155-188 | a write changes the view exactly as writing its bytes directly would, from a buffer or from flash below what it touches |
| PageCache.WriteLoopAbove | stm32/bootloader/ghostfat.c:155-188 | a write at or above an address leaves flash below it alone, whatever the hardware does |
| PageCache.RunView | stm32/bootloader/ghostfat.c:140-206 | over any run of writes, flushes and ticks the view changes exactly as direct byte writes would change memory, up to a restart by the timer |
| PageCache.RunThenFlush | stm32/bootloader/ghostfat.c:140-206 | flushed at the end, flash itself holds that memory |
| PageCache.NoTimerNoRestart | stm32/bootloader/ghostfat.c:190-206 | with no reset timer armed every operation of a run is executed |
| PageCache.RestartIffDue | stm32/bootloader/ghostfat.c:140-206 | on any hardware a run restarts the device if and only if some tick finds the reset timer armed and run out: no write and no write-back does |
| PageCache.TickEffect | stm32/bootloader/ghostfat.c:194-206 | a tick moves the clock, and writes the page back exactly if the reset is due or more than 100 ms have passed since the last flush; it restarts exactly if the reset is due |
| PageCache.CleanNotWritten | stm32/bootloader/ghostfat.c:140-153 | a page that was not changed is not written back: the controller is left alone |
| PageCache.WriteRefused | stm32/bootloader/ghostfat.c:158-169 | a write whose destination, or source in flash, leaves the bounds changes nothing |
| PageCache.LastBlockNeverWritten | stm32/bootloader/ghostfat.c:158-169 | a 256-byte write that ends at the end of flash is dropped |
| PageCache.FlashCache.constructor | stm32/bootloader/ghostfat.c:116-126 | nothing is cached and no timer runs at first |
| PageCache.FlashCache.FlashFlush | stm32/bootloader/ghostfat.c:140-153 | the flush on mutable flash and buffer is the specification's, and its call of the copier does not restart the device |
| PageCache.FlashCache.SwitchTo | stm32/bootloader/ghostfat.c:175-179 | switching pages flushes the old one and loads the new one as flash then holds it |
| PageCache.FlashCache.CopyIn | stm32/bootloader/ghostfat.c:181-182 | the memcpy overlays the source's bytes at the offset and touches nothing else |
| PageCache.FlashCache.WriteToFlash | stm32/bootloader/ghostfat.c:155-188 | the page-by-page loop on the mutable cache is the specification's write |
| PageCache.FlashCache.TickMs | stm32/bootloader/ghostfat.c:194-206 | a tick with 32-bit wrap-around: restart when the reset is due, otherwise a flush after 100 ms |
| Hf2Flashing.TicksOnlyFlush | stm32/bootloader/ghostfat.c:194-206 | any number of ticks without a reset timer can only write the cached page back early |
| Hf2Flashing.TableLayout | stm32/baseloader/baseloader.h:14-28 | a base vector table is valid exactly if its 24 bytes begin and end with the two magic words; copier entry, copier end and application start are the words at 8, 12 and 16 |
| Hf2Flashing.SessionStarts | stm32/bootloader/hf2.c:246-265 | a page for the flash base starts over: application start and sizes are those the bootloader was linked with, or those of the table found |
| Hf2Flashing.StagePacket | stm32/bootloader/hf2.c:255-294 | a page below the application start found so far extends the copy of the image staged above the old application start, recognising the image's table once it has been flushed |
| Hf2Flashing.FirstAppPacket | stm32/bootloader/hf2.c:276-294 | the first application page flushes everything staged and takes the change decision on flash that holds the whole staged bootloader |
| Hf2Flashing.IdenticalMeansSameApp | stm32/bootloader/hf2.c:255-259 | a staged bootloader equal to the running one names the same application start |
| Hf2Flashing.NothingAfterChange | stm32/bootloader/hf2.c:246-294 | once a changed bootloader is detected, a packet for any 32-bit address but the flash base changes neither flash, cache nor session |
| Hf2Flashing.ChangeMeansHalted | stm32/bootloader/hf2.c:246-294 | the changed state is only ever entered together with the table that caused it |
| Hf2Flashing.SafePacket | stm32/bootloader/hf2.c:246-294 | a packet for any target at or above the old application start, aligned or not, never reaches the old bootloader, whatever the session's state and the hardware's behaviour |
| Hf2Flashing.SessionPhase | stm32/bootloader/hf2.c:246-294 | where an in-order session from a fresh device stands after any number of pages: staging, waiting for the update, or past the old application start; always safe |
| Hf2Flashing.HaltedRun | stm32/bootloader/hf2.c:246-294 | a halted session keeps its flash and stays halted while the host streams on, whatever the timer does |
| Hf2Flashing.ChangedSession | stm32/bootloader/hf2.c:271-333 | a changed bootloader streamed through its first application page, and any number of pages more, is wholly staged in flash with the copier behind it, and the session waits |
| Hf2Flashing.CopierWritten | stm32/bootloader/hf2.c:316-325 | behind a staged bootloader that differs, exactly the first bytes of it are written, as many as asked for if they fit and none otherwise |
| Hf2Targets.AcceptedTargetIff | stm32/bootloader/hf2.c:271-292 | of the destinations the checks let through, for all 32-bit targets and shifts, exactly those lie in flash and in the page buffer whose end does not wrap and that straddle no flash page |
| Hf2Targets.StrayTargetsAccepted | stm32/bootloader/hf2.c:285-292 | every target in the last 256 bytes of the address space passes all checks, and so does a straddling one |
| Hf2Targets.PacketEffect | stm32/bootloader/hf2.c:271-294 | in any state of a session, a packet for any 32-bit target that does not start an update leaves flash, once written back, as the view with the block at its destination, or as the view if that is not accepted or the session is waiting |
| Hf2Targets.UpdateEffect | stm32/bootloader/hf2.c:276-333 | the packet that starts an update leaves the running bootloader alone |
| Hf2Targets.ReachesIff | stm32/bootloader/hf2.c:246-294 | in any state of a session, and for any 32-bit target whose block stays in one page, some contents of the packet change the running bootloader if and only if the session is not waiting, the packet starts no update, and the target is below the application start and as far below flash as the shift is long, or is not below it and lies in the bootloader |
| Hf2Targets.FirstPacketOverwrites | stm32/bootloader/hf2.c:271-292 | the first packet of a session can overwrite the running bootloader: any 256-byte aligned target in the stretch below flash that the shift brings onto it |
| Hf2Safety.StaleStagePacket | stm32/bootloader/hf2.c:255-294 | over a table that was there first, pages below the start it names are staged, whatever the image's own table says |
| Hf2Safety.StaleFirstApp | stm32/bootloader/hf2.c:276-294 | at the start it names, everything staged is flushed and compared over the length it gives |
| Hf2Safety.AbovePacket | stm32/bootloader/hf2.c:246-294 | a page at or above the old application start never changes the view below it, even with a page of the old bootloader still cached |
| Hf2Safety.DirectPacket | stm32/bootloader/hf2.c:271-294 | once pages are taken for application pages, each goes to its own address over the running bootloader, whatever the timer does, and the tables the session reads stay in place unless the page brings another |
| Hf2Safety.StaleTableDecides | stm32/bootloader/hf2.c:255-292 | a valid table already at the old application start alone decides whether the first page is staged or written over the flash base |
| Hf2Safety.SessionBelow | stm32/bootloader/hf2.c:246-294 | below the old application start, a session over a table that was there, or with an image of less than two pages, is staging, halted, or writing in place from a page on that is known beforehand; over a table that names address 0, up to the page that brings another table |
| Hf2Safety.KeptSession | stm32/bootloader/hf2.c:246-294 | if the image agrees with the running bootloader from that page on, the view below the old application start never changes |
| Hf2Safety.OverwrittenFrom | stm32/bootloader/hf2.c:246-294 | with suitable ticks, that view is the old bootloader below that page and the image from it on, for any number of pages; over a table that names address 0, up to the page that brings another table |
| Hf2Safety.Overwrites | stm32/bootloader/hf2.c:246-294 | so any image that disagrees from that page on is unsafe, as soon as the first byte that differs has arrived |
| Hf2Safety.SafeIff | stm32/bootloader/hf2.c:246-294 | for every image and whatever is at the old application start: sessions are safe for all lengths and ticks if and only if the image agrees with the running bootloader from the first page on that may be written in place |
| Hf2Safety.SafeIffTwoPages | stm32/bootloader/hf2.c:246-294 | without a table there, and with any page from the sixth on that differs: if and only if the image's table, if any, names two pages or more |
| Hf2Safety.StaleSafeIff | stm32/bootloader/hf2.c:255-292 | over a table that names a start between the flash base and the old application start: if and only if the image differs below that start or agrees with the whole bootloader |
| Hf2Faults.TornLoop | stm32/baseloader/baseloader.c:314-345 | wherever the copy of a page stops, the page is the buffer up to there and erased from there |
| Hf2Faults.ProgramPageTorn | stm32/bootloader/ghostfat.c:128-138 | whatever times out, writing a page back leaves the old page, or the buffer up to some point and erased from there |
| Hf2Faults.PossibleValid | stm32/baseloader/baseloader.h:57-66 | a valid table found where staging goes is the image's own, whole: torn tables are no tables |
| Hf2Faults.FaultWrite | stm32/bootloader/hf2.c:271-294 | staging the next block keeps this, whatever the write-back of the page before comes to |
| Hf2Faults.FaultCompares | stm32/bootloader/hf2.c:306-314 | if the comparison finds no difference, on any hardware, the image names the old application start |
| Hf2Faults.FaultSession | stm32/bootloader/hf2.c:246-294 | on any hardware a session below the old application start is staging or halted, never writing in place |
| Hf2Faults.SessionSafe | stm32/bootloader/hf2.c:246-294 | in every in-order session of an image of any length, with any ticks and any timeouts, neither flash nor view below the old application start ever changes, if the table at the old application start, or else the image's own, allows it |
| Hf2Install.UnchangedInstalls | stm32/bootloader/hf2.c:271-294 | with the bootloader unchanged, and no table at the application start or one that names it, after each application page the view holds the image's application so far over the remains of the staging |
| Hf2Install.UnchangedSession | stm32/bootloader/hf2.c:162-165 | after the stream of an image with the running bootloader and the flush before the restart, the application region is exactly the image's and the bootloader is as before |
| Hf2Flashing.FlashSession.constructor | stm32/bootloader/hf2.c:240-243 | no session has started |
| Hf2Flashing.FlashSession.Compare | stm32/bootloader/hf2.c:306-308 | the byte-by-byte comparison finds a difference exactly if there is one |
| Hf2Flashing.FlashSession.HandleBootloaderUpdate | stm32/bootloader/hf2.c:298-333 | on mutable flash: the copier is written behind the staged bootloader and flushed exactly if the bootloaders differ |
| Hf2Flashing.FlashSession.FindVector | stm32/bootloader/hf2.c:246-265 | the session variables after (re)initialisation and recognition are the specification's |
| Hf2Flashing.FlashSession.HandleFlashWritePacket | stm32/bootloader/hf2.c:217-296 | one packet, for any 32-bit target whose block stays in one page, on the mutable session is one step of the specification |
| Hf2Flashing.FlashSession.WriteIfValid | stm32/bootloader/hf2.c:285-293 | the block is written through the mutable cache if the address check passes, and nothing happens otherwise |
| Update.NeverErasesUnlessFits | stm32/bootloader/bootloader.c:111-148 | for any flash contents and any hardware, flash changes only if the preview passed, and then the whole copy fits |
| Update.FetchIff | stm32/baseloader/baseloader.c:364-402 | exactly when the fetch fails, with -2, -3 or -4, and what it finds otherwise, with all sums of 32 bits and flash also visible at address 0 |
| Update.PrepareExits | stm32/bootloader/bootloader.c:111-148 | nothing is run exactly if nothing was found or the copier's entry is null; what is run is the copy found, with a restart asked for |
| Update.CopierSurvives | stm32/baseloader/baseloader.c:379-400 | for any flash contents and any hardware, every erase and program of the update lies below the flash base plus the size fetched |
| Update.CopierKept | stm32/baseloader/baseloader.c:379-400 | on any hardware, the copier that is run lies behind the staged bootloader, at or above the end of everything the update touches, and flash from there on stays as it was |
| Update.FetchFinds | stm32/baseloader/baseloader.c:364-402 | from the flash contents alone the fetch finds exactly the flash base, the old application start, the new size and the staged copier's address |
| Update.CopyDown | stm32/bootloader/bootloader.c:111-148 | on any hardware the update run that follows restarts the device exactly if it reports success, and then it reports the new size and the flash base holds the image's bootloader, byte for byte; everything above stays as staged, and without timeouts it does restart |
| Update.LeftoverSession | stm32/bootloader/hf2.c:255-333 | over a left-over table that names the application start, a changed bootloader of that size is staged whole, and behind it as much of the copier as that table says, if it fits |
| Update.LeftoverFoundIff | stm32/bootloader/hf2.c:255-333 | with no table behind the staging yet, the copier is then found from flash if and only if the left-over table's length covers the table and fits |
| Update.EndToEnd | stm32/bootloader/hf2.c:162-333 | streaming an image with a different bootloader that fits, in order through its first application page or any number of pages more, over no left-over table or one that names the start, then flush, fetch, preview and a copy in which anything may time out: the device restarts exactly if the copy reports success, and then the first B bytes of flash equal the image's, byte for byte; without timeouts it does |
| Update.EqualSizeHarmless | stm32/baseloader/baseloader.c:348 | an update to the same size leaves the staged table in place; it names the new application start and the length of the image's own copier |
| Update.UpgradedBoots | stm32/bootloader/hf2.c:162-333 | what the restart after an update runs is the image's bootloader with its own table, over the remains of the staging |
| Update.UpgradeThenInstall | stm32/bootloader/hf2.c:162-333 | the whole upgrade: update, a copy that restarts the device, and the same image sent again leave flash equal to the image, byte for byte, bootloader and application, as far as it was sent |
| Update.UpdateTwice | stm32/bootloader/hf2.c:162-333 | two updates in a row to bootloaders of the same size: the second completes too, byte for byte, if the copier length of the first covers all of the second's copier and fits |
| Update.UpdatePossible | stm32/bootloader/hf2.c:217-333 | a concrete device and concrete images meet all hypotheses of the update and of the unchanged session, so those theorems are not empty |
| Update.UpgradePossible | stm32/bootloader/hf2.c:217-333 | and those of the upgrade in two sessions |
| Update.LeftoverPossible | stm32/bootloader/hf2.c:217-333 | and those of an update over a left-over table |
| Update.Bootloader.ReadTable | stm32/baseloader/baseloader.h:57-66 | the table read field by field from mutable flash is the one in the page |
| Update.Bootloader.BaseloaderFetch | stm32/baseloader/baseloader.c:364-402 | the fetch on mutable flash: found parameters or the codes -2 to -4, as specified, changing nothing |
| Update.Bootloader.PrepareBaseloader | stm32/bootloader/bootloader.c:72-155 | fetch, preview and real run on mutable flash end in the chip, the decision and the reset of the specification |
| Uf2Format.DecodeEncode | stm32/bootloader/uf2.h:32-48 | every field of every UF2 block survives the trip through the bytes of a sector |
| Uf2Format.ForeignIff | stm32/bootloader/uf2.h:14-80 | the tests for a UF2 block and its family are those on the sector's bytes: the three magic words, and with flag 0x2000 the family 0x5ee21072 |
| VirtualDisk.BootGeometry | stm32/bootloader/ghostfat.c:97-114 | the boot block's own fields give the sector layout that read_block follows, and the number of sectors |
| VirtualDisk.BootBytes | stm32/bootloader/ghostfat.c:97-114 | the whole boot sector byte for byte, with the signature at its end |
| VirtualDisk.Directory | stm32/bootloader/ghostfat.c:243-256 | the root directory holds the volume label, three plain files and nothing else |
| VirtualDisk.TextFileContents | stm32/bootloader/ghostfat.c:257-260 | each text file as a driver reads it: from the entry's name, start cluster and size, through the boot block's geometry, to exactly the text that belongs to the name |
| VirtualDisk.OtherClusters | stm32/bootloader/ghostfat.c:232-242 | the table's reserved entries are in place, and every entry behind the UF2 file is free |
| VirtualDisk.UnusedSectors | stm32/bootloader/ghostfat.c:218-279 | the rest of the root directory and the sectors behind the UF2 file read as zeros |
| VirtualDisk.NextIsEntry | stm32/bootloader/ghostfat.c:227-242 | an entry read back from the table's sectors, across sector boundaries, is the intended link |
| VirtualDisk.CopiesAgree | stm32/bootloader/ghostfat.c:227-242 | both copies of the allocation table are the same |
| VirtualDisk.ChainFrom | stm32/bootloader/ghostfat.c:238-242 | from its k-th cluster on, the UF2 file is exactly the remaining clusters in order |
| VirtualDisk.CurrentUf2Chain | stm32/bootloader/ghostfat.c:227-256 | from the directory entry's start cluster the table visits exactly size/512 clusters in order and ends, however long one follows, for any flash whose file fits |
| VirtualDisk.TextFileChains | stm32/bootloader/ghostfat.c:232-256 | the text files are one cluster each, disjoint from the UF2 file's chain |
| VirtualDisk.ClusterIsBlock | stm32/bootloader/ghostfat.c:257-275 | the sector of the k-th cluster, found with the boot block's geometry, holds, byte for byte, the valid UF2 block k of flash/256 with the k-th 256 bytes of flash and their address, no flags, and zeros |
| VirtualDisk.InsideVolumeIff | stm32/bootloader/ghostfat.c:97-114 | the file's clusters all lie below the volume's total sectors if and only if flash has at most 7927 blocks |
| VirtualDisk.CopyInto | stm32/bootloader/ghostfat.c:273 | copying into a sector buffer overlays exactly the copied bytes |
| VirtualDisk.FillFatSector | stm32/bootloader/ghostfat.c:232-242 | the two loops over an allocation table sector leave exactly the specified sector |
| VirtualDisk.FillSector | stm32/bootloader/ghostfat.c:218-279 | filling a buffer in place gives the specified sector for every 32-bit sector number, with the byte offset of a block wrapping as in C |
| Uf2Writer.SetBitAddsOne | stm32/bootloader/ghostfat.c:314-321 | setting a clear bit of the bitmap adds exactly that block to the blocks seen |
| Uf2Writer.CountKeepsCounter | stm32/bootloader/ghostfat.c:305-332 | every block keeps the counter equal to the number of set bits and adds at most its own number |
| Uf2Writer.StreamState | stm32/bootloader/ghostfat.c:305-332 | after any stream of one file's blocks the bits set are exactly the numbers that came |
| Uf2Writer.CompleteIffAllSeen | stm32/bootloader/ghostfat.c:305-336 | in any order and with any repeats, the last block arms the short reset timer if and only if every block of the file has been seen |
| Uf2Writer.InconsistentPoisons | stm32/bootloader/ghostfat.c:308-313 | a block that disagrees about the file's length, or announces one too large, poisons the state |
| Uf2Writer.PoisonIsForever | stm32/bootloader/ghostfat.c:307-336 | a poisoned state stays poisoned and never completes, whatever follows |
| Uf2Writer.ForeignIgnored | stm32/bootloader/ghostfat.c:288-290 | a sector that is no UF2 block for this chip, by its bytes, changes nothing: it is not written, not counted, and does not touch the timer |
| Uf2Writer.SectorWritten | stm32/bootloader/ghostfat.c:281-303 | every other sector's payload is stored in the view at its address if flag 1 is clear, it has at most 256 bytes on a 256-byte boundary, and lies in the application's part of flash short of its end, and is dropped otherwise |
| Uf2Writer.SectorCounted | stm32/bootloader/ghostfat.c:305-336 | and every one is counted, by the words at 20 and 24: the number is marked, the length remembered or poisoned, and the reset due in 30 ms exactly if as many blocks are marked as the file has, in 500 ms otherwise |
| Uf2Writer.CommentCounted | stm32/bootloader/ghostfat.c:292-332 | a block with flag 1 is counted but never written |
| Uf2Writer.SectorStored | stm32/bootloader/ghostfat.c:281-303 | one sector of the file replaces its 256 bytes in the view if it is an application block other than the last of flash, and nothing otherwise |
| Uf2Writer.FileReplacesBlocks | stm32/bootloader/ghostfat.c:281-346 | fed a file read from any device, in any order with any repeats, foreign sectors and ticks, the view becomes that device's memory in exactly the writable blocks that arrived |
| Uf2Writer.CopyToAnotherDevice | stm32/bootloader/ghostfat.c:257-303 | when every block arrived, flushed flash equals the source byte for byte in the application region up to the last block, and is untouched elsewhere |
| Uf2Writer.AllGoing | stm32/bootloader/ghostfat.c:190-206 | as long as the host pauses for less than the delay the last sector set, every sector and tick is handled and the reset timer is exactly as far away as that sector says |
| Uf2Writer.WholeFileInstalls | stm32/bootloader/ghostfat.c:190-346 | a whole file sent in any order with any repeats, foreign sectors in between and with such pauses: thirty milliseconds after the last block the device restarts, with flash already equal to the source in the application region up to the last block |
| Uf2Writer.AcceptedIff | stm32/bootloader/ghostfat.c:292-302 | what the checks let through lies in flash if and only if its end does not wrap |
| Uf2Writer.StrayBlockAccepted | stm32/bootloader/ghostfat.c:158-169 | a block for the last 256 bytes of the address space passes every check |
| Uf2Writer.OwnFileChangesNothing | stm32/bootloader/ghostfat.c:257-303 | fed its own file in any order with any repeats, foreign sectors and ticks, a device erases and programs nothing, on any hardware |
| Uf2Writer.Uf2Receiver.MarkBlock | stm32/bootloader/ghostfat.c:315-321 | the bit is set and counted exactly if it was clear, in the mutable bitmap |
| Uf2Writer.Uf2Receiver.CountBlock | stm32/bootloader/ghostfat.c:305-332 | the mutable counting is the specification's, with its report of completion |
| Uf2Writer.Uf2Receiver.WriteSector | stm32/bootloader/ghostfat.c:281-346 | one sector on the mutable receiver: the test for a block of ours, write, count and timer as specified |
| Hf2Framing.MessageReceived | stm32/bootloader/hf2.c:335-372 | the packets of a message are delivered as that message, whole and once, with the buffer empty again, unless its length is a multiple of 63, when all bytes arrive and stay in the buffer |
| Hf2Framing.RoundTripIff | stm32/bootloader/hf2.c:440-482 | the round trip holds if and only if the length is not a multiple of 63 |
| Hf2Framing.UnfinishedIsGlued | stm32/bootloader/hf2.c:360-371 | a message without a last packet is glued to the front of the next one |
| Hf2Framing.NeverOverruns | stm32/bootloader/hf2.c:356-362 | a message that fits never overruns the buffer, at any point of its reception |
| Hf2Framing.RestIntactIff | stm32/bootloader/hf2.c:360-405 | a packet received while a response is being sent leaves the rest of it intact, whatever it carries, if and only if what was received ends by the start of that rest or starts behind its end |
| Hf2Framing.TagSent | stm32/bootloader/hf2.c:440-462 | the byte a packet begins with is 0x40 and the size for the last of a message and the plain size otherwise; the data and zeros follow |
| Hf2Framing.TagReceived | stm32/bootloader/hf2.c:356-372 | a packet with a tag below 0x40 is kept, one from 0x40 to 0x7F delivers, and one from 0x80 on drops; the low six bits are the size |
| Hf2Framing.Sender.PokeSend | stm32/bootloader/hf2.c:440-482 | the next packet goes on the wire and exactly the rest of the message remains |
| Hf2Framing.Sender.SendResponse | stm32/bootloader/hf2.c:398-405 | the first packet of a response goes out and the rest remains for the callback |
| Hf2Framing.Sender.TxCallback | stm32/bootloader/hf2.c:374-396 | one more packet; a requested restart happens once, and only when nothing remains |
| Hf2Framing.Sender.SendWhole | stm32/bootloader/hf2.c:374-405 | driven to the end with nothing received in between, the callbacks put exactly the message's packets on the wire, before any restart |
| Hf2Framing.Receptor.DataReceived | stm32/bootloader/hf2.c:335-372 | one packet into the mutable buffer is one step of the receiver |
| Msc.DataInSends | stm32/bootloader/msc.c:809-827 | each data packet is the next stretch of the data still due |
| Msc.DataInAdvances | stm32/bootloader/msc.c:809-827 | and leaves the rest due, unchanged |
| Msc.DataInFetches | stm32/bootloader/msc.c:811-821 | each sector is fetched with its first packet and then no more |
| Msc.DrainCompletes | stm32/bootloader/msc.c:798-861 | whatever a transfer still owes is sent in order, then one status wrapper, then the transport is idle; each sector due is fetched once, in order |
| Msc.StatusAcknowledged | stm32/bootloader/msc.c:848-858 | after the status wrapper the transmit callback sends nothing and returns to idle |
| Msc.ReadSixServed | stm32/bootloader/msc.c:263-861 | the same for READ(6), code 0x08: address in bytes 17 and 18, count in byte 19 |
| Msc.ReadTenServed | stm32/bootloader/msc.c:324-861 | for every READ(10), code 0x28, on the wire: the packets concatenate to exactly the sectors from the big-endian address in bytes 17 to 20, as many as bytes 22 and 23 say, each fetched once in order; one wrapper with the tag and success follows, then idle |
| Msc.OtherServed | stm32/bootloader/msc.c:575-645 | every other code outside the write side: 03, 12, 1A, 23 and 25 are answered with their reply, 00, 1D and 1E with success alone, and all others fail, each with one status wrapper, then idle |
| Msc.ServeAll | stm32/bootloader/msc.c:848-858 | idle is restored by every session of commands |
| Msc.ReadTenTrustsIdle | stm32/bootloader/msc.c:324-343 | READ(10) first fetches the requested sector plus the left-over current block, READ(6) the requested sector |
| Msc.FragmentDrawsStatus | stm32/bootloader/msc.c:662-697 | the first fragment of a command block draws a status wrapper before the command is complete, with the signature, tag and residue of the last complete command, all zero if there was none, and its status unless the code now in the buffer is unknown |
| Msc.MassStorage.SendData | stm32/bootloader/msc.c:809-827 | the next data packet and fetch on the mutable transaction, as specified |
| Msc.MassStorage.SettleStatus | stm32/bootloader/msc.c:829-840 | the block counter is rewound at the end of a block transfer and the status settled once |
| Msc.MassStorage.SendStatus | stm32/bootloader/msc.c:828-860 | the status packet, and after it the return to idle, as specified |
| Msc.MassStorage.TxCallback | stm32/bootloader/msc.c:798-861 | one transmit callback on the mutable transaction is one step of the specification |
| Msc.MassStorage.StartStatus | stm32/bootloader/msc.c:579-590 | every complete command sets signature, tag and the default status, as specified |
| Msc.MassStorage.StartCommand | stm32/bootloader/msc.c:575-645 | the dispatch on the operation code sets the transaction up as specified |
| Msc.MassStorage.StartRead6 | stm32/bootloader/msc.c:263-283 | address, count and size of READ(6), with the current block reset |
| Msc.MassStorage.StartRead10 | stm32/bootloader/msc.c:324-343 | address, count and size of READ(10), with the current block left as it is |
| Msc.MassStorage.RxCallback | stm32/bootloader/msc.c:650-795 | a packet received while idle on the mutable transaction is one step of the specification |
| Dfu.ControlKeepsInv | stm32/bootloader/dfu.c:130-276 | every class request keeps: dfuERROR exactly when the status is not OK; the program calls are the accepted blocks in order, each once, each at the base plus everything before it; the offset is their total |
| Dfu.CompleteKeepsInv | stm32/bootloader/dfu.c:88-128 | every completion callback keeps it too, whatever programming and manifestation report |
| Dfu.RunKeepsInv | stm32/bootloader/dfu.c:58-276 | so it holds in every reachable state, for any sequence of requests and completions |
| Dfu.ManifestOnlyValidated | stm32/bootloader/dfu.c:159-168 | manifestation is entered only from manifest-sync by a status request that found a valid application |
| Dfu.DownloadWritten | stm32/bootloader/dfu.c:97-117 | after a download each block was programmed once, and what was written is the blocks' concatenation, contiguous in flash, if and only if all have even length |
| Dfu.DownloadProgramsHost | stm32/bootloader/dfu.c:97-218 | from dfuIDLE, for every list of blocks the host sends, each with its status request and programming, and the end of the download: the device waits to manifest, with one program call for each block, in order and contiguous; what was written is what the host sent if and only if all blocks are even |
| Dfu.DownloadByState | stm32/bootloader/dfu.c:188-261 | DNLOAD without data stalls in dfuIDLE and ends the download in dfuDNLOAD-IDLE; DNLOAD and UPLOAD do nothing in the other states |
| Dfu.OtherRequests | stm32/bootloader/dfu.c:183-276 | ABORT by state, CLRSTATUS, and the stall of everything else |
| Dfu.StatusReported | stm32/bootloader/dfu.c:138-182 | GETSTATE and GETSTATUS report the state and status held afterwards; what GETSTATUS starts, by state |
| Dfu.FailuresReported | stm32/bootloader/dfu.c:97-128 | failed programming and a missing manifest callback end in the error state with their status |
| Dfu.UploadStep | stm32/bootloader/dfu.c:237-261 | one upload request returns the next bytes, as many as asked for or left, and goes idle exactly if that is fewer |
| Dfu.UploadsSlices | stm32/bootloader/dfu.c:237-261 | for any request lengths the slices concatenate to a stretch of the firmware area, the offset never passes its end, and only the last slice is short, exactly when the image is exhausted and the state returns to idle |
| Dfu.DfuDevice.constructor | stm32/bootloader/dfu.c:289-298 | the device starts idle with status OK |
| Dfu.DfuDevice.SetDfuStatus | stm32/bootloader/dfu.c:71-86 | the status change with its effect on the state |
| Dfu.DfuDevice.Accept | stm32/bootloader/dfu.c:193-195 | a block is copied into the download buffer whole |
| Dfu.DfuDevice.DownloadRequest | stm32/bootloader/dfu.c:188-218 | DNLOAD by state, as specified |
| Dfu.DfuDevice.UploadRequest | stm32/bootloader/dfu.c:237-261 | UPLOAD by state, as specified |
| Dfu.DfuDevice.GetStatusRequest | stm32/bootloader/dfu.c:147-182 | GETSTATUS with its state changes, as specified |
| Dfu.DfuDevice.ControlRequest | stm32/bootloader/dfu.c:130-276 | one request on the mutable device is one step of the specification |
| Dfu.DfuDevice.CompleteTransfer | stm32/bootloader/dfu.c:88-128 | the pending callback on the mutable device is one step of the specification |
| Serial.PushIsEnqueue | stm32/cm/CmSerial.cpp:110-116 | storing a byte appends it to the waiting bytes exactly when the ring is not full, and changes nothing otherwise; the look-ahead test is the test for full |
| Serial.PopIsDequeue | stm32/cm/CmSerial.cpp:341-343 | advancing the tail removes the oldest byte |
| Serial.HeadIsEnd | stm32/cm/CmSerial.cpp:735-745 | walking up from the tail meets the head after exactly the waiting bytes, not earlier |
| Serial.DistanceBack | stm32/cm/CmSerial.cpp:780-781 | the distance computed from two positions, across wrap-around, is the number of steps between them |
| Serial.DropMany | stm32/cm/CmSerial.cpp:790 | moving the tail on by k drops the k oldest bytes |
| Serial.ReadsArePrefix | stm32/cm/CmSerial.cpp:86-130 | in any interleaving of receive interrupts and reads, the bytes read are a prefix, in order, of the bytes accepted, and at most the capacity is missing |
| Serial.LostIffFull | stm32/cm/CmSerial.cpp:110-129 | an arriving byte is lost if and only if the ring holds its whole capacity |
| Serial.SerialPort.constructor | stm32/cm/CmSerial.cpp:59-78 | empty rings with exactly the requested capacities |
| Serial.SerialPort.DataReceived | stm32/cm/CmSerial.cpp:86-130 | the receive interrupt on the mutable ring enqueues, or loses the byte when full |
| Serial.SerialPort.GetChar | stm32/cm/CmSerial.cpp:324-346 | the oldest byte is taken, or none if none waits |
| Serial.SerialPort.ReadChars | stm32/cm/CmSerial.cpp:648-655 | the loop of read fills the buffer with the next bytes in order, until it is full or nothing waits, and leaves the rest of it alone |
| Serial.SerialPort.Read | stm32/cm/CmSerial.cpp:628-681 | with interrupts between its steps the buffer receives the next bytes in order; one more is taken and lost only on a full buffer, and without arrivals exactly if more waited than fitted |
| Serial.SerialPort.CircularCopy | stm32/cm/CmSerial.cpp:364-374 | across wrap-around and while bytes arrive, exactly the d oldest waiting bytes are copied |
| Serial.SerialPort.LookAt | stm32/cm/CmSerial.cpp:737-744 | one step of the search keeps: at most the last byte looked at is a delimiter, and its position is known |
| Serial.SerialPort.Scan | stm32/cm/CmSerial.cpp:734-745 | the search finds the first waiting delimiter, or none although it looked at all that wait |
| Serial.SerialPort.TakeUpTo | stm32/cm/CmSerial.cpp:778-790 | the bytes before the delimiter are copied out, across wrap-around, and the tail moves past it |
| Serial.SerialPort.ReadUntil | stm32/cm/CmSerial.cpp:713-799 | exactly the bytes before the first waiting delimiter are returned and the delimiter is consumed; without one nothing is taken |
| Serial.SerialPort.DataWritten | stm32/cm/CmSerial.cpp:138-159 | the oldest byte goes on the wire; the interrupt detaches exactly when that empties the ring |
| Serial.SerialPort.SetTxInterrupt | stm32/cm/CmSerial.cpp:176-199 | while the transmitter drains, a prefix of the caller's bytes is queued in order, short only if the ring was full, and the interrupt is attached |
| Serial.SerialPort.SpinUntilSent | stm32/cm/CmSerial.cpp:293-300 | with the interrupt attached whenever something waits, everything waiting is on the wire, in order, when it returns |
| Serial.SerialPort.Send | stm32/cm/CmSerial.cpp:481-515 | SYNC_SPINWAIT puts the whole buffer on the wire, in order and once, however much longer than the ring it is; ASYNC queues a prefix, short only for lack of room |

## Left out

- Flash registers, lock and unlock, interrupt masking, stack and vector table switching, barriers and the reset itself: a controller that erases and programs, and a reset flag, stand for them. `DESIG_FLASH_SIZE` above 512 KB (the second flash bank) does not arise on this part.
- A load from an address that is neither flash nor RAM reads 0 in the model; the hardware faults. No theorem depends on the value: the checks on the source exclude such addresses for all bytes copied.
- What `baseloader_start` leaves in `base_para.fail`, `debug_base_result`, the `firstFlush` and `hadWrite` flags and all debug output: written, but never read by the logic.
- `prepare_baseloader` prepares a temporary vector table in the page buffer and calls the staged copier by address. The model does not show the table, and takes the staged copier to behave as `baseloader_start` does; that its bytes are the image's is proved (`Update.FetchFinds`, `Hf2Flashing.ChangedSession`), what those bytes compute is not. A copier address that is not in the image's copied part is outside `Update.EndToEnd`.
- Power failure during the copy.
- PageCache.FlashCache.WriteToFlash: requires a write that is aligned or in one page, since others overrun the page buffer (`PageCache.ChunksFitIff`), and sums that do not exceed 32 bits; the callers in the model meet both.
- Uf2Writer.Uf2Receiver.WriteSector: not for blocks that are to be written and end at the very top of the address space; that the source accepts them is proved (`Uf2Writer.StrayBlockAccepted`), what it then reads and writes outside flash is not modelled.
- Uf2Writer.CopyToAnotherDevice: assumes that no restart cuts the run short; `Uf2Writer.WholeFileInstalls` derives it from the host's pauses.
- Baseloader.StartConfined: for even addresses, as are `Baseloader.PreviewPredicts` and the other statements about whole calls; at an odd one the source forms a half-word pointer that is not aligned, which the processor may refuse.
- Hf2Flashing.FlashSession.HandleFlashWritePacket: not for blocks that the checks accept although they straddle a flash page or end at the very top of the address space; that these are accepted is proved (`Hf2Targets.AcceptedTargetIff`), what a write outside flash or past the page buffer would do is not modelled. Nor for a first application page outside flash, where the comparison would read beyond it.
- Hf2Targets.ReachesIff: on fault-free hardware, and with the running bootloader's own table as it was linked. Sessions with targets out of order are covered packet by packet only.
- Hf2Safety.SessionBelow: over a left-over table that names address 0, only up to the page that brings another table of its own, as are `Hf2Safety.OverwrittenFrom` and what follows from them; from there on the source looks for a table somewhere else.
- Hf2Flashing.SessionPhase: for devices without a table at the old application start; `Hf2Safety.SessionBelow` and `Hf2Faults.SessionSafe` treat the others. `Hf2Flashing.StagePacket` and `Hf2Flashing.FirstAppPacket` have the counterparts `Hf2Safety.StaleStagePacket` and `Hf2Safety.StaleFirstApp`.
- Hf2Safety.SafeIff: on fault-free hardware and for pages in address order from the flash base. That a reset timer armed by a UF2 transfer may be running is excluded (`Ready`).
- Update.EndToEnd: for devices without a table at the old application start, or with one that names it as the image does. Over other left-over tables an update can end in anything `Hf2Safety.SafeIff` allows.
- Update.LeftoverFoundIff: for a left-over copier length of at most the bootloader's, as an update leaves it.
- Hf2Install.UnchangedSession: for bootloaders of less than half of flash, as the staged copy must fit, and for images ending below the last 256-byte block.
- The link addresses of the running bootloader are parameters, with the application on a page boundary as the linker script places it, at least two pages below and above it, and the base vector table inside one 256-byte block of page 0.
- The other HF2 commands (information, reading words, restarts) are table look-ups and requests for a restart; HF2 serial packets are separate from command packets.
- Hf2Framing.Sender.SendWhole: the rest of a response is a value here. In the source it lies in the buffer that receives the next message, and a command handled before it has all been sent replaces it; `Hf2Framing.RestIntactIff` says which packets leave it intact.
- Hf2Framing.RoundTripIff: packets as their 64 bytes; the assertions on malformed packets, which stop the device, are not modelled.
- The virtual disk's reads come from flash of any size; the boot block's constants are fixed by the configuration. The volume's unused sectors read as zeros.
- The write side of the mass storage transport: status goes out after the first data packet, so no transport statement holds there. Sense data is not modelled, and the contents of inquiry, sense, capacity and mode replies are a parameter.
- Msc.MassStorage.RxCallback: for packets received while idle; during the data and status phases a conforming host sends nothing. Command blocks in fragments are covered up to the first fragment only.
- The DFU class leaves to its caller what `validate_application` and the flash programming routine report, since `boot_target_*` is not part of this model; DETACH and other requests stall as in the source.
- Dfu.UploadStep: an upload that resumes with the offset beyond the maximum size cannot be reached and is excluded.
- Serial.SerialPort.constructor: for requested sizes below 255. The type of the size fields is not part of this model; in 8 bits a size of 255 would wrap to a ring of no places.
- Serial: bytes to and from the hardware are a parameter and a record of the wire, as `getc` and `putc` are stubbed in the source. SYNC_SLEEP modes, SYNC_SPINWAIT reads, head-match and delimiter events and lazy allocation depend on the scheduler and are not modelled.
- Serial.SerialPort.SpinUntilSent: takes the attached transmit interrupt to fire at least once between two polls; without that the source spins for ever.
- Serial.SerialPort.Send: receive interrupts change nothing it reads or writes and are not interleaved with it; likewise transmit interrupts and `Serial.SerialPort.Read`.
- USB descriptors, WebUSB, CDC and callback registration; GPIO, I2C, SPI, timers, sensors, display and logger: tables, drivers and plumbing.
