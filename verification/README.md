# Touch-controller firmware update and boot-image tools: a Dafny model

The project models four parts of the repository and proves what they promise.

* **Flash updater** (`docs/vendor-touch-ssd20xx/ssd20xx_mx25v100.c`). `Nor` is the serial NOR chip: programming can
  only clear bits and wraps inside a page, erasing sets ones, a command is obeyed only by an idle chip whose write
  latch is set and whose protection is off. `Framing` is the frame that carries a command to it. `SeepromBus` is the bus:
  any transfer may fail at any time, and an unacknowledged command may or may not have reached the chip. The choices
  are arbitrary, so every contract holds for every pattern of failures. `SeepromCommands`, `SeepromAccess`,
  `SeepromUpdate` and `SeepromSession` are the driver's loops and its nested retries, `VersionWords` and `Boot` the
  check at boot; `ProtectionRemoval` and `LostCommands` say what goes wrong around the unlocking status write;
  `Sections` says what the memory should be afterwards; `Trace` is the history of commands. `FirmwareTable` applies the results to the layout that ships.
* **Firmware file** (`ssd20xx_upgrade.c`). `ImageFormat` is the line-oriented state machine, `ImageParser` the loops that
  compute it, `ImageProofs` and `ImagePrinter` its invariant and round trip, `Checksum` and `Versions` the checksum and
  the update decision, `FileUpdate` the way from a file to the flash.
* **Run-time state** (`ssd20xx.c`). `RawQueue` is the frame ring with producer and consumer interleaved cell by cell,
  `Contacts` and `Keys` the bookkeeping that must agree with the events sent.
* **Boot image tools** (`scripts/`). `BootImage` packs an Android boot image (version 0 header) and patches its command
  line.

## Assumptions about the hardware

* An acknowledged command has reached the chip. While busy the chip ignores every command but a status read, and any
  other read returns arbitrary bytes. It may become idle between any two transfers.
* The driver's busy wait reports success even when its 5000 polls run out. `overrun` records that this happened with
  the chip still busy since the update began, which takes 5000 acknowledged status reads in a row; results that need commands to be obeyed say `!overrun`. `blind` records
  that a read-back begun on a busy chip was accepted, which takes an overrun; results that rest on the read-back alone
  say `!blind`. Both are cleared when an update begins.
* `faults` counts failed transfers. Updates start with an idle chip whose geometry is the one its identifier stands for.

## Results worth knowing

* The driver reads the status after removing protection and ignores it, so its first command can meet a chip that is
  still busy with that status write and lose it (`LostCommands.LostExactlyIfBusy`). Every command after a wait is
  obeyed, and a retry that is lost repeats one that was not, so no more than that can be missing in the end.
* A whole-chip update that reports success leaves exactly the image if one of its passes started on a blank chip, also
  after failed earlier passes. If the first erase was lost, that pass leaves the AND of the old cells with the image; it
  is accepted exactly if this holds every section, and is the image exactly if the old cells had all its bits
  (`LostCommands.LostEraseOutcome`). If it is refused, and fewer than three transfers failed, the next pass starts
  blank. From an idle chip the erase is never lost.
* An update section by section that reports success leaves exactly the memory of its list, or that memory with the first
  section's first erase, or its first page program if it erases nothing, left out. A lost erase is that of one sector;
  the sectors behind it are erased.
* As long as no wait gives up, fewer than three failed transfers cannot make an update fail that got past the removal of
  protection: a whole-chip update if the image holds every section, an update section by section if every section can be
  verified in its turn, given the first command as it went. That mode never repeats a pass, so on a busy chip it can
  fail without any failed transfer (`LostCommands.FailureWithoutFault`, `LostCommands.FailureOnBlankCell`); it is
  certain not to under exactly the condition of `LostCommands.SuccessCertainIff`.
* That the sections are in flash rests on the read-back alone.
* In the section-by-section mode the error that sends the updater back to the start also ends it: one pass.
* A run that gives up before the update can leave the chip unprotected exactly if it put the unlocking status write on
  the bus, whether that write's acknowledgement or the status read behind it failed
  (`ProtectionRemoval.LeftUnprotectedIff`); every run that gets further ends with an attempt to set the protection again.
* A firmware file whose last text line reaches the end of the data loses that line: the round trip holds exactly for
  files with a section, or whose flag is the default.
* Two versions replace each other for ever in exactly the sentinel cases that `Versions.ReplaceEachOther` lists.
* A key report that releases several keys sends at most one release, for the lowest key reported;
  `Keys.ReleasesExactIff` says exactly when that is right.
* A release after a report that left a held contact out may do nothing; `Contacts.ReleaseFreesIff` says when, by what
  that report lists.
* The packer keeps the announced size of a second stage without copying one (`BootImage.CompleteIffNoSecondStage`).

The comments above the two protection functions in `ssd20xx_mx25v100.c` (lines 632-640 and 665-673) describe each other;
the model follows the code.

## Model

| member | source | states |
|---|---|---|
| Nor.ProgramIsAndWrite | docs/vendor-touch-ssd20xx/ssd20xx_mx25v100.c:330-358 | a page program that stays in its page equals the abstract AND-write and touches nothing else |
| Nor.RetrySafety | docs/vendor-touch-ssd20xx/ssd20xx_mx25v100.c:998-1018 | after any number of aborted attempts every cell keeps the bits the data needs; one complete attempt then leaves exactly the data |
| Nor.ClearedCompletes | docs/vendor-touch-ssd20xx/ssd20xx_mx25v100.c:998-1006 | however many attempts it took, once every wanted bit is cleared the memory is that of one complete write |
| PageSplit.ChunksStayInPage | docs/vendor-touch-ssd20xx/ssd20xx_mx25v100.c:836-909 | for any page size, start and length no emitted program is empty or crosses a page boundary |
| PageSplit.ChunksPartition | docs/vendor-touch-ssd20xx/ssd20xx_mx25v100.c:836-909 | the programs are contiguous from the start address and their data concatenates to the buffer |
| PageSplit.SplitIsAndWrite | docs/vendor-touch-ssd20xx/ssd20xx_mx25v100.c:836-909 | obeying the programs one after the other on the wrapping chip equals one AND-write of the whole buffer |
| PageSplit.WriterSplitsIff | docs/vendor-touch-ssd20xx/ssd20xx_mx25v100.c:853-909 | the writer's chunks are this split if and only if an unaligned start is followed by at least the rest of its page; otherwise it sends one chunk that runs over the end of the buffer |
| PageSplit.ShortWriteOverruns | docs/vendor-touch-ssd20xx/ssd20xx_mx25v100.c:853-859 | ten bytes for address 0x1C0 make it send sixty-four |
| Framing.BuildFrame | docs/vendor-touch-ssd20xx/ssd20xx_mx25v100.c:87-125 | the 1024-byte buffer, filled byte by byte, begins with 0x0A, the two lengths low byte first, zeros in every other place of the header, and the payload |
| Framing.UnframeFrame | docs/vendor-touch-ssd20xx/ssd20xx_mx25v100.c:136-196 | the controller's decoder recovers payload and read length from the frame |
| Framing.LiteralCommands | docs/vendor-touch-ssd20xx/ssd20xx_mx25v100.c:295-465 | the opcode byte of each command, and addresses with the high byte first |
| Framing.DecodeEncode | docs/vendor-touch-ssd20xx/ssd20xx_mx25v100.c:295-465 | the flash's decoder recovers opcode, data and the address modulo 2^24 |
| Framing.FrameCarriesCommand | docs/vendor-touch-ssd20xx/ssd20xx_mx25v100.c:87-125 | header, opcode, big-endian address and data survive both encodings together |
| Trace.GuardedCommands | docs/vendor-touch-ssd20xx/ssd20xx_mx25v100.c:379-404 | in every history the device can have, a latched command stands right behind an acknowledged write-enable, and a program or erase behind an acknowledged removal of protection with no status write in between |
| Trace.UnlockedSince | docs/vendor-touch-ssd20xx/ssd20xx_mx25v100.c:673-696 | an unlocked history has an acknowledged unlocking status write with none after it |
| Trace.EndsWithAttempt | docs/vendor-touch-ssd20xx/ssd20xx_mx25v100.c:640-663 | a history that ends reprotecting ends with a refused write-enable or the protecting status write, but for status reads |
| SeepromBus.Device.MasterSend | docs/vendor-touch-ssd20xx/ssd20xx_mx25v100.c:117-122 | a send appends its command to a guarded history; acknowledged it was carried out, otherwise perhaps |
| SeepromBus.EnabledCommand | docs/vendor-touch-ssd20xx/ssd20xx_mx25v100.c:504-521 | write-enable and a modifying command leave the old memory or the commanded one, and the latter for a ready chip that acknowledged both or is now busy |
| SeepromCommands.WaitBsyclr | docs/vendor-touch-ssd20xx/ssd20xx_mx25v100.c:474-494 | sends status reads only, at least one and at most 5000, all acknowledged on success; success means that the last one showed bits 0 and 1 clear or that exactly 5000 were sent, and it passes for a wait that gave up only then; nothing is changed |
| SeepromCommands.EraseSector | docs/vendor-touch-ssd20xx/ssd20xx_mx25v100.c:504-548 | memory as before or with exactly that sector blank; blank for a ready chip on success |
| SeepromCommands.EraseChip | docs/vendor-touch-ssd20xx/ssd20xx_mx25v100.c:557-604 | memory as before or all ones; all ones for a ready chip on success, which takes exactly one acknowledged chip erase |
| SeepromCommands.DisableProtect | docs/vendor-touch-ssd20xx/ssd20xx_mx25v100.c:673-696 | success on an idle chip leaves it unprotected and returns the status the driver ignores; in every case the transfers sent, and a chip that is one of the states they can lead to |
| SeepromCommands.EnableProtect | docs/vendor-touch-ssd20xx/ssd20xx_mx25v100.c:640-663 | always ends the history with an attempt to protect; success on an idle chip leaves it protected |
| SeepromAccess.EraseNsector | docs/vendor-touch-ssd20xx/ssd20xx_mx25v100.c:615-630 | only the run of sectors is touched, its first sector as a whole or not at all; success on an unprotected chip leaves every sector behind the first blank, and the first as well unless the chip was busy with something else |
| SeepromAccess.WriteNbyte | docs/vendor-touch-ssd20xx/ssd20xx_mx25v100.c:749-909 | sends exactly the programs of the page split, in order, a prefix of them on failure; memory only ever gets closer to the data, the first page program as a whole or not at all; success on an unprotected chip clears every wanted bit behind the first program, and all of them unless the chip was busy with something else |
| SeepromAccess.WriteShort | docs/vendor-touch-ssd20xx/ssd20xx_mx25v100.c:853-859 | data that ends before the rest of its page is sent with unknown bytes behind it: those are ANDed into the rest of the page, and the data itself is in flash if and only if the cells had its bits |
| SeepromAccess.ReadNbyte | docs/vendor-touch-ssd20xx/ssd20xx_mx25v100.c:708-737 | success on an idle chip returns exactly the bytes at the address, across read-length chunks |
| SeepromAccess.Verify | docs/vendor-touch-ssd20xx/ssd20xx_mx25v100.c:919-960 | with its reads acknowledged by an idle chip it succeeds if and only if the flash holds the content |
| SeepromUpdate.EraseWithRetry | docs/vendor-touch-ssd20xx/ssd20xx_mx25v100.c:985-996 | success on an unprotected chip is exactly the erased run, or the run without its first sector, which takes a chip busy at first; failure took exactly three failed transfers |
| SeepromUpdate.WriteWithRetry | docs/vendor-touch-ssd20xx/ssd20xx_mx25v100.c:998-1009 | success on an unprotected chip is exactly one complete write, whatever attempts failed before, or that write without its first page program, which takes a chip busy at first; failure took exactly three failed transfers |
| SeepromUpdate.VerifyWithRetry | docs/vendor-touch-ssd20xx/ssd20xx_mx25v100.c:1011-1018 | success means the section is in flash, unless a read-back of a busy chip was accepted; a section in flash is refused only after three failed transfers |
| SeepromUpdate.UpdateBySection | docs/vendor-touch-ssd20xx/ssd20xx_mx25v100.c:971-1022 | bytes outside the section's sectors and range are never changed; success puts the section in flash and on any unprotected chip leaves exactly the step with or without its first command; a failure leaves an idle chip or took three failed transfers, and took three if that memory holds the section |
| SeepromUpdate.UpdatePass | docs/vendor-touch-ssd20xx/ssd20xx_mx25v100.c:1049-1063 | one pass: frame; all sections in flash when none disturbs an earlier one; on any unprotected chip exactly the memory of the list, with the first command obeyed or lost; with fewer than three failed transfers it succeeds if and only if every section is held when its turn comes; for a whole chip, even a failed pass leaves unchanged what one more pass would end as |
| SeepromUpdate.FirmwareUpdate | docs/vendor-touch-ssd20xx/ssd20xx_mx25v100.c:1024-1069 | over every failure pattern, from any unprotected chip, busy or idle: success of a whole-chip update leaves exactly the image if a pass started blank and otherwise the AND of the old cells with the image; section by section exactly the memory of the list with the first command obeyed or, from a busy chip, lost; fewer than three failed transfers cannot make it fail if what the run met can hold every section; at most three passes, each behind an acknowledged chip erase of its own, one of them started blank if there was more than one and fewer than three transfers failed; an update that gives up made three passes or ends in an erase that failed three times; one pass section by section; a wait that gave up shows as 5000 acknowledged status reads in this run's history |
| Sections.SectionsInFlash | docs/vendor-touch-ssd20xx/ssd20xx_mx25v100.c:971-1022 | separate sections that were blank in time all end up in flash; other bytes are as before, or blank where a section erased |
| Sections.ImageOfDisjointSections | docs/vendor-touch-ssd20xx/ssd20xx_mx25v100.c:1024-1069 | for pairwise disjoint sections the image holds each at its address and 0xFF everywhere else |
| Sections.StepMeaning | docs/vendor-touch-ssd20xx/ssd20xx_mx25v100.c:971-1009 | one section byte by byte, from its address, length, content and number of sectors alone |
| Sections.UpdateIsAnd | docs/vendor-touch-ssd20xx/ssd20xx_mx25v100.c:1051-1060 | without erasing, updating any memory is the byte-wise AND with the image |
| Sections.CompletesIffAbove | docs/vendor-touch-ssd20xx/ssd20xx_mx25v100.c:1032-1063 | a pass without erasing ends as the image if and only if the cells still have every bit of the image |
| Sections.PartKeepsUpdate | docs/vendor-touch-ssd20xx/ssd20xx_mx25v100.c:998-1018 | whatever part of a section is written, the memory that a later pass ends with stays the same |
| Sections.HeldIsFeasible | docs/vendor-touch-ssd20xx/ssd20xx_mx25v100.c:1032-1063 | if a pass would end with every section in flash, each can be verified as soon as it is written |
| Sections.UnerasedPassFeasibleIff | docs/vendor-touch-ssd20xx/ssd20xx_mx25v100.c:1049-1063 | for separate sections, a pass over cells that were not erased verifies every section if and only if the AND of the old cells with the image holds them all |
| Sections.PreparedIsFeasible | docs/vendor-touch-ssd20xx/ssd20xx_mx25v100.c:983-1018 | section by section, erased-in-time and undisturbed sections can each be programmed in turn |
| FirmwareTable.ShippedIsSeparate | docs/vendor-touch-ssd20xx/ssd20xx_upgrade.h:4914-4916 | no shipped section writes or erases what an earlier one wrote, in either mode |
| FirmwareTable.ShippedIsPrepared | docs/vendor-touch-ssd20xx/ssd20xx_upgrade.h:44-45 | every shipped byte is erased in time; the section at 0x1C0, with no erase of its own, by the one at 0 |
| FirmwareTable.ShippedFits | docs/vendor-touch-ssd20xx/ssd20xx_upgrade.h:4259-4260 | the shipped sections lie inside the chip and never send past their buffer, for page sizes 32 and 256 |
| FirmwareTable.ShippedIsDeliverable | docs/vendor-touch-ssd20xx/ssd20xx_mx25v100.c:1024-1069 | so the fault-tolerance result applies to the shipped firmware in both modes, whatever the chip held, unless its first command is lost |
| FirmwareTable.ShippedAfterLossIff | docs/vendor-touch-ssd20xx/ssd20xx_upgrade.h:44-45 | if it is lost section by section, the update succeeds if and only if the old cells have the bits of the two sections in the first sector |
| SeepromSession.DownloadInitialize | docs/vendor-touch-ssd20xx/ssd20xx_mx25v100.c:1286-1335 | reading the identifier of an idle chip selects the geometry it has |
| SeepromSession.ChipLiterals | docs/vendor-touch-ssd20xx/ssd20xx_mx25v100.c:15-16 | the identifier with 32-byte pages, and the bytes of the two status writes |
| SeepromSession.SeepromFirmwareUpdate | docs/vendor-touch-ssd20xx/ssd20xx_mx25v100.c:1346-1371 | the bracket: past the removal of protection this run's own history ends with an attempt to restore it, and otherwise which transfers were sent and what they can leave; success gives the exact final memory in both modes, whatever the ignored status showed; a whole-chip update ends as the image if and only if a pass started blank or the old cells had its bits; sections in flash; a protected chip if the attempt was acknowledged and fewer than three transfers failed; a run that stops early had a failed transfer, and a wait that gave up shows as 5000 acknowledged status reads in this run's history |
| ProtectionRemoval.LeftUnprotectedIff | docs/vendor-touch-ssd20xx/ssd20xx_mx25v100.c:1346-1363 | a run that gives up before the update can leave an idle protected chip unprotected, with no attempt to restore it, if and only if the unlocking status write was put on the bus |
| ProtectionRemoval.LostAcknowledgement | docs/vendor-touch-ssd20xx/ssd20xx_mx25v100.c:685-688 | one such input: the acknowledgement of that write is lost |
| ProtectionRemoval.FailedStatusRead | docs/vendor-touch-ssd20xx/ssd20xx_mx25v100.c:690-693 | the other: the status read behind it fails |
| LostCommands.CommandCertainIffReady | docs/vendor-touch-ssd20xx/ssd20xx_mx25v100.c:690-695 | an acknowledged erase or program that changes cells is certain to be obeyed if and only if the ignored status shows an idle, unprotected chip |
| LostCommands.LostExactlyIfBusy | docs/vendor-touch-ssd20xx/ssd20xx_mx25v100.c:695-1036 | an acknowledged command is lost if and only if the unprotected chip was still busy when the write-enable came |
| LostCommands.LostCommand | docs/vendor-touch-ssd20xx/ssd20xx_mx25v100.c:695-1036 | a chip still busy with the status write can lose an acknowledged command and be ready for the next |
| LostCommands.LostEraseOutcome | docs/vendor-touch-ssd20xx/ssd20xx_mx25v100.c:1031-1063 | the pass of a whole-chip update that lost its erase this way is accepted if and only if the AND of old cells and image holds every section, and ends as the image if and only if the old cells have its bits |
| LostCommands.NextEraseObeyed | docs/vendor-touch-ssd20xx/ssd20xx_mx25v100.c:1031-1063 | if that pass is refused, the idle chip obeys the erase of the next, which starts blank |
| LostCommands.AcceptedWithoutImage | docs/vendor-touch-ssd20xx/ssd20xx_mx25v100.c:1031-1063 | the input on which such a pass is accepted although the chip does not hold the image |
| Sections.SectionAfterLossIff | docs/vendor-touch-ssd20xx/ssd20xx_mx25v100.c:983-1018 | a section whose first command was lost is verified if and only if the old cells have its bits wherever no later sector of its run is erased or, if it erases nothing, equal its first page program and have its bits in the rest |
| Sections.FeasibleFromIff | docs/vendor-touch-ssd20xx/ssd20xx_mx25v100.c:983-1018 | for separate sections and any chip, with the first command obeyed or lost, every section is verified in its turn if and only if each byte has what it needs in the old cells or is erased in time |
| LostCommands.CoveredAfterLossIff | docs/vendor-touch-ssd20xx/ssd20xx_mx25v100.c:983-1018 | a section covered by its own run survives the loss if and only if the old cells have its bits in the first sector |
| LostCommands.SuccessCertainIff | docs/vendor-touch-ssd20xx/ssd20xx_mx25v100.c:971-1063 | without a failed transfer an update section by section is certain to succeed if and only if every byte is supported both with the first command obeyed and, on a busy chip, with it lost |
| LostCommands.FailureWithoutFault | docs/vendor-touch-ssd20xx/ssd20xx_mx25v100.c:983-1018 | the input on which a lost erase makes an update section by section fail although no transfer did |
| LostCommands.FailureOnBlankCell | docs/vendor-touch-ssd20xx/ssd20xx_mx25v100.c:998-1018 | the input on which a lost page program does, although the cell has every bit it needs |
| VersionWords.ReadVersionWord | docs/vendor-touch-ssd20xx/ssd20xx_mx25v100.c:1136-1153 | success on an idle chip is the little-endian word at the address; failure took exactly four failed attempts |
| VersionWords.VersionBytes | docs/vendor-touch-ssd20xx/ssd20xx_mx25v100.c:18-24 | which bytes of the section each of the six words is, least significant first |
| VersionWords.BlankIsUpdated | docs/vendor-touch-ssd20xx/ssd20xx_upgrade.c:803-805 | a blank chip reads as an erased version, which every header with a display version replaces |
| VersionWords.ReadVersionAll | docs/vendor-touch-ssd20xx/ssd20xx_mx25v100.c:1235-1277 | success gives the six version words of the configuration section at 0x1C0 |
| Boot.FlashedHeaderIsCurrent | docs/vendor-touch-ssd20xx/ssd20xx_upgrade.c:650-738 | a flash that holds the table's sections carries the header's versions and needs no update |
| Boot.PreBootUpCheck | docs/vendor-touch-ssd20xx/ssd20xx_upgrade.c:958-1005 | an update is asked for if and only if one of bits 8 to 11 of the boot flag, the checksum flag, a forced image or the version decision does; it is begun, and the history grows, if and only if one of the three initialisation attempts succeeds; what it leaves in flash, protection and history; the checksum flag is cleared exactly if no boot flag came first |
| Boot.HeldVersion | docs/vendor-touch-ssd20xx/ssd20xx_upgrade.c:650-738 | a flash that holds separate sections covering the version words carries the words those sections put there |
| Boot.NextBoot | docs/vendor-touch-ssd20xx/ssd20xx_mx25v100.c:1235-1277 | a boot on a flash that holds the sections reads the words they carry, and without error flags has nothing to do if and only if they do not ask for the header's version |
| Boot.UpdateAndReboot | docs/vendor-touch-ssd20xx/ssd20xx_upgrade.c:958-1035 | boot convergence for any header: if an update is wanted and the initialisation succeeds, no transfer fails and no wait runs out of polls, the next boot reads the words the sections carry, and without error flags has nothing to do if and only if they do not ask for the header's version, with every section in flash; the same of any begun update that reports success |
| Boot.TableHeaderIsFlashed | docs/vendor-touch-ssd20xx/ssd20xx_upgrade.c:650-738 | the header made from the driver's table carries the words that its sections put into the flash |
| Boot.UpdateTableAndReboot | docs/vendor-touch-ssd20xx/ssd20xx_upgrade.c:958-1035 | so after a wanted update from the table without failed transfers the next boot without error flags has nothing to do, and the flash holds the nine sections |
| Versions.NeverReplacesItself | docs/vendor-touch-ssd20xx/ssd20xx_upgrade.c:780-867 | the update relation is irreflexive for all values |
| Versions.DecisionIff | docs/vendor-touch-ssd20xx/ssd20xx_upgrade.c:803-861 | the whole decision for all versions: erased display, factory hidden version on one side only, zero display, or older for the same target |
| Versions.VersionlessIsUpdated | docs/vendor-touch-ssd20xx/ssd20xx_upgrade.c:803-837 | a device with an erased or zero display version is updated by every header that has another one, whatever the target |
| Versions.PlainDecision | docs/vendor-touch-ssd20xx/ssd20xx_upgrade.c:780-867 | without sentinels: update if and only if same product and IC and lexicographically older |
| Versions.ReplaceEachOther | docs/vendor-touch-ssd20xx/ssd20xx_upgrade.c:803-861 | exactly which pairs of versions replace each other for ever |
| Versions.InstalledRises | docs/vendor-touch-ssd20xx/ssd20xx_upgrade.c:780-867 | over any sequence of offers the installed version strictly rises, keeps its target and ends at a newest offer |
| Versions.InstalledWasOffered | docs/vendor-touch-ssd20xx/ssd20xx_upgrade.c:780-867 | only the first version and offered ones are ever installed |
| Checksum.FwCalcChecksum | docs/vendor-touch-ssd20xx/ssd20xx_upgrade.c:144-170 | the lower half of the result is the 16-bit sum of the byte pairs, the upper half the xor of the even bytes below that of the odd ones |
| Checksum.TwoWords | docs/vendor-touch-ssd20xx/ssd20xx_upgrade.c:164 | the words 1 and 3 have the checksum 0x00020004 |
| Checksum.ChecksumConcat | docs/vendor-touch-ssd20xx/ssd20xx_upgrade.c:159-164 | the checksum of a concatenation is the combination of the parts' pairs |
| Checksum.OneWordChangeDetected | docs/vendor-touch-ssd20xx/ssd20xx_upgrade.c:159-164 | any change confined to one word is detected at any length |
| Checksum.OrderNotDetected | docs/vendor-touch-ssd20xx/ssd20xx_upgrade.c:159-164 | exchanging two parts is never detected |
| Checksum.EvenPayloadsAreSummed | docs/vendor-touch-ssd20xx/ssd20xx_upgrade.c:177-203 | payloads of even length, with their header unless the address is exempt, are summed completely and nothing beyond |
| Checksum.OddPayloadsOverrun | docs/vendor-touch-ssd20xx/ssd20xx_upgrade.c:183-192 | payloads of odd length are read one byte beyond their end |
| Checksum.SummedBytes | docs/vendor-touch-ssd20xx/ssd20xx_upgrade.c:183-192 | all bytes are summed at the addresses 0, 0x1C0 and 0x1000, those behind the first twelve elsewhere |
| ImageFormat.StepShape | docs/vendor-touch-ssd20xx/ssd20xx_upgrade.c:436-572 | a line never gives data back, keeps a section under construction while the level is not none, and stops only with an error |
| ImageFormat.DecorationIgnored | docs/vendor-touch-ssd20xx/ssd20xx_upgrade.c:345-353 | wherever the parse stands at a text line with room, a carriage return, tab or space in it and a comment at its end change nothing |
| ImageFormat.LineErrors | docs/vendor-touch-ssd20xx/ssd20xx_upgrade.c:436-505 | the errors of a line: unknown first character, no digits, out of turn, no digit, length not positive |
| ImageFormat.PayloadChecked | docs/vendor-touch-ssd20xx/ssd20xx_upgrade.c:540-567 | the eighth number takes the payload, accepted exactly with the declared checksum |
| ImageParser.ConvertHex | docs/vendor-touch-ssd20xx/ssd20xx_upgrade.c:105-135 | summing shifted digits from the left gives the positional value, for either case of digits |
| ImageParser.ReadLineInto | docs/vendor-touch-ssd20xx/ssd20xx_upgrade.c:339-354 | filling the zeroed 128-byte buffer reads the line the format describes |
| ImageParser.ExecuteLine | docs/vendor-touch-ssd20xx/ssd20xx_upgrade.c:359-571 | one line does to the state what the format describes, errors included |
| ImageParser.ParseImage | docs/vendor-touch-ssd20xx/ssd20xx_upgrade.c:322-584 | the parser's loop over the file computes the outcome the format describes, undefined behaviour included |
| ImageProofs.LineKeepsConsistent | docs/vendor-touch-ssd20xx/ssd20xx_upgrade.c:436-572 | at level none every section has its declared length and matching checksum; otherwise all but the last do and the last has no payload |
| ImageProofs.ParsedSectionsAreChecked | docs/vendor-touch-ssd20xx/ssd20xx_upgrade.c:322-584 | for every file, a successful parse yields only checked sections, but for a last one without payload |
| ImageProofs.ParseRendered | docs/vendor-touch-ssd20xx/ssd20xx_upgrade.c:322-584 | any spelling of an image parses back to its versions, flag and sections if and only if it has a section or its flag is the default |
| ImagePrinter.PrintedImageParses | docs/vendor-touch-ssd20xx/ssd20xx_upgrade.c:322-584 | printing any versions, flag and checked sections, in either case, and parsing gives back the same, for payload bytes of any value |
| FileUpdate.FirmwareUpdateByFile | docs/vendor-touch-ssd20xx/ssd20xx_upgrade.c:870-944 | an update is begun, and the history grows, if and only if the parse gave a list and one of the three initialisation attempts succeeds; success means every written section was checksum-valid and is in flash, with the final memory, protection, history and fault bound of the update |
| FileUpdate.WrittenSectionsAreChecked | docs/vendor-touch-ssd20xx/ssd20xx_upgrade.c:562-567 | every section that the updater will write from a successful parse is checksum-valid |
| RawQueue.Queue.GetRearQueueBuff | docs/vendor-touch-ssd20xx/ssd20xx.c:156-167 | the producer's reserving step: no slot exactly when ten frames wait, otherwise the slot behind the last of them |
| RawQueue.Queue.PutQueue | docs/vendor-touch-ssd20xx/ssd20xx.c:169-179 | the publishing step: unless ten frames wait, occupancy grows by one |
| RawQueue.Queue.GetFrontQueueBuff | docs/vendor-touch-ssd20xx/ssd20xx.c:181-191 | the consumer's peeking step: no slot exactly when no frame waits, otherwise the oldest |
| RawQueue.Queue.GetQueue | docs/vendor-touch-ssd20xx/ssd20xx.c:193-202 | the releasing step: frees the oldest frame unless none waits |
| RawQueue.StepKeepsInv | docs/vendor-touch-ssd20xx/ssd20xx.c:156-202 | every step of either side, down to single cells, keeps the ring's invariant |
| RawQueue.RunsAreSafe | docs/vendor-touch-ssd20xx/ssd20xx.c:156-202 | in every interleaving the two sides never hold the same slot, occupancy stays at most ten, and the k-th release took the first cells of the k-th published frame; complete copies are a prefix of the published frames |
| Contacts.TouchState.SendAxis | docs/vendor-touch-ssd20xx/ssd20xx.c:2853-2881 | the record and the events after a contact point |
| Contacts.TouchState.ReportRelease | docs/vendor-touch-ssd20xx/ssd20xx.c:3004-3031 | the loop sends the ups of the held contacts in order and clears them, or does nothing if none was counted |
| Contacts.TouchState.Report | docs/vendor-touch-ssd20xx/ssd20xx.c:2883-2948 | the record and the events after a report of raw points; a report of one contact in bytes: mark, count and event by its weight byte |
| Contacts.RawPointMeaning | docs/vendor-touch-ssd20xx/ssd20xx.c:2853-2940 | what one more raw point does, in terms of its bytes: contact, gesture with palm and knock bits, or nothing |
| Contacts.HeldIsLastDown | docs/vendor-touch-ssd20xx/ssd20xx.c:2853-3031 | over every run of reports a contact is marked exactly if its last event was a down |
| Contacts.CompleteReportCounts | docs/vendor-touch-ssd20xx/ssd20xx.c:2909-2940 | a report that lists each contact once and every held one counts the contacts held afterwards |
| Contacts.ReleaseAfterCompleteReport | docs/vendor-touch-ssd20xx/ssd20xx.c:3004-3031 | then a release sends exactly one up per held contact, no down, and leaves none held |
| Contacts.ReleaseFreesIff | docs/vendor-touch-ssd20xx/ssd20xx.c:3004-3031 | over every run of reports, a release after a report with points lifts every contact if and only if that report has a contact down with no palm rejection after it, or none was down |
| Contacts.ReleaseMissesContact | docs/vendor-touch-ssd20xx/ssd20xx.c:3012-3013 | the input on which a release leaves a contact down |
| Keys.KeyState.SendKey | docs/vendor-touch-ssd20xx/ssd20xx.c:2561-2607 | the held-key word becomes (old or down) and not up; presses for every down bit, and the releases described |
| Keys.PressesAreSetBits | docs/vendor-touch-ssd20xx/ssd20xx.c:2568-2581 | the presses of a report are those of the set bits, each once and in rising order |
| Keys.SingleRelease | docs/vendor-touch-ssd20xx/ssd20xx.c:2588-2604 | with a single key released, the event is sent exactly if it is held after the presses |
| Keys.ReleasesExactIff | docs/vendor-touch-ssd20xx/ssd20xx.c:2588-2604 | releases match the held keys reported released if and only if none is held or only the lowest reported one is |
| Keys.WrongRelease | docs/vendor-touch-ssd20xx/ssd20xx.c:2588-2604 | key 1 held, keys 0 and 1 reported released: key 0 is sent as released and key 1 is not |
| BootImage.HeaderForm | scripts/pack-boot-img.py:58-72 | for every page size from 48 on the stored header is its fields, with zeros up to the page |
| BootImage.HeaderFillsItsPageIff | scripts/pack-boot-img.py:58-72 | the header is one page long if and only if the page holds 608 bytes |
| BootImage.PackImage | scripts/pack-boot-img.py:75-111 | the growing output is the specified image, with the script's errors, and unpacks to the reference's header with the new size and address, the kernel with the device tree, and the reference's ramdisk |
| BootImage.ImageContents | scripts/pack-boot-img.py:29-55 | an image parses to its header, holds the kernel in its slot, gives back its ramdisk and fills whole pages |
| BootImage.PackedRoundTrip | scripts/pack-boot-img.py:75-108 | the packed image has the reference's header with only size and requested address changed, kernel and device tree in the kernel slot, and the reference's ramdisk |
| BootImage.HeaderPositions | scripts/pack-boot-img.py:29-48 | where each field of the header is, numbers least significant byte first |
| BootImage.PackedBytes | scripts/pack-boot-img.py:58-72 | the packed header byte by byte: kernel size at 8, requested or old address at 12, everything else as in the reference |
| BootImage.CompleteIffNoSecondStage | scripts/pack-boot-img.py:103-108 | the packed image is as long as its header announces if and only if the reference has no second stage |
| BootImage.RepackReproduces | scripts/pack-boot-img.py:75-108 | packing again from the output reproduces it |
| BootImage.ByteArray.PatchInPlace | scripts/patch-vendor-cmdline.py:28-44 | on an image of any length the patch rewrites exactly the command-line field, or nothing on an error |
| BootImage.PatchAppends | scripts/patch-vendor-cmdline.py:34-41 | the new command line is the old one, a space and the text up to a zero, with every byte before and behind the field kept; refused if and only if no room is left for a zero |
| BootImage.PatchCommutesWithPack | scripts/patch-vendor-cmdline.py:31-41 | patching before or after packing gives the same image or error, if and only if the text is not too long for a reference that cannot be packed either; both orders always succeed or fail together |

## Left out

- SeepromFirmwareUpdate: starts with an idle chip, because an identifier read from a busy one selects an arbitrary geometry.
- WriteNbyte: an unaligned start followed by less than the rest of its page sends bytes behind the buffer, under exactly the condition of `PageSplit.WriterSplitsIff`; `SeepromAccess.WriteShort` models one such write, with unknown bytes, but the update of a list is proved for `Sendable` sections only, which every shipped section is.
- FirmwareUpdateByFile: files that drive the parser into undefined behaviour are excluded, and so are files whose sections do not lie inside the chip or are not `Sendable`; the parser itself is modelled on all of them.
- Report: contact identifiers 10 to 14 are accepted by the code but lie behind the table of held contacts and are excluded.
- PowerCycle: the error flags of the next boot are parameters; reading them is not part of this model.
- Both chip-specific copies of the erase and write functions are the same text and are modelled once; so is the second checksum routine, whose only caller is compiled out.
- Firmware sections are a sequence, not linked heap nodes; allocation never fails and freeing is not modelled.
- Delays, GPIO, interrupts, resets, the touch controller's own initialisation before an update, and log output.
- The content of the firmware blobs: only addresses, lengths and erase counts are used.
- Updates by a header whose file failed to parse, block erase (never called), sysfs and ioctl string handling.
- Queue resets, the skip path of the production test and the direct write to slot 0 are outside the ring protocol.
- The chunked raw-data read and the byte checksum of point reports, which have only easy properties.
- A left shift into the sign bit while converting eight digits is taken as the 32-bit word that compilers produce.
- Command-line text is handled as bytes: text that is not valid UTF-8, which the script refuses, is patched.
- PatchCommutesWithPack: references shorter than 608 bytes, or with pages shorter than the header, whose ramdisk can overlap the patched field.
- A negative kernel address on the command line, reading and writing of files, and printed messages.
- Bare-metal test code, serial and log scripts, configurations and documents.
