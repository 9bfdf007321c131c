# Verified models of BootMonFs, SdMmcDxe, the boot options and the ELF loader

This project models four parts of the firmware repository in Dafny and proves what they do.

- **BootMonFs**, a small file system for NOR flash: a first-fit allocator over a list of files in disk
  order, a list of waiting regions per file, a flush that merges them into the media, a checksummed
  description at the end of the last block of every file, and a mount that finds the files again.
- **SdMmcDxe**, a driver for SD and MMC cards: a command engine in which a failed command leads to error
  recovery, recovery can lead to a soft reset, and a soft reset initialises the card by sending commands;
  on top of it block reads and writes, requests to the replay protected memory block (RPMB), and the
  protocols announced to the firmware.
- **Boot options** (BdsLib): the packed form of section 3.1.3 of the UEFI specification and the search for
  an unused Boot#### index.
- **The ELF loader** of the `runaxf` command: program headers become a list of copies and zero-fills, which
  is replayed after the firmware has been shut down (System V ABI, chapter 5, "Program Header").

`dafny verify dfyconfig.toml` checks everything.

## How it is modelled

| file | part |
|---|---|
| `Options.dfy`, `Bytes.dfy` | optional values; bytes and little-endian words |
| `SdCommands.dfy` | the command set, card status words, traces of accepted commands |
| `FirmwareServices.dfy` | the protocol database of the firmware |
| `SdMmcHost.dfy` | class `Host`: sending, recovery, soft reset, initialisation |
| `RpmbRequests.dfy`, `BlockIoRequests.dfy`, `SdMmcDriver.dfy` | RPMB requests, chunked transfers, the pool of controllers |
| `BootMonFormat.dfy` | the description: layout, checksum, recognition |
| `BootMonAllocator.dfy` | first fit, the splice, the layout invariant over runs of changes |
| `BootMonFlush.dfy`, `BootMonMount.dfy` | the disk writes of a flush, the media afterwards, the mount scan |
| `BootMonRegions.dfy` | contents of a file while regions wait: writing, truncating, growing |
| `BootMonVolume.dfy`, `BootMonDirectory.dfy` | classes `Disk`, `File`, `Volume` and the file operations |
| `BootMonRuns.dfy`, `BootMonRemount.dfy` | reading back, layout and remount for whole operations |
| `BootMonVolumeRuns.dfy` | runs of a volume: the place of the files and the mount after every step, and the fresh mount |
| `BootMonContents.dfy` | what the files hold over runs, after the next mount, and as it is read |
| `BootMonInterrupted.dfy` | flushes that stop at any write: the mount after them, the other files, and reads |
| `BootMonNames.dfy` | the names of the files over runs and after the next mount |
| `BdsLoadOption.dfy`, `BdsBootOrder.dfy` | boot options; BootOrder over runs of writes |
| `ElfLoading.dfy` | the load list and its replay |
| `SdMmcDepartures.dfy`, `BootMonDepartures.dfy`, `BootMonBlankDisk.dfy`, `BootDepartures.dfy` | inputs at which the code does not do what it should, and a few at which it does |

Hardware is an oracle. The card and its controller are a function from request numbers to replies
(`Host.hardware`), the firmware grants or refuses installations by another (`BootServices.grants`), a disk
carries out or refuses requests by a third (`Disk.works`), and memory is granted by a parameter. Nothing is
assumed about any of them, so every statement holds for all behaviours. The media is an array of bytes. The
fields of the C structures are fields of classes that the methods update; list links are positions in a
sequence.

A method is proved against a specification function, and the main results are lemmas about those functions:
`Volume.FlushFile` against `BootMonFlush.FlushFile` (the writes a flush makes), `Volume.SearchSpace` against
`FirstFit`, `Pack` against `Packed`, `ReplayLoadList` against `Replayed`, and so on. For the command engine
the specification is the trace of accepted commands; `Essence` is the trace without status polling and
`Issued` says which commands an operation added to it. The cycle send, data, wait, recover, reset,
initialise is one group of mutually recursive methods. Each carries a lexicographic `decreases` clause that
begins with 4 minus the recovery counter, which is the proof that recovery ends.

For BootMonFs what is on the media and the order of the list are two things. The files on the media are a set;
a run keeps them (`Good`) if they lie apart and a mount finds exactly these, whatever order the list has them
in. That the list is in disk order (`Layout`) is a condition of its own, which a new file placed behind all
others may end and the next mount restores. A mount is therefore a step of a run like creating, flushing and
deleting.

## Results where the code departs from what it should do

The model keeps the code as it is. Each departure has its exact condition and an input.

| what happens | exact condition | input |
|---|---|---|
| A flush spoils data with a description or a wipe. A flush that goes through overlays the old data for all bytes queued if and only if everything that lands on data is written again by a region queued at that step or later; keeping descriptions off the data is enough (`ClearIsCovered`), and rising end blocks do that (`RisingIsClear`), but it is not needed (`LandingCanBeCovered`, `CoveredLandingIsSafe`). | `FlushOverlaysIffLandingsCovered` | `ShortAppendSpoils` |
| A new file placed behind all others is not relinked. Unless it was last in the list already, the list is no longer in disk order: the file and all others are kept on the media and found by the next mount, which puts them in order again (`MountRestoresOrder`, `ThirdAfterMount`), but until then a new file may be given the start of the media. | `LayoutAfterFlush`, `FirstFlushKeepsLayout`, `PlacedKeepsLayout`, `UnlinkedTailIsOverlooked`, `RunKeepsVolume` | `TailIsUnlinked`, `TwoFilesAreKept`, `ThirdIsOnTop` |
| A flush moves a new file in the list before it writes it. If it stops before a description is written, the file stands between files that are on the media, unless the gap was at the start of the media. | `StoppedFirstFlush`, `MovedKeepsLayout` | `StoppedFlushStandsBetween` |
| The space of a file ends where the next file of the list starts, which is block zero if that one is not on the media. If this lies in front of the file, it may grow without end; and on an empty volume nothing fits in front of another new file. | `SpaceIsRunaway`, `SpaceBehindAll`, `GrowsWithoutEndIff` | `GrowsWithoutEnd`, `SecondGrowsWithoutEnd`, `EmptyVolumeIsFull` |
| The old description is wiped before the data and the new description are written. A flush that stops in between leaves no description: the next mount does not find the file. It finds all others, and never the file twice. | `LeftTells`, `StopIsGood` | `StopLosesFile` |
| A read ignores that its flush failed, succeeds, and returns what was queued only where the regions carried out have the last word. A file that is not described yet is read from the start of the media. | `HoldsQueuedIffCarried`, `ReadAfterFailure` | `ReadsOtherFile` |
| The space check counts bytes with `>=`, but one block more is taken when data and description fill the last block to the byte. | `SpaceSufficesIffNotExact` | `ExactFitOverlaps` |
| A file that ends in another block than its description before the final one keeps that description as a stray, and the next mount finds the file twice. | `LeavesBehindIffBlocksDiffer`, `FlushKeepsMountable`, `RunKeepsVolume` | `TruncationLeavesBehind`, `SeekBackFindsTwice` |
| Reads and the mount scan count from the lowest aligned block and writes do not. | `ReadsOwnBlocksIffUnshifted`, `ShiftHidesFiles` | `ReadsNextBlock` |
| The length of a file that is opened adds regions left over from a failed flush where a maximum is meant. | `LengthCoversRegions` | `LengthIsAdded` |
| Closing ignores the outcome of its flush; afterwards the file goes by the name on the media, which another file may use. | `CloseFile`, `RunKeepsUnique` | `ClosedFilesCollide` |
| A rename frees the old name at once, while it stays on the media until the next flush: another file may take it, and a mount then finds it twice. | `MountFindsUniqueNames` | `FreedNameIsFoundTwice` |
| Mounting reports success when a read was refused, with the files in front of that block. | `Initialize` | `MountMissesFile` |
| A rename takes the room for the name from a size field that is never set. It reports success whether or not the string library copies with the size that results. | `SetFileName` | `RenameKeepsName` |
| The card status is returned through a one-byte BOOLEAN, so all error bits but AKE_SEQ_ERROR (SD) and SWITCH_ERROR (MMC) are lost. | `ErrorBitsSeen` | `AddressErrorIsMissed` |
| A soft reset that failed reports what its last clean-up request to the firmware said. | `Host.SoftReset`, `Host.CleanUp` | `FailedResetSucceeds` |
| The outcome of the data line reset replaces that of the command line. | `Host.ResetLines` | `CommandLineStays` |
| The transfer loop goes on after a failed chunk, and the status is that of the last one. | `AllOrErrorIffOneChunk`, `IoBlocks` | `LostChunk` |
| A request of 2^32 bytes or more loses whole multiples of 2^32. | `WholeRequestIff32Bits` | `LongRequestIsCut` |
| The capacity of a version 1 CSD is formed in 32 bits, and with a capacity of less than one block the last block is zero all the same. | `CsdCapacityIsTrue`, `InsideCapacityIffOneBlock` | `CsdWrapsToNothing` |
| A card that reports no sectors gets 2^32 - 1 as its last block. | `InsideCapacityIffSectors` | `NoSectorsNoLimit` |
| The chunk loop does not end if the maximum transfer size is a multiple of 2^32. | `LoopEndsIffPositive` | `LoopNeverEnds` |
| RPMB packet counts of 2^23 and more are announced and moved differently; the flag of a reliable write takes the place of bit 31. | `AnnouncedCountIsMoved`, `ReliableCountIsMoved` | `PacketsNotMoved`, `ReliablePacketsNotMoved` |
| If the card takes the switch to RPMB and the EXT_CSD that should confirm it is not read, or shows another partition, no switch back is sent: short of a soft reset the partition in memory stays what it was. | `SwitchPartitionMmc`, `RpmbRequest` | `SwitchIsNotUndone` |
| Packing a boot option keeps only the first instance of its device path. | `RoundTripIffOneInstance` | `SecondInstanceIsLost` |
| The length of the path in a packed option is not checked against its size. | `OptionalDataIsInside` | `LongPathIsAccepted` |
| An option keeps its index through a refused allocation, and is listed as new when it is written again. | `RunKeepsNoDuplicates` | `IndexIsListedTwice` |
| The replay of a load list copies what earlier copies may have overwritten. | `MeansHeadersIffFileSurvives` | `FileIsOverwritten` |

The comment on card changes (SdMmc.c:693-742) speaks of initialised cards where the code looks at the presence
of media; `Driver.CheckCards` follows the code.

## Model

| member | source | states |
|---|---|---|
| SdCommands.EssenceOfTransfer | Microsoft/Drivers/SdMmcDxe/Protocol.c:531-544 | apart from polling, a finished data transfer shows its command and one STOP_TRANSMISSION exactly when that was owed |
| SdCommands.EssenceGrows | Microsoft/Drivers/SdMmcDxe/Protocol.c:480-558 | a transfer adds exactly its own commands to the polling-free trace |
| SdCommands.ErrorBitsSeen | Microsoft/Drivers/SdMmcDxe/SdMmc.h:448-467 | a status with error bits is noticed if and only if AKE_SEQ_ERROR of an SD card or SWITCH_ERROR of an MMC card is among them, because the masked status passes through one byte |
| SdCommands.AddressErrorIsMissed | Microsoft/Drivers/SdMmcDxe/SdMmc.h:448-467 | an address out of range is an error bit that goes unnoticed, for SD and MMC |
| FirmwareServices.BootServices.Install | Microsoft/Drivers/SdMmcDxe/SdMmc.c:574-628 | a protocol is installed if and only if it was not there and the firmware grants it, and nothing else in the database changes |
| FirmwareServices.BootServices.Uninstall | Microsoft/Drivers/SdMmcDxe/SdMmc.c:764-833 | a protocol is withdrawn if and only if it was there and the firmware grants it, and nothing else in the database changes |
| FirmwareServices.BootServices.Locate | Microsoft/Drivers/SdMmcDxe/SdMmc.c:744-762 | found if and only if some controller offers the protocol |
| SdMmcHost.Host.Exchange | Microsoft/Drivers/SdMmcDxe/Protocol.c:376-444 | a command is accepted if and only if CMD55, sending and receiving worked and the low byte of an R1 status shows no error bit of the kind of card |
| SdMmcHost.Host.SendCommandHelper | Microsoft/Drivers/SdMmcDxe/Protocol.c:376-444 | an accepted command is appended to the trace and shifts the two-command history; a refused one leaves both |
| SdMmcHost.Host.SendCommand | Microsoft/Drivers/SdMmcDxe/Protocol.c:446-478 | success means no recovery ran and exactly this command was accepted, for a SWITCH followed by polling until ready in state tran; recovery counter restored in every case |
| SdMmcHost.Host.SendStatus | Microsoft/Drivers/SdMmcDxe/Protocol.c:1060-1080 | success adds one SEND_STATUS with the card's address and returns its answer; failure went through recovery |
| SdMmcHost.Host.StopTransmission | Microsoft/Drivers/SdMmcDxe/Protocol.c:800-809 | success adds one CMD12 with the card's address; failure went through recovery |
| SdMmcHost.Host.WaitForTranStateAndReadyForData | Microsoft/Drivers/SdMmcDxe/Protocol.c:620-655 | success means at most 200 SEND_STATUS, the last of them ready in state tran and no earlier one |
| SdMmcHost.Host.SendDataCommand | Microsoft/Drivers/SdMmcDxe/Protocol.c:480-558 | success means no recovery ran anywhere inside, and the trace grew by the command, CMD12 if and only if a multi-block command did not follow SET_BLOCK_COUNT, and the poll; failure went through recovery; smooth hardware succeeds, and a multi-block command refused at once is recovered in four requests without a soft reset |
| SdMmcHost.Host.SendAndMoveData | Microsoft/Drivers/SdMmcDxe/Protocol.c:495-529 | the command is in the trace if it was accepted, whether or not its data moved |
| SdMmcHost.Host.TransferData | Microsoft/Drivers/SdMmcDxe/Protocol.c:495-549 | the data command before its exit label, with the same trace as SendDataCommand |
| SdMmcHost.Host.FinishTransfer | Microsoft/Drivers/SdMmcDxe/Protocol.c:531-549 | what follows the data: CMD12 exactly if it is owed, then the poll |
| SdMmcHost.Host.RecoverFromErrors | Microsoft/Drivers/SdMmcDxe/Protocol.c:279-374 | terminates for every behaviour of the hardware, returns with the recovery counter at its entry value, never lets it exceed threshold plus one, and keeps history, flags and the single RpmbIo |
| SdMmcHost.Host.ResetLines | Microsoft/Drivers/SdMmcDxe/Protocol.c:303-317 | the outcome is that of the data line reset when the command moves data, that of the command line otherwise |
| SdMmcHost.Host.AttemptRecovery | Microsoft/Drivers/SdMmcDxe/Protocol.c:303-349 | a failed line reset leads to a soft reset; a multi-block command counts as recovered only once the card is in state tran or was told to stop |
| SdMmcHost.Host.SettleCard | Microsoft/Drivers/SdMmcDxe/Protocol.c:328-349 | a multi-block command counts as recovered only once the card is in state tran or was told to stop |
| SdMmcHost.Host.UninstallAllProtocols | Microsoft/Drivers/SdMmcDxe/SdMmc.c:764-833 | success leaves no protocol of this controller; in every case the three flags equal the database |
| SdMmcHost.Host.SoftReset | Microsoft/Drivers/SdMmcDxe/SdMmc.c:468-691 | keeps every invariant through nested resets; success with everything published, or, if the reset failed, exactly if some protocol was left to withdraw and the last request for that was granted |
| SdMmcHost.Host.CleanUp | Microsoft/Drivers/SdMmcDxe/SdMmc.c:648-684 | RpmbIo and the device path are withdrawn if installed; the outcome is that of the last request, a failure if there was none; BlockIo stays |
| SdMmcHost.Host.ResetAndPublish | Microsoft/Drivers/SdMmcDxe/SdMmc.c:484-644 | success before the exit label means BlockIo and, with a card, the device path are installed for an initialised SD or MMC card, and some controller offers RpmbIo if it is MMC |
| SdMmcHost.Host.PublishBlockIo | Microsoft/Drivers/SdMmcDxe/SdMmc.c:574-589 | the flag is set exactly if the installation was granted |
| SdMmcHost.Host.PublishCard | Microsoft/Drivers/SdMmcDxe/SdMmc.c:591-642 | with BlockIo installed, success completes the announcement of a card |
| SdMmcHost.Host.PublishProtocols | Microsoft/Drivers/SdMmcDxe/SdMmc.c:563-644 | success means everything an initialised card offers is installed and flagged |
| SdMmcHost.Host.PublishRpmbIo | Microsoft/Drivers/SdMmcDxe/SdMmc.c:607-642 | afterwards some controller offers RpmbIo, and never more than one does |
| SdMmcHost.Host.InitializeDevice | Microsoft/Drivers/SdMmcDxe/Protocol.c:36-141 | success means an SD or MMC card, initialised, media fields from its kind and serial number, SET_BLOCK_LENGTH accepted last |
| SdMmcHost.Host.ConfigureCard | Microsoft/Drivers/SdMmcDxe/Protocol.c:83-132 | the same for the half after the card is known, with no recovery on the way to success |
| SdMmcHost.Host.QueryCardType | Microsoft/Drivers/SdMmcDxe/Protocol.c:568-618 | success means a known kind; unless the slot was reset in a recovery, the kind is what the answers to CMD8, CMD5 and CMD1 tell, through any number of recoveries; a card that answers every probe is SDIO or combo, so a memory card is found by way of a recovery |
| SdMmcHost.Host.ProbeSdio | Microsoft/Drivers/SdMmcDxe/Protocol.c:584-597 | unless the slot was reset, an unknown card is now combo, SDIO, SD or still unknown by its answers to CMD8 and CMD5; with no recovery it is combo if it echoed the voltage check and SDIO otherwise |
| SdMmcHost.Host.ProbeMmc | Microsoft/Drivers/SdMmcDxe/Protocol.c:602-611 | unless the slot was reset, success makes the card MMC exactly if it was found powered; with no recovery that is the high voltage window it reports |
| SdMmcHost.Host.SendIfCondSd | Microsoft/Drivers/SdMmcDxe/Protocol.c:1126-1156 | success means CMD8 0x1AA was accepted and echoed, and only the extended OCR mark changed |
| SdMmcHost.Host.AskOpCondMmc | Microsoft/Drivers/SdMmcDxe/Protocol.c:1268-1278 | one CMD1, whose answer becomes the OCR; failure went through recovery |
| SdMmcHost.Host.SendOpCondMmc | Microsoft/Drivers/SdMmcDxe/Protocol.c:1257-1307 | at most 200 CMD1; without recovery success if and only if powered up in the high voltage window, sector mode decides high capacity |
| SdMmcHost.Host.SendOpCondSd | Microsoft/Drivers/SdMmcDxe/Protocol.c:1158-1213 | ACMD41 with argument zero, then between 1 and 200 with the card's voltage window and HCS, until power up |
| SdMmcHost.Host.PowerUpSd | Microsoft/Drivers/SdMmcDxe/Protocol.c:1176-1212 | the polling loop: the last answer shows power up, and bit 30 decides high capacity for a card with extended OCR |
| SdMmcHost.Host.SendRelativeAddr | Microsoft/Drivers/SdMmcDxe/Protocol.c:821-849 | CMD3 carries the fixed address for MMC and zero otherwise; afterwards the card has that address, or the one an SD card published |
| SdMmcHost.Host.SendCid | Microsoft/Drivers/SdMmcDxe/Protocol.c:657-694 | success issued CMD10 to the card's address, kept that address and stored the serial number of the answer |
| SdMmcHost.Host.SendCsd | Microsoft/Drivers/SdMmcDxe/Protocol.c:696-766 | capacity as the CSD structure says, formed in 32 bits for version 1; the last block is the last whole 512-byte block of the capacity kept, and zero if there is none |
| SdMmcHost.CsdCapacityIsTrue | Microsoft/Drivers/SdMmcDxe/Protocol.c:730-734 | the capacity kept for a version 1 CSD is the one it means if and only if that is below 2^32 |
| SdMmcHost.Host.SendExtCsdMmc | Microsoft/Drivers/SdMmcDxe/Protocol.c:1449-1479 | success issued CMD8 as a one-block read without recovery and set capacity and last block from the sector count, the latter in 32 bits; failure went through recovery |
| SdMmcHost.Host.SetMaxClockFrequency | Microsoft/Drivers/SdMmcDxe/Protocol.c:984-1022 | succeeds if and only if TRAN_SPEED is defined where it is used and the controller accepts the clock, which is then the one of TRAN_SPEED or 52 MHz in high speed |
| SdMmcHost.Host.IdentifyCard | Microsoft/Drivers/SdMmcDxe/Protocol.c:156-178 | success issued CMD2, CMD3, CMD10 and CMD9 in this order with the right addresses |
| SdMmcHost.Host.InitializeSdDevice | Microsoft/Drivers/SdMmcDxe/Protocol.c:143-205 | success issued power up, identification, CMD7 and ACMD6 in this order and nothing else, with no recovery |
| SdMmcHost.Host.SelectSdDevice | Microsoft/Drivers/SdMmcDxe/Protocol.c:180-204 | success issued CMD7 and ACMD6 with argument 2 and changed nothing else |
| SdMmcHost.Host.InitializeMmcDevice | Microsoft/Drivers/SdMmcDxe/Protocol.c:207-277 | success issued identification, CMD7, EXT_CSD and the tuning sequence in this order, on a card of version 4 or later, now in high speed |
| SdMmcHost.Host.SelectMmcDevice | Microsoft/Drivers/SdMmcDxe/Protocol.c:246-276 | success issued CMD7, EXT_CSD and the tuning sequence |
| SdMmcHost.Host.TuneMmcDevice | Microsoft/Drivers/SdMmcDxe/Protocol.c:258-276 | success issued the high speed switch, the bus width sequence and nothing else |
| SdMmcHost.Host.SwitchSpeedModeMmc | Microsoft/Drivers/SdMmcDxe/Protocol.c:1408-1447 | success issued the HS_TIMING switch and EXT_CSD, which reports high speed timing |
| SdMmcHost.Host.RaisePowerClass | Microsoft/Drivers/SdMmcDxe/Protocol.c:1331-1373 | the power class is switched only if an 8-bit bus needs more, and success leaves a class that is enough |
| SdMmcHost.Host.SwitchBusWidthMmc | Microsoft/Drivers/SdMmcDxe/Protocol.c:1309-1406 | success issued EXT_CSD, the power class switch if needed, and the switch to 8 bits |
| RpmbRequests.SwitchPartitionMmc | Microsoft/Drivers/SdMmcDxe/Protocol.c:1481-1535 | success if and only if the card takes SWITCH and the EXT_CSD confirms it, with these two commands and the partition recorded; if SWITCH was taken and not confirmed it is in the trace all the same, and short of a soft reset the recorded partition is the old one |
| RpmbRequests.CountedTransfer | Microsoft/Drivers/SdMmcDxe/RpmbIo.c:76-163 | success issued SET_BLOCK_COUNT and the multi-block command it announces, with no CMD12 and no recovery |
| RpmbRequests.RpmbRead | Microsoft/Drivers/SdMmcDxe/RpmbIo.c:76-130 | success issued CMD23(1), CMD25, CMD23(n), CMD18 and nothing else |
| RpmbRequests.RpmbWrite | Microsoft/Drivers/SdMmcDxe/RpmbIo.c:132-163 | success issued CMD23(n) with the reliable write bit, CMD25 and nothing else |
| RpmbRequests.PerformRequest | Microsoft/Drivers/SdMmcDxe/RpmbIo.c:165-276 | success issued exactly the sequence of its kind of request |
| RpmbRequests.RpmbRequest | Microsoft/Drivers/SdMmcDxe/RpmbIo.c:314-411 | success is the switch, the request and the switch back and nothing else; whenever the closing switch succeeded the partition is the one found on entry; if the opening switch is taken and not confirmed, the request fails with that switch in the trace, for another partition shown with nothing behind it, and the partition in memory unchanged short of a soft reset |
| RpmbRequests.RequestsArePredefined | Microsoft/Drivers/SdMmcDxe/RpmbIo.c:76-276 | no request of any size contains CMD12, and each multi-block command directly follows its SET_BLOCK_COUNT |
| RpmbRequests.AnnouncedCountIsMoved | Microsoft/Drivers/SdMmcDxe/RpmbIo.c:107-119 | the announced block count is the moved one if and only if there are fewer than 2^23 packets |
| RpmbRequests.ReliableCountIsMoved | Microsoft/Drivers/SdMmcDxe/RpmbIo.c:132-150 | a reliable write always carries its flag, and the count below it is the moved one if and only if the packets without bit 31 are fewer than 2^23 |
| BlockIoRequests.PlanCovers | Microsoft/Drivers/SdMmcDxe/BlockIo.c:237-274 | the chunks lie back to back on card and in buffer from the first to the last block, none larger than the limit |
| BlockIoRequests.LoopEndsIffPositive | Microsoft/Drivers/SdMmcDxe/BlockIo.c:237-274 | the chunk loop ends if and only if the maximum transfer size is not zero, or nothing is to be moved |
| BlockIoRequests.EachBlockMovedOnce | Microsoft/Drivers/SdMmcDxe/BlockIo.c:237-274 | every block of the request is moved by exactly one chunk and no other block by any |
| BlockIoRequests.EachBlockHasATransfer | Microsoft/Drivers/SdMmcDxe/BlockIo.c:237-274 | if no chunk failed, whatever was recovered on the way, the card finished a transfer for every block of the request and for no other |
| BlockIoRequests.AllOrErrorIffOneChunk | Microsoft/Drivers/SdMmcDxe/BlockIo.c:251-273 | success means that all blocks were moved if and only if the request fits one chunk, for any outcomes and for those of hardware that refuses some transfers and then works |
| BlockIoRequests.WholeRequestIff32Bits | Microsoft/Drivers/SdMmcDxe/BlockIo.c:237-274 | the whole request is planned if and only if its size is below 2^32 |
| BlockIoRequests.AcceptedIsInsideCapacity | Microsoft/Drivers/SdMmcDxe/BlockIo.c:192-274 | every chunk of an accepted request lies between block zero and the last block of the media |
| BlockIoRequests.InsideCapacityIffSectors | Microsoft/Drivers/SdMmcDxe/Protocol.c:1465-1475 | with the last block set from EXT_CSD, all accepted requests lie inside its capacity if and only if it reports any sector |
| BlockIoRequests.InsideCapacityIffOneBlock | Microsoft/Drivers/SdMmcDxe/Protocol.c:756-763 | with the last block set from the CSD, all accepted requests lie inside the capacity kept if and only if it is at least one block |
| BlockIoRequests.TryChunk | Microsoft/Drivers/SdMmcDxe/BlockIo.c:251-269 | one attempt: success ends in the finished transfer of the chunk, failure went through recovery; a refused one leaves one refusal less |
| BlockIoRequests.TransferChunk | Microsoft/Drivers/SdMmcDxe/BlockIo.c:251-269 | one to three tries, three if it failed; success ends in the finished transfer of the chunk however many recoveries ran; with hardware that refuses some transfers, success exactly if there are fewer than three of them |
| BlockIoRequests.MoveChunk | Microsoft/Drivers/SdMmcDxe/BlockIo.c:245-273 | one turn of the loop adds one outcome and the part of the trace that belongs to it |
| BlockIoRequests.MoveChunks | Microsoft/Drivers/SdMmcDxe/BlockIo.c:237-274 | every planned chunk is tried in order, the status is that of the last; every chunk that succeeded has its finished transfer in its own part of the trace, in plan order, with or without recoveries; without recovery exactly the planned commands were accepted; refusals cost one chunk for every three |
| BlockIoRequests.IoBlocks | Microsoft/Drivers/SdMmcDxe/BlockIo.c:141-287 | refusals send nothing and have the right status; an accepted request follows its plan, each chunk that succeeded with its finished transfer in the trace, whatever was recovered; it can end undefined below 2^32 bytes only through a soft reset |
| SdMmcDriver.OthersUntouched | Microsoft/Drivers/SdMmcDxe/SdMmc.c:468-691 | what one controller does to the database does not change what it says about another |
| SdMmcDriver.Driver.OneRpmbInPool | Microsoft/Drivers/SdMmcDxe/SdMmc.c:744-762 | two controllers of the pool never both have RpmbIo installed |
| SdMmcDriver.Driver.StaysValid | Microsoft/Drivers/SdMmcDxe/SdMmc.c:468-833 | whatever one controller does keeps flags, database and single RpmbIo right for the whole pool |
| SdMmcDriver.Driver.Start | Microsoft/Drivers/SdMmcDxe/SdMmc.c:357-415 | adds one controller at the end of the pool and keeps the pool valid |
| SdMmcDriver.Driver.CheckCards | Microsoft/Drivers/SdMmcDxe/SdMmc.c:693-742 | a controller is reset if and only if its card came or went |
| SdMmcDriver.Driver.CheckCard | Microsoft/Drivers/SdMmcDxe/SdMmc.c:705-741 | one controller is reset if and only if its card came or went, and the pool stays valid |
| SdMmcDriver.Driver.BlockIoReset | Microsoft/Drivers/SdMmcDxe/BlockIo.c:306-319 | resets the slot, keeps the pool valid and reports success for a published slot or a granted clean-up |
| SdMmcDriver.Driver.BlockIoTransfer | Microsoft/Drivers/SdMmcDxe/BlockIo.c:345-527 | a transfer keeps the pool valid |
| SdMmcDriver.Driver.RpmbIoRequest | Microsoft/Drivers/SdMmcDxe/RpmbIo.c:425-609 | a request keeps the pool valid and a successful one the partition |
| SdMmcDepartures.LostChunk | Microsoft/Drivers/SdMmcDxe/BlockIo.c:245-274 | on an initialised and announced SD card, two blocks written one by one, the first refused three times: success, and the first block was not written |
| SdMmcDepartures.LongRequestIsCut | Microsoft/Drivers/SdMmcDxe/BlockIo.c:237-274 | a request of 2^32 + 512 bytes moves one block |
| SdMmcDepartures.LoopNeverEnds | Microsoft/Drivers/SdMmcDxe/BlockIo.c:237-274 | with 2^23 blocks per transfer the maximum transfer size is zero, and one block is never done with |
| SdMmcDepartures.CsdWrapsToNothing | Microsoft/Drivers/SdMmcDxe/Protocol.c:730-763 | a CSD that means 4 GiB gives capacity zero, and a read of block zero is accepted |
| SdMmcDepartures.NoSectorsNoLimit | Microsoft/Drivers/SdMmcDxe/Protocol.c:1465-1475 | on a card without sectors a read of block zero is accepted |
| SdMmcDepartures.PacketsNotMoved | Microsoft/Drivers/SdMmcDxe/RpmbIo.c:107-119 | 2^23 packets are announced and none is moved |
| SdMmcDepartures.ReliablePacketsNotMoved | Microsoft/Drivers/SdMmcDxe/RpmbIo.c:132-163 | a reliable write of 2^23 packets announces them and moves none |
| SdMmcDepartures.SwitchIsNotUndone | Microsoft/Drivers/SdMmcDxe/RpmbIo.c:342-349 | an MMC card takes the switch to RPMB and refuses the EXT_CSD: the request fails, without a soft reset, and the partition in memory is still the user partition |
| SdMmcDepartures.CommandLineStays | Microsoft/Drivers/SdMmcDxe/Protocol.c:303-317 | the command line is not reset and the operation succeeds |
| SdMmcDepartures.FailedResetSucceeds | Microsoft/Drivers/SdMmcDxe/SdMmc.c:648-684 | on an initialised and announced SD card, BlockIo cannot be withdrawn, the card is not touched, the device path is lost, and the reset reports success |
| BootMonFormat.SerializeRoundTrip | ARM/Drivers/BootMonFs/BootMonFsHw.h:29-55 | parsing the bytes of any words gives the words back |
| BootMonFormat.DescriptionRoundTrip | ARM/Drivers/BootMonFs/BootMonFsHw.h:29-55 | a description survives its 136-byte form |
| BootMonFormat.BootMonFsChecksum | ARM/Drivers/BootMonFs/BootMonFsImages.c:24-51 | the complement of the accumulator is congruent to the sum modulo 2^32 - 1, and the accumulator is zero if and only if all words are |
| BootMonFormat.ChangeIsDetected | ARM/Drivers/BootMonFs/BootMonFsImages.c:34-51 | one changed word escapes the checksum if and only if zero and all-ones were exchanged beside other non-zero words |
| BootMonFormat.FooterChecksumIsStable | ARM/Drivers/BootMonFs/BootMonFsImages.c:53-89 | the footer checksum is idempotent and does not depend on the old checksum, the attributes or unused regions |
| BootMonFormat.ZerosAreNoImage | ARM/Drivers/BootMonFs/BootMonFsImages.c:91-136 | a wiped description is not recognised at any block |
| BootMonFormat.StringCopied | ARM/Drivers/BootMonFs/BootMonFsOpenClose.c:104-105 | the name read back from the buffer is the name copied, whatever lay behind it |
| BootMonFormat.LastBlockIsExact | ARM/Drivers/BootMonFs/BootMonFsOpenClose.c:99-103 | the last block computed in 32 bits is the true one as long as it fits |
| BootMonFormat.DescribeIsRecognised | ARM/Drivers/BootMonFs/BootMonFsOpenClose.c:95-124 | every description written is recognised at its own last block and nowhere else, with matching checksum, name, size and blocks |
| BootMonAllocator.FirstFitIsLowest | ARM/Drivers/BootMonFs/BootMonFsOpenClose.c:154-211 | on a list in disk order the search returns the lowest free place of the size, and a full volume if and only if there is none |
| BootMonAllocator.MovedIsPermutation | ARM/Drivers/BootMonFs/BootMonFsOpenClose.c:193-198 | the splice keeps every file exactly once |
| BootMonAllocator.MovedStaysApart | ARM/Drivers/BootMonFs/BootMonFsOpenClose.c:193-198 | the splice neither parts files nor brings them on top of each other |
| BootMonAllocator.PlacedKeepsLayout | ARM/Drivers/BootMonFs/BootMonFsOpenClose.c:176-210 | writing a new file keeps disk order and disjointness if and only if it went in front of another or was last, and fits where it went |
| BootMonAllocator.MovedKeepsLayout | ARM/Drivers/BootMonFs/BootMonFsOpenClose.c:188-199 | a new file that was moved and not written keeps the layout if and only if the space was behind all files or at the start of the media |
| BootMonAllocator.WrittenStaysApart | ARM/Drivers/BootMonFs/BootMonFsOpenClose.c:154-431 | a file written at some place leaves all files apart if and only if the place is free of the others, in any order of the list |
| BootMonAllocator.UnlinkedTailIsOverlooked | ARM/Drivers/BootMonFs/BootMonFsOpenClose.c:205-210 | after a file was placed at the tail without relinking, the next new file gets the start of the media, which is not free if a file lies there |
| BootMonAllocator.ResizedKeepsLayout | ARM/Drivers/BootMonFs/BootMonFsOpenClose.c:352-375 | another length keeps the layout if and only if it ends before the next file |
| BootMonAllocator.ChangeKeepsLayout | ARM/Drivers/BootMonFs/BootMonFsOpenClose.c:154-431 | create, write in full or in part, move without writing, resize and delete keep the layout if and only if a condition known before holds |
| BootMonAllocator.RunKeepsLayout | ARM/Drivers/BootMonFs/BootMonFsOpenClose.c:154-795 | the layout holds after every step of a run, flushes that stop included, if and only if every step was harmless |
| BootMonFlush.FlushOverlays | ARM/Drivers/BootMonFs/BootMonFsOpenClose.c:313-413 | while descriptions stay clear of data, every byte of the file is the old data overlaid by the regions in list order |
| BootMonFlush.AlwaysOverlaidIffClear | ARM/Drivers/BootMonFs/BootMonFsOpenClose.c:313-413 | read-after-write holds for all data of a shape at every point of the region list if and only if no description is written on data, which offsets and lengths decide |
| BootMonFlush.FlushOverlaysIffLandingsCovered | ARM/Drivers/BootMonFs/BootMonFsOpenClose.c:313-431 | a flush that goes through, final description included, overlays every byte of the file for all data of a shape if and only if every description and every wipe that lands on data is followed, or accompanied by the same region's data in the case of a wipe, by a region that writes there |
| BootMonFlush.ClearIsCovered | ARM/Drivers/BootMonFs/BootMonFsOpenClose.c:313-431 | keeping descriptions off the data is enough for that |
| BootMonFlush.RisingIsClear | ARM/Drivers/BootMonFs/BootMonFsOpenClose.c:343-401 | appending regions whose end blocks never decrease keep descriptions off the data |
| BootMonFlush.FlushFileOverlays | ARM/Drivers/BootMonFs/BootMonFsOpenClose.c:313-431 | the whole flush, final description included, overlays the file up to its size |
| BootMonFlush.FlushStaysInside | ARM/Drivers/BootMonFs/BootMonFsOpenClose.c:313-431 | a flush writes to the blocks of its own file only |
| BootMonFlush.RenewedPlace | ARM/Drivers/BootMonFs/BootMonFsOpenClose.c:99-126 | the new description starts behind the data and ends with the last block |
| BootMonMount.TailAfterFlush | ARM/Drivers/BootMonFs/BootMonFsOpenClose.c:377-424 | a block end without data shows after a flush the new description, one left behind, zeros, or what it showed |
| BootMonMount.RegionsShowLast | ARM/Drivers/BootMonFs/BootMonFsOpenClose.c:377-401 | wherever descriptions landed on the way, the one that the last append wrote is on the media after all regions |
| BootMonMount.FlushShowsLast | ARM/Drivers/BootMonFs/BootMonFsOpenClose.c:377-424 | after the flush the final description is on the media, and so is the one before if the final one went to another block |
| BootMonMount.FlushKeepsNoGhosts | ARM/Drivers/BootMonFs/BootMonFsOpenClose.c:377-424 | a flush leaves no stray description if and only if its final description replaces the one before, whatever the descriptions landed on |
| BootMonMount.ScanIsRising | ARM/Drivers/BootMonFs/BootMonFsImages.c:138-222 | a mount finds what the blocks show, in disk order and no block twice |
| BootMonMount.FoundInOneWay | ARM/Drivers/BootMonFs/BootMonFsImages.c:138-222 | which files are found decides the list, down to its order |
| BootMonMount.RemountIffNoGhosts | ARM/Drivers/BootMonFs/BootMonFsImages.c:138-222 | the scan gives back exactly the files of the volume, with the same descriptions, each once and in disk order, if and only if nothing else looks like one |
| BootMonRegions.OverlayIsData | ARM/Drivers/BootMonFs/BootMonFsOpenClose.c:326-341 | what a flush should leave at the place of the file is the overlay of its contents |
| BootMonRegions.OverlaySnoc | ARM/Drivers/BootMonFs/BootMonFsReadWrite.c:168-177 | a write queued last wins over all before it and changes no other byte |
| BootMonRegions.TruncatedContents | ARM/Drivers/BootMonFs/BootMonFsDir.c:367-386 | truncation leaves every waiting region within the new size and the contents below it as they were |
| BootMonRegions.ResizedContents | ARM/Drivers/BootMonFs/BootMonFsDir.c:347-428 | setting the size keeps the common part, adds exactly zeros, and leaves no region behind the new size |
| BootMonRegions.LengthCoversRegions | ARM/Drivers/BootMonFs/BootMonFsDir.c:38-68 | below 2^32 the length of an opened file covers every region that still waits; it is the furthest end if and only if no region reached behind a length that was not zero, or a later one ends where the sum does |
| BootMonVolume.Disk.WriteDisk | ARM/Drivers/BootMonFs/BootMonFsOpenClose.c:387-393 | a write inside the media that the disk carries out changes exactly the bytes it covers, a refused one nothing |
| BootMonVolume.Disk.ReadDisk | ARM/Drivers/BootMonFs/BootMonFsReadWrite.c:95-101 | a read inside the media that the disk carries out returns the bytes of the media |
| BootMonVolume.File.SetPosition | ARM/Drivers/BootMonFs/BootMonFsReadWrite.c:193-222 | the position asked for, the end of the file for all-ones, unchanged if the file is not open |
| BootMonVolume.File.WriteFile | ARM/Drivers/BootMonFs/BootMonFsReadWrite.c:131-180 | the bytes are queued last at the position, which advances; the size becomes the larger of the two; failures change nothing |
| BootMonVolume.File.CutRegions | ARM/Drivers/BootMonFs/BootMonFsDir.c:372-386 | the loop computes the truncated region list |
| BootMonVolume.File.SetFileSize | ARM/Drivers/BootMonFs/BootMonFsDir.c:347-428 | the new size and resized regions with the position kept; refused memory leaves the position at the old end |
| BootMonVolume.PartOfRegionIsPart | ARM/Drivers/BootMonFs/BootMonFsOpenClose.c:377-401 | a refused write in the middle of a region leaves a prefix of all writes of the flush |
| BootMonVolume.RefusedIsPartial | ARM/Drivers/BootMonFs/BootMonFsOpenClose.c:313-431 | a flush with a refused write leaves a prefix of all its writes on the media |
| BootMonVolume.Volume.SearchSpace | ARM/Drivers/BootMonFs/BootMonFsOpenClose.c:176-210 | the loop computes the first fit |
| BootMonVolume.Volume.Relink | ARM/Drivers/BootMonFs/BootMonFsOpenClose.c:193-198 | the file ends up in front of the entry found, the rest of the list in order |
| BootMonVolume.Volume.FindSpaceForNewFile | ARM/Drivers/BootMonFs/BootMonFsOpenClose.c:154-211 | the space found, and the list relinked exactly if it is a gap |
| BootMonVolume.Volume.InvalidateImageDescription | ARM/Drivers/BootMonFs/BootMonFsOpenClose.c:23-55 | zeros over the description and no other byte changed |
| BootMonVolume.Volume.WriteFileDescription | ARM/Drivers/BootMonFs/BootMonFsOpenClose.c:76-139 | memory holds the new description in any case, the media if the disk took it |
| BootMonVolume.Volume.AppendRegion | ARM/Drivers/BootMonFs/BootMonFsOpenClose.c:377-401 | old description wiped, data written, new description written, or a prefix of these; the description in memory is the new one exactly if its write was reached |
| BootMonVolume.Volume.FlushRegion | ARM/Drivers/BootMonFs/BootMonFsOpenClose.c:321-412 | one region: no space if and only if it appends more than fits, else its writes or a prefix of them with the description in memory that belongs to it |
| BootMonVolume.Volume.EndOfAppendSpace | ARM/Drivers/BootMonFs/BootMonFsOpenClose.c:360-371 | the start of the next file in the list, or the end of the media |
| BootMonVolume.Volume.FindNewTarget | ARM/Drivers/BootMonFs/BootMonFsOpenClose.c:300-309 | a new file gets the place the search gives it |
| BootMonVolume.Volume.FindTarget | ARM/Drivers/BootMonFs/BootMonFsOpenClose.c:300-314 | the file has its place or is given one, and the list is relinked only then |
| BootMonVolume.Volume.FlushAllRegions | ARM/Drivers/BootMonFs/BootMonFsOpenClose.c:316-413 | all regions in list order, or everything before the one that did not fit or the write that was refused: media, description in memory and regions |
| BootMonVolume.Volume.FinishFlush | ARM/Drivers/BootMonFs/BootMonFsOpenClose.c:415-430 | regions dropped and the description rewritten if name or size are outdated; a refused rewrite leaves no regions and the new description in memory |
| BootMonVolume.Volume.FlushTo | ARM/Drivers/BootMonFs/BootMonFsOpenClose.c:313-430 | the flush once the place is known: all of it, or the exact media, description and regions before the failure |
| BootMonVolume.Volume.FlushFile | ARM/Drivers/BootMonFs/BootMonFsOpenClose.c:249-431 | media, description, regions and list after a flush for every outcome, other files untouched |
| BootMonVolume.Volume.ReadFromMedia | ARM/Drivers/BootMonFs/BootMonFsReadWrite.c:71-108 | the slice at the position cut at the size, position advanced by what was read, error behind the end |
| BootMonVolume.Volume.ReadFile | ARM/Drivers/BootMonFs/BootMonFsReadWrite.c:41-109 | a flush, whatever its outcome, followed by the read |
| BootMonDirectory.GetFileFromAsciiFileName | ARM/Drivers/BootMonFs/BootMonFsEntryPoint.c:81-114 | a file that goes by the name, and none if and only if there is none |
| BootMonDirectory.CreateFile | ARM/Drivers/BootMonFs/BootMonFsOpenClose.c:670-699 | a new file at the head of the list, open and empty; names stay unique |
| BootMonDirectory.OpenExisting | ARM/Drivers/BootMonFs/BootMonFsOpenClose.c:682-699 | the file is open at position zero with the length computed from description and regions |
| BootMonDirectory.OpenFile | ARM/Drivers/BootMonFs/BootMonFsOpenClose.c:637-702 | every status with its condition, unsupported if and only if a file of that name is open; names stay unique and no other file changes |
| BootMonDirectory.NameIsWritten | ARM/Drivers/BootMonFs/BootMonFsOpenClose.c:418-424 | after a successful flush the name on the media is the name in use |
| BootMonDirectory.RenewedName | ARM/Drivers/BootMonFs/BootMonFsOpenClose.c:313-430 | however a flush ends, a description that was renewed carries the name in use |
| BootMonDirectory.NameAfterFlush | ARM/Drivers/BootMonFs/BootMonFsOpenClose.c:249-431 | the name on the media after a flush: the one in use if it went through, was refused for a read-only file or renewed the description, else the one from before |
| BootMonDirectory.FlushForClose | ARM/Drivers/BootMonFs/BootMonFsOpenClose.c:461-464 | the flush at closing leaves the name in use on the media or the one from before, by its outcome; a new file without a place is not described |
| BootMonDirectory.CloseFile | ARM/Drivers/BootMonFs/BootMonFsOpenClose.c:444-469 | names stay unique if and only if the flush wrote the name in use or the name on the media before was not in use by another file |
| BootMonDirectory.SetFileName | ARM/Drivers/BootMonFs/BootMonFsDir.c:299-331 | refused if and only if the name is taken; otherwise success, with the new name exactly if the string library copies with the size computed from the unset total size; names stay unique |
| BootMonDirectory.SetFileInfo | ARM/Drivers/BootMonFs/BootMonFsDir.c:452-529 | every status with its condition, in the order of the checks: directory bit, read-only file, times, memory for the size, name; what each leaves of size, attributes, name and regions, the name by what the string library does |
| BootMonDirectory.SetSizeAndAttribute | ARM/Drivers/BootMonFs/BootMonFsDir.c:508-519 | the size with its regions and then the attributes, or nothing if memory is refused; the name stays |
| BootMonDirectory.Delete | ARM/Drivers/BootMonFs/BootMonFsOpenClose.c:741-795 | the file leaves the list and its description is wiped; on failure it stays without what was waiting |
| BootMonDirectory.UnshiftedScan | ARM/Drivers/BootMonFs/BootMonFsImages.c:155-185 | with lowest aligned block zero the scan of the driver is the plain scan |
| BootMonDirectory.ShiftHidesFiles | ARM/Drivers/BootMonFs/BootMonFsImages.c:173 | a file written by the driver is seen by the scan if and only if the lowest aligned block is zero |
| BootMonDirectory.ReadDescription | ARM/Drivers/BootMonFs/BootMonFsImages.c:157-170 | the last 136 bytes of the block, decoded, with their checksum renewed |
| BootMonDirectory.DiscoverNextImage | ARM/Drivers/BootMonFs/BootMonFsImages.c:138-189 | the next image of the scan with its place; otherwise nothing is found up to the first block whose read is refused, or the end |
| BootMonDirectory.MountNext | ARM/Drivers/BootMonFs/BootMonFsImages.c:204-218 | one turn of the mount loop appends one file and loses nothing of the scan up to the first refused block |
| BootMonDirectory.Initialize | ARM/Drivers/BootMonFs/BootMonFsImages.c:191-222 | success if and only if memory is granted for one file more than there are images before the first refused block; then exactly these are appended, which is the whole scan if and only if nothing is left to find from that block on |
| BootMonRuns.FlushedIsConsistent | ARM/Drivers/BootMonFs/BootMonFsOpenClose.c:300-431 | after a successful flush the description tells the true name, size, place and checksum |
| BootMonRuns.OutcomeIsTrue | ARM/Drivers/BootMonFs/BootMonFsOpenClose.c:300-431 | however a flush ends, the description in memory is the old one or tells the truth about its size and place |
| BootMonRuns.LeavesBehindIffBlocksDiffer | ARM/Drivers/BootMonFs/BootMonFsOpenClose.c:377-424 | a flush leaves a description behind if and only if sizes say that the file ends in another block than the description before the final one |
| BootMonRuns.ReadAfterWrite | ARM/Drivers/BootMonFs/BootMonFsReadWrite.c:67-108 | a read that follows a successful flush returns the old contents overlaid by what was written, later writes winning, whenever everything that lands on data is covered |
| BootMonRuns.ReadsOwnBlocksIffUnshifted | ARM/Drivers/BootMonFs/BootMonFsReadWrite.c:67-108 | a read returns the part of the blocks of the file that was asked for, for every media, if and only if the lowest aligned block is zero |
| BootMonRuns.FlushIsChange | ARM/Drivers/BootMonFs/BootMonFsOpenClose.c:300-431 | a flush that found a place is, however it ends, a change of the layout: a new file written, moved only, or a file resized |
| BootMonRuns.FlushKeepsLayout | ARM/Drivers/BootMonFs/BootMonFsOpenClose.c:300-431 | however a flush ends, the layout holds afterwards if and only if its change is harmless |
| BootMonRuns.StoppedFirstFlush | ARM/Drivers/BootMonFs/BootMonFsOpenClose.c:188-199 | a first flush that stopped before its description keeps the layout if and only if the space was behind all files or at the start of the media |
| BootMonRuns.SpaceIsRunaway | ARM/Drivers/BootMonFs/BootMonFsOpenClose.c:354-375 | a file on the media is let grow by any amount if and only if the next file of the list starts in front of it, or is not on the media and the file is not at its start; the files may be in any order |
| BootMonRuns.SpaceBehindAll | ARM/Drivers/BootMonFs/BootMonFsOpenClose.c:354-375 | a new file behind all others is let grow by any amount if and only if the next file of the list starts in front of its place; nothing fits if and only if that start, or the end of the media, lies at its place or less than a description behind it |
| BootMonRuns.SpaceSufficesIffNotExact | ARM/Drivers/BootMonFs/BootMonFsOpenClose.c:103 | space that passes the check is enough if and only if data and description do not fill it to the byte |
| BootMonRuns.FirstFlushKeepsLayout | ARM/Drivers/BootMonFs/BootMonFsOpenClose.c:154-431 | the first flush keeps all files apart and in disk order if and only if the file went into a gap or was last, and does not fill its space to the byte |
| BootMonRuns.LaterFlushKeepsLayout | ARM/Drivers/BootMonFs/BootMonFsOpenClose.c:310-431 | a later flush keeps the layout if and only if the new size ends before the next file |
| BootMonRuns.ListFollowsFiles | ARM/Drivers/BootMonFs/BootMonFsOpenClose.c:193-198 | what a flush does to the file objects is what the layout lemmas say about their descriptions |
| BootMonRemount.FlushedIsOnMedia | ARM/Drivers/BootMonFs/BootMonFsOpenClose.c:377-424 | after a flush the description kept in memory is on the media at its place |
| BootMonRemount.KnownIsInOrder | ARM/Drivers/BootMonFs/BootMonFsOpenClose.c:313-431 | what the driver keeps about a file, and room in the media, are all that the remount results ask of a flush |
| BootMonRemount.FlushKeepsMountable | ARM/Drivers/BootMonFs/BootMonFsOpenClose.c:249-431 | with the other files anywhere outside the blocks of the flush, it keeps every file findable and nothing else if and only if the file ends in the block of the description before the final one, whatever the descriptions landed on |
| BootMonRemount.RemoveKeepsMountable | ARM/Drivers/BootMonFs/BootMonFsOpenClose.c:779-792 | deleting a file keeps the others findable and nothing else |
| BootMonVolumeRuns.NextIsSane | ARM/Drivers/BootMonFs/BootMonFsOpenClose.c:249-795 | every operation leaves descriptions that are empty or true |
| BootMonVolumeRuns.ApartAfterFlush | ARM/Drivers/BootMonFs/BootMonFsOpenClose.c:154-431 | after a flush the files lie apart and inside the media if and only if the blocks of its place and final size do and are no other file's; relinking or not makes no difference |
| BootMonVolumeRuns.FlushIsApart | ARM/Drivers/BootMonFs/BootMonFsOpenClose.c:154-431 | if the final size fits, all blocks a flush may write lie in the media and apart from every other file, in any order of the list |
| BootMonVolumeRuns.FlushSparesOther | ARM/Drivers/BootMonFs/BootMonFsOpenClose.c:154-431 | if the final size fits, a flush writes to no block of any other file, in any order of the list |
| BootMonVolumeRuns.FlushKeepsMount | ARM/Drivers/BootMonFs/BootMonFsOpenClose.c:249-431 | a flush that fits, of a new file anywhere in the list too, keeps all descriptions on the media, and a mount finds exactly the files if and only if the file ends in the block of its last description |
| BootMonVolumeRuns.DeleteKeepsMount | ARM/Drivers/BootMonFs/BootMonFsOpenClose.c:741-795 | a deletion keeps the other files findable, and nothing else |
| BootMonVolumeRuns.FoundIsInOrder | ARM/Drivers/BootMonFs/BootMonFsImages.c:138-222 | what a mount finds on a kept volume lies apart, and the new list is in disk order |
| BootMonVolumeRuns.MountRestoresOrder | ARM/Drivers/BootMonFs/BootMonFsImages.c:138-222 | after every safe run a mount is possible, keeps the volume, and puts the list in disk order again, whatever order it had |
| BootMonVolumeRuns.OperationKeepsVolume | ARM/Drivers/BootMonFs/BootMonFsOpenClose.c:154-795 | after creating, flushing, deleting or mounting anew the files lie apart and a mount finds exactly these, if and only if, for a flush, the blocks of the place found and of the final size lie in the media and are no other file's, and the file ends in the block of its last description |
| BootMonVolumeRuns.RunKeepsVolume | ARM/Drivers/BootMonFs/BootMonFsOpenClose.c:154-795 | over every run of creating, flushing, deleting and mounting anew, with places found by the driver, lists in any order and descriptions landing anywhere: the files lie apart and a mount finds exactly these after every step if and only if every flush went to a place that takes its final size and ended in the block of its last description |
| BootMonVolumeRuns.EmptyIsGood | ARM/Drivers/BootMonFs/BootMonFsImages.c:138-222 | an empty volume is a start for runs if and only if the media shows no description |
| BootMonVolumeRuns.InOrderFitsIffRoom | ARM/Drivers/BootMonFs/BootMonFsOpenClose.c:154-375 | while the list is in disk order, the place found takes the file, new or not and anywhere in the list, if and only if the size leaves room up to the next file and does not fill the space to the byte |
| BootMonVolumeRuns.LayoutAfterFlush | ARM/Drivers/BootMonFs/BootMonFsOpenClose.c:154-431 | a flush keeps the list in disk order if and only if there is that room and a new file went in front of another or was last in the list |
| BootMonVolumeRuns.GrowsWithoutEndIff | ARM/Drivers/BootMonFs/BootMonFsOpenClose.c:354-375 | in any state of a run: a file on the media is let grow by any amount if and only if the next file of the list starts in front of it |
| BootMonVolumeRuns.OutcomeIsAddressed | ARM/Drivers/BootMonFs/BootMonFsOpenClose.c:120-126 | however a flush ends, the address kept is that of the description in memory |
| BootMonVolumeRuns.FlushedFollows | ARM/Drivers/BootMonFs/BootMonFsOpenClose.c:249-431 | what a flush of a volume promises is the operation of the run |
| BootMonVolumeRuns.FlushInRun | ARM/Drivers/BootMonFs/BootMonFsOpenClose.c:249-431 | a successful flush takes the volume to the next state of the run; addresses stay right however it ends |
| BootMonVolumeRuns.CreateInRun | ARM/Drivers/BootMonFs/BootMonFsOpenClose.c:670-699 | creating a file takes the volume to the next state of the run |
| BootMonVolumeRuns.DeleteInRun | ARM/Drivers/BootMonFs/BootMonFsOpenClose.c:741-795 | deleting a file takes the volume to the next state of the run |
| BootMonVolumeRuns.MountAgain | ARM/Drivers/BootMonFs/BootMonFsImages.c:191-222 | a fresh volume on the disk of a kept run is the operation Mount of the run: it comes up with exactly the files on the media, with their descriptions and in disk order, and the run goes on with it |
| BootMonContents.NothingIsLostIffCovered | ARM/Drivers/BootMonFs/BootMonFsOpenClose.c:313-431 | a flush settles every byte that was settled or is queued, up to the size, if and only if everything that lands on data is covered |
| BootMonContents.SettledByte | ARM/Drivers/BootMonFs/BootMonFsOpenClose.c:313-431 | a settled byte is on the media after the flush: the old one overlaid by what was queued |
| BootMonContents.OthersKeepBytes | ARM/Drivers/BootMonFs/BootMonFsOpenClose.c:313-431 | no byte of any other file changes in a flush that fits, in any order of the list and wherever its descriptions land |
| BootMonContents.OperationKeepsContents | ARM/Drivers/BootMonFs/BootMonFsOpenClose.c:249-795 | an operation that fits leaves every file with its bytes, and the flushed one with its bytes overlaid by what was queued; a mount gives every file found the bytes it had |
| BootMonContents.RunKeepsContents | ARM/Drivers/BootMonFs/BootMonFsOpenClose.c:249-795 | over every safe run, mounts included, after every step, every file holds what its own flushes left, whatever was done to the others in between |
| BootMonContents.MountHoldsAll | ARM/Drivers/BootMonFs/BootMonFsImages.c:138-222 | what a mount finds holds what the files held |
| BootMonContents.MountWithContents | ARM/Drivers/BootMonFs/BootMonFsImages.c:191-222 | a fresh mount after a run has exactly the files on the media, with their contents |
| BootMonContents.ReadsWhatIsHeld | ARM/Drivers/BootMonFs/BootMonFsReadWrite.c:71-108 | a successful read of a file returns the bytes it holds |
| BootMonContents.SettingIsSet | ARM/Drivers/BootMonFs/BootMonFsReadWrite.c:41-109 | in a kept volume every file that is open for reading, or whose waiting flush can be done and fits, can be read so |
| BootMonContents.ReadInRun | ARM/Drivers/BootMonFs/BootMonFsReadWrite.c:41-109 | a read in a run or after a mount flushes what waits and, if that went through or the file is open for reading only, returns every settled byte; the flush is the operation of the run |
| BootMonInterrupted.RefusedIsStop | ARM/Drivers/BootMonFs/BootMonFsOpenClose.c:313-431 | however a flush fails, for lack of space or a refused write, it stopped after some regions and some writes of the next one |
| BootMonInterrupted.TailAtStop | ARM/Drivers/BootMonFs/BootMonFsOpenClose.c:377-401 | a block end without data shows at a stop the description left, zeros, or what it showed before |
| BootMonInterrupted.StopKeepsMountable | ARM/Drivers/BootMonFs/BootMonFsOpenClose.c:313-431 | wherever a flush stops, all other files stay on the media and nothing else looks like a file but the one description left, if there is one |
| BootMonInterrupted.LeftTells | ARM/Drivers/BootMonFs/BootMonFsOpenClose.c:377-401 | a description is left if and only if the flush stopped between two regions and one was there or was written by then; it tells the size of the last region before the stop that extends the file, or the old one |
| BootMonInterrupted.StopIsGood | ARM/Drivers/BootMonFs/BootMonFsOpenClose.c:313-431 | after a flush that fits was stopped at any write, the files on the media are exactly the others and at most the one left; a mount finds these, and a run can start from it |
| BootMonInterrupted.StopKeepsContents | ARM/Drivers/BootMonFs/BootMonFsOpenClose.c:313-431 | the other files hold what they held |
| BootMonInterrupted.HoldsQueuedIffCarried | ARM/Drivers/BootMonFs/BootMonFsOpenClose.c:313-401 | at a stop a byte of the media is what was queued for it, for all data of the shape, if and only if no region left out covers it and data carried out has the last word on it |
| BootMonInterrupted.ReadAfterFailure | ARM/Drivers/BootMonFs/BootMonFsReadWrite.c:67-108 | a read whose flush failed returns what the stop left, at the place of the file if it has a description in memory, else at the start of the media |
| BootMonInterrupted.FlushOrStop | ARM/Drivers/BootMonFs/BootMonFsOpenClose.c:249-431 | a flush of the driver that fails and had a place to go leaves the media as such a stop does |
| BootMonNames.StepKeepsUnique | ARM/Drivers/BootMonFs/BootMonFsOpenClose.c:444-702 | creating, opening, renaming, flushing, closing and deleting keep names unique if and only if a file closed without its name being written falls back on a name that is free |
| BootMonNames.RunKeepsUnique | ARM/Drivers/BootMonFs/BootMonFsOpenClose.c:444-795 | over every run of these, names are unique after every step if and only if every such closing falls back on a free name |
| BootMonNames.OpenInNames | ARM/Drivers/BootMonFs/BootMonFsOpenClose.c:546-702 | opening by name is the step Open or Create, or changes no name |
| BootMonNames.RenameInNames | ARM/Drivers/BootMonFs/BootMonFsDir.c:299-331 | renaming is the step Rename if the string library copies, or changes no name |
| BootMonNames.FlushInNames | ARM/Drivers/BootMonFs/BootMonFsOpenClose.c:249-431 | a flush is the step Write if it renews the description, or changes no name |
| BootMonNames.CloseInNames | ARM/Drivers/BootMonFs/BootMonFsOpenClose.c:444-469 | closing is the step Close |
| BootMonNames.DeleteInNames | ARM/Drivers/BootMonFs/BootMonFsOpenClose.c:741-795 | deleting is the step Delete, or changes no name |
| BootMonNames.MountFindsUniqueNames | ARM/Drivers/BootMonFs/BootMonFsImages.c:138-222 | on a kept volume the names a mount finds are unique if and only if those in the descriptions on the media are |
| BootMonNames.ClosedNamesSurvive | ARM/Drivers/BootMonFs/BootMonFsImages.c:138-222 | if every file goes by the name in its description, unique names are unique after the mount |
| BootMonNames.FreedNameIsFoundTwice | ARM/Drivers/BootMonFs/BootMonFsDir.c:299-331 | a file is renamed and not flushed, another is created under its first name and closed: names unique throughout, and the same name twice on the media |
| BootMonDepartures.ShorterAppend | ARM/Drivers/BootMonFs/BootMonFsOpenClose.c:343-401 | a second region that ends before the first, with its description on data of the first: the file is spoilt for some data |
| BootMonDepartures.ShortAppendSpoils | ARM/Drivers/BootMonFs/BootMonFsOpenClose.c:343-401 | 2000 bytes and then 1000 at the start spoil the file |
| BootMonDepartures.LandingCanBeCovered | ARM/Drivers/BootMonFs/BootMonFsOpenClose.c:343-401 | 1000, 100 and 1000 bytes at the start do not, although a description lands on data |
| BootMonDepartures.WrittenOnceIsRun | ARM/Drivers/BootMonFs/BootMonFsOpenClose.c:249-702 | on a blank disk, creating a file and flushing it with any regions is a run, and a safe one if and only if the file ends where its last region was described |
| BootMonDepartures.SeekBackFindsTwice | ARM/Drivers/BootMonFs/BootMonFsOpenClose.c:343-424 | 1000 bytes and then 100 at the start of a new file: a run after which a mount finds something else than the file |
| BootMonDepartures.CoveredLandingIsSafe | ARM/Drivers/BootMonFs/BootMonFsOpenClose.c:343-424 | 1000, 100 and 1000 bytes at the start: a safe run, intact after every step |
| BootMonDepartures.TruncationLeavesBehind | ARM/Drivers/BootMonFs/BootMonFsOpenClose.c:418-424 | a file of 1000 bytes truncated to 100 leaves its old description |
| BootMonDepartures.ExactFitOverlaps | ARM/Drivers/BootMonFs/BootMonFsOpenClose.c:103 | 376 bytes and the description are put into one block and take two |
| BootMonDepartures.TailIsUnlinked | ARM/Drivers/BootMonFs/BootMonFsOpenClose.c:205-210 | a file placed behind another one that follows it in the list, and the next file on top of that one |
| BootMonDepartures.StoppedFlushStandsBetween | ARM/Drivers/BootMonFs/BootMonFsOpenClose.c:188-199 | a flush stopped before writing leaves a new file between two files on the media |
| BootMonDepartures.GrowsWithoutEnd | ARM/Drivers/BootMonFs/BootMonFsOpenClose.c:354-375 | the file in front of a file that is not on the media yet may grow by any amount |
| BootMonDepartures.EmptyVolumeIsFull | ARM/Drivers/BootMonFs/BootMonFsOpenClose.c:354-375 | ten bytes do not fit an empty volume with two new files |
| BootMonDepartures.LengthIsAdded | ARM/Drivers/BootMonFs/BootMonFsDir.c:38-68 | 100 bytes and a region that ends at 150 are a length of 250 |
| BootMonDepartures.ReadsNextBlock | ARM/Drivers/BootMonFs/BootMonFsReadWrite.c:74 | with lowest aligned block one a read returns the next block |
| BootMonDepartures.ClosedFilesCollide | ARM/Drivers/BootMonFs/BootMonFsOpenClose.c:461-464 | two files that did not fit are closed and go by the same name |
| BootMonDepartures.RenameKeepsName | ARM/Drivers/BootMonFs/BootMonFsDir.c:325-330 | with a string library that refuses sizes beyond a million, a rename succeeds and the name stays |
| BootMonDepartures.MountMissesFile | ARM/Drivers/BootMonFs/BootMonFsImages.c:204-222 | a refused read, and the mount reports success without the file |
| BootMonBlankDisk.TwoFilesAreKept | ARM/Drivers/BootMonFs/BootMonFsOpenClose.c:176-431 | create, flush, create, flush on a blank disk with any ten bytes each: a safe run; both files are on the media with their contents and found, and the list has them in the wrong order |
| BootMonBlankDisk.SecondGrowsWithoutEnd | ARM/Drivers/BootMonFs/BootMonFsOpenClose.c:354-375 | after that run the second file is let grow by any amount |
| BootMonBlankDisk.ThirdIsOnTop | ARM/Drivers/BootMonFs/BootMonFsOpenClose.c:176-199 | after that run a third new file is put on the first, which the next mount does not find any more |
| BootMonBlankDisk.ThirdAfterMount | ARM/Drivers/BootMonFs/BootMonFsOpenClose.c:176-210 | with a mount before it the third goes behind the others, and all three are kept with their contents |
| BootMonBlankDisk.ReadsOtherFile | ARM/Drivers/BootMonFs/BootMonFsReadWrite.c:67-108 | a second file waits, the disk refuses its first write, and reading it returns the contents of the first |
| BootMonBlankDisk.StopLosesFile | ARM/Drivers/BootMonFs/BootMonFsOpenClose.c:377-393 | ten bytes more for the only file, and the disk refuses the write behind the wipe: the next mount finds nothing |
| BdsLoadOption.FirstEndIsLast | ARM/Library/BdsLib/BdsLoadOption.c:169-180 | a path has one instance if and only if its first end node is the four bytes that end an entire path |
| BdsLoadOption.TextRoundTrip | ARM/Library/BdsLib/BdsLoadOption.c:51-52 | the description read back is the one written |
| BdsLoadOption.PackedIsParsed | ARM/Library/BdsLib/BdsLoadOption.c:17-69 | parsing a packed option finds its attributes, description, path and optional data at the right places |
| BdsLoadOption.RereadFields | ARM/Library/BdsLib/BdsLoadOption.c:188-193 | which bytes a packed option shows as path and optional data |
| BdsLoadOption.RoundTripIffOneInstance | ARM/Library/BdsLib/BdsLoadOption.c:138-193 | parsing gives back everything packed, and the copy fills the option to the last byte, if and only if the path has one instance |
| BdsLoadOption.RereadIsPackable | ARM/Library/BdsLib/BdsLoadOption.c:140-193 | an updated option can be packed again if and only if its path has one instance |
| BdsLoadOption.OptionalDataIsInside | ARM/Library/BdsLib/BdsLoadOption.c:55-62 | the optional data lies inside the option if and only if the path does |
| BdsLoadOption.CopyNodes | ARM/Library/BdsLib/BdsLoadOption.c:169-176 | the loop copies the nodes up to the first end node |
| BdsLoadOption.Pack | ARM/Library/BdsLib/BdsLoadOption.c:146-185 | the buffer holds the packed option |
| BdsLoadOption.LoadOption.ParseLoadOption | ARM/Library/BdsLib/BdsLoadOption.c:188-193 | after an update the fields are those of the packed option |
| BdsLoadOption.LoadOption.ToLoadOptionVariable | ARM/Library/BdsLib/BdsLoadOption.c:109-239 | index, variable and boot order for a new and for an existing option, and what a refused allocation leaves; option and boot order after it are those of the run of writes |
| BdsBootOrder.BootOptionAllocateBootIndex | ARM/Library/BdsLib/BdsLoadOption.c:241-272 | the nested loops compute the smallest index not listed, zero if all are |
| BdsBootOrder.UnusedIsSmallest | ARM/Library/BdsLib/BdsLoadOption.c:256-267 | the index is not listed and every smaller one is |
| BdsBootOrder.UnusedExists | ARM/Library/BdsLib/BdsLoadOption.c:256-271 | on a list without duplicates an index is left if and only if the list is shorter than 65536 |
| BdsBootOrder.WriteKeepsNoDuplicates | ARM/Library/BdsLib/BdsLoadOption.c:122-227 | one write keeps the list and adds no duplicate if and only if it is an update, a new option while an index is left, or an option whose kept index is not listed |
| BdsBootOrder.RunKeepsNoDuplicates | ARM/Library/BdsLib/BdsLoadOption.c:109-239 | over every run of writes, granted and refused, the boot order stays free of duplicates if and only if every write is of that kind |
| BdsBootOrder.KeptIndexIsTaken | ARM/Library/BdsLib/BdsLoadOption.c:122-153 | an index kept through a refused allocation is given to the next new option, and listed twice by a second try |
| BdsBootOrder.RefusedUpdateIsListedTwice | ARM/Library/BdsLib/BdsLoadOption.c:117-153 | an update that was refused lists its index once more when it is written again |
| ElfLoading.LoadList.LoadSegment | ARM/Library/ArmShellCmdRunAxf/ElfLoader.c:146-215 | invalid if and only if the file part is larger than the memory part; success appends copy and zero-fill, running out of memory a prefix |
| ElfLoading.LoadList.LoadFile | ARM/Library/ArmShellCmdRunAxf/ElfLoader.c:277-340 | success if and only if all segments are well formed and their sizes do not sum to zero modulo 2^64; the list then covers as many bytes as the segments |
| ElfLoading.NodesCoverSegment | ARM/Library/ArmShellCmdRunAxf/ElfLoader.c:171-214 | the nodes of one segment cover its memory part |
| ElfLoading.NodesCoverImage | ARM/Library/ArmShellCmdRunAxf/ElfLoader.c:171-214 | the lengths of the nodes add up to the sizes of the segments |
| ElfLoading.ReplayLoadList | ARM/Library/ArmShellCmdRunAxf/RunAxf.c:310-322 | the loop applies the nodes in order |
| ElfLoading.SegmentReplayed | ARM/Library/ArmShellCmdRunAxf/ElfLoader.c:171-214 | the nodes of one segment put file bytes, then zeros, and change nothing else |
| ElfLoading.ReplayTakes | ARM/Library/ArmShellCmdRunAxf/RunAxf.c:310-322 | where every byte of the memory comes from after the replay |
| ElfLoading.MeansHeadersIffFileSurvives | ARM/Library/ArmShellCmdRunAxf/RunAxf.c:300-322 | the loaded memory is what the program headers say for every content if and only if no visible file byte is overwritten before it is copied |
| ElfLoading.ClearSourcesSurvive | ARM/Library/ArmShellCmdRunAxf/ElfLoader.c:305-329 | it is enough that no segment is loaded over file bytes of a later one |
| BootDepartures.SecondInstanceIsLost | ARM/Library/BdsLib/BdsLoadOption.c:169-180 | a path of two instances is read back as its end node and zeros, which cannot be packed |
| BootDepartures.LongPathIsAccepted | ARM/Library/BdsLib/BdsLoadOption.c:55-62 | twelve bytes that claim a path of 65535 are parsed |
| BootDepartures.IndexIsListedTwice | ARM/Library/BdsLib/BdsLoadOption.c:109-239 | a refused option, a created one and the first again: index zero twice |
| BootDepartures.FileIsOverwritten | ARM/Library/ArmShellCmdRunAxf/RunAxf.c:300-322 | two segments, the first loaded on the file bytes of the second |

## Left out

- BlockIoRequests.IoBlocks: requires a maximum transfer size that does not wrap around to zero, because with zero the loop of the driver does not end (`LoopEndsIffPositive`).
- SdMmcHost.Host.SendDataCommand: requires an earlier successful command for multi-block commands, because the code dereferences the history there; `Valid` shows that every caller provides it.
- SdMmcHost.Host.SoftReset: says nothing about which commands a reset sends when recoveries nest inside it.
- SdMmcHost.Host.QueryCardType: does not say which kind is found after a recovery that went as far as a soft reset in the middle of the query, which initialises the card anew.
- SdMmcHost.Host.SendCid: the bit fields of CID, CSD and EXT_CSD arrive decoded, as part of the reply of the hardware.
- RpmbRequests.RpmbRequest: does not follow the bytes of the packets, only the commands and counts.
- BootMonVolume.Volume.FlushFile: memory is always granted inside a flush. A refused buffer for the wipe has the effect of a refused write; a refused buffer for the checksum returns with the new description in memory except for FooterChecksum, and before the address of the description is updated, which the model does not show.
- BootMonVolume.Volume.WriteFileDescription: writes version 2 with offset 96, the branch compiled for AArch64.
- BootMonDirectory.OpenFile: takes a flat ASCII name of fewer than 32 characters; the clean-up of paths and the mount on first use come before it.
- BootMonDirectory.SetFileInfo: covers files below 2^32 bytes, where the old size fits its 32-bit variable; whether the three times differ is a parameter.
- BootMonDirectory.SetFileName: takes names of fewer than 32 characters behind the backslash, which is what the buffer holds; what the string library does with an oversized room is a parameter.
- BootMonVolumeRuns.RunKeepsVolume: covers flushes that go through. One that stops is followed by a mount (`StopIsGood`), from where a run can go on; if the driver goes on with its own list instead, `FlushKeepsLayout` says what has become of the layout. A flush that meets another file, or leaves the media, ends what the result says: what a later step makes of such a volume is not followed.
- BootMonVolumeRuns.FlushInRun: a flush whose numbers do not fit 32 bits, whose data could be taken for a description, or of a new file with an empty name, is not an operation of a run.
- BootMonVolumeRuns.MountAgain: mounts from lowest aligned block zero (`ShiftHidesFiles` says what is seen otherwise) and with every read granted (`Initialize` says what is found otherwise).
- BootMonContents.RunKeepsContents: bytes in a gap left by seeking past the end are not known, and bytes that a description spoilt are not held; `NothingIsLostIffCovered` says when there are none of the latter.
- BootMonInterrupted.StopIsGood: asks that no data queued could be taken for a description, as the runs do.
- BootMonInterrupted.StopKeepsContents: says nothing of the file whose flush stopped; `HoldsQueuedIffCarried` says which of its bytes are on the media.
- BdsBootOrder.RunKeepsNoDuplicates: options that are read from variables start as stored, whether or not they are listed.
- BdsLoadOption.PackedIsParsed: the scan for the end of the description is modelled up to the end of the buffer; what C does beyond it is the result `Overrun`.
- BdsLoadOption.LoadOption.ToLoadOptionVariable: the variable services accept every write; the code ignores their refusals.
- ElfLoading.LoadList.LoadFile: takes decoded program headers; the checks of the ELF header and the walk by `e_phentsize` are not part of this model. The load list itself is not part of the memory that is replayed, so a segment loaded over the list is not modelled.
- The header that declares BDS_LOAD_OPTION and the device path library are not part of this model: the fields are those the code uses, and a node of type 0x7F ends an instance.
- The media is smaller than 2^32 bytes and its blocks are larger than a description, which the 32-bit fields of the description presuppose.
- Unsigned 64-bit wrap-around is modelled where the code subtracts or adds to it on purpose or by accident (free space, optional data, segment addresses), not for file positions.
- The removal of a controller (`SdMmcDriverStop`) and the supported-controller test: they call firmware services only.
- Directory listing, volume information and free-space computation of BootMonFs: they read what the modelled operations maintain.
- The loader for BootMonFs executables, the network and device plumbing of BdsLib, logging and shell text.
- Static tables: memory maps, ACPI, SMBIOS, display modes, NOR parameters.
- Timing: stalls between polls, benchmarks and I/O statistics.
