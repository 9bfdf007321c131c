/** The SD/MMC command engine: sending commands, recovering from errors, resetting and
    initialising a card. The host controller and the card behind it are an arbitrary
    oracle: every request to the hardware reads the next reply of `hardware`. */
module SdMmcHost {
  import opened Options
  import opened SdCommands
  import opened FirmwareServices

  datatype SpeedMode = SpeedUndefined | NormalSpeed | HighSpeed

  // Decoded card registers.
  datatype Csd = Csd(structure: nat, deviceSize: nat, sizeMult: nat, readBlLen: nat, cSize22: nat,
                     specVers: nat, tranSpeed: nat)
  datatype ExtCsd = ExtCsd(sectorCount: nat, partitionConfig: nat, powerClass: nat,
                           powerClass52: nat, powerClass26: nat, highSpeedTiming: nat)

  const ZERO_CSD := Csd(0, 0, 0, 0, 0, 0, 0)
  const ZERO_EXT_CSD := ExtCsd(0, 0, 0, 0, 0, 0)

  datatype CardInfo = CardInfo(rca: nat, cardFunction: CardFunction, hasExtendedOcr: bool, highCapacity: bool,
                               byteCapacity: nat, speedMode: SpeedMode, ocr: bv32, csd: Csd, ext: ExtCsd, psn: nat)

  const ZERO_CARD := CardInfo(0, Unknown, false, false, 0, SpeedUndefined, 0, ZERO_CSD, ZERO_EXT_CSD, 0)

  datatype Media = Media(mediaId: nat, removable: bool, present: bool, readOnly: bool, blockSize: nat, lastBlock: nat)

  // One answer of the hardware: did the request work, the response word, a yes/no line
  // level, and the registers as the card would report them now.
  datatype Reply = Reply(ok: bool, word: bv32, yes: bool, csd: Csd, ext: ExtCsd, psn: nat)

  const MMC_RELATIVE_ADDRESS: nat := 0xCCCC
  const MMC_MIN_SUPPORTED_SPEC_VERS: nat := 4
  const RPMB_PARTITION: nat := 3
  const EXT_CSD_PARTITION_CONFIG: nat := 179
  const EXT_CSD_BUS_WIDTH: nat := 183
  const EXT_CSD_HS_TIMING: nat := 185

  /** The argument of an MMC SWITCH that writes one byte of EXT_CSD. */
  function SwitchWriteByte(index: nat, value: nat): nat {
    0x300_0000 + index * 0x1_0000 + value * 0x100
  }

  /** PARTITION_CONFIG with its three access bits replaced. */
  function WithPartition(config: nat, partition: nat): nat {
    config / 8 * 8 + partition
  }

  function PartitionOf(config: nat): nat {
    config % 8
  }

  const UINT32_SPAN: nat := 0x1_0000_0000

  function Power2(n: nat): nat {
    if n == 0 then 1 else 2 * Power2(n - 1)
  }

  /** The capacity that a version 1 CSD means. */
  function CsdProduct(csd: Csd): nat {
    ((csd.deviceSize + 1) * Power2(csd.sizeMult + 2)) * Power2(csd.readBlLen)
  }

  /** The capacity in bytes that is kept; the product is formed in 32 bits. */
  function CapacityFromCsd(csd: Csd): nat {
    CsdProduct(csd) % UINT32_SPAN
  }

  /** The capacity kept is the one that the CSD means exactly if that is below 4 GiB. */
  lemma {:induction false} CsdCapacityIsTrue(csd: Csd)
    ensures CapacityFromCsd(csd) == CsdProduct(csd) <==> CsdProduct(csd) < UINT32_SPAN
  {
  }

  function CapacityAfterCsd(cardFunction: CardFunction, highCapacity: bool, csd: Csd): nat {
    if cardFunction == Sd then
      if csd.structure == 0 then CapacityFromCsd(csd) else (csd.cSize22 + 1) * 512 * 1024
    else if cardFunction == Mmc && !highCapacity then CapacityFromCsd(csd)
    else 0
  }

  /** The last whole block of a capacity, zero if there is none. */
  function LastWholeBlock(capacity: nat): (last: nat)
    ensures capacity >= BLOCK_LENGTH_BYTES ==>
              (last + 1) * BLOCK_LENGTH_BYTES <= capacity < (last + 2) * BLOCK_LENGTH_BYTES
  {
    var blocks := capacity / BLOCK_LENGTH_BYTES;
    if blocks > 0 then blocks - 1 else 0
  }

  function ExtCsdCapacity(ext: ExtCsd): nat {
    ext.sectorCount * 512
  }

  /** The 32-bit difference of the sector count and one. */
  function ExtCsdLastBlock(ext: ExtCsd): nat {
    if ext.sectorCount > 0 then ext.sectorCount - 1 else UINT32_SPAN - 1
  }

  predicate IsTranSpeedDefined(tranSpeed: nat) {
    tranSpeed % 8 <= 3 && tranSpeed / 8 % 16 != 0
  }

  const IDENTIFICATION_CLOCK: nat := 400_000
  const HIGH_SPEED_CLOCK: nat := 52_000_000

  /** Ten times the factors that bits 3 to 6 of TRAN_SPEED stand for. */
  function TimeValue(cardFunction: CardFunction, code: nat): nat {
    var values := [0, 10, 12, 13, 15, 20, 26, 30, 35, 40, 45, 52, 55, 60, 70, 80];
    if cardFunction == Sd && code == 6 then 25
    else if cardFunction == Sd && code == 11 then 50
    else if code < |values| then values[code] else 0
  }

  function TransferRate(code: nat): nat {
    if code == 0 then 100_000 else if code == 1 then 1_000_000 else if code == 2 then 10_000_000 else 100_000_000
  }

  predicate IsClockDefined(card: CardInfo) {
    card.cardFunction == Sd || card.speedMode == NormalSpeed ==> IsTranSpeedDefined(card.csd.tranSpeed)
  }

  /** The clock of a card in Hz; the product is formed in 32 bits. */
  function MaxClock(card: CardInfo): nat {
    if card.cardFunction == Sd || card.speedMode == NormalSpeed then
      var time := TimeValue(card.cardFunction, card.csd.tranSpeed / 8 % 16);
      TransferRate(card.csd.tranSpeed % 8) * time % UINT32_SPAN / 10
    else HIGH_SPEED_CLOCK
  }

  /** The relative address an SD card publishes in its CMD3 response. */
  function PublishedAddress(response: bv32): nat {
    (response >> 16) as nat
  }

  function ArgOf(address: nat): nat {
    address * 0x1_0000
  }

  /** The voltage window of an SD card, with host support for high capacity. */
  function OpCondArg(ocr: bv32): nat {
    ((ocr & 0xFF_FFFF) | 0x4000_0000) as nat
  }

  /** Powered up, inside the high voltage window. */
  predicate IsPoweredMmc(ocr: bv32) {
    ocr & 0x8000_0000 != 0 && ocr & 0xFF_8000 == 0xFF_8000
  }

  predicate UsesSectors(ocr: bv32) {
    ocr & 0x6000_0000 == 0x4000_0000
  }

  function Repeated(wire: Wire, count: nat): (wires: seq<Wire>)
    ensures |wires| == count
  {
    seq(count, i => wire)
  }

  // ---------- the commands of an initialisation ----------

  function OpCondWires(ocr: bv32, polls: nat): seq<Wire> {
    [Wire(ACMD_SEND_OP_COND_SD, 0, 0)] + Repeated(Wire(ACMD_SEND_OP_COND_SD, OpCondArg(ocr), 0), polls)
  }

  function IdentifyWires(cardFunction: CardFunction, rca: nat): seq<Wire> {
    [Wire(CMD_SEND_CID_ALL, 0, 0),
     Wire(CMD_SEND_RELATIVE_ADDR, if cardFunction == Mmc then ArgOf(MMC_RELATIVE_ADDRESS) else 0, 0),
     Wire(CMD_SEND_CID, ArgOf(rca), 0),
     Wire(CMD_SEND_CSD, ArgOf(rca), 0)]
  }

  function SdSelectWires(rca: nat): seq<Wire> {
    [Wire(CMD_SELECT, ArgOf(rca), 0), Wire(ACMD_SET_BUS_WIDTH_SD, 2, 0)]
  }

  function ExtCsdWire(rca: nat): Wire {
    Wire(CMD_SEND_EXT_CSD_MMC, ArgOf(rca), 1)
  }

  function HighSpeedWires(rca: nat): seq<Wire> {
    [Wire(CMD_SWITCH_MMC, SwitchWriteByte(EXT_CSD_HS_TIMING, 1), 0), ExtCsdWire(rca)]
  }

  function RequiredPowerClass(card: CardInfo): nat {
    (if card.speedMode == HighSpeed then card.ext.powerClass52 else card.ext.powerClass26) / 16
  }

  /** A power class is switched only if the card reports less than an 8-bit bus needs. */
  function PowerWires(card: CardInfo): seq<Wire> {
    if RequiredPowerClass(card) <= card.ext.powerClass then []
    else [Wire(CMD_SWITCH_MMC, 0x03BB_0000 + RequiredPowerClass(card) * 0x100, 0), ExtCsdWire(card.rca)]
  }

  function BusWidthWires(card: CardInfo): seq<Wire> {
    [ExtCsdWire(card.rca)] + PowerWires(card) + [Wire(CMD_SWITCH_MMC, SwitchWriteByte(EXT_CSD_BUS_WIDTH, 2), 0)]
  }

  function TuneWires(card: CardInfo): seq<Wire> {
    HighSpeedWires(card.rca) + BusWidthWires(card)
  }

  // ---------- what the hardware does with a command ----------

  /** The command is accepted: its CMD55 if it has one, sending and receiving work, and an R1
      status shows no error. */
  predicate Accepts(cmd: SdCommand, cardFunction: CardFunction, hardware: nat -> Reply, n: nat) {
    var first := n + if cmd.cls == App then 1 else 0;
    && (cmd.cls == App ==> hardware(n).ok)
    && hardware(first).ok
    && hardware(first + 1).ok
    && (cmd.response == R1 || cmd.response == R1B ==> !IsCardStatusError(cardFunction, hardware(first + 1).word))
  }

  /** How many requests one exchange takes. */
  function Used(cmd: SdCommand, hardware: nat -> Reply, n: nat): nat {
    if cmd.cls == App && !hardware(n).ok then 1
    else
      var first := if cmd.cls == App then 1 else 0;
      if hardware(n + first).ok then first + 2 else first + 1
  }

  /** A reply that works and shows a card at rest, without error for any kind of card. */
  predicate IsSmooth(reply: Reply) {
    reply.ok && IsSettled(reply.word) && reply.word & 0x88 == 0
  }

  ghost predicate SmoothFor(hardware: nat -> Reply, n: nat, count: nat) {
    forall k: nat :: n <= k < n + count ==> IsSmooth(hardware(k))
  }

  ghost predicate SmoothFrom(hardware: nat -> Reply, n: nat) {
    forall k: nat :: n <= k ==> IsSmooth(hardware(k))
  }

  /** The first request of a multi-block transfer fails, and the four of its recovery are smooth. */
  ghost predicate IsRefusal(cmd: SdCommand, hardware: nat -> Reply, n: nat) {
    IsMultiBlock(cmd) && !hardware(n).ok && SmoothFor(hardware, n + 1, 4)
  }

  /** The first request of a single-block transfer fails, and both line resets of its recovery are done. */
  predicate IsSingleRefusal(cmd: SdCommand, hardware: nat -> Reply, n: nat) {
    && cmd.cls != App && MovesData(cmd) && !IsMultiBlock(cmd)
    && !hardware(n).ok && hardware(n + 2).ok
  }

  lemma SmoothStatus(hardware: nat -> Reply, n: nat, cardFunction: CardFunction)
    ensures SmoothFor(hardware, n, 2) ==>
              Accepts(CMD_SEND_STATUS, cardFunction, hardware, n) && IsSettled(hardware(n + 1).word)
  {
    if SmoothFor(hardware, n, 2) {
      SmoothIsNoError(cardFunction, hardware(n + 1));
    }
  }

  /** An accepted command takes two requests, and two more if a switch is answered smoothly. */
  lemma SmoothSwitch(cmd: SdCommand, hardware: nat -> Reply, n: nat, cardFunction: CardFunction)
    ensures Accepts(cmd, cardFunction, hardware, n) ==> Used(cmd, hardware, n) == if cmd.cls == App then 3 else 2
    ensures cmd.cls != App && SmoothFor(hardware, n, 4) ==>
              Accepts(cmd, cardFunction, hardware, n) && Used(cmd, hardware, n) == 2 && SmoothFor(hardware, n + 2, 2)
  {
    if cmd.cls != App && SmoothFor(hardware, n, 4) {
      SmoothIsNoError(cardFunction, hardware(n + 1));
    }
  }

  lemma SmoothCommands(cmd: SdCommand, hardware: nat -> Reply, n: nat, cardFunction: CardFunction)
    ensures SmoothFrom(hardware, n) ==>
              forall c: SdCommand, k: nat :: n <= k ==> Accepts(c, cardFunction, hardware, k)
  {
    if SmoothFrom(hardware, n) {
      forall c: SdCommand, k: nat | n <= k
        ensures Accepts(c, cardFunction, hardware, k)
      {
        SmoothIsNoError(cardFunction, hardware(k + 1));
        SmoothIsNoError(cardFunction, hardware(k + 2));
      }
    }
  }

  /** How smooth hardware, and hardware that refuses at once, answers a command with data. */
  lemma FirstAnswer(cmd: SdCommand, hardware: nat -> Reply, n: nat, cardFunction: CardFunction)
    ensures SmoothFrom(hardware, n) ==>
              Accepts(cmd, cardFunction, hardware, n) && hardware(n + Used(cmd, hardware, n)).ok
    ensures SmoothFrom(hardware, n) ==> forall k: nat :: n <= k ==> SmoothFrom(hardware, k)
    ensures IsRefusal(cmd, hardware, n) || IsSingleRefusal(cmd, hardware, n) ==>
              !Accepts(cmd, cardFunction, hardware, n) && Used(cmd, hardware, n) == 1
  {
    SmoothCommands(cmd, hardware, n, cardFunction);
  }

  lemma SmoothIsNoError(cardFunction: CardFunction, reply: Reply)
    requires IsSmooth(reply)
    ensures !IsCardStatusError(cardFunction, reply.word)
  {
    LowBits(reply.word);
    NoLowBits(reply.word);
  }

  lemma NoLowBits(word: bv32)
    requires word & 0x88 == 0
    ensures word & 0x8 == 0 && word & 0x80 == 0
  {
  }

  /** The kind of card that the probes of CMD8, CMD5 and CMD1 tell. */
  function KindFound(echoed: bool, sdio: bool, powered: bool): CardFunction {
    if sdio then (if echoed then ComboSdSdio else Sdio)
    else if echoed then Sd
    else if powered then Mmc
    else Unknown
  }

  // The three flags BlockIoProtocolInstalled, DevicePathProtocolInstalled and RpmbIoProtocolInstalled.
  datatype Installed = Installed(blockIo: bool, devicePath: bool, rpmbIo: bool)

  /** What the protocol database says about one controller. */
  function InstalledFor(db: Database, handle: Handle): Installed {
    Installed((handle, BlockIo) in db, (handle, DevicePath) in db, (handle, RpmbIo) in db)
  }

  /** How many protocols a failed soft reset tries to withdraw. */
  function CleanUps(left: Installed): nat {
    (if left.rpmbIo then 1 else 0) + (if left.devicePath then 1 else 0)
  }

  // What a soft reset may change and nothing else does.
  datatype SlotView = SlotView(db: Database, initialized: bool, cardFunction: CardFunction, partition: nat,
                               present: bool, blockSize: nat)

  class Host {
    const id: Handle
    const firmware: BootServices
    const hardware: nat -> Reply
    const maximumBlockCount: nat
    var requests: nat

    var slotInitialized: bool
    var media: Media
    var card: CardInfo
    var currentPartition: nat
    var installed: Installed
    var response: bv32
    var preLastSuccessfulCmd: Option<SdCommand>
    var lastSuccessfulCmd: Option<SdCommand>
    var errorRecoveryAttemptCount: nat

    ghost var trace: seq<Sent>    // every command the card ever accepted
    ghost var recoveries: nat     // how many recovery sequences were started
    ghost var softResets: nat     // how many soft resets were started
    ghost var clock: nat          // the frequency the controller was last set to, in Hz
    ghost var peak: nat           // the highest value errorRecoveryAttemptCount ever had

    ghost predicate FlagsMatchDatabase()
      reads this, firmware
    {
      installed == InstalledFor(firmware.db, id)
    }

    ghost predicate HistoryMatchesTrace()
      reads this
    {
      IsWindow(trace, preLastSuccessfulCmd, lastSuccessfulCmd)
    }

    ghost predicate Valid()
      reads this, firmware
    {
      && errorRecoveryAttemptCount <= ERROR_RECOVERY_ATTEMPT_THRESHOLD
      && peak <= ERROR_RECOVERY_ATTEMPT_THRESHOLD + 1
      && (media.blockSize == 0 || media.blockSize == BLOCK_LENGTH_BYTES)
      && (media.present && media.blockSize != 0 ==> lastSuccessfulCmd.Some?)
      && currentPartition < 8
      && HistoryMatchesTrace()
      && FlagsMatchDatabase()
      && AtMostOneRpmb(firmware.db)
    }

    /** The slot is announced: BlockIo always, the device path if a card is present, and then
        only for an initialised card; once an MMC card is announced, some controller of the
        system offers RpmbIo. */
    ghost predicate Published()
      reads this, firmware
    {
      && installed.blockIo
      && (media.present ==> installed.devicePath)
      && (installed.devicePath ==>
            && slotInitialized
            && (card.cardFunction == Sd || card.cardFunction == Mmc)
            && (card.cardFunction == Mmc ==> exists h :: (h, RpmbIo) in firmware.db))
    }

    /** What every operation of the engine keeps, whether it succeeds or fails. */
    twostate predicate Advanced()
      reads this, firmware
    {
      && Valid()
      && errorRecoveryAttemptCount == old(errorRecoveryAttemptCount)
      && old(trace) <= trace
      && old(requests) <= requests
      && old(recoveries) <= recoveries
      && old(softResets) <= softResets
      && Others(firmware.db, id) == old(Others(firmware.db, id))
      && (old(card.speedMode) != SpeedUndefined ==> card.speedMode != SpeedUndefined)
    }

    /** A command succeeds exactly if the card accepts it. */
    twostate predicate AsAnswered(cmd: SdCommand, ok: bool)
      reads this
    {
      && ok == Accepts(cmd, old(card.cardFunction), hardware, old(requests))
      && (ok ==>
            && requests == old(requests) + (if cmd.cls == App then 3 else 2)
            && response == hardware(requests - 1).word)
    }

    /** No error recovery ran, so the installed protocols and the kind of card stayed. */
    twostate predicate Undisturbed()
      reads this, firmware
    {
      && recoveries == old(recoveries)
      && softResets == old(softResets)
      && firmware.db == old(firmware.db)
      && card.cardFunction == old(card.cardFunction)
    }

    ghost function Slot(): SlotView
      reads this, firmware
    {
      SlotView(firmware.db, slotInitialized, card.cardFunction, currentPartition, media.present, media.blockSize)
    }

    /** Short of a soft reset, sending and recovering leave the slot and its protocols alone. */
    twostate predicate Contained()
      reads this, firmware
    {
      softResets == old(softResets) ==> Slot() == old(Slot())
    }

    twostate predicate KeptBlockSize()
      reads this
    {
      softResets == old(softResets) ==> media.blockSize == old(media.blockSize)
    }

    /** Short of a soft reset, the kind of card stays. */
    twostate predicate KeptKind()
      reads this
    {
      softResets == old(softResets) ==> card.cardFunction == old(card.cardFunction)
    }

    /** The card has accepted the command meanwhile. */
    twostate predicate WasAccepted(cmd: SdCommand)
      reads this
    {
      exists i :: |old(trace)| <= i < |trace| && trace[i].Cmd() == cmd
    }

    /** Only the trace grew. */
    twostate predicate Quiet()
      reads this, firmware
    {
      && Undisturbed()
      && Slot() == old(Slot())
      && card == old(card)
      && media == old(media)
      && old(trace) <= trace
    }

    /** Apart from status polling, exactly these commands were accepted. */
    twostate predicate Issued(wires: seq<Wire>)
      reads this
    {
      Essence(trace) == Essence(old(trace)) + wires
    }

    constructor (id: Handle, firmware: BootServices, hardware: nat -> Reply, maximumBlockCount: nat)
      requires forall p :: (id, p) !in firmware.db
      requires AtMostOneRpmb(firmware.db)
      ensures Valid() && this.id == id && this.firmware == firmware && this.hardware == hardware
      ensures this.maximumBlockCount == maximumBlockCount
      ensures errorRecoveryAttemptCount == 0 && requests == 0 && trace == [] && !media.present && !slotInitialized
      ensures card == ZERO_CARD && currentPartition == 0 && softResets == 0
    {
      this.id, this.firmware, this.hardware := id, firmware, hardware;
      this.maximumBlockCount := maximumBlockCount;
      requests := 0;
      slotInitialized := false;
      media := Media(0, true, false, false, BLOCK_LENGTH_BYTES, 0);
      card := ZERO_CARD;
      currentPartition := 0;
      installed := Installed(false, false, false);
      response := 0;
      preLastSuccessfulCmd, lastSuccessfulCmd := None, None;
      errorRecoveryAttemptCount := 0;
      trace, recoveries, softResets, peak, clock := [], 0, 0, 0, 0;
    }

    // ---------- sending ----------

    method SendCommandHelper(cmd: SdCommand, arg: nat, blocks: nat) returns (ok: bool)
      requires Valid()
      modifies this`requests, this`response, this`preLastSuccessfulCmd, this`lastSuccessfulCmd, this`trace
      ensures Valid() && Quiet()
      ensures ok ==> trace == old(trace) + [Sent(Wire(cmd, arg, blocks), response)]
      ensures !ok ==> trace == old(trace)
      ensures ok == Accepts(cmd, card.cardFunction, hardware, old(requests))
      ensures requests == old(requests) + Used(cmd, hardware, old(requests))
      ensures ok ==> response == hardware(requests - 1).word
    {
      hide Accepts, Used, AtMostOneRpmb, InstalledFor, IsCardStatusError;
      ok := Exchange(cmd);
      if ok {
        preLastSuccessfulCmd := lastSuccessfulCmd;
        lastSuccessfulCmd := Some(cmd);
        trace := trace + [Sent(Wire(cmd, arg, blocks), response)];
      }
    }

    // One exchange with the card, application commands being announced by CMD55.
    // A response that carries a card status counts only if no error bit is set.
    method Exchange(cmd: SdCommand) returns (ok: bool)
      modifies this`requests, this`response
      ensures ok == Accepts(cmd, card.cardFunction, hardware, old(requests))
      ensures requests == old(requests) + Used(cmd, hardware, old(requests))
      ensures ok ==> response == hardware(requests - 1).word
    {
      if cmd.cls == App {
        var prefix := hardware(requests);
        requests := requests + 1;
        if !prefix.ok {
          return false;
        }
      }

      var send := hardware(requests);
      requests := requests + 1;
      if !send.ok {
        return false;
      }

      var receive := hardware(requests);
      requests := requests + 1;
      response := receive.word;
      if !receive.ok {
        return false;
      }

      var hasStatus := cmd.response == R1 || cmd.response == R1B;
      return !(hasStatus && IsCardStatusError(card.cardFunction, response));
    }

    method SendCommand(cmd: SdCommand, arg: nat) returns (ok: bool)
      requires Valid()
      modifies this, firmware
      ensures Advanced() && Contained()
      ensures ok ==> Quiet()
      ensures ok && !IsSwitch(cmd) ==> trace == old(trace) + [Sent(Wire(cmd, arg, 0), response)]
      ensures ok && IsSwitch(cmd) ==> IsTransfer(trace[|old(trace)|..], Wire(cmd, arg, 0), None)
      ensures ok && cmd != CMD_SEND_STATUS ==> Issued([Wire(cmd, arg, 0)])
      ensures !ok && !IsSwitch(cmd) ==> recoveries > old(recoveries)
      ensures !IsSwitch(cmd) ==> AsAnswered(cmd, ok)
      ensures cmd.cls != App && SmoothFor(hardware, old(requests), 4) && IsSwitch(cmd) ==>
                ok && requests == old(requests) + 4
      decreases ERROR_RECOVERY_ATTEMPT_THRESHOLD + 1 - errorRecoveryAttemptCount, if IsSwitch(cmd) then 4 else 1
    {
      SmoothSwitch(cmd, hardware, requests, card.cardFunction);
      hide IsCardStatusError, SecondLastOf, IsReadyForData, IsInTranState, SmoothFor, Accepts, Used, AtMostOneRpmb,
           InstalledFor, IsWindow, MovesData, IsMultiBlock;
      ok := SendCommandHelper(cmd, arg, 0);
      if !ok {
        var _ := RecoverFromErrors(cmd);
        return false;
      }

      if IsSwitch(cmd) {
        label sent:
        ok := WaitForTranStateAndReadyForData();
        if ok {
          assert trace[|old(trace)|..][1..] == trace[|old@sent(trace)|..];
          EssenceGrows(old(trace), trace, Wire(cmd, arg, 0), None);
        }
      } else {
        EssenceAppend(old(trace), Sent(Wire(cmd, arg, 0), response));
      }
    }

    method SendStatus() returns (ok: bool, status: bv32)
      requires Valid()
      modifies this, firmware
      ensures Advanced() && Contained()
      ensures ok ==> Quiet() && trace == old(trace) + [Sent(Wire(CMD_SEND_STATUS, ArgOf(card.rca), 0), status)]
      ensures !ok ==> recoveries > old(recoveries)
      ensures AsAnswered(CMD_SEND_STATUS, ok) && status == response
      decreases ERROR_RECOVERY_ATTEMPT_THRESHOLD + 1 - errorRecoveryAttemptCount, 2
    {
      ok := SendCommand(CMD_SEND_STATUS, ArgOf(card.rca));
      status := response;
    }

    method StopTransmission() returns (ok: bool)
      requires Valid()
      modifies this, firmware
      ensures Advanced() && Contained()
      ensures ok ==> Quiet() && trace == old(trace) + [Sent(Wire(CMD_STOP_TRANSMISSION, ArgOf(card.rca), 0), response)]
      ensures !ok ==> recoveries > old(recoveries)
      ensures AsAnswered(CMD_STOP_TRANSMISSION, ok)
      decreases ERROR_RECOVERY_ATTEMPT_THRESHOLD + 1 - errorRecoveryAttemptCount, 2
    {
      ok := SendCommand(CMD_STOP_TRANSMISSION, ArgOf(card.rca));
    }

    method WaitForTranStateAndReadyForData() returns (ok: bool)
      requires Valid()
      modifies this, firmware
      ensures Advanced() && Contained()
      ensures ok ==> Quiet() && IsPoll(trace[|old(trace)|..])
      ensures SmoothFor(hardware, old(requests), 2) ==> ok && requests == old(requests) + 2
      decreases ERROR_RECOVERY_ATTEMPT_THRESHOLD + 1 - errorRecoveryAttemptCount, 3
    {
      SmoothStatus(hardware, requests, card.cardFunction);
      hide Accepts, Essence, SecondLastOf, LastOf, InstalledFor, AtMostOneRpmb, IsReadyForData, IsInTranState,
           SmoothFor, IsWaiting, IsPoll;
      var status;
      ok, status := SendStatus();
      if !ok {
        return false;
      }
      WaitingOnce(old(trace), Sent(Wire(CMD_SEND_STATUS, ArgOf(card.rca), 0), status));

      var retry: nat := POLL_WAIT_COUNT;
      while ((!IsReadyForData(status) && retry != 0) || !IsInTranState(status)) && retry != 0
        invariant retry <= POLL_WAIT_COUNT
        invariant Advanced() && Quiet()
        invariant |trace| == |old(trace)| + 1 + (POLL_WAIT_COUNT - retry) && IsWaiting(trace, |old(trace)|, status)
        invariant SmoothFor(hardware, old(requests), 2) ==> retry == POLL_WAIT_COUNT && IsSettled(status)
        invariant retry == POLL_WAIT_COUNT ==> requests == old(requests) + 2
        decreases retry
      {
        retry := retry - 1;
        ghost var sent, answer := trace, status;
        ok, status := SendStatus();
        if !ok {
          return false;
        }
        WaitingAgain(sent, |old(trace)|, answer, Sent(Wire(CMD_SEND_STATUS, ArgOf(card.rca), 0), status));
      }

      if retry != 0 {
        WaitingIsOver(trace, |old(trace)|, status);
      }
      return retry != 0;
    }

    method SendDataCommand(cmd: SdCommand, arg: nat, blocks: nat) returns (ok: bool)
      requires Valid()
      requires cmd.direction == Read || cmd.direction == Write
      // The history window is dereferenced for multi-block commands.
      requires IsMultiBlock(cmd) ==> lastSuccessfulCmd.Some?
      modifies this, firmware
      ensures Advanced() && Contained()
      ensures ok ==> Quiet()
      ensures ok ==> IsTransfer(trace[|old(trace)|..], Wire(cmd, arg, blocks),
                                if NeedsStop(old(trace), cmd)
                                then Some(Wire(CMD_STOP_TRANSMISSION, ArgOf(card.rca), 0)) else None)
      ensures !ok ==> recoveries > old(recoveries)
      // A transfer goes through if the hardware is smooth; a refused one is recovered in four requests.
      ensures SmoothFrom(hardware, old(requests)) ==> ok
      ensures IsRefusal(cmd, hardware, old(requests))
              && errorRecoveryAttemptCount < ERROR_RECOVERY_ATTEMPT_THRESHOLD ==>
                !ok && requests == old(requests) + 5 && softResets == old(softResets)
      ensures IsSingleRefusal(cmd, hardware, old(requests))
              && errorRecoveryAttemptCount < ERROR_RECOVERY_ATTEMPT_THRESHOLD ==>
                !ok && softResets == old(softResets)
      decreases ERROR_RECOVERY_ATTEMPT_THRESHOLD + 1 - errorRecoveryAttemptCount, 5
    {
      ok := TransferData(cmd, arg, blocks);
      if !ok {
        var _ := RecoverFromErrors(cmd);
      }
    }

    // The command itself and the data phase, by ReadBlockData or WriteBlockData.
    method SendAndMoveData(cmd: SdCommand, arg: nat, blocks: nat) returns (ok: bool)
      requires Valid()
      modifies this`requests, this`response, this`preLastSuccessfulCmd, this`lastSuccessfulCmd, this`trace
      ensures Valid() && Quiet()
      ensures trace == old(trace) || trace == old(trace) + [Sent(Wire(cmd, arg, blocks), response)]
      ensures ok ==> trace == old(trace) + [Sent(Wire(cmd, arg, blocks), response)]
      ensures var used := Used(cmd, hardware, old(requests));
              && ok == (Accepts(cmd, card.cardFunction, hardware, old(requests)) && hardware(old(requests) + used).ok)
              && requests == old(requests) + used
                             + if Accepts(cmd, card.cardFunction, hardware, old(requests)) then 1 else 0
    {
      ok := SendCommandHelper(cmd, arg, blocks);
      if ok {
        ok := hardware(requests).ok;
        requests := requests + 1;
      }
    }

    // The part of a data command before its exit label.
    method TransferData(cmd: SdCommand, arg: nat, blocks: nat) returns (ok: bool)
      requires Valid()
      requires cmd.direction == Read || cmd.direction == Write
      requires IsMultiBlock(cmd) ==> lastSuccessfulCmd.Some?
      modifies this, firmware
      ensures Advanced() && Contained()
      ensures ok ==> Quiet()
      ensures ok ==> IsTransfer(trace[|old(trace)|..], Wire(cmd, arg, blocks),
                                if NeedsStop(old(trace), cmd)
                                then Some(Wire(CMD_STOP_TRANSMISSION, ArgOf(card.rca), 0)) else None)
      ensures SmoothFrom(hardware, old(requests)) ==> ok
      ensures IsRefusal(cmd, hardware, old(requests)) || IsSingleRefusal(cmd, hardware, old(requests)) ==>
                !ok && requests == old(requests) + 1 && softResets == old(softResets)
      decreases ERROR_RECOVERY_ATTEMPT_THRESHOLD + 1 - errorRecoveryAttemptCount, 4
    {
      FirstAnswer(cmd, hardware, requests, card.cardFunction);
      hide Accepts, Used, IsRefusal, IsSingleRefusal, SmoothFrom, IsPoll, IsTransfer;
      ok := SendAndMoveData(cmd, arg, blocks);
      label sent:
      if ok {
        hide LastOf, IsMultiBlock;
        ok := FinishTransfer(cmd);
        if ok {
          FinishedTransfer(old(trace), trace, Sent(Wire(cmd, arg, blocks), old@sent(response)),
                           if NeedsStop(old(trace), cmd) then Some(Wire(CMD_STOP_TRANSMISSION, ArgOf(card.rca), 0))
                           else None);
        }
      }
    }

    // The part of a data command after its data has moved.
    method FinishTransfer(cmd: SdCommand) returns (ok: bool)
      requires Valid() && lastSuccessfulCmd == Some(cmd)
      requires IsMultiBlock(cmd) ==> preLastSuccessfulCmd.Some?
      modifies this, firmware
      ensures Advanced() && Contained()
      ensures ok ==> Quiet()
      ensures ok ==> IsFinish(trace[|old(trace)|..],
                              if IsMultiBlock(cmd) && old(preLastSuccessfulCmd) != Some(CMD_SET_BLOCK_COUNT)
                              then Some(Wire(CMD_STOP_TRANSMISSION, ArgOf(card.rca), 0)) else None)
      ensures SmoothFrom(hardware, old(requests)) ==> ok
      decreases ERROR_RECOVERY_ATTEMPT_THRESHOLD + 1 - errorRecoveryAttemptCount, 4, 0
    {
      SmoothCommands(CMD_STOP_TRANSMISSION, hardware, requests, card.cardFunction);
      hide Accepts;
      if IsMultiBlock(cmd) && (lastSuccessfulCmd.None? || preLastSuccessfulCmd.value != CMD_SET_BLOCK_COUNT) {
        ok := StopTransmission();
        if !ok {
          return false;
        }
      }

      label stopped:
      ok := WaitForTranStateAndReadyForData();
      if ok {
        ghost var head := |old@stopped(trace)| - |old(trace)|;
        assert trace[|old@stopped(trace)|..] == trace[|old(trace)|..][head..];
        assert head == 1 ==> trace[|old(trace)|..][0] == old@stopped(trace)[|old(trace)|];
      }
    }

    // ---------- recovery ----------

    method RecoverFromErrors(cmd: SdCommand) returns (ok: bool)
      requires Valid()
      modifies this, firmware
      ensures Advanced() && Contained()
      ensures recoveries > old(recoveries)
      ensures old(errorRecoveryAttemptCount) < ERROR_RECOVERY_ATTEMPT_THRESHOLD
              && MovesData(cmd) && IsMultiBlock(cmd) && SmoothFor(hardware, old(requests), 4) ==>
                ok && requests == old(requests) + 4 && softResets == old(softResets)
      ensures old(errorRecoveryAttemptCount) < ERROR_RECOVERY_ATTEMPT_THRESHOLD
              && MovesData(cmd) && !IsMultiBlock(cmd) && hardware(old(requests) + 1).ok ==>
                ok && softResets == old(softResets)
      decreases ERROR_RECOVERY_ATTEMPT_THRESHOLD + 1 - errorRecoveryAttemptCount, 0
    {
      hide InstalledFor, AtMostOneRpmb, SmoothFor, IsWindow, LastOf, SecondLastOf, IsInTranState;
      errorRecoveryAttemptCount := errorRecoveryAttemptCount + 1;
      recoveries := recoveries + 1;
      peak := if peak < errorRecoveryAttemptCount then errorRecoveryAttemptCount else peak;

      if errorRecoveryAttemptCount > ERROR_RECOVERY_ATTEMPT_THRESHOLD {
        ok := false;
      } else {
        ok := AttemptRecovery(cmd);
      }

      errorRecoveryAttemptCount := errorRecoveryAttemptCount - 1;
    }

    // The command line is reset, then the data line if the command uses it.
    method ResetLines(cmd: SdCommand) returns (ok: bool)
      modifies this`requests
      ensures ok == hardware(old(requests) + if MovesData(cmd) then 1 else 0).ok
      ensures requests == old(requests) + if MovesData(cmd) then 2 else 1
    {
      ok := hardware(requests).ok;
      requests := requests + 1;
      if MovesData(cmd) {
        // The outcome of this reset replaces that of the command line.
        ok := hardware(requests).ok;
        requests := requests + 1;
      }
    }

    // The part of the recovery sequence between the threshold test and the exit label.
    method AttemptRecovery(cmd: SdCommand) returns (ok: bool)
      requires Valid()
      modifies this, firmware
      ensures Advanced() && Contained()
      // A multi-block command is only recovered once the card is back in state tran or was told to stop.
      ensures ok && IsMultiBlock(cmd) ==>
                lastSuccessfulCmd.Some? &&
                ((LastOf(trace) == Some(CMD_SEND_STATUS) && IsInTranState(trace[|trace| - 1].response))
                 || LastOf(trace) == Some(CMD_STOP_TRANSMISSION))
      // The last line reset decides whether the heavier soft reset is needed.
      ensures var decisive := hardware(old(requests) + if MovesData(cmd) then 1 else 0);
              && (decisive.ok && !IsMultiBlock(cmd) ==> ok && Quiet())
              && (!decisive.ok ==> softResets > old(softResets))
      ensures MovesData(cmd) && IsMultiBlock(cmd) && SmoothFor(hardware, old(requests), 4) ==>
                ok && requests == old(requests) + 4 && softResets == old(softResets)
      decreases ERROR_RECOVERY_ATTEMPT_THRESHOLD + 1 - errorRecoveryAttemptCount, 20
    {
      hide Accepts, InstalledFor, AtMostOneRpmb;
      ok := ResetLines(cmd);
      if !ok {
        ghost var published, left;
        ok, published, left := SoftReset();
      }
      if ok && IsMultiBlock(cmd) {
        ok := SettleCard();
      }
    }

    // The part of a recovery for multi-block commands: the card is asked for its state and, if
    // it is not in state tran, told to stop.
    method SettleCard() returns (ok: bool)
      requires Valid()
      modifies this, firmware
      ensures Advanced() && Contained()
      ensures ok ==>
                lastSuccessfulCmd.Some? &&
                ((LastOf(trace) == Some(CMD_SEND_STATUS) && IsInTranState(trace[|trace| - 1].response))
                 || LastOf(trace) == Some(CMD_STOP_TRANSMISSION))
      ensures SmoothFor(hardware, old(requests), 2) ==>
                ok && requests == old(requests) + 2 && softResets == old(softResets)
      decreases ERROR_RECOVERY_ATTEMPT_THRESHOLD + 1 - errorRecoveryAttemptCount, 3
    {
      SmoothStatus(hardware, requests, card.cardFunction);
      hide Accepts;
      var status;
      ok, status := SendStatus();
      if ok && !IsInTranState(status) {
        ok := StopTransmission();
      }
    }

    method UninstallAllProtocols() returns (ok: bool)
      requires Valid()
      modifies this`installed, firmware
      ensures Advanced()
      ensures ok ==> installed == Installed(false, false, false)
      ensures KeepsRefused() ==> !ok && installed == old(installed) && firmware.requests == old(firmware.requests) + 1
    {
      hide IsWindow, LastOf, SecondLastOf;
      if installed.blockIo {
        ok := firmware.Uninstall(id, BlockIo);
        if !ok {
          return;
        }
        installed := installed.(blockIo := false);
      }
      if installed.rpmbIo {
        ok := firmware.Uninstall(id, RpmbIo);
        if !ok {
          return;
        }
        installed := installed.(rpmbIo := false);
      }
      if installed.devicePath {
        ok := firmware.Uninstall(id, DevicePath);
        if !ok {
          return;
        }
        installed := installed.(devicePath := false);
      }
      return true;
    }

    /** A reset that published everything succeeds. One that failed reports whatever its last
        clean-up request to the firmware said, and fails only if there was none or it was refused. */
    method SoftReset() returns (ok: bool, ghost published: bool, ghost left: Installed)
      requires Valid()
      modifies this, firmware
      ensures Advanced() && softResets > old(softResets)
      ensures published ==> ok && Published()
      ensures !published ==> ok == ((left.rpmbIo || left.devicePath) && firmware.requests > 0
                                    && firmware.grants(firmware.requests - 1))
      ensures !published ==> installed.blockIo == left.blockIo
      ensures !published ==> installed.devicePath == (left.devicePath && !ok)
      ensures !published ==> (installed.rpmbIo ==> left.rpmbIo)
      ensures !published && !left.devicePath ==> installed.rpmbIo == (left.rpmbIo && !ok)
      ensures KeepsRefused() ==>
                && !published && left == old(installed)
                && firmware.requests == old(firmware.requests) + 1 + CleanUps(left)
      ensures KeepsRefused() ==> requests == old(requests)
      decreases ERROR_RECOVERY_ATTEMPT_THRESHOLD + 1 - errorRecoveryAttemptCount, 13
    {
      softResets := softResets + 1;
      ok := ResetAndPublish();
      published, left := ok, installed;
      if !ok {
        ok := CleanUp();
      }
    }

    /** The first protocol to be withdrawn is BlockIo, and the firmware keeps it. */
    twostate predicate KeepsRefused()
      reads this, firmware
    {
      old(installed.blockIo) && !firmware.grants(old(firmware.requests))
    }

    // The part of a failed soft reset behind its exit label. Its outcome is that of the last
    // request to the firmware.
    method CleanUp() returns (ok: bool)
      requires Valid()
      modifies this`installed, firmware
      ensures Advanced()
      ensures firmware.requests == old(firmware.requests) + CleanUps(old(installed))
      ensures ok == (CleanUps(old(installed)) > 0 && firmware.grants(firmware.requests - 1))
      ensures installed.blockIo == old(installed.blockIo)
      ensures installed.devicePath == (old(installed.devicePath) && !ok)
      ensures installed.rpmbIo ==> old(installed.rpmbIo)
      ensures !old(installed.devicePath) ==> installed.rpmbIo == (old(installed.rpmbIo) && !ok)
    {
      ok := false;
      if installed.rpmbIo {
        ok := firmware.Uninstall(id, RpmbIo);
        if ok {
          installed := installed.(rpmbIo := false);
        }
      }
      if installed.devicePath {
        ok := firmware.Uninstall(id, DevicePath);
        if ok {
          installed := installed.(devicePath := false);
        }
      }
    }

    // The part of a soft reset before its exit label.
    method ResetAndPublish() returns (ok: bool)
      requires Valid()
      modifies this, firmware
      ensures Advanced()
      ensures ok ==> Published()
      ensures KeepsRefused() ==> !ok && installed == old(installed) && firmware.requests == old(firmware.requests) + 1
      ensures KeepsRefused() ==> requests == old(requests)
      decreases ERROR_RECOVERY_ATTEMPT_THRESHOLD + 1 - errorRecoveryAttemptCount, 12
    {
      hide LastOf, SecondLastOf, InstalledFor, AtMostOneRpmb;
      ok := UninstallAllProtocols();
      if !ok {
        return;
      }

      slotInitialized := false;
      var present := hardware(requests);
      requests := requests + 1;
      media := Media(0, false, present.yes, false, 0, 0);
      if !media.present {
        ok := PublishBlockIo();
        return;
      }
      var readOnly := hardware(requests);
      requests := requests + 1;
      media := media.(readOnly := readOnly.yes);

      ok := InitializeDevice();
      if ok {
        ok := PublishProtocols();
      }
    }

    method PublishBlockIo() returns (ok: bool)
      requires Valid()
      modifies this`installed, firmware
      ensures Advanced()
      ensures installed == if ok then old(installed).(blockIo := true) else old(installed)
    {
      ok := firmware.Install(id, BlockIo);
      if ok {
        installed := installed.(blockIo := true);
      }
    }

    // Announcing an initialised card.
    method PublishProtocols() returns (ok: bool)
      requires Valid()
      requires slotInitialized && (card.cardFunction == Sd || card.cardFunction == Mmc)
      modifies this`requests, this`installed, this`currentPartition, firmware
      ensures Advanced()
      ensures ok ==> Published()
    {
      // Rendering the device path as text may run out of memory.
      var text := hardware(requests);
      requests := requests + 1;
      if !text.ok {
        return false;
      }

      ok := PublishBlockIo();
      if ok {
        ok := PublishCard();
      }
    }

    // The protocols that exist only for a card: its device path, and RpmbIo for an MMC card.
    method PublishCard() returns (ok: bool)
      requires Valid()
      requires slotInitialized && installed.blockIo && (card.cardFunction == Sd || card.cardFunction == Mmc)
      modifies this`installed, this`currentPartition, firmware
      ensures Advanced()
      ensures ok ==> Published()
    {
      ok := firmware.Install(id, DevicePath);
      if !ok {
        return;
      }
      installed := installed.(devicePath := true);

      if card.cardFunction == Mmc {
        ok := PublishRpmbIo();
      }
    }

    // RpmbIo is offered by the first MMC card only.
    method PublishRpmbIo() returns (ok: bool)
      requires Valid()
      modifies this`installed, this`currentPartition, firmware
      ensures Advanced()
      ensures ok ==> exists h :: (h, RpmbIo) in firmware.db
      ensures ok ==> installed.blockIo == old(installed.blockIo) && installed.devicePath == old(installed.devicePath)
    {
      var taken := firmware.Locate(RpmbIo);
      if taken {
        return true;
      }
      ok := firmware.Install(id, RpmbIo);
      if ok {
        installed := installed.(rpmbIo := true);
        currentPartition := PartitionOf(card.ext.partitionConfig);
      }
    }

    // ---------- initialisation ----------

    method InitializeDevice() returns (ok: bool)
      requires Valid()
      requires !slotInitialized && media.present
      modifies this, firmware
      ensures Advanced()
      ensures ok ==> slotInitialized && (card.cardFunction == Sd || card.cardFunction == Mmc)
      ensures ok ==> lastSuccessfulCmd == Some(CMD_SET_BLOCK_LENGTH)
      ensures ok ==> media.removable == (card.cardFunction == Sd) && media.mediaId == card.psn
      decreases ERROR_RECOVERY_ATTEMPT_THRESHOLD + 1 - errorRecoveryAttemptCount, 11
    {
      hide InstalledFor, AtMostOneRpmb;
      card := ZERO_CARD.(speedMode := NormalSpeed);

      var reset := hardware(requests);
      requests := requests + 1;
      if !reset.ok {
        return false;
      }
      var clocked := hardware(requests);
      requests := requests + 1;
      if !clocked.ok {
        return false;
      }
      clock := IDENTIFICATION_CLOCK;

      ghost var echoed, sdio, powered;
      ok, echoed, sdio, powered := QueryCardType();
      if !ok {
        return;
      }

      ok := ConfigureCard();
    }

    // The second half of the initialisation, once the kind of card is known.
    method ConfigureCard() returns (ok: bool)
      requires Valid()
      requires card.speedMode != SpeedUndefined
      modifies this, firmware
      ensures Advanced()
      ensures ok ==> slotInitialized && (card.cardFunction == Sd || card.cardFunction == Mmc)
      ensures ok ==> lastSuccessfulCmd == Some(CMD_SET_BLOCK_LENGTH)
      ensures ok ==> media.removable == (card.cardFunction == Sd) && media.mediaId == card.psn
      ensures ok ==> Undisturbed()
      decreases ERROR_RECOVERY_ATTEMPT_THRESHOLD + 1 - errorRecoveryAttemptCount, 10
    {
      hide IsTransfer, Contained, AsAnswered, Accepts, SecondLastOf, Essence, Issued, InstalledFor, AtMostOneRpmb,
           IsSingleRefusal, SmoothFor;
      match card.cardFunction {
        case ComboSdSdio => return false;
        case Sdio => return false;
        case Sd => ghost var polls; ok, polls := InitializeSdDevice();
        case Mmc => ok := InitializeMmcDevice();
        case Unknown => return false;
      }
      if !ok {
        return;
      }

      ok := SendCommand(CMD_SET_BLOCK_LENGTH, BLOCK_LENGTH_BYTES);
      if !ok {
        return;
      }

      media := media.(removable := card.cardFunction == Sd, mediaId := card.psn);
      slotInitialized := true;
    }

    /** The kind of card is found by what it answers: failing probes lead to recoveries, and as long as
        none of them resets the slot, the three answers decide. */
    method QueryCardType() returns (ok: bool, ghost echoed: bool, ghost sdio: bool, ghost powered: bool)
      requires Valid()
      requires card.speedMode != SpeedUndefined
      modifies this, firmware
      ensures Advanced()
      ensures ok ==> card.cardFunction != Unknown
      ensures ok && softResets == old(softResets) ==> card.cardFunction == KindFound(echoed, sdio, powered)
      ensures echoed ==> WasAccepted(CMD_SEND_IF_COND_SD)
      ensures sdio ==> WasAccepted(CMD_SEND_OP_COND_SDIO)
      ensures powered ==> WasAccepted(CMD_SEND_OP_COND_MMC)
      // A card that answers every probe is an SDIO card, so identifying a memory card takes a recovery.
      ensures recoveries == old(recoveries) && !old(card.hasExtendedOcr) ==>
                ok && sdio && card.cardFunction == (if card.hasExtendedOcr then ComboSdSdio else Sdio)
      decreases ERROR_RECOVERY_ATTEMPT_THRESHOLD + 1 - errorRecoveryAttemptCount, 9
    {
      hide IsTransfer, Contained, AsAnswered, Accepts, SecondLastOf, Essence, Issued, InstalledFor,
           AtMostOneRpmb;
      echoed, sdio, powered := false, false, false;
      ok := SendCommand(CMD_GO_IDLE_STATE, 0);
      if !ok {
        return;
      }

      card := card.(cardFunction := Unknown);

      echoed, sdio := ProbeSdio();

      if card.cardFunction != Sd && card.cardFunction != Sdio && card.cardFunction != ComboSdSdio {
        ok, powered := ProbeMmc();
        if !ok {
          return;
        }
      }

      ok := card.cardFunction != Unknown;
    }

    // Failure to answer CMD8 or CMD5 is not an error of the probe.
    method ProbeSdio() returns (ghost echoed: bool, ghost sdio: bool)
      requires Valid()
      modifies this, firmware
      ensures Advanced()
      ensures softResets == old(softResets) && old(card.cardFunction) == Unknown ==>
                card.cardFunction == KindFound(echoed, sdio, false)
      ensures echoed ==> WasAccepted(CMD_SEND_IF_COND_SD)
      ensures sdio ==> WasAccepted(CMD_SEND_OP_COND_SDIO)
      ensures recoveries == old(recoveries) ==> sdio
      ensures recoveries == old(recoveries) && !old(card.hasExtendedOcr) && old(card.cardFunction) != Sd ==>
                card.cardFunction == (if card.hasExtendedOcr then ComboSdSdio else Sdio)
      decreases ERROR_RECOVERY_ATTEMPT_THRESHOLD + 1 - errorRecoveryAttemptCount, 6
    {
      hide IsTransfer, AsAnswered, Accepts, LastOf, SecondLastOf, Essence, Issued, InstalledFor, AtMostOneRpmb;
      var ok := SendIfCondSd();
      echoed := ok;
      if ok {
        card := card.(cardFunction := Sd);
      }
      label probed:
      ok := SendCommand(CMD_SEND_OP_COND_SDIO, 0);
      sdio := ok;
      if ok {
        assert trace[|old@probed(trace)|].Cmd() == CMD_SEND_OP_COND_SDIO;
        card := card.(cardFunction := if card.cardFunction == Sd then ComboSdSdio else Sdio);
      }
    }

    // Failure to answer CMD1 is not an error of the probe itself.
    method ProbeMmc() returns (ok: bool, ghost powered: bool)
      requires Valid()
      modifies this, firmware
      ensures Advanced()
      ensures ok && softResets == old(softResets) ==>
                card.cardFunction == if powered then Mmc else old(card.cardFunction)
      ensures powered ==> WasAccepted(CMD_SEND_OP_COND_MMC)
      ensures recoveries == old(recoveries) ==>
                && ok && card.cardFunction == (if IsPoweredMmc(card.ocr) then Mmc else old(card.cardFunction))
      decreases ERROR_RECOVERY_ATTEMPT_THRESHOLD + 1 - errorRecoveryAttemptCount, 6
    {
      hide IsTransfer, LastOf, SecondLastOf, Essence, Issued, Accepts, InstalledFor, AtMostOneRpmb;
      powered := false;
      ok := SendCommand(CMD_GO_IDLE_STATE, 0);
      if !ok {
        return;
      }
      ghost var polls;
      var found;
      found, polls := SendOpCondMmc();
      powered := found;
      if found {
        card := card.(cardFunction := Mmc);
      }
    }

    method SendIfCondSd() returns (ok: bool)
      requires Valid()
      modifies this, firmware
      ensures Advanced()
      ensures ok ==> Undisturbed() && card == old(card).(hasExtendedOcr := true)
      ensures ok ==> Issued([Wire(CMD_SEND_IF_COND_SD, 0x1AA, 0)]) && response & 0xFFF == 0x1AA
      ensures !ok && recoveries == old(recoveries) ==> response & 0xFFF != 0x1AA && card == old(card)
      ensures KeptKind() && (ok ==> WasAccepted(CMD_SEND_IF_COND_SD))
      decreases ERROR_RECOVERY_ATTEMPT_THRESHOLD + 1 - errorRecoveryAttemptCount, 5
    {
      ok := SendCommand(CMD_SEND_IF_COND_SD, 0x1AA);
      if !ok {
        return;
      }
      if response & 0xFFF != 0x1AA {
        return false;
      }
      card := card.(hasExtendedOcr := true);
    }

    // One CMD1.
    method AskOpCondMmc() returns (ok: bool)
      requires Valid()
      modifies this, firmware
      ensures Advanced() && KeptKind()
      ensures ok ==> Undisturbed() && card == old(card).(ocr := response)
      ensures ok ==> Issued([Wire(CMD_SEND_OP_COND_MMC, 0x40FF_8000, 0)]) && WasAccepted(CMD_SEND_OP_COND_MMC)
      ensures !ok ==> recoveries > old(recoveries)
      decreases ERROR_RECOVERY_ATTEMPT_THRESHOLD + 1 - errorRecoveryAttemptCount, 4
    {
      hide IsTransfer, AsAnswered, LastOf, SecondLastOf, Essence, Accepts, InstalledFor, AtMostOneRpmb;
      ok := SendCommand(CMD_SEND_OP_COND_MMC, 0x40FF_8000);
      if ok {
        assert trace[|old(trace)|].Cmd() == CMD_SEND_OP_COND_MMC;
        card := card.(ocr := response);
      }
    }

    method SendOpCondMmc() returns (ok: bool, ghost polls: nat)
      requires Valid()
      modifies this, firmware
      ensures Advanced()
      ensures ok ==> Undisturbed() && IsPoweredMmc(card.ocr) && card.highCapacity == UsesSectors(card.ocr)
      ensures ok ==> 1 <= polls <= POLL_WAIT_COUNT
      ensures ok ==> Issued(Repeated(Wire(CMD_SEND_OP_COND_MMC, 0x40FF_8000, 0), polls))
      ensures recoveries == old(recoveries) ==> Undisturbed() && ok == IsPoweredMmc(card.ocr)
      ensures KeptKind() && (ok ==> WasAccepted(CMD_SEND_OP_COND_MMC))
      decreases ERROR_RECOVERY_ATTEMPT_THRESHOLD + 1 - errorRecoveryAttemptCount, 5
    {
      hide IsTransfer, AsAnswered, Accepts, LastOf, SecondLastOf, Essence, Repeated, InstalledFor, AtMostOneRpmb,
           UsesSectors;
      polls := 0;
      NoneYet();
      var retry: nat := POLL_WAIT_COUNT;
      while retry != 0
        invariant Advanced() && Undisturbed()
        invariant retry + polls == POLL_WAIT_COUNT
        invariant Issued(Repeated(Wire(CMD_SEND_OP_COND_MMC, 0x40FF_8000, 0), polls))
        invariant polls > 0 ==> !IsPoweredMmc(card.ocr)
      {
        ok := AskOpCondMmc();
        if !ok {
          return;
        }
        OnceMore(Wire(CMD_SEND_OP_COND_MMC, 0x40FF_8000, 0), polls);
        polls := polls + 1;
        if card.ocr & 0x8000_0000 != 0 {
          card := card.(highCapacity := UsesSectors(card.ocr));
          ok := IsPoweredMmc(card.ocr);
          return;
        }
        retry := retry - 1;
      }
      ok := false;
    }

    method SendOpCondSd() returns (ok: bool, ghost polls: nat)
      requires Valid()
      modifies this, firmware
      ensures Advanced()
      ensures ok ==> Undisturbed() && card.rca == old(card.rca)
      ensures ok ==> 1 <= polls <= POLL_WAIT_COUNT && Issued(OpCondWires(card.ocr, polls))
      ensures ok ==> response & 0x8000_0000 != 0
      ensures ok && card.hasExtendedOcr ==> card.highCapacity == (response & 0x4000_0000 != 0)
      decreases ERROR_RECOVERY_ATTEMPT_THRESHOLD + 1 - errorRecoveryAttemptCount, 5
    {
      hide IsTransfer, Contained, AsAnswered, LastOf, SecondLastOf, Essence, OpCondArg;
      polls := 0;
      ok := SendCommand(ACMD_SEND_OP_COND_SD, 0);
      if ok {
        card := card.(ocr := response);
        ok, polls := PowerUpSd(OpCondArg(card.ocr));
      }
    }

    // Polling an SD card until it is powered up.
    method PowerUpSd(arg: nat) returns (ok: bool, ghost polls: nat)
      requires Valid()
      modifies this, firmware
      ensures Advanced()
      ensures ok ==> Undisturbed() && card.rca == old(card.rca) && card.ocr == old(card.ocr)
      ensures ok ==> 1 <= polls <= POLL_WAIT_COUNT && Issued(Repeated(Wire(ACMD_SEND_OP_COND_SD, arg, 0), polls))
      ensures ok ==> response & 0x8000_0000 != 0
      ensures ok && card.hasExtendedOcr ==> card.highCapacity == (response & 0x4000_0000 != 0)
      decreases ERROR_RECOVERY_ATTEMPT_THRESHOLD + 1 - errorRecoveryAttemptCount, 4
    {
      hide IsTransfer, Contained, AsAnswered, LastOf, SecondLastOf, Essence, Repeated;
      polls := 0;
      NoneYet();
      var retry: nat := POLL_WAIT_COUNT;
      while retry != 0
        invariant Advanced() && Undisturbed() && card.rca == old(card.rca) && card.ocr == old(card.ocr)
        invariant retry + polls == POLL_WAIT_COUNT
        invariant Issued(Repeated(Wire(ACMD_SEND_OP_COND_SD, arg, 0), polls))
      {
        ok := SendCommand(ACMD_SEND_OP_COND_SD, arg);
        if !ok {
          return;
        }
        OnceMore(Wire(ACMD_SEND_OP_COND_SD, arg, 0), polls);
        polls := polls + 1;
        if response & 0x8000_0000 != 0 {
          if card.hasExtendedOcr {
            card := card.(highCapacity := response & 0x4000_0000 != 0);
          }
          return;
        }
        retry := retry - 1;
      }
      ok := false;
    }

    method SendRelativeAddr() returns (ok: bool)
      requires Valid()
      modifies this, firmware
      ensures Advanced()
      ensures ok ==> Undisturbed()
      ensures ok ==>
                var arg := if card.cardFunction == Mmc then ArgOf(MMC_RELATIVE_ADDRESS) else 0;
                Issued([Wire(CMD_SEND_RELATIVE_ADDR, arg, 0)])
      ensures ok ==> card.rca == if card.cardFunction == Mmc then MMC_RELATIVE_ADDRESS else PublishedAddress(response)
      decreases ERROR_RECOVERY_ATTEMPT_THRESHOLD + 1 - errorRecoveryAttemptCount, 5
    {
      hide IsTransfer, Contained, AsAnswered, Accepts, LastOf, SecondLastOf, Essence, InstalledFor, AtMostOneRpmb,
           PublishedAddress;
      var arg := 0;
      if card.cardFunction == Mmc {
        card := card.(rca := MMC_RELATIVE_ADDRESS);
        arg := ArgOf(card.rca);
      }
      ok := SendCommand(CMD_SEND_RELATIVE_ADDR, arg);
      if ok && card.cardFunction != Mmc {
        card := card.(rca := PublishedAddress(response));
      }
    }

    method SendCid() returns (ok: bool)
      requires Valid()
      modifies this, firmware
      ensures Advanced()
      ensures ok ==> Undisturbed()
      ensures ok ==> Issued([Wire(CMD_SEND_CID, ArgOf(card.rca), 0)]) && card.rca == old(card.rca)
      ensures ok ==> card.psn == hardware(requests).psn
      decreases ERROR_RECOVERY_ATTEMPT_THRESHOLD + 1 - errorRecoveryAttemptCount, 5
    {
      ok := SendCommand(CMD_SEND_CID, ArgOf(card.rca));
      if ok {
        card := card.(psn := hardware(requests).psn);
      }
    }

    method SendCsd() returns (ok: bool)
      requires Valid()
      modifies this, firmware
      ensures Advanced()
      ensures ok ==> Undisturbed()
      ensures ok ==> card.byteCapacity == CapacityAfterCsd(card.cardFunction, card.highCapacity, card.csd)
      ensures ok ==> media.blockSize == BLOCK_LENGTH_BYTES
      ensures ok ==> media.lastBlock == LastWholeBlock(card.byteCapacity)
      ensures ok ==> Issued([Wire(CMD_SEND_CSD, ArgOf(card.rca), 0)]) && card.rca == old(card.rca)
      decreases ERROR_RECOVERY_ATTEMPT_THRESHOLD + 1 - errorRecoveryAttemptCount, 5
    {
      hide CapacityAfterCsd, IsTransfer, SecondLastOf, AsAnswered;
      ok := SendCommand(CMD_SEND_CSD, ArgOf(card.rca));
      if !ok {
        return;
      }
      var csd := hardware(requests).csd;
      card := card.(csd := csd, byteCapacity := CapacityAfterCsd(card.cardFunction, card.highCapacity, csd));
      media := media.(blockSize := BLOCK_LENGTH_BYTES, lastBlock := LastWholeBlock(card.byteCapacity));
    }

    method SendExtCsdMmc() returns (ok: bool)
      requires Valid()
      modifies this, firmware
      ensures Advanced() && Contained()
      ensures ok ==> Undisturbed() && currentPartition == old(currentPartition)
      ensures ok ==> card.rca == old(card.rca) && card.csd == old(card.csd) && card.speedMode == old(card.speedMode)
      ensures ok ==> Issued([Wire(CMD_SEND_EXT_CSD_MMC, ArgOf(card.rca), 1)])
      ensures ok ==> card.byteCapacity == ExtCsdCapacity(card.ext) && media.lastBlock == ExtCsdLastBlock(card.ext)
      ensures !ok ==> recoveries > old(recoveries)
      ensures IsSingleRefusal(CMD_SEND_EXT_CSD_MMC, hardware, old(requests))
              && errorRecoveryAttemptCount < ERROR_RECOVERY_ATTEMPT_THRESHOLD ==>
                !ok && softResets == old(softResets)
      decreases ERROR_RECOVERY_ATTEMPT_THRESHOLD + 1 - errorRecoveryAttemptCount, 6
    {
      ok := SendDataCommand(CMD_SEND_EXT_CSD_MMC, ArgOf(card.rca), 1);
      if ok {
        EssenceGrows(old(trace), trace, Wire(CMD_SEND_EXT_CSD_MMC, ArgOf(card.rca), 1), None);
        var ext := hardware(requests).ext;
        card := card.(ext := ext, byteCapacity := ExtCsdCapacity(ext));
        media := media.(lastBlock := ExtCsdLastBlock(ext));
      }
    }

    method SetMaxClockFrequency() returns (ok: bool)
      requires card.speedMode != SpeedUndefined
      modifies this`requests, this`clock
      ensures ok == (IsClockDefined(card) && hardware(old(requests)).ok)
      ensures clock == if ok then MaxClock(card) else old(clock)
      ensures requests == old(requests) + if IsClockDefined(card) then 1 else 0
    {
      if card.cardFunction == Sd || card.speedMode == NormalSpeed {
        if !IsTranSpeedDefined(card.csd.tranSpeed) {
          return false;
        }
      }
      ok := hardware(requests).ok;
      requests := requests + 1;
      if ok {
        clock := MaxClock(card);
      }
    }

    // The four identification steps common to SD and MMC cards.
    method IdentifyCard() returns (ok: bool)
      requires Valid()
      modifies this, firmware
      ensures Advanced()
      ensures ok ==> Undisturbed()
      ensures ok ==> Issued(IdentifyWires(card.cardFunction, card.rca))
      decreases ERROR_RECOVERY_ATTEMPT_THRESHOLD + 1 - errorRecoveryAttemptCount, 7
    {
      hide IsTransfer, Contained, AsAnswered, LastOf, SecondLastOf, Essence, InstalledFor, AtMostOneRpmb;
      ok := SendCommand(CMD_SEND_CID_ALL, 0);
      if !ok {
        return;
      }
      ok := SendRelativeAddr();
      if !ok {
        return;
      }
      ok := SendCid();
      if !ok {
        return;
      }
      ok := SendCsd();
    }

    method InitializeSdDevice() returns (ok: bool, ghost polls: nat)
      requires Valid()
      requires card.speedMode != SpeedUndefined
      modifies this, firmware
      ensures Advanced()
      ensures ok ==> Undisturbed() && 1 <= polls <= POLL_WAIT_COUNT
      ensures ok ==> exists ocr ::
                       Issued(OpCondWires(ocr, polls) + IdentifyWires(card.cardFunction, card.rca)
                              + SdSelectWires(card.rca))
      decreases ERROR_RECOVERY_ATTEMPT_THRESHOLD + 1 - errorRecoveryAttemptCount, 9
    {
      hide IsTransfer, Contained, AsAnswered, LastOf, SecondLastOf, Essence, OpCondWires, IdentifyWires, SdSelectWires;
      ok, polls := SendOpCondSd();
      if !ok {
        return;
      }
      ghost var ocr := card.ocr;
      ok := IdentifyCard();
      if !ok {
        return;
      }
      ok := SelectSdDevice();
      assert ok ==>
          Issued(OpCondWires(ocr, polls) + IdentifyWires(card.cardFunction, card.rca) + SdSelectWires(card.rca));
    }

    // Selecting an SD card and setting its bus width and clock.
    method SelectSdDevice() returns (ok: bool)
      requires Valid()
      requires card.speedMode != SpeedUndefined
      modifies this, firmware
      ensures Advanced()
      ensures ok ==> Quiet() && Issued(SdSelectWires(card.rca))
      decreases ERROR_RECOVERY_ATTEMPT_THRESHOLD + 1 - errorRecoveryAttemptCount, 8
    {
      hide IsTransfer, Contained, AsAnswered, LastOf, SecondLastOf, Essence, InstalledFor, AtMostOneRpmb;
      ok := SendCommand(CMD_SELECT, ArgOf(card.rca));
      if !ok {
        return;
      }
      ok := SendCommand(ACMD_SET_BUS_WIDTH_SD, 2);
      if !ok {
        return;
      }
      ok := hardware(requests).ok;
      requests := requests + 1;
      if !ok {
        return;
      }
      ok := SetMaxClockFrequency();
    }

    method InitializeMmcDevice() returns (ok: bool)
      requires Valid()
      requires card.speedMode != SpeedUndefined
      modifies this, firmware
      ensures Advanced()
      ensures ok ==> Undisturbed() && card.speedMode == HighSpeed && card.csd.specVers >= MMC_MIN_SUPPORTED_SPEC_VERS
      ensures ok ==> exists powering: CardInfo ::
                       powering.speedMode == HighSpeed && powering.rca == card.rca
                       && Issued(IdentifyWires(card.cardFunction, card.rca)
                                 + [Wire(CMD_SELECT, ArgOf(card.rca), 0), ExtCsdWire(card.rca)]
                                 + TuneWires(powering))
      decreases ERROR_RECOVERY_ATTEMPT_THRESHOLD + 1 - errorRecoveryAttemptCount, 9
    {
      hide IsTransfer, Contained, AsAnswered, LastOf, SecondLastOf, Essence, IdentifyWires, TuneWires;
      ok := IdentifyCard();
      if !ok {
        return;
      }
      if card.csd.specVers < MMC_MIN_SUPPORTED_SPEC_VERS {
        return false;
      }
      ghost var powering;
      ok, powering := SelectMmcDevice();
      assert ok ==> Issued(IdentifyWires(card.cardFunction, card.rca)
                           + [Wire(CMD_SELECT, ArgOf(card.rca), 0), ExtCsdWire(card.rca)] + TuneWires(powering));
    }

    // Selecting an identified MMC card and tuning it.
    method SelectMmcDevice() returns (ok: bool, ghost powering: CardInfo)
      requires Valid()
      requires card.speedMode != SpeedUndefined
      modifies this, firmware
      ensures Advanced()
      ensures ok ==> Undisturbed() && card.rca == old(card.rca) && card.csd == old(card.csd)
      ensures ok ==> card.speedMode == powering.speedMode == HighSpeed && powering.rca == card.rca
      ensures ok ==> Issued([Wire(CMD_SELECT, ArgOf(card.rca), 0), ExtCsdWire(card.rca)] + TuneWires(powering))
      decreases ERROR_RECOVERY_ATTEMPT_THRESHOLD + 1 - errorRecoveryAttemptCount, 8, 2
    {
      hide IsTransfer, Contained, AsAnswered, LastOf, SecondLastOf, Essence, TuneWires;
      ok := SendCommand(CMD_SELECT, ArgOf(card.rca));
      powering := card;
      if !ok {
        return;
      }
      ok := SendExtCsdMmc();
      if !ok {
        return;
      }
      ok, powering := TuneMmcDevice();
    }

    // High speed timing, bus width and clock of a selected MMC card.
    method TuneMmcDevice() returns (ok: bool, ghost powering: CardInfo)
      requires Valid()
      requires card.speedMode != SpeedUndefined
      modifies this, firmware
      ensures Advanced()
      ensures ok ==> Undisturbed() && card.rca == old(card.rca) && card.csd == old(card.csd)
      ensures ok ==> card.speedMode == powering.speedMode == HighSpeed && powering.rca == card.rca
      ensures ok ==> Issued(TuneWires(powering))
      decreases ERROR_RECOVERY_ATTEMPT_THRESHOLD + 1 - errorRecoveryAttemptCount, 8, 1
    {
      hide IsTransfer, Contained, AsAnswered, LastOf, SecondLastOf, Essence, PowerWires;
      powering := card;
      ok := SwitchSpeedModeMmc();
      if !ok {
        return;
      }
      ok, powering := SwitchBusWidthMmc();
      if !ok {
        return;
      }
      ok := SetMaxClockFrequency();
    }

    method SwitchSpeedModeMmc() returns (ok: bool)
      requires Valid()
      modifies this, firmware
      ensures Advanced()
      ensures ok ==> Undisturbed() && card.rca == old(card.rca) && card.csd == old(card.csd)
      ensures ok ==> card.speedMode == HighSpeed && card.ext.highSpeedTiming != 0 && Issued(HighSpeedWires(card.rca))
      decreases ERROR_RECOVERY_ATTEMPT_THRESHOLD + 1 - errorRecoveryAttemptCount, 7
    {
      ok := SendCommand(CMD_SWITCH_MMC, SwitchWriteByte(EXT_CSD_HS_TIMING, 1));
      if !ok {
        return;
      }
      card := card.(speedMode := HighSpeed);
      ok := SendExtCsdMmc();
      if !ok {
        return;
      }
      return card.ext.highSpeedTiming != 0;
    }

    // The power class switch an 8-bit bus may need.
    method RaisePowerClass() returns (ok: bool)
      requires Valid()
      modifies this, firmware
      ensures Advanced()
      ensures ok ==> Undisturbed() && card.rca == old(card.rca) && card.csd == old(card.csd)
                     && card.speedMode == old(card.speedMode)
      ensures ok ==> RequiredPowerClass(old(card)) <= card.ext.powerClass && Issued(PowerWires(old(card)))
      decreases ERROR_RECOVERY_ATTEMPT_THRESHOLD + 1 - errorRecoveryAttemptCount, 7
    {
      var required := RequiredPowerClass(card);
      if required <= card.ext.powerClass {
        return true;
      }
      ok := SendCommand(CMD_SWITCH_MMC, 0x03BB_0000 + required * 0x100);
      if !ok {
        return;
      }
      ok := SendExtCsdMmc();
      return ok && card.ext.powerClass == required;
    }

    method SwitchBusWidthMmc() returns (ok: bool, ghost powering: CardInfo)
      requires Valid()
      modifies this, firmware
      ensures Advanced()
      ensures ok ==> Undisturbed() && card.rca == old(card.rca) && card.csd == old(card.csd)
      ensures ok ==> card.speedMode == powering.speedMode == old(card.speedMode) && powering.rca == card.rca
      ensures ok ==> Issued(BusWidthWires(powering))
      decreases ERROR_RECOVERY_ATTEMPT_THRESHOLD + 1 - errorRecoveryAttemptCount, 8, 0
    {
      hide IsTransfer, Contained, AsAnswered, LastOf, SecondLastOf, Essence, PowerWires, InstalledFor, AtMostOneRpmb,
           IsSingleRefusal, SmoothFor, IsWindow;
      powering := card;
      ok := SendExtCsdMmc();
      if !ok {
        return;
      }
      powering := card;
      ok := RaisePowerClass();
      if !ok {
        return;
      }
      ok := SendCommand(CMD_SWITCH_MMC, SwitchWriteByte(EXT_CSD_BUS_WIDTH, 2));
      if !ok {
        return;
      }
      ok := hardware(requests).ok;
      requests := requests + 1;
    }
  }

  lemma OnceMore(wire: Wire, count: nat)
    ensures Repeated(wire, count) + [wire] == Repeated(wire, count + 1)
  {
  }

  lemma NoneYet()
    ensures forall w: Wire :: Repeated(w, 0) == []
  {
  }
}
