/** Inputs at which the SD/MMC driver does not do what it should. */
module SdMmcDepartures {
  import opened Options
  import opened SdCommands
  import opened FirmwareServices
  import opened SdMmcHost
  import opened BlockIoRequests
  import RpmbRequests

  // A card at rest that answers everything, except for some requests.
  function Answering(refused: set<nat>): (hardware: nat -> Reply) {
    n => Reply(n !in refused, 0x900, true, ZERO_CSD, ZERO_EXT_CSD, 0)
  }

  lemma AnsweringIsSmooth(refused: set<nat>, n: nat)
    ensures n !in refused ==> IsSmooth(Answering(refused)(n))
  {
    assert (0x900 as bv32) & 0x100 != 0 && ((0x900 as bv32) >> 9) & 0xF == 4 && (0x900 as bv32) & 0x88 == 0;
  }

  lemma ThreeRefusals()
    ensures Refuses(Answering({2, 7, 12}), 2, 3)
  {
    var hardware := Answering({2, 7, 12});
    forall n: nat
      ensures n !in {2, 7, 12} ==> IsSmooth(hardware(n))
    {
      AnsweringIsSmooth({2, 7, 12}, n);
    }
    hide IsSmooth;
    assert SmoothFrom(hardware, 17);
    assert Refuses(hardware, 17, 0);
    assert Refuses(hardware, 12, 1);
    assert Refuses(hardware, 7, 2);
  }

  lemma StatusIsAnswered(refused: set<nat>)
    requires 0 !in refused && 1 !in refused
    ensures SmoothFor(Answering(refused), 0, 2) && Used(CMD_SEND_STATUS, Answering(refused), 0) == 2
  {
    forall k: nat | k < 2
      ensures IsSmooth(Answering(refused)(k))
    {
      AnsweringIsSmooth(refused, k);
    }
  }

  // A host with an SD card of 101 blocks that is initialised and announced, and whose controller moves one
  // block at a time. The last command was a SEND_STATUS.
  method CardInSlot(grants: nat -> bool, refused: set<nat>) returns (host: Host)
    requires grants(0) && grants(1) && 0 !in refused && 1 !in refused
    ensures fresh(host) && fresh(host.firmware) && host.Valid() && host.Published()
            && host.hardware == Answering(refused)
    ensures host.firmware.grants == grants && host.firmware.requests == 2
    ensures host.installed == Installed(true, true, false) && host.slotInitialized
    ensures host.card.cardFunction == Sd && host.card.rca == 1 && host.card.speedMode == NormalSpeed
    ensures host.maximumBlockCount == 1 && host.requests == 2 && CanRecover(host)
    ensures host.media == Media(7, true, true, false, 512, LastWholeBlock(host.card.byteCapacity))
    ensures host.card.byteCapacity == 101 * 512
  {
    StatusIsAnswered(refused);
    hide IsSmooth, SmoothFor, Accepts, Used, SecondLastOf, AtMostOneRpmb;
    var firmware := new BootServices(grants);
    host := new Host(0, firmware, Answering(refused), 1);
    host.card := host.card.(rca := 1, cardFunction := Sd, speedMode := NormalSpeed, psn := 7,
                            byteCapacity := 101 * 512);
    AskStatus(host);
    Announce(host);
  }

  // One SEND_STATUS, which is answered.
  method AskStatus(host: Host)
    requires host.Valid() && host.requests == 0
    requires SmoothFor(host.hardware, 0, 2) && Used(CMD_SEND_STATUS, host.hardware, 0) == 2
    modifies host`requests, host`response, host`preLastSuccessfulCmd, host`lastSuccessfulCmd, host`trace
    ensures host.Valid() && host.requests == 2 && host.lastSuccessfulCmd.Some?
  {
    hide IsSmooth, Accepts, Used;
    SmoothStatus(host.hardware, 0, host.card.cardFunction);
    var ok := host.SendCommandHelper(CMD_SEND_STATUS, ArgOf(host.card.rca), 0);
  }

  // The slot as a successful reset leaves it.
  method Announce(host: Host)
    requires host.Valid() && host.lastSuccessfulCmd.Some? && host.id == 0 && host.card.cardFunction == Sd
    requires host.firmware.db == {} && host.firmware.requests == 0
    requires host.firmware.grants(0) && host.firmware.grants(1)
    modifies host`media, host`installed, host`slotInitialized, host.firmware
    ensures host.Valid() && host.Published() && host.firmware.requests == 2
    ensures host.installed == Installed(true, true, false) && host.slotInitialized
    ensures host.media == Media(7, true, true, false, 512, 100)
  {
    hide LastOf, SecondLastOf;
    var blockIo := host.firmware.Install(0, BlockIo);
    var devicePath := host.firmware.Install(0, DevicePath);
    host.installed := Installed(true, true, false);
    host.media := Media(7, true, true, false, 512, 100);
    host.slotInitialized := true;
  }

  /** Two blocks are written one by one. The card refuses the first three times and works again;
      the request reports success, and the first block was not written. */
  method LostChunk() returns (status: Status, ghost outcomes: seq<bool>)
    ensures status == Success && outcomes == [false, true]
  {
    hide Refuses, Follows, PlanWires, SecondLastOf, Essence;
    var host := CardInSlot(n => true, {2, 7, 12});
    ThreeRefusals();
    TwoBlocks();
    ghost var marks;
    status, outcomes, marks := IoBlocks(host, Write, 7, 0, 1024, 4, 3);
  }

  lemma TwoBlocks()
    ensures |Plan(Wrap32(0), 0, BlocksIn(BytesCounted(1024)), BlocksIn(MaxTransferSize(1)))| == 2
    ensures IsMultiBlock(CommandFor(Write, BlockCount(1024)))
    ensures Refusal(Media(7, true, true, false, 512, 100), Write, 7, 0, 1024, 4) == None
  {
    assert BytesCounted(1024) == 1024 && Wrap32(0) == 0 && Wrap32(0 + 1) == 1 && Wrap32(1 + 1) == 2;
    assert MaxTransferSize(1) == 512;
    hide BytesCounted, Wrap32, MaxTransferSize;
    assert Plan(0, 0, 2, 1) == [Chunk(0, 1, 0)] + Plan(1, 1, 1, 1);
    assert Plan(1, 1, 1, 1) == [Chunk(1, 1, 1)] + Plan(2, 2, 0, 1);
  }

  /** A request of 2^32 + 512 bytes moves one block. */
  lemma LongRequestIsCut()
    ensures Plan(0, 0, BlocksIn(BytesCounted(0x1_0000_0200)), 8) == [Chunk(0, 1, 0)]
    ensures BlocksIn(0x1_0000_0200) == 0x80_0001
  {
  }

  // A version 1 CSD of 4096 units of 2^20 bytes.
  const FOUR_GIB := Csd(0, 4095, 7, 11, 0, 0, 0)

  lemma PowersOfTwo()
    ensures Power2(9) == 512 && Power2(11) == 2048
  {
    assert Power2(2) == 4 && Power2(4) == 16 && Power2(6) == 64 && Power2(8) == 256;
  }

  /** A CSD that means 4 GiB gives a capacity of zero, and a read of block zero is accepted. */
  lemma {:induction false} CsdWrapsToNothing()
    ensures CsdProduct(FOUR_GIB) == UINT32_SPAN && CapacityFromCsd(FOUR_GIB) == 0
    ensures var media := Media(7, true, true, false, 512, LastWholeBlock(CapacityFromCsd(FOUR_GIB)));
            Refusal(media, Read, 7, 0, 512, 4) == None && !StaysInside(media, CapacityFromCsd(FOUR_GIB))
  {
    PowersOfTwo();
    hide Power2;
    InsideCapacityIffOneBlock(Media(7, true, true, false, 512, 0), 0);
  }

  /** On a card that reports no sectors, a read of block zero is accepted. */
  lemma NoSectorsNoLimit()
    ensures ExtCsdCapacity(ZERO_EXT_CSD) == 0
    ensures Refusal(Media(0, false, true, false, 512, ExtCsdLastBlock(ZERO_EXT_CSD)), Read, 0, 0, 512, 4) == None
  {
  }

  /** A read of 2^23 authenticated packets announces them all and moves none. */
  lemma PacketsNotMoved()
    ensures var wires := RpmbRequests.RequestWires(RpmbRequests.AuthRead, 1, 0x80_0000);
            wires[2] == Wire(CMD_SET_BLOCK_COUNT, 0x80_0000, 0) && wires[3] == Wire(CMD_READ_MULTI_BLOCK, 0, 0)
  {
  }

  /** A reliable write of 2^23 packets announces them all and moves none. */
  lemma ReliablePacketsNotMoved()
    ensures var wires := RpmbRequests.RequestWires(RpmbRequests.AuthWrite, 0x80_0000, 1);
            wires[0] == Wire(CMD_SET_BLOCK_COUNT, 0x8080_0000, 0) && wires[1] == Wire(CMD_WRITE_MULTI_BLOCK, 0, 0)
  {
  }

  /** A controller that moves 2^23 blocks at a time: the maximum transfer size is zero, and the loop over
      the chunks of a single block never ends. */
  lemma {:induction false} LoopNeverEnds()
    ensures MaxTransferSize(0x80_0000) == 0
    ensures forall turns: nat :: BytesLeft(512, MaxTransferSize(0x80_0000), turns) != 0
  {
    LoopEndsIffPositive(512, 0);
  }

  /** The command line cannot be reset, and the reset of both lines succeeds. */
  method CommandLineStays(firmware: BootServices) returns (ok: bool)
    requires firmware.db == {}
    ensures ok && !Answering({0})(0).ok
  {
    var host := new Host(0, firmware, Answering({0}), 1);
    ok := host.ResetLines(CMD_READ_SINGLE_BLOCK);
  }

  /** The firmware keeps BlockIo but lets go of the device path: the soft reset does nothing with
      the card and reports success. */
  method FailedResetSucceeds() returns (ok: bool, host: Host, ghost published: bool)
    ensures ok && !published && host.installed == Installed(true, false, false) && host.requests == 2
  {
    hide LastOf, SecondLastOf;
    host := CardInSlot(n => n != 2, {});
    ghost var left;
    ok, published, left := host.SoftReset();
  }

  lemma SwitchIsTaken()
    ensures SmoothFor(Answering({4}), 0, 4) && IsSingleRefusal(CMD_SEND_EXT_CSD_MMC, Answering({4}), 4)
  {
    forall k: nat | k < 4
      ensures IsSmooth(Answering({4})(k))
    {
      AnsweringIsSmooth({4}, k);
    }
    assert CMD_SEND_EXT_CSD_MMC.transfer == SingleBlock;
  }

  /** An MMC card takes the switch to RPMB and refuses the EXT_CSD that follows. The request fails and the
      partition in memory stays the user partition, while the card has been told to switch and nothing since. */
  method SwitchIsNotUndone(firmware: BootServices) returns (ok: bool, host: Host)
    requires firmware.db == {}
    modifies firmware
    ensures !ok && host.currentPartition == 0 && host.softResets == 0
    ensures [RpmbRequests.SwitchWire(0, RPMB_PARTITION)] <= Essence(host.trace)
  {
    SwitchIsTaken();
    hide SmoothFor, IsSingleRefusal, IsSmooth;
    host := new Host(0, firmware, Answering({4}), 1);
    host.card := host.card.(rca := 1, cardFunction := Mmc, speedMode := NormalSpeed);
    assert Essence([]) == [];
    ghost var opening;
    var entered, restored;
    ok, entered, restored, opening := RpmbRequests.RpmbRequest(host, RpmbRequests.CounterValue, 1, 1);
  }
}
