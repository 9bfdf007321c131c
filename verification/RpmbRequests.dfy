/** Requests to the replay protected memory block: every request is bracketed by a switch
    to the RPMB partition and a switch back. */
module RpmbRequests {
  import opened Options
  import opened SdCommands
  import opened SdMmcHost

  datatype RequestType = ProgramKey | CounterValue | AuthWrite | AuthRead

  /** SET_BLOCK_COUNT takes a 32-bit count; bit 31 asks for a reliable write. */
  function BlockCountArg(packets: nat, reliable: bool): nat {
    var count := packets % UINT32_SPAN;
    if reliable && count < UINT32_SPAN / 2 then count + UINT32_SPAN / 2 else count
  }

  /** The number of blocks the controller moves: the byte length is formed in 32 bits first. */
  function BlocksMoved(packets: nat): nat {
    packets * BLOCK_LENGTH_BYTES % UINT32_SPAN / BLOCK_LENGTH_BYTES
  }

  function ReadWires(packets: nat): seq<Wire> {
    [Wire(CMD_SET_BLOCK_COUNT, BlockCountArg(1, false), 0), Wire(CMD_WRITE_MULTI_BLOCK, 0, 1),
     Wire(CMD_SET_BLOCK_COUNT, BlockCountArg(packets, false), 0), Wire(CMD_READ_MULTI_BLOCK, 0, BlocksMoved(packets))]
  }

  function WriteWires(packets: nat): seq<Wire> {
    [Wire(CMD_SET_BLOCK_COUNT, BlockCountArg(packets, true), 0),
     Wire(CMD_WRITE_MULTI_BLOCK, 0, BlocksMoved(packets))]
  }

  /** The command sequence of each kind of request, without the partition switches. */
  function RequestWires(kind: RequestType, requestPackets: nat, responsePackets: nat): seq<Wire> {
    match kind
    case ProgramKey => WriteWires(1) + ReadWires(1)
    case CounterValue => ReadWires(1)
    case AuthRead => ReadWires(responsePackets)
    case AuthWrite => WriteWires(requestPackets) + ReadWires(1)
  }

  function SwitchWires(config: nat, partition: nat, rca: nat): seq<Wire> {
    [SwitchWire(config, partition), Wire(CMD_SEND_EXT_CSD_MMC, ArgOf(rca), 1)]
  }

  /** The announced count is the moved count exactly below 2^23 packets. */
  lemma {:induction false} AnnouncedCountIsMoved(packets: nat)
    requires packets < UINT32_SPAN
    ensures BlockCountArg(packets, false) == BlocksMoved(packets) <==> packets < 0x80_0000
  {
    if packets < 0x80_0000 {
      assert packets * BLOCK_LENGTH_BYTES < UINT32_SPAN;
    } else {
      assert BlocksMoved(packets) < 0x80_0000;
    }
  }

  /** The count announced for a reliable write, below its flag in bit 31. */
  function ReliableCount(packets: nat): nat {
    BlockCountArg(packets, true) % (UINT32_SPAN / 2)
  }

  /** A reliable write always sets its flag, and its count is the moved count exactly if the number of
      packets without bit 31, which is lost to the flag, is below 2^23. */
  lemma {:induction false} ReliableCountIsMoved(packets: nat)
    requires packets < UINT32_SPAN
    ensures BlockCountArg(packets, true) >= UINT32_SPAN / 2
    ensures ReliableCount(packets) == BlocksMoved(packets) <==> packets % 0x8000_0000 < 0x80_0000
  {
    MovedIsRemainder(packets);
    var rest := packets % 0x8000_0000;
    assert ReliableCount(packets) == rest;
    assert packets % 0x80_0000 == rest % 0x80_0000;
  }

  lemma {:induction false} MovedIsRemainder(packets: nat)
    ensures BlocksMoved(packets) == packets % 0x80_0000
  {
    var high, low := packets / 0x80_0000, packets % 0x80_0000;
    assert packets * BLOCK_LENGTH_BYTES == high * UINT32_SPAN + low * BLOCK_LENGTH_BYTES;
  }

  /** No request, whatever its size, contains a STOP_TRANSMISSION, and each of its
      multi-block commands comes directly after a SET_BLOCK_COUNT. */
  lemma {:induction false} RequestsArePredefined(kind: RequestType, requestPackets: nat, responsePackets: nat, i: nat)
    requires i < |RequestWires(kind, requestPackets, responsePackets)|
    ensures var w := RequestWires(kind, requestPackets, responsePackets);
            && w[i].cmd != CMD_STOP_TRANSMISSION
            && (IsMultiBlock(w[i].cmd) ==> i > 0 && w[i - 1].cmd == CMD_SET_BLOCK_COUNT)
  {
    var write := WriteWires(if kind == ProgramKey then 1 else requestPackets);
    var read := ReadWires(if kind == AuthRead then responsePackets else 1);
    assert |write| == 2 && |read| == 4;
    if kind == CounterValue || kind == AuthRead {
      assert RequestWires(kind, requestPackets, responsePackets) == read;
    } else {
      assert RequestWires(kind, requestPackets, responsePackets) == write + read;
    }
  }

  // How a switch of the partition goes: the card does not take the command; it does, and the EXT_CSD that should
  // confirm it is not read, or shows another partition; or it is confirmed.
  datatype Switching = Refused | Unread | Mismatched | Confirmed

  function SwitchWire(config: nat, partition: nat): Wire {
    Wire(CMD_SWITCH_MMC, SwitchWriteByte(EXT_CSD_PARTITION_CONFIG, WithPartition(config, partition)), 0)
  }

  /** The partition kept in memory follows the card only if the switch is confirmed. Otherwise, short of a soft
      reset, it stays, although the card may have taken the command. */
  method SwitchPartitionMmc(host: Host, partition: nat) returns (ok: bool, ghost outcome: Switching)
    requires host.Valid()
    requires partition < 8
    modifies host, host.firmware
    ensures host.Advanced()
    ensures ok <==> outcome.Confirmed?
    ensures !ok ==> host.Contained()
    ensures ok ==> host.Undisturbed()
    ensures ok ==> host.currentPartition == partition == PartitionOf(host.card.ext.partitionConfig)
    ensures ok ==> host.card.rca == old(host.card.rca)
    ensures ok ==> host.Issued(SwitchWires(old(host.card.ext.partitionConfig), partition, host.card.rca))
    ensures !outcome.Refused? ==>
              Essence(old(host.trace)) + [SwitchWire(old(host.card.ext.partitionConfig), partition)]
              <= Essence(host.trace)
    ensures outcome.Unread? ==> host.recoveries > old(host.recoveries)
    ensures outcome.Mismatched? ==>
              && host.Undisturbed() && host.currentPartition == old(host.currentPartition)
              && PartitionOf(host.card.ext.partitionConfig) != partition
              && host.Issued(SwitchWires(old(host.card.ext.partitionConfig), partition, host.card.rca))
    // The card takes the command, the EXT_CSD is refused, and both lines can be reset.
    ensures SmoothFor(host.hardware, old(host.requests), 4)
            && IsSingleRefusal(CMD_SEND_EXT_CSD_MMC, host.hardware, old(host.requests) + 4)
            && old(host.errorRecoveryAttemptCount) < ERROR_RECOVERY_ATTEMPT_THRESHOLD ==>
              outcome.Unread? && host.softResets == old(host.softResets)
  {
    hide SmoothFor, IsSingleRefusal, Essence;
    var config := WithPartition(host.card.ext.partitionConfig, partition);
    ok := host.SendCommand(CMD_SWITCH_MMC, SwitchWriteByte(EXT_CSD_PARTITION_CONFIG, config));
    if !ok {
      return false, Refused;
    }
    ghost var switched := host.trace;
    ok := host.SendExtCsdMmc();
    EssenceOfMore(switched, host.trace);
    if !ok {
      return false, Unread;
    }
    if PartitionOf(host.card.ext.partitionConfig) != partition {
      return false, Mismatched;
    }
    host.currentPartition := partition;
    outcome := Confirmed;
  }

  lemma EssenceOfMore(before: seq<Sent>, after: seq<Sent>)
    requires before <= after
    ensures Essence(before) <= Essence(after)
  {
    assert after == before + after[|before|..];
    EssenceConcat(before, after[|before|..]);
  }

  // SET_BLOCK_COUNT followed by the multi-block transfer it announces.
  method CountedTransfer(host: Host, cmd: SdCommand, packets: nat, reliable: bool) returns (ok: bool)
    requires host.Valid()
    requires IsMultiBlock(cmd)
    modifies host, host.firmware
    ensures host.Advanced()
    ensures ok ==> host.Quiet()
    ensures ok ==> host.Issued([Wire(CMD_SET_BLOCK_COUNT, BlockCountArg(packets, reliable), 0),
                                Wire(cmd, 0, BlocksMoved(packets))])
    ensures !ok ==> host.recoveries > old(host.recoveries)
  {
    hide Essence, IsTransfer, NeedsStop, SmoothFor, SmoothFrom, IsRefusal, Accepts, BlockCountArg, BlocksMoved;
    ok := host.SendCommand(CMD_SET_BLOCK_COUNT, BlockCountArg(packets, reliable));
    if !ok {
      return;
    }
    ghost var counted := host.trace;
    assert LastOf(counted) == Some(CMD_SET_BLOCK_COUNT);
    ok := host.SendDataCommand(cmd, 0, BlocksMoved(packets));
    if ok {
      CountedIsDone(counted, host.trace, Wire(cmd, 0, BlocksMoved(packets)),
                    if NeedsStop(counted, cmd) then Some(Wire(CMD_STOP_TRANSMISSION, ArgOf(host.card.rca), 0))
                    else None);
    }
  }

  /** No STOP_TRANSMISSION is owed for a transfer behind its count. */
  lemma CountedIsDone(counted: seq<Sent>, after: seq<Sent>, data: Wire, stop: Option<Wire>)
    requires LastOf(counted) == Some(CMD_SET_BLOCK_COUNT) && counted <= after && data.cmd != CMD_SEND_STATUS
    requires IsTransfer(after[|counted|..], data, stop) && (stop.Some? ==> NeedsStop(counted, data.cmd))
    ensures Essence(after) == Essence(counted) + [data]
  {
    hide IsTransfer, Essence;
    EssenceGrows(counted, after, data, None);
  }

  method RpmbRead(host: Host, responsePackets: nat) returns (ok: bool)
    requires host.Valid()
    modifies host, host.firmware
    ensures host.Advanced()
    ensures ok ==> host.Quiet() && host.Issued(ReadWires(responsePackets))
    ensures !ok ==> host.recoveries > old(host.recoveries)
  {
    ok := CountedTransfer(host, CMD_WRITE_MULTI_BLOCK, 1, false);
    if ok {
      ok := CountedTransfer(host, CMD_READ_MULTI_BLOCK, responsePackets, false);
    }
  }

  method RpmbWrite(host: Host, requestPackets: nat) returns (ok: bool)
    requires host.Valid()
    modifies host, host.firmware
    ensures host.Advanced()
    ensures ok ==> host.Quiet() && host.Issued(WriteWires(requestPackets))
    ensures !ok ==> host.recoveries > old(host.recoveries)
  {
    ok := CountedTransfer(host, CMD_WRITE_MULTI_BLOCK, requestPackets, true);
  }

  method PerformRequest(host: Host, kind: RequestType, requestPackets: nat, responsePackets: nat) returns (ok: bool)
    requires host.Valid()
    modifies host, host.firmware
    ensures host.Advanced()
    ensures ok ==> host.Quiet() && host.Issued(RequestWires(kind, requestPackets, responsePackets))
    ensures !ok ==> host.recoveries > old(host.recoveries)
  {
    match kind {
      case ProgramKey =>
        ok := RpmbWrite(host, 1);
        if ok {
          ok := RpmbRead(host, 1);
        }
      case CounterValue =>
        ok := RpmbRead(host, 1);
      case AuthRead =>
        ok := RpmbRead(host, responsePackets);
      case AuthWrite =>
        ok := RpmbWrite(host, requestPackets);
        if ok {
          ok := RpmbRead(host, 1);
        }
    }
  }

  /** A successful request is the bracket and nothing else, with no recovery inside; and
      whenever the closing switch succeeded, the partition is the one found on entry,
      however badly the request in between went. If the opening switch is taken by the card but not confirmed,
      no switch back is sent: short of a soft reset the partition in memory stays what it was, while the last
      switch that the card has taken is the one to RPMB. */
  method RpmbRequest(host: Host, kind: RequestType, requestPackets: nat, responsePackets: nat)
    returns (ok: bool, entered: bool, restored: bool, ghost opening: Switching)
    requires host.Valid()
    requires requestPackets > 0
    modifies host, host.firmware
    ensures host.Advanced()
    ensures restored ==> entered && host.currentPartition == old(host.currentPartition)
    ensures ok ==> restored && host.Undisturbed()
    ensures ok ==> exists config: nat ::
                     host.Issued(SwitchWires(old(host.card.ext.partitionConfig), RPMB_PARTITION, host.card.rca)
                                 + RequestWires(kind, requestPackets, responsePackets)
                                 + SwitchWires(config, old(host.currentPartition), host.card.rca))
                     && PartitionOf(config) == RPMB_PARTITION
    ensures entered <==> opening.Confirmed?
    ensures !entered ==> !ok && host.Contained()
    ensures !opening.Refused? ==>
              Essence(old(host.trace)) + [SwitchWire(old(host.card.ext.partitionConfig), RPMB_PARTITION)]
              <= Essence(host.trace)
    ensures opening.Mismatched? ==>
              && host.Undisturbed() && host.currentPartition == old(host.currentPartition)
              && host.Issued(SwitchWires(old(host.card.ext.partitionConfig), RPMB_PARTITION, host.card.rca))
    ensures SmoothFor(host.hardware, old(host.requests), 4)
            && IsSingleRefusal(CMD_SEND_EXT_CSD_MMC, host.hardware, old(host.requests) + 4)
            && old(host.errorRecoveryAttemptCount) < ERROR_RECOVERY_ATTEMPT_THRESHOLD ==>
              opening.Unread? && host.softResets == old(host.softResets)
  {
    hide SwitchWires, RequestWires, Essence, SwitchWire, SmoothFor, IsSingleRefusal;
    restored := false;
    var entryPartition := host.currentPartition;
    entered, opening := SwitchPartitionMmc(host, RPMB_PARTITION);
    if !entered {
      return false, false, false, opening;
    }
    ghost var switched := host.trace;

    ok := PerformRequest(host, kind, requestPackets, responsePackets);

    ghost var config := host.card.ext.partitionConfig;
    ghost var closing;
    restored, closing := SwitchPartitionMmc(host, entryPartition);
    EssenceOfMore(switched, host.trace);
    ok := ok && restored;
    if ok {
      assert host.Issued(SwitchWires(old(host.card.ext.partitionConfig), RPMB_PARTITION, host.card.rca)
                         + RequestWires(kind, requestPackets, responsePackets)
                         + SwitchWires(config, old(host.currentPartition), host.card.rca));
    }
  }
}
