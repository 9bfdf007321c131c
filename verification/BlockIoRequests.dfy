/** Block reads and writes: a request is cut into chunks the controller can move, and each
    chunk is tried up to three times. */
module BlockIoRequests {
  import opened Options
  import opened SdCommands
  import opened SdMmcHost

  const DATA_COMMAND_RETRY_COUNT: nat := 3

  // Undefined stands for the paths C gives no meaning to: a division by a zero block size,
  // or returning a status that no statement assigned.
  datatype Status = Success | MediaChanged | InvalidParameter | NoMedia | WriteProtected | BadBufferSize
                  | TransferFailed | Undefined

  // Some blocks starting at lba on the card and at block number first in the buffer.
  datatype Chunk = Chunk(lba: nat, blocks: nat, first: nat)

  predicate Holds(chunk: Chunk, block: nat) {
    chunk.lba <= block < chunk.lba + chunk.blocks
  }

  /** The block address is held in 32 bits. */
  function Wrap32(lba: nat): nat {
    lba % 0x1_0000_0000
  }

  /** The bytes left of a request after so many turns of the chunk loop. */
  function BytesLeft(bytes: nat, maxBytes: nat, turns: nat): nat
    decreases turns
  {
    if turns == 0 then bytes
    else BytesLeft(bytes - (if bytes < maxBytes then bytes else maxBytes), maxBytes, turns - 1)
  }

  /** The chunk loop ends exactly if the maximum transfer size is not zero, or nothing is to be moved. */
  lemma {:induction false} LoopEndsIffPositive(bytes: nat, maxBytes: nat)
    ensures (exists turns: nat :: BytesLeft(bytes, maxBytes, turns) == 0) <==> maxBytes > 0 || bytes == 0
  {
    if bytes == 0 {
      assert BytesLeft(bytes, maxBytes, 0) == 0;
    } else if maxBytes > 0 {
      var turns := TurnsFor(bytes, maxBytes);
      assert BytesLeft(bytes, maxBytes, turns) == 0;
    } else {
      forall turns: nat
        ensures BytesLeft(bytes, 0, turns) == bytes
      {
        NothingMoves(bytes, turns);
      }
    }
  }

  lemma {:induction false} TurnsFor(bytes: nat, maxBytes: nat) returns (turns: nat)
    requires maxBytes > 0
    ensures BytesLeft(bytes, maxBytes, turns) == 0
    decreases bytes
  {
    turns := 0;
    if bytes > 0 {
      turns := TurnsFor(bytes - (if bytes < maxBytes then bytes else maxBytes), maxBytes);
      turns := turns + 1;
    }
  }

  lemma {:induction false} NothingMoves(bytes: nat, turns: nat)
    ensures BytesLeft(bytes, 0, turns) == bytes
    decreases turns
  {
    if turns > 0 {
      NothingMoves(bytes, turns - 1);
    }
  }

  /** How a request is cut: full chunks first, the rest last. */
  function Plan(lba: nat, first: nat, blocks: nat, maxBlocks: nat): (plan: seq<Chunk>)
    requires maxBlocks > 0
    decreases blocks
  {
    if blocks == 0 then []
    else if blocks < maxBlocks then [Chunk(lba, blocks, first)]
    else [Chunk(lba, maxBlocks, first)]
         + Plan(Wrap32(lba + maxBlocks), first + maxBlocks, blocks - maxBlocks, maxBlocks)
  }

  /** The chunks lie back to back on the card and in the buffer, starting at lba and first
      and ending exactly at the end of the request; each fits the limit. */
  ghost predicate Covers(plan: seq<Chunk>, lba: nat, first: nat, blocks: nat, maxBlocks: nat) {
    && (plan == [] <==> blocks == 0)
    && (plan != [] ==> plan[0].lba == lba && plan[0].first == first)
    && (forall i :: 0 <= i < |plan| ==> 0 < plan[i].blocks <= maxBlocks)
    && (forall i :: 0 <= i < |plan| - 1 ==>
          && plan[i + 1].lba == plan[i].lba + plan[i].blocks
          && plan[i + 1].first == plan[i].first + plan[i].blocks)
    && (plan != [] ==>
          && plan[|plan| - 1].lba + plan[|plan| - 1].blocks == lba + blocks
          && plan[|plan| - 1].first + plan[|plan| - 1].blocks == first + blocks)
  }

  lemma {:induction false} PlanCovers(lba: nat, first: nat, blocks: nat, maxBlocks: nat)
    requires maxBlocks > 0
    requires lba + blocks <= 0x1_0000_0000
    ensures Covers(Plan(lba, first, blocks, maxBlocks), lba, first, blocks, maxBlocks)
    decreases blocks
  {
    if blocks > maxBlocks {
      hide Covers;
      PlanCovers(lba + maxBlocks, first + maxBlocks, blocks - maxBlocks, maxBlocks);
      FirstCovers(Plan(lba + maxBlocks, first + maxBlocks, blocks - maxBlocks, maxBlocks), lba, first, blocks,
                  maxBlocks);
      FullChunkFirst(lba, first, blocks, maxBlocks);
    }
  }

  lemma FullChunkFirst(lba: nat, first: nat, blocks: nat, maxBlocks: nat)
    requires 0 < maxBlocks < blocks && lba + blocks <= 0x1_0000_0000
    ensures Plan(lba, first, blocks, maxBlocks) ==
            [Chunk(lba, maxBlocks, first)] + Plan(lba + maxBlocks, first + maxBlocks, blocks - maxBlocks, maxBlocks)
  {
  }

  lemma FirstCovers(rest: seq<Chunk>, lba: nat, first: nat, blocks: nat, maxBlocks: nat)
    requires 0 < maxBlocks < blocks
    requires Covers(rest, lba + maxBlocks, first + maxBlocks, blocks - maxBlocks, maxBlocks)
    ensures Covers([Chunk(lba, maxBlocks, first)] + rest, lba, first, blocks, maxBlocks)
  {
    var plan := [Chunk(lba, maxBlocks, first)] + rest;
    assert forall i :: 0 < i < |plan| ==> plan[i] == rest[i - 1];
  }

  /** How many chunks of a plan move a block. */
  function TimesMoved(plan: seq<Chunk>, block: nat): nat {
    if plan == [] then 0
    else (if Holds(plan[0], block) then 1 else 0) + TimesMoved(plan[1..], block)
  }

  /** Every block of the request is moved once, and no other block is moved. */
  lemma {:induction false} EachBlockMovedOnce(lba: nat, first: nat, blocks: nat, maxBlocks: nat, block: nat)
    requires maxBlocks > 0
    requires lba + blocks <= 0x1_0000_0000
    ensures TimesMoved(Plan(lba, first, blocks, maxBlocks), block) == if lba <= block < lba + blocks then 1 else 0
    decreases blocks
  {
    if blocks >= maxBlocks {
      var rest := Plan(Wrap32(lba + maxBlocks), first + maxBlocks, blocks - maxBlocks, maxBlocks);
      assert Plan(lba, first, blocks, maxBlocks)[1..] == rest;
      if blocks > maxBlocks {
        EachBlockMovedOnce(lba + maxBlocks, first + maxBlocks, blocks - maxBlocks, maxBlocks, block);
      }
    }
  }

  /** The status a request ends with: that of the chunk tried last. */
  function StatusOf(outcomes: seq<bool>): Status {
    if outcomes == [] then Undefined
    else if outcomes[|outcomes| - 1] then Success
    else TransferFailed
  }

  ghost predicate AllDone(outcomes: seq<bool>) {
    false !in outcomes
  }

  /** Success means that all chunks were moved, whatever the hardware does. */
  ghost predicate AllOrError(chunks: nat) {
    forall outcomes: seq<bool> :: |outcomes| == chunks && StatusOf(outcomes) == Success ==> AllDone(outcomes)
  }

  /** Each chunk stands three refusals less one. */
  ghost predicate AsRefused(outcomes: seq<bool>, times: nat) {
    forall i :: 0 <= i < |outcomes| ==> outcomes[i] == (times < DATA_COMMAND_RETRY_COUNT * (i + 1))
  }

  /** The same for hardware that refuses some transfers and then works. */
  ghost predicate RefusalsAreReported(chunks: nat) {
    forall outcomes: seq<bool>, times: nat ::
      |outcomes| == chunks && AsRefused(outcomes, times) && StatusOf(outcomes) == Success ==> AllDone(outcomes)
  }

  /** The documented contract "all blocks are moved or an error is returned" holds exactly
      for requests that fit into one chunk: a failed chunk does not stop the loop. Three refusals
      are enough to see it. */
  lemma {:induction false} AllOrErrorIffOneChunk(lba: nat, first: nat, blocks: nat, maxBlocks: nat)
    requires maxBlocks > 0
    ensures AllOrError(|Plan(lba, first, blocks, maxBlocks)|) <==> blocks <= maxBlocks
    ensures RefusalsAreReported(|Plan(lba, first, blocks, maxBlocks)|) <==> blocks <= maxBlocks
  {
    var n := |Plan(lba, first, blocks, maxBlocks)|;
    if blocks > maxBlocks {
      assert n == 1 + |Plan(Wrap32(lba + maxBlocks), first + maxBlocks, blocks - maxBlocks, maxBlocks)| >= 2;
      var outcomes := seq(n, i => i > 0);
      assert AsRefused(outcomes, 3);
      assert StatusOf(outcomes) == Success && !outcomes[0];
    }
  }

  /** The byte counter is 32 bits wide, so a longer request loses whole multiples of 2^32 bytes. */
  function BytesCounted(bufferSize: nat): nat {
    bufferSize % 0x1_0000_0000
  }

  /** The product of block count and block size is formed in 32 bits. */
  function MaxTransferSize(maximumBlockCount: nat): nat {
    maximumBlockCount * 512 % 0x1_0000_0000
  }

  function BlocksIn(bytes: nat): nat {
    bytes / 512
  }

  /** The 32-bit quotient of the request size by the block size. */
  function BlockCount(bufferSize: nat): nat {
    bufferSize / 512 % 0x1_0000_0000
  }

  /** All of a request is moved exactly if its size fits the 32-bit counter. */
  lemma {:induction false} WholeRequestIff32Bits(lba: nat, bufferSize: nat, maxBlocks: nat)
    requires maxBlocks > 0 && bufferSize % 512 == 0
    requires lba + BlocksIn(bufferSize) <= 0x1_0000_0000
    ensures Covers(Plan(lba, 0, BlocksIn(BytesCounted(bufferSize)), maxBlocks),
                   lba, 0, BlocksIn(bufferSize), maxBlocks)
            <==> bufferSize < 0x1_0000_0000
  {
    var moved := BlocksIn(BytesCounted(bufferSize));
    assert moved <= BlocksIn(bufferSize);
    PlanCovers(lba, 0, moved, maxBlocks);
  }

  function CommandFor(direction: TransferDirection, blockCount: nat): SdCommand {
    if direction == Read then
      if blockCount == 1 then CMD_READ_SINGLE_BLOCK else CMD_READ_MULTI_BLOCK
    else
      if blockCount == 1 then CMD_WRITE_SINGLE_BLOCK else CMD_WRITE_MULTI_BLOCK
  }

  /** The checks made before any command is sent; None means the request goes on. */
  function Refusal(media: Media, direction: TransferDirection, mediaId: nat, lba: nat, bufferSize: nat, buffer: nat)
    : Option<Status>
    requires media.blockSize == 0 || media.blockSize == 512
  {
    if media.mediaId != mediaId then Some(MediaChanged)
    else if buffer == 0 then Some(InvalidParameter)
    else if !media.present then Some(NoMedia)
    else if bufferSize == 0 then Some(Success)
    else if direction == Write && media.readOnly then Some(WriteProtected)
    else if media.blockSize == 0 then Some(Undefined)
    else if bufferSize % 512 != 0 then Some(BadBufferSize)
    else if LastBlockAddressed(lba, bufferSize) > media.lastBlock then Some(InvalidParameter)
    else if buffer % 4 != 0 then Some(InvalidParameter)
    else None
  }

  lemma AcceptedIsWhole(media: Media, direction: TransferDirection, mediaId: nat, lba: nat, bufferSize: nat,
                        buffer: nat)
    requires media.blockSize == 0 || media.blockSize == 512
    requires Refusal(media, direction, mediaId, lba, bufferSize, buffer) == None
    ensures media.present && media.blockSize != 0 && BytesCounted(bufferSize) % 512 == 0
    ensures BytesCounted(bufferSize) == 0 ==> bufferSize >= 0x1_0000_0000
  {
    CountedIsWhole(bufferSize);
  }

  lemma CountedIsWhole(bytes: nat)
    requires bytes % 512 == 0
    ensures BytesCounted(bytes) % 512 == 0
  {
    assert BytesCounted(bytes) == 512 * (bytes / 512 - 0x80_0000 * (bytes / 0x1_0000_0000));
  }

  /** Formed in 64 bits, so a request near the top of the address space wraps around. */
  function LastBlockAddressed(lba: nat, bufferSize: nat): nat {
    (lba + BlockCount(bufferSize) + 0xFFFF_FFFF_FFFF_FFFF) % 0x1_0000_0000_0000_0000
  }

  /** An accepted request whose size and end fit their counters lies inside the capacity. */
  lemma {:induction false} AcceptedIsInsideCapacity(media: Media, direction: TransferDirection, mediaId: nat, lba: nat,
                                                    bufferSize: nat, buffer: nat, maxBlocks: nat, i: nat)
    requires media.blockSize == 512
    requires Refusal(media, direction, mediaId, lba, bufferSize, buffer) == None
    requires media.lastBlock < 0x1_0000_0000
    requires bufferSize < 0x1_0000_0000 && lba + bufferSize < 0x1_0000_0000_0000_0000
    requires maxBlocks > 0
    requires i < |Plan(lba, 0, BlocksIn(bufferSize), maxBlocks)|
    ensures var chunk := Plan(lba, 0, BlocksIn(bufferSize), maxBlocks)[i];
            lba <= chunk.lba && chunk.lba + chunk.blocks <= media.lastBlock + 1
    decreases |Plan(lba, 0, BlocksIn(bufferSize), maxBlocks)| - i
  {
    var plan := Plan(lba, 0, BlocksIn(bufferSize), maxBlocks);
    var blocks := BlocksIn(bufferSize);
    assert LastBlockAddressed(lba, bufferSize) == lba + blocks - 1;
    PlanCovers(lba, 0, blocks, maxBlocks);
    CoversAreMonotone(plan, lba, 0, blocks, maxBlocks, i);
  }

  /** Every accepted request whose size and end fit their counters ends within so many bytes. */
  ghost predicate StaysInside(media: Media, capacity: nat)
    requires media.blockSize == 512
  {
    forall direction: TransferDirection, mediaId: nat, lba: nat, bufferSize: nat, buffer: nat ::
      Refusal(media, direction, mediaId, lba, bufferSize, buffer) == None
      && bufferSize < 0x1_0000_0000 && lba + bufferSize < 0x1_0000_0000_0000_0000 ==>
        (lba + BlocksIn(bufferSize)) * 512 <= capacity
  }

  /** With the last block that EXT_CSD gives, accepted requests lie inside the capacity of the card
      exactly if the card reports any sector: the last block of a card without sectors is 2^32 - 1. */
  lemma {:induction false} InsideCapacityIffSectors(media: Media, ext: ExtCsd)
    requires media.present && media.blockSize == 512
    requires ext.sectorCount < 0x1_0000_0000 && media.lastBlock == ExtCsdLastBlock(ext)
    ensures StaysInside(media, ExtCsdCapacity(ext)) <==> ext.sectorCount > 0
  {
    if ext.sectorCount > 0 {
      forall direction: TransferDirection, mediaId: nat, lba: nat, bufferSize: nat, buffer: nat |
        Refusal(media, direction, mediaId, lba, bufferSize, buffer) == None
        && bufferSize < 0x1_0000_0000 && lba + bufferSize < 0x1_0000_0000_0000_0000
        ensures (lba + BlocksIn(bufferSize)) * 512 <= ExtCsdCapacity(ext)
      {
        assert LastBlockAddressed(lba, bufferSize) == lba + BlocksIn(bufferSize) - 1;
      }
    } else {
      assert Refusal(media, Read, media.mediaId, 0, 512, 4) == None;
    }
  }

  /** With the last block that the CSD gives, accepted requests lie inside the capacity that was kept exactly
      if it is at least one block: with less, block zero still is the last one. */
  lemma {:induction false} InsideCapacityIffOneBlock(media: Media, capacity: nat)
    requires media.present && media.blockSize == 512 && media.lastBlock == LastWholeBlock(capacity)
    ensures StaysInside(media, capacity) <==> capacity >= 512
  {
    if capacity >= 512 {
      forall direction: TransferDirection, mediaId: nat, lba: nat, bufferSize: nat, buffer: nat |
        Refusal(media, direction, mediaId, lba, bufferSize, buffer) == None
        && bufferSize < 0x1_0000_0000 && lba + bufferSize < 0x1_0000_0000_0000_0000
        ensures (lba + BlocksIn(bufferSize)) * 512 <= capacity
      {
        assert LastBlockAddressed(lba, bufferSize) == lba + BlocksIn(bufferSize) - 1;
      }
    } else {
      assert Refusal(media, Read, media.mediaId, 0, 512, 4) == None;
    }
  }

  lemma {:induction false} CoversAreMonotone(plan: seq<Chunk>, lba: nat, first: nat, blocks: nat, maxBlocks: nat,
                                             i: nat)
    requires Covers(plan, lba, first, blocks, maxBlocks) && i < |plan|
    ensures lba <= plan[i].lba && plan[i].lba + plan[i].blocks <= lba + blocks
  {
    ClimbTo(plan, lba, first, blocks, maxBlocks, 0, i);
    ClimbTo(plan, lba, first, blocks, maxBlocks, i, |plan| - 1);
  }

  lemma {:induction false} ClimbTo(plan: seq<Chunk>, lba: nat, first: nat, blocks: nat, maxBlocks: nat, i: nat, j: nat)
    requires Covers(plan, lba, first, blocks, maxBlocks) && i <= j < |plan|
    ensures plan[i].lba <= plan[j].lba && plan[i].lba + plan[i].blocks <= plan[j].lba + plan[j].blocks
    decreases j - i
  {
    if i < j {
      ClimbTo(plan, lba, first, blocks, maxBlocks, i, j - 1);
      assert plan[j - 1 + 1].lba == plan[j - 1].lba + plan[j - 1].blocks;
    }
  }

  /** The next so many multi-block transfers are refused by the hardware, each before its command
      is on the card; whatever else it is asked for goes well. */
  ghost predicate Refuses(hardware: nat -> Reply, n: nat, times: nat)
    decreases times
  {
    if times == 0 then SmoothFrom(hardware, n)
    else !hardware(n).ok && SmoothFor(hardware, n + 1, 4) && Refuses(hardware, n + 5, times - 1)
  }

  /** What is left of some refusals after one chunk has used up to three of them. */
  function RefusalsLeft(times: nat): nat {
    if times < DATA_COMMAND_RETRY_COUNT then 0 else times - DATA_COMMAND_RETRY_COUNT
  }

  ghost predicate CanRecover(host: Host)
    reads host
  {
    host.errorRecoveryAttemptCount < ERROR_RECOVERY_ATTEMPT_THRESHOLD
  }

  // One attempt at a chunk.
  method TryChunk(host: Host, cmd: SdCommand, chunk: Chunk, ghost times: nat) returns (ok: bool)
    requires host.Valid()
    requires cmd.direction == Read || cmd.direction == Write
    requires IsMultiBlock(cmd) ==> host.lastSuccessfulCmd.Some?
    modifies host, host.firmware
    ensures host.Advanced() && host.KeptBlockSize()
    ensures ok ==> EndsInTransfer(host.trace, |old(host.trace)|, |host.trace|, WireOf(cmd, chunk))
    ensures !ok ==> host.recoveries > old(host.recoveries)
    ensures ok ==> host.Quiet()
    ensures ok && !CountPending(old(host.trace)) ==>
              host.Issued(ChunkWires(cmd, chunk, host.card.rca)) && LastOf(host.trace) == Some(CMD_SEND_STATUS)
    ensures IsMultiBlock(cmd) && CanRecover(host) && Refuses(host.hardware, old(host.requests), times) ==>
              && ok == (times == 0)
              && Refuses(host.hardware, host.requests, if times == 0 then 0 else times - 1)
              && host.softResets == old(host.softResets)
  {
    hide IsSmooth;
    ghost var before := host.trace;
    ok := host.SendDataCommand(cmd, chunk.lba, chunk.blocks);
    if ok {
      ghost var stop := if !NeedsStop(before, cmd) then None
                        else Some(Wire(CMD_STOP_TRANSMISSION, ArgOf(host.card.rca), 0));
      EssenceGrows(before, host.trace, WireOf(cmd, chunk), stop);
      TransferEnds(before, host.trace, WireOf(cmd, chunk), stop);
    }
  }

  lemma TransferEnds(before: seq<Sent>, after: seq<Sent>, data: Wire, stop: Option<Wire>)
    requires before <= after && IsTransfer(after[|before|..], data, stop)
    requires stop.Some? <==> NeedsStop(before, data.cmd)
    requires stop.Some? ==> stop.value.cmd == CMD_STOP_TRANSMISSION
    ensures EndsInTransfer(after, |before|, |after|, data)
    ensures LastOf(after) == Some(CMD_SEND_STATUS)
  {
    assert after[|before|..|after|] == after[|before|..] && after[..|before|] == before;
    assert IsTransferAt(after, |before|, |before|, |after|, data, stop);
  }

  // Up to three attempts at one chunk; only the last one can have succeeded.
  method TransferChunk(host: Host, cmd: SdCommand, chunk: Chunk, ghost times: nat) returns (ok: bool, tries: nat)
    requires host.Valid()
    requires cmd.direction == Read || cmd.direction == Write
    requires IsMultiBlock(cmd) ==> host.lastSuccessfulCmd.Some?
    modifies host, host.firmware
    ensures host.Advanced() && host.KeptBlockSize()
    ensures 1 <= tries <= DATA_COMMAND_RETRY_COUNT
    ensures !ok ==> tries == DATA_COMMAND_RETRY_COUNT
    ensures host.recoveries >= old(host.recoveries) + if ok then tries - 1 else tries
    ensures ok ==> EndsInTransfer(host.trace, |old(host.trace)|, |host.trace|, WireOf(cmd, chunk))
    ensures host.recoveries == old(host.recoveries) ==> ok && tries == 1 && host.card == old(host.card)
    ensures host.recoveries == old(host.recoveries) && !CountPending(old(host.trace)) ==>
              host.Issued(ChunkWires(cmd, chunk, host.card.rca)) && LastOf(host.trace) == Some(CMD_SEND_STATUS)
    ensures IsMultiBlock(cmd) && CanRecover(host) && Refuses(host.hardware, old(host.requests), times) ==>
              && ok == (times < DATA_COMMAND_RETRY_COUNT)
              && Refuses(host.hardware, host.requests, RefusalsLeft(times))
              && host.softResets == old(host.softResets)
  {
    hide Refuses, SmoothFrom, IsTransfer, IsTransferAt, Essence;
    ok := TryChunk(host, cmd, chunk, times);
    tries := 1;
    while tries < DATA_COMMAND_RETRY_COUNT && !ok
      invariant 1 <= tries <= DATA_COMMAND_RETRY_COUNT
      invariant host.Advanced() && host.KeptBlockSize()
      invariant host.recoveries >= old(host.recoveries) + if ok then tries - 1 else tries
      invariant ok ==> EndsInTransfer(host.trace, |old(host.trace)|, |host.trace|, WireOf(cmd, chunk))
      invariant host.recoveries == old(host.recoveries) ==> host.card == old(host.card)
      invariant host.recoveries == old(host.recoveries) && !CountPending(old(host.trace)) ==>
                  host.Issued(ChunkWires(cmd, chunk, host.card.rca)) && LastOf(host.trace) == Some(CMD_SEND_STATUS)
      invariant IsMultiBlock(cmd) && CanRecover(host) && Refuses(host.hardware, old(host.requests), times) ==>
                  && ok == (times < tries)
                  && Refuses(host.hardware, host.requests, if times < tries then 0 else times - tries)
                  && host.softResets == old(host.softResets)
      decreases DATA_COMMAND_RETRY_COUNT - tries
    {
      ghost var from := |host.trace|;
      ok := TryChunk(host, cmd, chunk, if times < tries then 0 else times - tries);
      tries := tries + 1;
      if ok {
        TransferFromBefore(host.trace, |old(host.trace)|, from, |host.trace|, WireOf(cmd, chunk));
      }
    }
  }

  lemma TransferFromBefore(t: seq<Sent>, earlier: nat, from: nat, upto: nat, data: Wire)
    requires earlier <= from && EndsInTransfer(t, from, upto, data)
    ensures EndsInTransfer(t, earlier, upto, data)
  {
    var n: nat, stop: Option<Wire> :| IsTransferAt(t, from, n, upto, data, stop);
    assert IsTransferAt(t, earlier, n, upto, data, stop);
  }

  function WireOf(cmd: SdCommand, chunk: Chunk): Wire {
    Wire(cmd, chunk.lba, chunk.blocks)
  }

  /** The next multi-block transfer would count as one of predefined length. */
  predicate CountPending(t: seq<Sent>) {
    LastOf(t) == Some(CMD_SET_BLOCK_COUNT)
  }

  function ChunkWires(cmd: SdCommand, chunk: Chunk, rca: nat): seq<Wire> {
    [Wire(cmd, chunk.lba, chunk.blocks)]
    + if IsMultiBlock(cmd) then [Wire(CMD_STOP_TRANSMISSION, ArgOf(rca), 0)] else []
  }

  function PlanWires(cmd: SdCommand, plan: seq<Chunk>, rca: nat): seq<Wire> {
    if plan == [] then []
    else ChunkWires(cmd, plan[0], rca) + PlanWires(cmd, plan[1..], rca)
  }

  /** What the card was told, chunk by chunk: the i-th chunk of the plan was worked on between
      marks i and i + 1 of the trace, and that part ends in its finished transfer if its outcome is true. */
  ghost predicate Follows(t: seq<Sent>, cmd: SdCommand, plan: seq<Chunk>, outcomes: seq<bool>, marks: seq<nat>) {
    && |marks| == |outcomes| + 1
    && |outcomes| <= |plan|
    && (forall i :: 0 <= i < |outcomes| ==> IsWork(t, marks[i], marks[i + 1], WireOf(cmd, plan[i]), outcomes[i]))
  }

  ghost predicate IsWork(t: seq<Sent>, from: nat, upto: nat, data: Wire, outcome: bool) {
    from <= upto <= |t| && (outcome ==> EndsInTransfer(t, from, upto, data))
  }

  lemma FollowsGrows(t: seq<Sent>, later: seq<Sent>, cmd: SdCommand, plan: seq<Chunk>, outcomes: seq<bool>,
                     marks: seq<nat>, ok: bool)
    requires Follows(t, cmd, plan, outcomes, marks) && |outcomes| < |plan|
    requires t <= later && marks[|outcomes|] == |t|
    requires ok ==> EndsInTransfer(later, |t|, |later|, WireOf(cmd, plan[|outcomes|]))
    ensures Follows(later, cmd, plan, outcomes + [ok], marks + [|later|])
  {
    hide EndsInTransfer;
    var done, ends := outcomes + [ok], marks + [|later|];
    forall i | 0 <= i < |done|
      ensures IsWork(later, ends[i], ends[i + 1], WireOf(cmd, plan[i]), done[i])
    {
      if i < |outcomes| {
        assert IsWork(t, marks[i], marks[i + 1], WireOf(cmd, plan[i]), outcomes[i]);
        if outcomes[i] {
          TransferStays(t, later, marks[i], marks[i + 1], WireOf(cmd, plan[i]));
        }
      }
    }
  }

  ghost predicate IsMovedBy(t: seq<Sent>, cmd: SdCommand, plan: seq<Chunk>, marks: seq<nat>, block: nat, i: nat)
    requires |marks| > |plan|
  {
    i < |plan| && Holds(plan[i], block) && EndsInTransfer(t, marks[i], marks[i + 1], WireOf(cmd, plan[i]))
  }

  /** Whatever was recovered on the way: if no chunk failed, the card has finished a transfer for
      every block of the request, and for no other block. */
  lemma {:induction false} EachBlockHasATransfer(t: seq<Sent>, cmd: SdCommand, lba: nat, blocks: nat, maxBlocks: nat,
                                                 outcomes: seq<bool>, marks: seq<nat>, block: nat)
    requires maxBlocks > 0 && lba + blocks <= 0x1_0000_0000
    requires |outcomes| == |Plan(lba, 0, blocks, maxBlocks)| && AllDone(outcomes)
    requires Follows(t, cmd, Plan(lba, 0, blocks, maxBlocks), outcomes, marks)
    ensures (exists i: nat :: IsMovedBy(t, cmd, Plan(lba, 0, blocks, maxBlocks), marks, block, i))
            <==> lba <= block < lba + blocks
  {
    var plan := Plan(lba, 0, blocks, maxBlocks);
    EachBlockMovedOnce(lba, 0, blocks, maxBlocks, block);
    if lba <= block < lba + blocks {
      var i := MoverOf(plan, block);
      assert IsWork(t, marks[i], marks[i + 1], WireOf(cmd, plan[i]), outcomes[i]);
      assert IsMovedBy(t, cmd, plan, marks, block, i);
    } else if i: nat :| IsMovedBy(t, cmd, plan, marks, block, i) {
      IsMover(plan, block, i);
      assert false;
    }
  }

  lemma {:induction false} MoverOf(plan: seq<Chunk>, block: nat) returns (i: nat)
    requires TimesMoved(plan, block) > 0
    ensures i < |plan| && Holds(plan[i], block)
  {
    if Holds(plan[0], block) {
      i := 0;
    } else {
      i := MoverOf(plan[1..], block);
      i := i + 1;
    }
  }

  lemma {:induction false} IsMover(plan: seq<Chunk>, block: nat, i: nat)
    requires i < |plan| && Holds(plan[i], block)
    ensures TimesMoved(plan, block) > 0
  {
    if i > 0 {
      assert plan[1..][i - 1] == plan[i];
      IsMover(plan[1..], block, i - 1);
    }
  }

  /** The refusals left after some chunks have used up to three each. */
  function RefusalsAfter(times: nat, chunks: nat): nat {
    if times < DATA_COMMAND_RETRY_COUNT * chunks then 0 else times - DATA_COMMAND_RETRY_COUNT * chunks
  }

  /** The chunk loop: the outcomes are those of the planned chunks, in order; the status is
      that of the last one; every true outcome has its finished transfer in the trace; without any
      recovery the card accepted exactly the planned commands. */
  method MoveChunks(host: Host, cmd: SdCommand, lba: nat, bytes: nat, ghost times: nat)
    returns (status: Status, ghost outcomes: seq<bool>, ghost marks: seq<nat>)
    requires host.Valid()
    requires cmd.direction == Read || cmd.direction == Write
    requires IsMultiBlock(cmd) ==> host.lastSuccessfulCmd.Some?
    requires bytes % 512 == 0
    // A maximum transfer size that wraps around to zero would never let the loop end.
    requires MaxTransferSize(host.maximumBlockCount) > 0
    modifies host, host.firmware
    ensures host.Advanced() && host.KeptBlockSize()
    ensures var plan := Plan(lba, 0, BlocksIn(bytes), BlocksIn(MaxTransferSize(host.maximumBlockCount)));
            && Follows(host.trace, cmd, plan, outcomes, marks) && marks[0] == |old(host.trace)|
            && (status != Undefined ==> |outcomes| == |plan| && status == StatusOf(outcomes))
            && (status == Undefined ==> bytes == 0 || host.media.blockSize == 0)
            && (host.recoveries == old(host.recoveries) && status == Success && !CountPending(old(host.trace)) ==>
                  host.Issued(PlanWires(cmd, plan, host.card.rca)))
    ensures IsMultiBlock(cmd) && CanRecover(host) && Refuses(host.hardware, old(host.requests), times) ==>
              AsRefused(outcomes, times) && host.softResets == old(host.softResets)
  {
    hide Plan, PlanWires, Essence, MaxTransferSize, Wrap32, Refuses, SmoothFrom, Follows, RefusalsAfter, EndsInTransfer;
    hide AsRefused, SecondLastOf, IsMultiBlock, InstalledFor;
    outcomes := [];
    status := Undefined;
    var maxTransferSize := MaxTransferSize(host.maximumBlockCount);
    var bytesRemaining := bytes;
    var offset: nat := 0;
    var currentLba: nat := lba;
    MaxTransferIsWhole(host.maximumBlockCount);
    ghost var plan := PlanOf(lba, 0, bytes, maxTransferSize);
    ghost var left := plan;
    ghost var clean := !CountPending(host.trace);
    ghost var target := Essence(host.trace) + PlanWires(cmd, left, host.card.rca);
    ghost var refused := IsMultiBlock(cmd) && CanRecover(host) && Refuses(host.hardware, host.requests, times);
    marks := [|host.trace|];
    NoneFollow(host.trace, cmd, plan, times);

    while bytesRemaining > 0
      invariant IsWhole(bytesRemaining) && IsWhole(offset) && IsWhole(maxTransferSize)
      invariant left == PlanOf(currentLba, offset, bytesRemaining, maxTransferSize)
      invariant host.Advanced() && host.KeptBlockSize()
      invariant |outcomes| <= |plan| && left == plan[|outcomes|..]
      invariant status == StatusOf(outcomes) && (outcomes == [] ==> bytesRemaining == bytes)
      invariant Follows(host.trace, cmd, plan, outcomes, marks)
      invariant IsMarked(host.trace, |old(host.trace)|, outcomes, marks)
      invariant host.recoveries == old(host.recoveries) && clean ==>
                  OnTarget(host.trace, cmd, left, host.card.rca, target) && host.card.rca == old(host.card.rca)
      invariant refused ==> IsRefusing(host, outcomes, times) && host.softResets == old(host.softResets)
      decreases bytesRemaining
    {
      var currentBufferSize := if bytesRemaining < maxTransferSize then bytesRemaining else maxTransferSize;
      var chunk := Chunk(currentLba, BlocksIn(currentBufferSize), BlocksIn(offset));
      NextChunk(currentLba, offset, bytesRemaining, maxTransferSize, currentBufferSize);

      var ok;
      ok, outcomes, marks := MoveChunk(host, cmd, chunk, plan, outcomes, marks, target, times);
      status := if ok then Success else TransferFailed;
      left := left[1..];

      bytesRemaining := bytesRemaining - currentBufferSize;
      if host.media.blockSize == 0 {
        status := Undefined;
        break;
      }
      currentLba := Wrap32(currentLba + BlocksIn(currentBufferSize));
      offset := offset + currentBufferSize;
    }
    NothingLeft(cmd, currentLba, BlocksIn(offset), BlocksIn(maxTransferSize), host.card.rca);
    assert Essence(host.trace) + [] == Essence(host.trace);
  }

  lemma NoneFollow(t: seq<Sent>, cmd: SdCommand, plan: seq<Chunk>, times: nat)
    ensures Follows(t, cmd, plan, [], [|t|]) && AsRefused([], times) && RefusalsAfter(times, 0) == times
  {
  }

  predicate IsMarked(t: seq<Sent>, start: nat, outcomes: seq<bool>, marks: seq<nat>) {
    |marks| == |outcomes| + 1 && marks[0] == start && marks[|outcomes|] == |t|
  }

  ghost predicate IsRefusing(host: Host, outcomes: seq<bool>, times: nat)
    reads host
  {
    && AsRefused(outcomes, times)
    && CanRecover(host)
    && Refuses(host.hardware, host.requests, RefusalsAfter(times, |outcomes|))
  }

  lemma NothingLeft(cmd: SdCommand, lba: nat, first: nat, maxBlocks: nat, rca: nat)
    requires maxBlocks > 0
    ensures Plan(lba, first, 0, maxBlocks) == [] && PlanWires(cmd, [], rca) == []
  {
  }

  predicate IsWhole(bytes: nat) {
    bytes % 512 == 0
  }

  ghost function PlanOf(lba: nat, offset: nat, bytes: nat, maxBytes: nat): seq<Chunk>
    requires IsWhole(maxBytes) && maxBytes > 0
  {
    Plan(lba, BlocksIn(offset), BlocksIn(bytes), BlocksIn(maxBytes))
  }

  lemma {:induction false} MaxTransferIsWhole(maximumBlockCount: nat)
    ensures IsWhole(MaxTransferSize(maximumBlockCount))
  {
    var bytes := maximumBlockCount * 512;
    assert MaxTransferSize(maximumBlockCount) == 512 * (maximumBlockCount - 0x80_0000 * (bytes / 0x1_0000_0000));
  }

  /** The first chunk of what is left of a plan. */
  lemma {:induction false} NextChunk(lba: nat, offset: nat, bytes: nat, maxBytes: nat, current: nat)
    requires IsWhole(bytes) && IsWhole(offset) && IsWhole(maxBytes)
    requires 0 < bytes && 0 < maxBytes
    requires current == if bytes < maxBytes then bytes else maxBytes
    ensures IsWhole(bytes - current) && IsWhole(offset + current) && 0 < current <= bytes
    ensures PlanOf(lba, offset, bytes, maxBytes) ==
            [Chunk(lba, BlocksIn(current), BlocksIn(offset))]
            + PlanOf(Wrap32(lba + BlocksIn(current)), offset + current, bytes - current, maxBytes)
  {
  }

  /** With the rest of the plan still to be sent, the target will be met. */
  ghost predicate OnTarget(t: seq<Sent>, cmd: SdCommand, left: seq<Chunk>, rca: nat, target: seq<Wire>) {
    Essence(t) + PlanWires(cmd, left, rca) == target && !CountPending(t)
  }

  // One step of the chunk loop.
  method MoveChunk(host: Host, cmd: SdCommand, chunk: Chunk, ghost plan: seq<Chunk>, ghost before: seq<bool>,
                   ghost marked: seq<nat>, ghost target: seq<Wire>, ghost times: nat)
    returns (ok: bool, ghost outcomes: seq<bool>, ghost marks: seq<nat>)
    requires host.Valid()
    requires cmd.direction == Read || cmd.direction == Write
    requires IsMultiBlock(cmd) ==> host.lastSuccessfulCmd.Some?
    requires |before| < |plan| && plan[|before|] == chunk
    requires Follows(host.trace, cmd, plan, before, marked) && marked[|before|] == |host.trace|
    modifies host, host.firmware
    ensures host.Advanced() && host.KeptBlockSize()
    ensures outcomes == before + [ok] && marks == marked + [|host.trace|]
    ensures Follows(host.trace, cmd, plan, outcomes, marks)
    ensures host.recoveries == old(host.recoveries) ==> ok && host.card.rca == old(host.card.rca)
    ensures host.recoveries == old(host.recoveries)
            && OnTarget(old(host.trace), cmd, plan[|before|..], old(host.card.rca), target) ==>
              OnTarget(host.trace, cmd, plan[|before|..][1..], host.card.rca, target)
    ensures IsMultiBlock(cmd) && old(IsRefusing(host, before, times)) ==>
              IsRefusing(host, outcomes, times) && host.softResets == old(host.softResets)
  {
    hide Refuses, SmoothFrom, Follows, EndsInTransfer, Essence, ChunkWires;
    ghost var sent, rca, left := Essence(host.trace), host.card.rca, plan[|before|..];
    var tries;
    ok, tries := TransferChunk(host, cmd, chunk, RefusalsAfter(times, |before|));
    outcomes, marks := before + [ok], marked + [|host.trace|];
    FollowsGrows(old(host.trace), host.trace, cmd, plan, before, marked, ok);
    OneChunkLess(cmd, left, rca, sent);
  }

  lemma OneChunkLess(cmd: SdCommand, left: seq<Chunk>, rca: nat, sent: seq<Wire>)
    requires left != []
    ensures sent + PlanWires(cmd, left, rca) == (sent + ChunkWires(cmd, left[0], rca)) + PlanWires(cmd, left[1..], rca)
  {
  }

  /** A refused request sends nothing. An accepted one goes through the plan of all chunks;
      its status is that of the last chunk, and every chunk that succeeded, at the first try or
      after recoveries, has its finished transfer in the trace, in the order of the plan. Without
      any recovery, and unless a SET_BLOCK_COUNT was pending, success means that the card accepted
      exactly the planned commands. A soft reset in the middle can leave the block size at zero,
      the one way an accepted request that fits 32 bits becomes undefined. */
  method IoBlocks(host: Host, direction: TransferDirection, mediaId: nat, lba: nat, bufferSize: nat, buffer: nat,
                  ghost times: nat)
    returns (status: Status, ghost outcomes: seq<bool>, ghost marks: seq<nat>)
    requires host.Valid()
    requires direction == Read || direction == Write
    requires MaxTransferSize(host.maximumBlockCount) > 0
    modifies host, host.firmware
    ensures host.Advanced() && host.KeptBlockSize()
    ensures var refusal := Refusal(old(host.media), direction, mediaId, lba, bufferSize, buffer);
            refusal.Some? ==> status == refusal.value && host.Quiet() && host.trace == old(host.trace)
    ensures var refusal := Refusal(old(host.media), direction, mediaId, lba, bufferSize, buffer);
            var cmd := CommandFor(direction, BlockCount(bufferSize));
            var plan := Plan(Wrap32(lba), 0, BlocksIn(BytesCounted(bufferSize)),
                             BlocksIn(MaxTransferSize(host.maximumBlockCount)));
            refusal.None? ==>
              && Follows(host.trace, cmd, plan, outcomes, marks) && marks[0] == |old(host.trace)|
              && (status != Undefined ==> |outcomes| == |plan| && status == StatusOf(outcomes))
              && (status == Undefined && bufferSize < 0x1_0000_0000 ==> host.softResets > old(host.softResets))
              && (host.recoveries == old(host.recoveries) && status == Success && !CountPending(old(host.trace)) ==>
                    host.Issued(PlanWires(cmd, plan, host.card.rca)))
              // Hardware that refuses some transfers and then works: three refusals cost one chunk.
              && (IsMultiBlock(cmd) && CanRecover(host) && Refuses(host.hardware, old(host.requests), times) ==>
                    AsRefused(outcomes, times) && host.softResets == old(host.softResets))
  {
    hide Plan, PlanWires, StatusOf, Essence, Refusal, BytesCounted, BlockCount, Wrap32, MaxTransferSize, Follows,
         Refuses, AsRefused;
    outcomes, marks := [], [];
    var refusal := Refusal(host.media, direction, mediaId, lba, bufferSize, buffer);
    if refusal.Some? {
      status := refusal.value;
    } else {
      AcceptedIsWhole(host.media, direction, mediaId, lba, bufferSize, buffer);
      status, outcomes, marks := MoveChunks(host, CommandFor(direction, BlockCount(bufferSize)), Wrap32(lba),
                                            BytesCounted(bufferSize), times);
    }
  }
}
