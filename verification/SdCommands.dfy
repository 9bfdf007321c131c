/** The SD/MMC command set, card status words and the trace of commands a card accepted. */
module SdCommands {
  import opened Options

  datatype CommandType = TypeUndefined | Suspend | Resume | Abort
  datatype CommandClass = ClassUndefined | Standard | App
  datatype ResponseType = ResponseUndefined | NoResponse | R1 | R1B | R2 | R3 | R4 | R5 | R5B | R6
  datatype TransferType = TransferUndefined | NoTransfer | SingleBlock | MultiBlock | MultiBlockNoStop
  datatype TransferDirection = DirectionUndefined | Read | Write

  // Comparing two commands field by field is equality of this datatype.
  datatype SdCommand = SdCommand(
    index: nat,
    kind: CommandType,
    cls: CommandClass,
    response: ResponseType,
    transfer: TransferType,
    direction: TransferDirection)

  const CMD_GO_IDLE_STATE := SdCommand(0, TypeUndefined, Standard, NoResponse, NoTransfer, DirectionUndefined)
  const CMD_SEND_OP_COND_MMC := SdCommand(1, TypeUndefined, Standard, R3, NoTransfer, DirectionUndefined)
  const CMD_SEND_CID_ALL := SdCommand(2, TypeUndefined, Standard, R2, NoTransfer, DirectionUndefined)
  const CMD_SEND_RELATIVE_ADDR := SdCommand(3, TypeUndefined, Standard, R6, NoTransfer, DirectionUndefined)
  const CMD_SEND_OP_COND_SDIO := SdCommand(5, TypeUndefined, Standard, R4, NoTransfer, DirectionUndefined)
  const CMD_SWITCH_SD := SdCommand(6, TypeUndefined, Standard, R1, SingleBlock, Read)
  const CMD_SWITCH_MMC := SdCommand(6, TypeUndefined, Standard, R1B, NoTransfer, DirectionUndefined)
  const ACMD_SET_BUS_WIDTH_SD := SdCommand(6, TypeUndefined, App, R1, NoTransfer, DirectionUndefined)
  const CMD_SELECT := SdCommand(7, TypeUndefined, Standard, R1B, NoTransfer, DirectionUndefined)
  const CMD_SEND_IF_COND_SD := SdCommand(8, TypeUndefined, Standard, R6, NoTransfer, DirectionUndefined)
  const CMD_SEND_EXT_CSD_MMC := SdCommand(8, TypeUndefined, Standard, R1, SingleBlock, Read)
  const CMD_SEND_CSD := SdCommand(9, TypeUndefined, Standard, R2, NoTransfer, DirectionUndefined)
  const CMD_SEND_CID := SdCommand(10, TypeUndefined, Standard, R2, NoTransfer, DirectionUndefined)
  const CMD_STOP_TRANSMISSION := SdCommand(12, Abort, Standard, R1B, NoTransfer, DirectionUndefined)
  const CMD_SEND_STATUS := SdCommand(13, TypeUndefined, Standard, R1, NoTransfer, DirectionUndefined)
  const CMD_SET_BLOCK_LENGTH := SdCommand(16, TypeUndefined, Standard, R1, NoTransfer, DirectionUndefined)
  const CMD_READ_SINGLE_BLOCK := SdCommand(17, TypeUndefined, Standard, R1, SingleBlock, Read)
  const CMD_READ_MULTI_BLOCK := SdCommand(18, TypeUndefined, Standard, R1, MultiBlock, Read)
  const CMD_SET_BLOCK_COUNT := SdCommand(23, TypeUndefined, Standard, R1, NoTransfer, DirectionUndefined)
  const CMD_WRITE_SINGLE_BLOCK := SdCommand(24, TypeUndefined, Standard, R1, SingleBlock, Write)
  const CMD_WRITE_MULTI_BLOCK := SdCommand(25, TypeUndefined, Standard, R1, MultiBlock, Write)
  const ACMD_SEND_OP_COND_SD := SdCommand(41, TypeUndefined, App, R3, NoTransfer, DirectionUndefined)

  predicate IsSwitch(cmd: SdCommand) {
    cmd == CMD_SWITCH_MMC || cmd == CMD_SWITCH_SD
  }

  predicate IsMultiBlock(cmd: SdCommand) {
    cmd == CMD_WRITE_MULTI_BLOCK || cmd == CMD_READ_MULTI_BLOCK
  }

  predicate MovesData(cmd: SdCommand) {
    cmd.transfer != NoTransfer && cmd.transfer != TransferUndefined
  }

  datatype CardFunction = Unknown | Sd | Sdio | ComboSdSdio | Mmc

  const SD_CARD_STATUS_ERROR_MASK: bv32 := 0xFDF9_A008
  const MMC_CARD_STATUS_ERROR_MASK: bv32 := 0xFDFF_A080

  /** The error bits of a card status for a kind of card. */
  function ErrorBits(cardFunction: CardFunction): bv32 {
    match cardFunction
    case Sd => SD_CARD_STATUS_ERROR_MASK
    case Mmc => MMC_CARD_STATUS_ERROR_MASK
    case _ => 0
  }

  predicate HasErrorBit(cardFunction: CardFunction, status: bv32) {
    status & ErrorBits(cardFunction) != 0
  }

  // The masked status is returned through BOOLEAN, a type of one byte, so only its low byte counts.
  // A release build treats an unidentified card as reporting no error.
  predicate IsCardStatusError(cardFunction: CardFunction, status: bv32) {
    status & ErrorBits(cardFunction) & 0xFF != 0
  }

  /** The error bit that is not cut off. */
  function SeenBit(cardFunction: CardFunction): bv32 {
    match cardFunction
    case Sd => 0x8
    case Mmc => 0x80
    case _ => 0
  }

  /** Error bits are noticed exactly if AKE_SEQ_ERROR of an SD card, or SWITCH_ERROR of an MMC
      card, is among them: all the others are cut off with the upper three bytes. */
  lemma {:induction false} ErrorBitsSeen(cardFunction: CardFunction, status: bv32)
    ensures IsCardStatusError(cardFunction, status) <==>
            HasErrorBit(cardFunction, status) && status & SeenBit(cardFunction) != 0
  {
    hide IsCardStatusError, HasErrorBit;
    match cardFunction
    case Sd => SdErrorBits(status);
    case Mmc => MmcErrorBits(status);
    case _ => NoErrorBits(cardFunction, status);
  }

  lemma SdErrorBits(status: bv32)
    ensures IsCardStatusError(Sd, status) == (status & 0x8 != 0)
    ensures IsCardStatusError(Sd, status) ==> HasErrorBit(Sd, status)
  {
    LowBits(status);
  }

  lemma MmcErrorBits(status: bv32)
    ensures IsCardStatusError(Mmc, status) == (status & 0x80 != 0)
    ensures IsCardStatusError(Mmc, status) ==> HasErrorBit(Mmc, status)
  {
    LowBits(status);
  }

  lemma NoErrorBits(cardFunction: CardFunction, status: bv32)
    requires cardFunction != Sd && cardFunction != Mmc
    ensures !IsCardStatusError(cardFunction, status) && !HasErrorBit(cardFunction, status)
  {
    assert status & 0 == 0;
  }

  lemma LowBits(status: bv32)
    ensures status & SD_CARD_STATUS_ERROR_MASK & 0xFF == status & 0x8
    ensures status & MMC_CARD_STATUS_ERROR_MASK & 0xFF == status & 0x80
    ensures status & 0x8 != 0 ==> status & SD_CARD_STATUS_ERROR_MASK != 0
    ensures status & 0x80 != 0 ==> status & MMC_CARD_STATUS_ERROR_MASK != 0
  {
  }

  /** A write far outside the card, refused by the card itself, passes for a success. */
  lemma AddressErrorIsMissed(cardFunction: CardFunction)
    requires cardFunction == Sd || cardFunction == Mmc
    ensures HasErrorBit(cardFunction, 0x8000_0000) && !IsCardStatusError(cardFunction, 0x8000_0000)
  {
  }

  predicate IsReadyForData(status: bv32) {
    status & 0x100 != 0
  }

  predicate IsInTranState(status: bv32) {
    (status >> 9) & 0xF == 4
  }

  predicate IsSettled(status: bv32) {
    IsReadyForData(status) && IsInTranState(status)
  }

  const POLL_WAIT_COUNT: nat := 200
  const ERROR_RECOVERY_ATTEMPT_THRESHOLD: nat := 3
  const BLOCK_LENGTH_BYTES: nat := 512

  // ---------- traces of accepted commands ----------

  // A command the card accepted: its argument, the number of data blocks
  // announced to the controller (0 for a command without data) and the card's answer.
  datatype Sent = Sent(wire: Wire, response: bv32) {
    function Cmd(): SdCommand { wire.cmd }
  }
  datatype Wire = Wire(cmd: SdCommand, arg: nat, blocks: nat)

  function LastOf(t: seq<Sent>): Option<SdCommand> {
    if |t| == 0 then None else Some(t[|t| - 1].Cmd())
  }

  function SecondLastOf(t: seq<Sent>): Option<SdCommand> {
    if |t| < 2 then None else Some(t[|t| - 2].Cmd())
  }

  predicate IsWindow(t: seq<Sent>, preLast: Option<SdCommand>, last: Option<SdCommand>) {
    last == LastOf(t) && preLast == SecondLastOf(t)
  }

  /** SEND_STATUS repeated until the card is ready in state tran, and not once more. */
  predicate IsPoll(d: seq<Sent>) {
    && 1 <= |d| <= POLL_WAIT_COUNT
    && (forall i :: 0 <= i < |d| ==> d[i].Cmd() == CMD_SEND_STATUS)
    && IsSettled(d[|d| - 1].response)
    && (forall i :: 0 <= i < |d| - 1 ==> !IsSettled(d[i].response))
  }

  /** A poll that may go on: its last answer is the status, and none before was settled. */
  predicate IsWaiting(t: seq<Sent>, from: nat, status: bv32) {
    && from < |t|
    && (forall i :: from <= i < |t| ==> t[i].Cmd() == CMD_SEND_STATUS)
    && t[|t| - 1].response == status
    && (forall i :: from <= i < |t| - 1 ==> !IsSettled(t[i].response))
  }

  lemma WaitingOnce(t: seq<Sent>, s: Sent)
    requires s.Cmd() == CMD_SEND_STATUS
    ensures IsWaiting(t + [s], |t|, s.response)
  {
  }

  lemma WaitingAgain(t: seq<Sent>, from: nat, status: bv32, s: Sent)
    requires IsWaiting(t, from, status) && !IsSettled(status) && s.Cmd() == CMD_SEND_STATUS
    ensures IsWaiting(t + [s], from, s.response)
  {
  }

  lemma WaitingIsOver(t: seq<Sent>, from: nat, status: bv32)
    requires IsWaiting(t, from, status) && IsSettled(status) && |t| <= from + POLL_WAIT_COUNT
    ensures IsPoll(t[from..])
  {
  }

  /** One complete data transfer: the command, STOP_TRANSMISSION if one is given, then a poll. */
  predicate IsTransfer(d: seq<Sent>, data: Wire, stop: Option<Wire>) {
    var head := if stop.Some? then 2 else 1;
    && |d| > head
    && d[0].wire == data
    && (stop.Some? ==> d[1].wire == stop.value)
    && IsPoll(d[head..])
  }

  /** A part of a trace ends in one complete transfer, with STOP_TRANSMISSION exactly if it was owed. */
  ghost predicate EndsInTransfer(t: seq<Sent>, from: nat, upto: nat, data: Wire) {
    exists n: nat, stop: Option<Wire> :: IsTransferAt(t, from, n, upto, data, stop)
  }

  predicate IsTransferAt(t: seq<Sent>, from: nat, n: nat, upto: nat, data: Wire, stop: Option<Wire>) {
    && from <= n <= upto <= |t|
    && IsTransfer(t[n..upto], data, stop)
    && (stop.Some? <==> NeedsStop(t[..n], data.cmd))
    && (stop.Some? ==> stop.value.cmd == CMD_STOP_TRANSMISSION)
  }

  /** What happens later does not undo a transfer. */
  lemma TransferStays(t: seq<Sent>, later: seq<Sent>, from: nat, upto: nat, data: Wire)
    requires t <= later && EndsInTransfer(t, from, upto, data)
    ensures EndsInTransfer(later, from, upto, data)
  {
    var n: nat, stop: Option<Wire> :| IsTransferAt(t, from, n, upto, data, stop);
    assert later[n..upto] == t[n..upto] && later[..n] == t[..n];
    assert IsTransferAt(later, from, n, upto, data, stop);
  }

  /** What follows the data of a transfer: STOP_TRANSMISSION if one is given, then a poll. */
  predicate IsFinish(d: seq<Sent>, stop: Option<Wire>) {
    var head := if stop.Some? then 1 else 0;
    |d| > head && (stop.Some? ==> d[0].wire == stop.value) && IsPoll(d[head..])
  }

  lemma FinishedTransfer(before: seq<Sent>, after: seq<Sent>, data: Sent, stop: Option<Wire>)
    requires before + [data] <= after && IsFinish(after[|before| + 1..], stop)
    ensures IsTransfer(after[|before|..], data.wire, stop)
  {
    var head := if stop.Some? then 2 else 1;
    var d := after[|before|..];
    assert d[head..] == after[|before| + 1..][head - 1..];
    assert d[0] == data && (stop.Some? ==> d[1] == after[|before| + 1..][0]);
  }

  /** A multi-block transfer is open ended unless SET_BLOCK_COUNT came just before it. */
  predicate NeedsStop(before: seq<Sent>, cmd: SdCommand) {
    IsMultiBlock(cmd) && LastOf(before) != Some(CMD_SET_BLOCK_COUNT)
  }

  /** The trace without its status polling. */
  function Essence(t: seq<Sent>): seq<Wire> {
    if t == [] then []
    else if t[|t| - 1].Cmd() == CMD_SEND_STATUS then Essence(t[..|t| - 1])
    else Essence(t[..|t| - 1]) + [t[|t| - 1].wire]
  }

  lemma {:induction false} EssenceConcat(a: seq<Sent>, b: seq<Sent>)
    ensures Essence(a + b) == Essence(a) + Essence(b)
  {
    if b == [] {
      assert a + b == a;
    } else {
      var n := |b| - 1;
      EssenceConcat(a, b[..n]);
      assert (a + b)[..|a + b| - 1] == a + b[..n];
    }
  }

  lemma {:induction false} EssenceAppend(t: seq<Sent>, s: Sent)
    ensures Essence(t + [s]) == if s.Cmd() == CMD_SEND_STATUS then Essence(t) else Essence(t) + [s.wire]
  {
    assert (t + [s])[..|t + [s]| - 1] == t;
  }

  lemma {:induction false} EssenceOfStatusRun(d: seq<Sent>)
    requires forall i :: 0 <= i < |d| ==> d[i].Cmd() == CMD_SEND_STATUS
    ensures Essence(d) == []
  {
    if d != [] {
      EssenceOfStatusRun(d[..|d| - 1]);
    }
  }

  lemma {:induction false} EssenceOfPrefix(d: seq<Sent>, n: nat)
    requires n <= |d|
    requires IsPoll(d[n..])
    ensures Essence(d) == Essence(d[..n])
  {
    assert d == d[..n] + d[n..];
    EssenceConcat(d[..n], d[n..]);
    EssenceOfStatusRun(d[n..]);
  }

  lemma {:induction false} EssenceOfOne(s: Sent)
    requires s.Cmd() != CMD_SEND_STATUS
    ensures Essence([s]) == [s.wire]
  {
    assert [s][..0] == [];
  }

  /** A finished transfer shows the STOP_TRANSMISSION exactly when it was owed, and nothing else. */
  lemma {:induction false} EssenceOfTransfer(d: seq<Sent>, data: Wire, stop: Option<Wire>)
    requires IsTransfer(d, data, stop)
    requires data.cmd != CMD_SEND_STATUS
    requires stop.Some? ==> stop.value.cmd == CMD_STOP_TRANSMISSION
    ensures Essence(d) == [data] + if stop.Some? then [stop.value] else []
  {
    var head := if stop.Some? then 2 else 1;
    EssenceOfPrefix(d, head);
    assert d[..1] == [d[0]];
    EssenceOfOne(d[0]);
    if stop.Some? {
      assert d[..2] == [d[0]] + [d[1]];
      EssenceConcat([d[0]], [d[1]]);
      EssenceOfOne(d[1]);
    }
  }

  lemma {:induction false} EssenceGrows(before: seq<Sent>, after: seq<Sent>, data: Wire, stop: Option<Wire>)
    requires before <= after
    requires IsTransfer(after[|before|..], data, stop)
    requires data.cmd != CMD_SEND_STATUS
    requires stop.Some? ==> stop.value.cmd == CMD_STOP_TRANSMISSION
    ensures Essence(after) == Essence(before) + [data] + if stop.Some? then [stop.value] else []
  {
    assert after == before + after[|before|..];
    EssenceConcat(before, after[|before|..]);
    EssenceOfTransfer(after[|before|..], data, stop);
  }
}
