/**
  The nRF24L01 driver (src/nrf24l01): sending with acknowledgement, the interrupt handler
  that completes it, and the cached transmit address.

  Bus and GPIO accesses are numbered; `busOk(k)` says whether access `k` succeeds.  A failed
  access has no effect on the chip.
 */
module Nrf24Driver {
  import opened Machine
  import opened Ds5Publication
  import opened Nrf24Bytes
  import opened Nrf24Handler

  const CMD_FLUSH_TX: byte := 0xE1
  const CMD_FLUSH_RX: byte := 0xE2
  const CMD_W_STATUS: byte := 0x27
  const CMD_W_RX_ADDR_P0: byte := 0x2A
  const CMD_W_TX_ADDR: byte := 0x30
  const ADDRESS_LEN := 5

  // ---- Accesses and what they do ----

  /** What a write command does to the chip. */
  function ChipWrite(chip: Chip, cmd: byte, data: seq<byte>): Chip {
    if cmd == CMD_W_TX_ADDR then chip.(txAddr := data)
    else if cmd == CMD_W_RX_ADDR_P0 then chip.(rxAddr0 := data)
    else if cmd == CMD_W_TX_PAYLOAD || cmd == CMD_W_TX_PAYLOAD_NO_ACK then chip.(fifo := [cmd] + data)
    else if cmd == CMD_FLUSH_TX then chip.(fifo := [])
    else chip
  }

  /** Address width the chip is set to; 0 when the setting is illegal. */
  function AddressWidth(chip: Chip): nat {
    if chip.setupAw % 4 == 0 then 0 else chip.setupAw % 4 + 2
  }

  /** The chip after both addresses have been set. */
  function Addressed(chip: Chip, addr: seq<byte>): Chip {
    chip.(txAddr := Reversed(addr), rxAddr0 := Reversed(addr))
  }

  predicate ThreeOk(busOk: nat -> bool, k: nat) {
    busOk(k) && busOk(k + 1) && busOk(k + 2)
  }

  predicate FourOk(busOk: nat -> bool, k: nat) {
    ThreeOk(busOk, k) && busOk(k + 3)
  }

  ghost predicate NoFailures(busOk: nat -> bool) {
    forall k: nat :: busOk(k)
  }

  /** The chip when a send gives up because one of its accesses, from number `k` on, failed. */
  function FailedSend(chip: Chip, payload: seq<byte>, useAck: bool, sch: Schedule, busOk: nat -> bool, k: nat): Chip {
    var idle := ChipAfter(chip, sch.cleared);
    var disabled := ChipAfter(idle.(ce := false), sch.early);
    if !busOk(k) then idle
    else if !busOk(k + 1) then disabled
    else ChipAfter(disabled.(fifo := Framed(payload, useAck)), sch.mid)
  }

  /** Chip, result and access number after a send of at most 32 bytes that starts with access `k`. */
  ghost function SendChip(chip: Chip, payload: seq<byte>, useAck: bool, sch: Schedule, busOk: nat -> bool, k: nat): Chip {
    if ThreeOk(busOk, k) then Sent(chip, payload, useAck, sch) else FailedSend(chip, payload, useAck, sch, busOk, k)
  }

  ghost function SendResult(useAck: bool, sch: Schedule, busOk: nat -> bool, k: nat): nat {
    if !ThreeOk(busOk, k) then 1 else if useAck then WaitResult(sch) else 0
  }

  ghost function SendOps(useAck: bool, sch: Schedule, busOk: nat -> bool, k: nat): nat {
    if !busOk(k) then k + 1
    else if !busOk(k + 1) then k + 2
    else if !busOk(k + 2) then k + 3
    else if useAck && WaitResult(sch) == 5 then k + 6
    else k + 4
  }

  /** The deciding look at the flag sees success. */
  ghost predicate LooksGood(sch: Schedule) {
    exists t: nat :: CompletesAt(sch, t) && Look(sch, t + 1) == 1
  }

  /** The handler does nothing up to the enabling of the chip. */
  predicate Quiet(sch: Schedule) {
    sch.cleared == sch.early == sch.mid == []
  }

  /**
    What a result stands for: 1 if one of the three accesses fails; otherwise 0 without
    acknowledgement and with it what the looks at the flag say.
   */
  ghost predicate ResultTells(res: nat, useAck: bool, sch: Schedule, busOk: nat -> bool, k: nat) {
    if !(busOk(k) && busOk(k + 1) && busOk(k + 2)) then res == 1
    else if !useAck then res == 0
    else
      && (res == 0 <==> LooksGood(sch))
      && (res == 5 <==> forall j: nat :: j < 5000 ==> Look(sch, j) == 0)
      && (res == 0 || res == 1 || res == 5)
  }

  /**
    What a send does to the chip: the command byte and the reversed payload go to the FIFO,
    unless flushed, the line goes up, the registers stay.  With a quiet handler, each failing
    access leaves the effect of those before.
   */
  ghost predicate ChipTells(after: Chip, chip: Chip, payload: seq<byte>, useAck: bool, sch: Schedule, busOk: nat -> bool, k: nat) {
    var frame := [if useAck then 0xA0 else 0xB0] + Reversed(payload);
    && (busOk(k) && busOk(k + 1) && busOk(k + 2) ==>
          after == Chip(chip.setupAw, chip.txAddr, chip.rxAddr0,
                        if Flush in sch.mid + ActsDuring(sch, useAck) then [] else frame,
                        CeAfter(true, ActsDuring(sch, useAck))))
    && (Quiet(sch) && !busOk(k) ==> after == chip)
    && (Quiet(sch) && busOk(k) && !busOk(k + 1) ==> after == chip.(ce := false))
    && (Quiet(sch) && busOk(k) && busOk(k + 1) && !busOk(k + 2) ==> after == chip.(ce := false, fifo := frame))
    && (after.txAddr == chip.txAddr && after.rxAddr0 == chip.rxAddr0 && after.setupAw == chip.setupAw)
  }

  lemma SendTells(chip: Chip, payload: seq<byte>, useAck: bool, sch: Schedule, busOk: nat -> bool, k: nat)
    ensures ResultTells(SendResult(useAck, sch, busOk, k), useAck, sch, busOk, k)
    ensures ChipTells(SendChip(chip, payload, useAck, sch, busOk, k), chip, payload, useAck, sch, busOk, k)
  {
    ResultByLooks(sch);
    PayloadStays(chip, payload, useAck, sch);
  }

  /** The address width is the one the driver writes addresses with. */
  predicate Wide(chip: Chip) {
    AddressWidth(chip) == ADDRESS_LEN
  }

  /** The address reaches the TX_ADDR register, and both registers, when it is set from access `k` on. */
  predicate TxReached(wide: bool, busOk: nat -> bool, k: nat) {
    wide && busOk(k) && busOk(k + 1)
  }

  predicate BothReached(wide: bool, busOk: nat -> bool, k: nat) {
    wide && FourOk(busOk, k)
  }

  function AddressChip(chip: Chip, addr: seq<byte>, busOk: nat -> bool, k: nat): Chip {
    chip.(txAddr := if TxReached(Wide(chip), busOk, k) then Reversed(addr) else chip.txAddr,
          rxAddr0 := if BothReached(Wide(chip), busOk, k) then Reversed(addr) else chip.rxAddr0)
  }

  function AddressOps(wide: bool, busOk: nat -> bool, k: nat): nat {
    if !wide || !busOk(k) then k + 1
    else if !busOk(k + 1) then k + 2
    else if !busOk(k + 2) then k + 3
    else k + 4
  }

  /** The payload accesses of the handler succeed. */
  predicate PayloadOk(busOk: nat -> bool, k: nat, width: byte) {
    busOk(k) && busOk(k + 1) && (width > MAX_PAYLOAD ==> busOk(k + 2))
  }

  predicate DataReady(status: byte) {
    status / 64 % 2 == 1
  }

  /** With the status read, the handler gets as far as the receive part, and gets a payload there. */
  predicate Attended(busOk: nat -> bool, k: nat, status: byte) {
    MaxRetries(status) ==> busOk(k)
  }

  predicate GetsPayload(busOk: nat -> bool, k: nat, status: byte, width: byte) {
    && Attended(busOk, k, status)
    && DataReady(status) && 1 <= width <= 33
    && PayloadOk(busOk, if MaxRetries(status) then k + 1 else k, width)
  }

  /** The handler does so when its first access is number `k`. */
  predicate Attends(busOk: nat -> bool, k: nat, status: byte) {
    ThreeOk(busOk, k) && Attended(busOk, k + 3, status)
  }

  predicate Receives(busOk: nat -> bool, k: nat, status: byte, width: byte) {
    ThreeOk(busOk, k) && GetsPayload(busOk, k + 3, status, width)
  }

  /** Among acts of the handler an acknowledgement is read, unless the handler already knew one. */
  ghost predicate Backed(acts: seq<Act>) {
    forall p :: PhaseAfter(p, acts).Some? && !Acking(p) ==> LearnsAck(acts)
  }

  /**
    What `nrf24l01_basic_send` does, stage by stage from access `k` on: disable, read the
    address width (3 stands for five bytes), write TX_ADDR, again for pipe 0, then send.
   */
  ghost predicate BasicTells(res: nat, after: Chip, chip: Chip, addr: seq<byte>, payload: seq<byte>, useAck: bool, sch: Schedule, busOk: nat -> bool, k: nat) {
    var to := Reversed(addr);
    if !busOk(k) then res == 1 && after == chip
    else if !(busOk(k + 1) && chip.setupAw % 4 == 3 && busOk(k + 2)) then res == 2 && after == chip.(ce := false)
    else if !(busOk(k + 3) && busOk(k + 4)) then res == 3 && after == chip.(ce := false, txAddr := to)
    else if |payload| > 32 then res == 1 && after == chip.(ce := false, txAddr := to, rxAddr0 := to)
    else SentTells(res, after, chip.(ce := false, txAddr := to, rxAddr0 := to), payload, useAck, sch, busOk, k + 5)
  }

  /** What `nrf24l01_basic_sent` does: 0 for a send that got a 0, 1 for any other. */
  ghost predicate SentTells(res: nat, after: Chip, chip: Chip, payload: seq<byte>, useAck: bool, sch: Schedule, busOk: nat -> bool, k: nat) {
    && res == (if busOk(k) && busOk(k + 1) && busOk(k + 2) && (!useAck || LooksGood(sch)) then 0 else 1)
    && ChipTells(after, chip, payload, useAck, sch, busOk, k)
  }

  lemma SentTellsSo(chip: Chip, payload: seq<byte>, useAck: bool, sch: Schedule, busOk: nat -> bool, k: nat)
    ensures SentTells(SentResult(useAck, sch, busOk, k), SendChip(chip, payload, useAck, sch, busOk, k),
                      chip, payload, useAck, sch, busOk, k)
  {
    SendTells(chip, payload, useAck, sch, busOk, k);
  }

  /** Result, chip and access number of the basic calls, as the code makes them. */
  ghost function SentResult(useAck: bool, sch: Schedule, busOk: nat -> bool, k: nat): nat {
    if SendResult(useAck, sch, busOk, k) == 0 then 0 else 1
  }

  ghost function BasicResult(chip: Chip, payload: seq<byte>, useAck: bool, sch: Schedule, busOk: nat -> bool, k: nat): nat {
    if !busOk(k) then 1
    else if !BothReached(Wide(chip), busOk, k + 1) then if TxReached(Wide(chip), busOk, k + 1) then 3 else 2
    else if |payload| > MAX_PAYLOAD then 1
    else SentResult(useAck, sch, busOk, k + 5)
  }

  ghost function BasicChip(chip: Chip, addr: seq<byte>, payload: seq<byte>, useAck: bool, sch: Schedule, busOk: nat -> bool, k: nat): Chip {
    if !busOk(k) then chip
    else if !BothReached(Wide(chip), busOk, k + 1) then AddressChip(chip, addr, busOk, k + 1).(ce := false)
    else if |payload| > MAX_PAYLOAD then Addressed(chip, addr).(ce := false)
    else SendChip(Addressed(chip, addr).(ce := false), payload, useAck, sch, busOk, k + 5)
  }

  ghost function BasicOps(wide: bool, payload: seq<byte>, useAck: bool, sch: Schedule, busOk: nat -> bool, k: nat): nat {
    if !busOk(k) then k + 1
    else if !BothReached(wide, busOk, k + 1) then AddressOps(wide, busOk, k + 1)
    else if |payload| > MAX_PAYLOAD then k + 5
    else SendOps(useAck, sch, busOk, k + 5)
  }

  lemma BasicTellsSo(chip: Chip, addr: seq<byte>, payload: seq<byte>, useAck: bool, sch: Schedule, busOk: nat -> bool, k: nat)
    ensures BasicTells(BasicResult(chip, payload, useAck, sch, busOk, k), BasicChip(chip, addr, payload, useAck, sch, busOk, k),
                       chip, addr, payload, useAck, sch, busOk, k)
  {
    SentTellsSo(Addressed(chip, addr).(ce := false), payload, useAck, sch, busOk, k + 5);
  }

  /** What the handler does, by the bits of the status register: 4 for retries exhausted, 5 for data sent, 6 for data ready. */
  ghost predicate HandlerTells(
    finished': nat, finished: nat, after: Chip, chip: Chip, received: Option<seq<byte>>,
    status: byte, width: byte, payload: seq<byte>, busOk: nat -> bool, k: nat, last: bool)
  {
    var read := busOk(k) && busOk(k + 1) && busOk(k + 2);
    var lost := status / 0x10 % 2 == 1;
    var attended := read && (lost ==> busOk(k + 3));
    var j := if lost then k + 4 else k + 3;
    && finished' == (if attended && status / 0x20 % 2 == 1 then 1 else if attended && lost then 2 else finished)
    && after == Chip(chip.setupAw, chip.txAddr, chip.rxAddr0, if attended && lost then [] else chip.fifo, if busOk(k) then last else chip.ce)
    && received == (if attended && status / 0x40 % 2 == 1 && 1 <= width <= 33 && busOk(j) && busOk(j + 1) && (width > 32 ==> busOk(j + 2))
                    then Some(Reversed(payload)) else None)
  }

  lemma HandlerTellsSo(finished: nat, chip: Chip, status: byte, width: byte, payload: seq<byte>, busOk: nat -> bool, k: nat, last: bool)
    ensures HandlerTells(FlagByRun(finished, ThreeOk(busOk, k), status, busOk(k + 3)), finished,
                         ChipByRun(chip, busOk(k), ThreeOk(busOk, k), status, busOk(k + 3), last), chip,
                         if Receives(busOk, k, status, width) then Some(Reversed(payload)) else None,
                         status, width, payload, busOk, k, last)
  {
  }

  /** The width a value of SETUP_AW stands for admits the address. */
  predicate AdmitsAddress(setupAw: byte, len: nat) {
    || (setupAw % 4 == 1 && len <= 3)
    || (setupAw % 4 == 2 && len <= 4)
    || (setupAw % 4 == 3 && len <= 5)
  }

  /** Success after the flag was cleared rests on an acknowledgement read since, unless the handler already knew one. */
  lemma SuccessIsReal(sch: Schedule, k: nat)
    requires Look(sch, k) == 1
    ensures Backed(AllBefore(sch, k))
  {
    FlagComesFrom(0, AllBefore(sch, k));
    forall p | PhaseAfter(p, AllBefore(sch, k)).Some? && !Acking(p)
      ensures LearnsAck(AllBefore(sch, k))
    {
      if !LearnsAck(AllBefore(sch, k)) {
        OneMeansAcknowledged(p, AllBefore(sch, k));
      }
    }
  }

  class Driver {
    const busOk: nat -> bool
    var ops: nat
    var inited: bool
    var finished: nat
    var chip: Chip
    var cachedAddr: seq<byte>
    var cached: bool

    constructor (busOk: nat -> bool, chip: Chip)
      ensures this.busOk == busOk && this.chip == chip && !inited && !cached
    {
      this.busOk, this.chip := busOk, chip;
      ops, inited, finished, cachedAddr, cached := 0, false, 0, [0, 0, 0, 0, 0], false;
    }

    /** `gpio_write` of the chip-enable line. */
    method GpioWrite(level: bool) returns (res: nat)
      modifies this`ops, this`chip
      ensures ops == old(ops) + 1
      ensures res == if busOk(old(ops)) then 0 else 1
      ensures chip == if busOk(old(ops)) then old(chip).(ce := level) else old(chip)
    {
      if busOk(ops) {
        chip, res := chip.(ce := level), 0;
      } else {
        res := 1;
      }
      ops := ops + 1;
    }

    /** `spi_write`, with the length guard of the bus layer. */
    method SpiWrite(cmd: byte, data: seq<byte>) returns (res: nat)
      modifies this`ops, this`chip
      ensures ops == old(ops) + 1
      ensures res == 0 <==> busOk(old(ops)) && WriteFrame(cmd, data).Some?
      ensures chip == if res == 0 then ChipWrite(old(chip), cmd, data) else old(chip)
    {
      var spiTx := new byte[SPI_BUFFER_SIZE];
      var frame := FillTxBuffer(spiTx, cmd, data);
      if frame.Some? && busOk(ops) {
        chip, res := ChipWrite(chip, frame.value[0], frame.value[1..]), 0;
      } else {
        res := 1;
      }
      ops := ops + 1;
    }

    /** `spi_read` of one register byte. */
    method SpiReadByte(value: byte) returns (res: nat, got: byte)
      modifies this`ops
      ensures ops == old(ops) + 1
      ensures res == 0 <==> busOk(old(ops))
      ensures res == 0 ==> got == value
    {
      res, got := if busOk(ops) then 0 else 1, if busOk(ops) then value else 0;
      ops := ops + 1;
    }

    /** The copy-and-reverse of a buffer that every multi-byte register access makes. */
    method ReverseCopy(data: seq<byte>) returns (r: seq<byte>)
      ensures r == Reversed(data)
    {
      var buffer := new byte[|data|](i requires 0 <= i < |data| => data[i]);
      assert buffer[..|data|] == data;
      ReverseInPlace(buffer, |data|);
      r := buffer[..];
      assert r == buffer[..|data|];
    }

    /** The handler acts in between. */
    method Interrupted(acts: seq<Act>)
      modifies this`finished, this`chip
      ensures finished == FlagAfter(old(finished), acts)
      ensures chip == ChipAfter(old(chip), acts)
    {
      finished := FlagAfter(finished, acts);
      chip := ChipAfter(chip, acts);
    }

    /** The waiting part of `nrf24l01_send`. */
    method WaitFinished(sch: Schedule) returns (res: nat, ticks: nat)
      requires finished == FlagAfter(0, Early(sch) + sch.mid)
      modifies this`ops, this`finished, this`chip
      ensures ticks <= TIMEOUT && ticks == WaitTicks(sch) && res == WaitResult(sch)
      ensures res == 5 <==> ticks == TIMEOUT
      ensures res == 5 <==> forall k: nat :: k < TIMEOUT ==> Look(sch, k) == 0
      ensures res != 5 ==> CompletesAt(sch, ticks) && res == if Look(sch, ticks + 1) == 1 then 0 else 1
      ensures chip == ChipAfter(old(chip), ActsBefore(sch.irqs, ticks + 1))
      ensures ops == if res == 5 then old(ops) + 2 else old(ops)
    {
      ticks := WaitLoop(sch);
      WaitTicksIs(sch, ticks);
      NextLook(sch, ticks);
      Interrupted(sch.irqs(ticks + 1));
      if ticks == TIMEOUT {
        var status, config;
        res, status := SpiReadByte(0);   // both are read for a message only
        res, config := SpiReadByte(0);
        return 5, ticks;
      }
      res := if finished == 1 then 0 else 1;
    }

    /** One look, one tick, until the flag is set or the ticks are used up. */
    method WaitLoop(sch: Schedule) returns (ticks: nat)
      requires finished == FlagAfter(0, Early(sch) + sch.mid)
      modifies this`finished, this`chip
      ensures ticks <= TIMEOUT
      ensures forall j: nat :: j < ticks ==> Look(sch, j) == 0
      ensures finished == Look(sch, ticks) && (ticks < TIMEOUT ==> finished != 0)
      ensures chip == ChipAfter(old(chip), ActsBefore(sch.irqs, ticks))
    {
      var timeout: nat := TIMEOUT;
      ticks := 0;
      assert AllBefore(sch, 0) == (Early(sch) + sch.mid) + sch.irqs(0);
      ActsConcat(Early(sch) + sch.mid, sch.irqs(0));
      Interrupted(sch.irqs(0));
      while timeout != 0 && finished == 0
        invariant timeout + ticks == TIMEOUT
        invariant finished == Look(sch, ticks)
        invariant forall j: nat :: j < ticks ==> Look(sch, j) == 0
        invariant chip == ChipAfter(old(chip), ActsBefore(sch.irqs, ticks))
      {
        timeout := timeout - 1;
        NextLook(sch, ticks);
        ticks := ticks + 1;
        Interrupted(sch.irqs(ticks));
      }
    }

    /** `nrf24l01_send`. */
    method Send(payload: seq<byte>, useAck: bool, sch: Schedule) returns (res: nat, ticks: nat)
      modifies this`ops, this`chip, this`finished
      ensures ticks <= TIMEOUT
      ensures !inited ==> res == 3 && chip == old(chip) && ops == old(ops)
      ensures inited && |payload| > MAX_PAYLOAD ==> res == 4 && chip == old(chip) && ops == old(ops)
      ensures inited && |payload| <= MAX_PAYLOAD ==>
                && res == SendResult(useAck, sch, busOk, old(ops))
                && chip == SendChip(old(chip), payload, useAck, sch, busOk, old(ops))
                && ops == SendOps(useAck, sch, busOk, old(ops))
      ensures inited && |payload| <= 32 ==>
                && ResultTells(res, useAck, sch, busOk, old(ops))
                && ChipTells(chip, old(chip), payload, useAck, sch, busOk, old(ops))
      ensures inited && |payload| <= 32 && busOk(old(ops)) && busOk(old(ops) + 1) && busOk(old(ops) + 2) ==>
                ops == old(ops) + if res == 5 then 6 else 4
      ensures res == 5 <==> ticks == TIMEOUT
      ensures useAck && res == 0 ==> Backed(AllBefore(sch, ticks + 1))
    {
      if !inited {
        return 3, 0;
      }
      if |payload| > MAX_PAYLOAD {
        return 4, 0;
      }
      SendTells(chip, payload, useAck, sch, busOk, ops);
      res, ticks := LoadAndWait(payload, useAck, sch);
    }

    /** A send past its guards. */
    method LoadAndWait(payload: seq<byte>, useAck: bool, sch: Schedule) returns (res: nat, ticks: nat)
      requires |payload| <= MAX_PAYLOAD
      modifies this`ops, this`chip, this`finished
      ensures ticks <= TIMEOUT
      ensures res == SendResult(useAck, sch, busOk, old(ops))
      ensures chip == SendChip(old(chip), payload, useAck, sch, busOk, old(ops))
      ensures ops == SendOps(useAck, sch, busOk, old(ops))
      ensures res == 5 <==> ticks == TIMEOUT
      ensures useAck && res == 0 ==> Backed(AllBefore(sch, ticks + 1))
    {
      ticks := 0;
      finished := 0;
      var started := StartSend(payload, useAck, sch);
      if !started {
        return 1, ticks;
      }
      if useAck {
        res, ticks := WaitFinished(sch);
        if res == 0 {
          SuccessIsReal(sch, ticks + 1);
        }
      } else {
        Interrupted(sch.irqs(0));
        res := 0;
      }
    }

    /** The bus accesses of a send: disable, load the payload, enable. */
    method StartSend(payload: seq<byte>, useAck: bool, sch: Schedule) returns (ok: bool)
      requires |payload| <= MAX_PAYLOAD && finished == 0
      modifies this`ops, this`chip, this`finished
      ensures ok <==> ThreeOk(busOk, old(ops))
      ensures ok ==> chip == Loaded(old(chip), payload, useAck, sch.mid) && finished == FlagAfter(0, Early(sch) + sch.mid)
      ensures ok ==> ops == old(ops) + 4
      ensures !ok ==> chip == FailedSend(old(chip), payload, useAck, sch, busOk, old(ops)) && ops == SendOps(useAck, sch, busOk, old(ops))
    {
      var data := ReverseCopy(payload);
      Interrupted(sch.cleared);
      var r := GpioWrite(false);
      if r != 0 {
        return false;
      }
      Interrupted(sch.early);
      r := SpiWrite(PayloadCommand(useAck), data);
      if r != 0 {
        return false;
      }
      Interrupted(sch.mid);
      FlagInParts(sch);
      r := GpioWrite(true);
      if r != 0 {
        return false;
      }
      var feature;
      r, feature := SpiReadByte(0);   // the FEATURE register is read, the result not used
      return true;
    }

    /**
      `nrf24l01_irq_handler`; `width` and `payload` are what the chip reports as received.
      `acts` is the record of the run.
     */
    method IrqHandler(status: byte, width: byte, payload: seq<byte>) returns (res: nat, received: Option<seq<byte>>, ghost acts: seq<Act>)
      requires |payload| == width
      modifies this`ops, this`chip, this`finished
      ensures !inited ==> res == 3 && received == None && acts == []
      // the acts the schedules of a send are made of, in their order, and nothing else
      ensures inited ==> old(ops) < ops
      ensures inited ==> acts == RunActs(busOk(old(ops)), ThreeOk(busOk, old(ops)), status, busOk(old(ops) + 3), busOk(ops - 1))
      ensures PhaseAfter(Idle, acts) == Some(Idle)
      ensures finished == FlagAfter(old(finished), acts) && chip == ChipAfter(old(chip), acts)
      // data is only ever handed on as the chip holds it, and never more than the local buffer has room for
      ensures inited ==> received == if Receives(busOk, old(ops), status, width) then Some(Reversed(payload)) else None
      ensures inited ==>
                && (res == 0 <==> Attends(busOk, old(ops), status) && (DataReady(status) ==> received.Some?) && busOk(ops - 1))
                && res <= 1
      // the same by the bits of the status register
      ensures inited ==>
                HandlerTells(finished, old(finished), chip, old(chip), received, status, width, payload, busOk, old(ops), busOk(ops - 1))
    {
      received, acts := None, [];
      if !inited {
        return 3, received, acts;
      }
      ghost var k := ops;
      res, received, acts := RunHandler(status, width, payload);
      RunFacts(old(finished), old(chip), busOk(k), ThreeOk(busOk, k), status, busOk(k + 3), busOk(ops - 1), acts);
      HandlerTellsSo(old(finished), old(chip), status, width, payload, busOk, k, busOk(ops - 1));
    }

    /** The handler of an initialised driver. */
    method RunHandler(status: byte, width: byte, payload: seq<byte>) returns (res: nat, received: Option<seq<byte>>, ghost acts: seq<Act>)
      requires |payload| == width
      modifies this`ops, this`chip, this`finished
      ensures old(ops) < ops
      ensures acts == RunActs(busOk(old(ops)), ThreeOk(busOk, old(ops)), status, busOk(old(ops) + 3), busOk(ops - 1))
      ensures finished == FlagByRun(old(finished), ThreeOk(busOk, old(ops)), status, busOk(old(ops) + 3))
      ensures chip == ChipByRun(old(chip), busOk(old(ops)), ThreeOk(busOk, old(ops)), status, busOk(old(ops) + 3), busOk(ops - 1))
      ensures received == if Receives(busOk, old(ops), status, width) then Some(Reversed(payload)) else None
      ensures res == 0 <==> Attends(busOk, old(ops), status) && (DataReady(status) ==> received.Some?) && busOk(ops - 1)
      ensures res <= 1
    {
      ghost var more;
      var ok, prev;
      ok, prev, acts := FetchStatus(status);
      if !ok {
        return 1, None, acts;
      }
      res, received, more := AttendAndClose(prev, width, payload);
      RunParts(prev, busOk(old(ops) + 3), busOk(ops - 1));
      acts := acts + more;
    }

    /** The handler once it has the status. */
    method AttendAndClose(prev: byte, width: byte, payload: seq<byte>) returns (res: nat, received: Option<seq<byte>>, ghost acts: seq<Act>)
      requires |payload| == width
      modifies this`ops, this`chip, this`finished
      ensures old(ops) < ops && acts == Duties(prev, busOk(old(ops))) + [Closing(busOk(ops - 1))]
      ensures finished == FlagByDuties(old(finished), prev, busOk(old(ops)))
      ensures chip == var c := ChipByDuties(old(chip), prev, busOk(old(ops))); if busOk(ops - 1) then c.(ce := true) else c
      ensures received == if GetsPayload(busOk, old(ops), prev, width) then Some(Reversed(payload)) else None
      ensures res == 0 <==> Attended(busOk, old(ops), prev) && (DataReady(prev) ==> received.Some?) && busOk(ops - 1)
      ensures res <= 1
    {
      var ok;
      ok, received, acts := Attend(prev, width, payload);
      acts := acts + [Closing(busOk(ops))];
      res := GpioWrite(true);
      if !ok {
        res := 1;
      }
    }

    /** What the handler does about the status it has read. */
    method Attend(prev: byte, width: byte, payload: seq<byte>) returns (ok: bool, received: Option<seq<byte>>, ghost acts: seq<Act>)
      requires |payload| == width
      modifies this`ops, this`chip, this`finished
      ensures old(ops) <= ops
      ensures acts == Duties(prev, busOk(old(ops)))
      ensures finished == FlagByDuties(old(finished), prev, busOk(old(ops))) && chip == ChipByDuties(old(chip), prev, busOk(old(ops)))
      ensures received == if GetsPayload(busOk, old(ops), prev, width) then Some(Reversed(payload)) else None
      ensures ok <==> Attended(busOk, old(ops), prev) && (DataReady(prev) ==> received.Some?)
    {
      received := None;
      ok, acts := Complete(prev);
      if ok && prev / 64 % 2 != 0 {
        var res;
        res, received := ReadPayload(width, payload);
        ok := res == 0;
      }
    }

    /** Disabling the chip, and reading and clearing the status. */
    method FetchStatus(status: byte) returns (ok: bool, prev: byte, ghost acts: seq<Act>)
      modifies this`ops, this`chip
      ensures ok <==> ThreeOk(busOk, old(ops))
      ensures ok ==> prev == status && ops == old(ops) + 3 && acts == [Disable, Learn(status)]
      ensures !ok ==> old(ops) < ops && acts == RunActs(busOk(old(ops)), false, status, busOk(old(ops) + 3), busOk(ops - 1))
      ensures chip == if ok then old(chip).(ce := false) else if busOk(old(ops)) then old(chip).(ce := busOk(ops - 1)) else old(chip)
    {
      ok, prev, acts := false, 0, [];
      var ignore;
      var res := GpioWrite(false);
      if res != 0 {
        return;
      }
      acts := [Disable];
      res, prev := SpiReadByte(status);
      if res != 0 {
        acts := acts + [Closing(busOk(ops))];
        ignore := GpioWrite(true);
        return;
      }
      res := SpiWrite(CMD_W_STATUS, [prev]);
      if res != 0 {
        acts := acts + [Closing(busOk(ops))];
        ignore := GpioWrite(true);
        return;
      }
      acts := acts + [Learn(prev)];
      ok := true;
    }

    /** The completion part of the handler: retries exhausted, data sent. */
    method Complete(prev: byte) returns (ok: bool, ghost acts: seq<Act>)
      modifies this`ops, this`chip, this`finished
      ensures ok <==> !MaxRetries(prev) || busOk(old(ops))
      ensures ops == if MaxRetries(prev) then old(ops) + 1 else old(ops)
      ensures acts == Duties(prev, busOk(old(ops)))
      ensures finished == FlagByDuties(old(finished), prev, busOk(old(ops))) && chip == ChipByDuties(old(chip), prev, busOk(old(ops)))
    {
      acts := [];
      if prev / 16 % 2 != 0 {
        var res := SpiWrite(CMD_FLUSH_TX, []);
        if res != 0 {
          return false, acts;
        }
        acts := acts + [Flush];
        finished := 2;
        acts := acts + [GiveUp];
      }
      if prev / 32 % 2 != 0 {
        finished := 1;
        acts := acts + [Succeed];
      }
      ok := true;
    }

    /** The receive part of the handler. */
    method ReadPayload(width0: byte, payload: seq<byte>) returns (res: nat, received: Option<seq<byte>>)
      requires |payload| == width0
      modifies this`ops, this`chip
      ensures chip == old(chip) && old(ops) <= ops
      ensures res == 0 <==> received.Some?
      ensures received == if 1 <= width0 <= 33 && PayloadOk(busOk, old(ops), width0) then Some(Reversed(payload)) else None
    {
      received := None;
      var width;
      res, width := SpiReadByte(width0);
      if res != 0 {
        return 1, received;
      }
      if width > MAX_PAYLOAD {
        res := SpiWrite(CMD_FLUSH_RX, []);
        if res != 0 {
          return 1, received;
        }
      }
      var frame := ReadFrame([0] + payload, width);
      var ok := busOk(ops);
      ops := ops + 1;
      if frame.None? || !ok {
        return 1, received;
      }
      var buffer := new byte[33](i => 0);
      forall i | 0 <= i < width {
        buffer[i] := frame.value[i];
      }
      assert buffer[..width] == payload;
      ReverseInPlace(buffer, width);
      received := Some(buffer[..width]);
    }

    /** `nrf24l01_set_tx_address` and `nrf24l01_set_rx_pipe_0_address`. */
    method SetAddress(cmd: byte, addr: seq<byte>) returns (res: nat)
      requires cmd == CMD_W_TX_ADDR || cmd == CMD_W_RX_ADDR_P0
      modifies this`ops, this`chip
      ensures res == 0 <==> inited && 0 < AddressWidth(old(chip)) && |addr| <= AddressWidth(old(chip)) && busOk(old(ops)) && busOk(old(ops) + 1)
      ensures res == 0 <==> inited && AdmitsAddress(old(chip.setupAw), |addr|) && busOk(old(ops)) && busOk(old(ops) + 1)
      ensures chip == if res != 0 then old(chip) else if cmd == 0x30 then old(chip).(txAddr := Reversed(addr)) else old(chip).(rxAddr0 := Reversed(addr))
      ensures !inited ==> res == 3 && ops == old(ops)
      ensures inited && !busOk(old(ops)) ==> res == 1
      ensures inited && busOk(old(ops)) ==>
                (res == 4 <==> AddressWidth(old(chip)) == 0 || AddressWidth(old(chip)) < |addr|)
      ensures inited ==>
                ops == if busOk(old(ops)) && 0 < AddressWidth(old(chip)) && |addr| <= AddressWidth(old(chip)) then old(ops) + 2 else old(ops) + 1
    {
      if !inited {
        return 3;
      }
      var prev;
      res, prev := SpiReadByte(chip.setupAw);
      if res != 0 {
        return 1;
      }
      var width := prev % 4;
      if width == 0 {
        return 4;
      }
      width := width + 2;
      if |addr| > width {
        return 4;
      }
      var data := ReverseCopy(addr);
      res := SpiWrite(cmd, data);
      if res != 0 {
        return 1;
      }
    }

    /** Setting both addresses: 2 and 3 tell which of them failed. */
    method SetBoth(addr: seq<byte>) returns (res: nat)
      requires |addr| == ADDRESS_LEN
      modifies this`ops, this`chip
      ensures !inited ==> res == 2 && chip == old(chip) && ops == old(ops)
      ensures inited ==>
                && res == (if BothReached(Wide(old(chip)), busOk, old(ops)) then 0
                           else if TxReached(Wide(old(chip)), busOk, old(ops)) then 3
                           else 2)
                && chip == AddressChip(old(chip), addr, busOk, old(ops))
                && ops == AddressOps(Wide(old(chip)), busOk, old(ops))
    {
      res := SetAddress(CMD_W_TX_ADDR, addr);
      if res != 0 {
        return 2;
      }
      res := SetAddress(CMD_W_RX_ADDR_P0, addr);
      if res != 0 {
        return 3;
      }
    }

    /** `nrf24l01_basic_send`: sets the address every time. */
    method BasicSend(addr: seq<byte>, payload: seq<byte>, useAck: bool, sch: Schedule) returns (res: nat)
      requires |addr| == ADDRESS_LEN
      modifies this`ops, this`chip, this`finished
      ensures !inited ==> res == 1 && chip == old(chip) && ops == old(ops)
      ensures inited ==>
                && res == BasicResult(old(chip), payload, useAck, sch, busOk, old(ops))
                && chip == BasicChip(old(chip), addr, payload, useAck, sch, busOk, old(ops))
                && ops == BasicOps(Wide(old(chip)), payload, useAck, sch, busOk, old(ops))
      // which is, stage by stage
      ensures inited ==> BasicTells(res, chip, old(chip), addr, payload, useAck, sch, busOk, old(ops))
    {
      if !inited {
        return 1;
      }
      BasicTellsSo(chip, addr, payload, useAck, sch, busOk, ops);
      res := AddressAndSend(addr, payload, useAck, sch);
    }

    /** The same on an initialised driver. */
    method AddressAndSend(addr: seq<byte>, payload: seq<byte>, useAck: bool, sch: Schedule) returns (res: nat)
      requires |addr| == ADDRESS_LEN && inited
      modifies this`ops, this`chip, this`finished
      ensures res == BasicResult(old(chip), payload, useAck, sch, busOk, old(ops))
      ensures chip == BasicChip(old(chip), addr, payload, useAck, sch, busOk, old(ops))
      ensures ops == BasicOps(Wide(old(chip)), payload, useAck, sch, busOk, old(ops))
    {
      var ticks;
      res := GpioWrite(false);
      if res != 0 {
        return 1;
      }
      res := SetBoth(addr);
      if res != 0 {
        return;
      }
      res, ticks := Send(payload, useAck, sch);
      if res != 0 {
        return 1;
      }
    }

    /** `nrf24l01_basic_set_tx_address`: sets the address once and remembers it. */
    method BasicSetTxAddress(addr: seq<byte>) returns (res: nat)
      requires |addr| == ADDRESS_LEN
      modifies this`ops, this`chip, this`cachedAddr, this`cached
      ensures res == if inited && BothReached(Wide(old(chip)), busOk, old(ops)) then 0 else 1
      ensures chip == if inited then AddressChip(old(chip), addr, busOk, old(ops)) else old(chip)
      ensures ops == if inited then AddressOps(Wide(old(chip)), busOk, old(ops)) else old(ops)
      ensures res == 0 <==> inited && old(chip.setupAw) % 4 == 3 && busOk(old(ops)) && busOk(old(ops) + 1) && busOk(old(ops) + 2) && busOk(old(ops) + 3)
      ensures res == 0 ==> chip == old(chip).(txAddr := Reversed(addr), rxAddr0 := Reversed(addr))
      // remembered exactly on success
      ensures cachedAddr == (if res == 0 then addr else old(cachedAddr)) && cached == (res == 0 || old(cached))
    {
      res := SetBoth(addr);
      if res != 0 {
        return 1;
      }
      cachedAddr, cached := addr, true;
    }

    /** `nrf24l01_basic_sent`: sends to whatever address the chip holds. */
    method BasicSent(payload: seq<byte>, useAck: bool, sch: Schedule) returns (res: nat)
      modifies this`ops, this`chip, this`finished
      ensures !cached || !inited || |payload| > MAX_PAYLOAD ==> res == 1 && chip == old(chip) && ops == old(ops)
      ensures cached && inited && |payload| <= MAX_PAYLOAD ==>
                && res == SentResult(useAck, sch, busOk, old(ops))
                && chip == SendChip(old(chip), payload, useAck, sch, busOk, old(ops))
                && ops == SendOps(useAck, sch, busOk, old(ops))
      ensures cached && inited && |payload| <= 32 ==> SentTells(res, chip, old(chip), payload, useAck, sch, busOk, old(ops))
      ensures chip.txAddr == old(chip.txAddr) && chip.rxAddr0 == old(chip.rxAddr0) && chip.setupAw == old(chip.setupAw)
    {
      if !cached {
        return 1;
      }
      var ticks;
      SentTellsSo(chip, payload, useAck, sch, busOk, ops);
      res, ticks := Send(payload, useAck, sch);
      if res != 0 {
        return 1;
      }
    }

    /** `nrf24l01_basic_get_tx_address`: the remembered address, not the chip's. */
    method BasicGetTxAddress() returns (addr: seq<byte>, isSet: bool)
      ensures addr == cachedAddr && isSet == cached
    {
      addr, isSet := cachedAddr, cached;
    }
  }

  // ---- Results across calls ----

  predicate FiveOk(busOk: nat -> bool, k: nat) {
    FourOk(busOk, k) && busOk(k + 4)
  }

  /** The send accesses of the two paths have the same outcomes. */
  predicate SameSend(busOk1: nat -> bool, k1: nat, busOk2: nat -> bool, k2: nat) {
    busOk1(k1) == busOk2(k2) && busOk1(k1 + 1) == busOk2(k2 + 1) && busOk1(k1 + 2) == busOk2(k2 + 2)
  }

  /** Acts that move the chip-enable line, after which it does not matter how it was before. */
  predicate MovesLine(acts: seq<Act>) {
    Disable in acts || Enable in acts
  }

  lemma {:induction false} LineForgets(acts: seq<Act>)
    ensures CeAfter(true, acts) == CeAfter(false, acts) <==> MovesLine(acts)
    decreases |acts|
  {
    if acts != [] {
      LineForgets(acts[..|acts| - 1]);
      assert acts == acts[..|acts| - 1] + [acts[|acts| - 1]];
    }
  }

  /** From the moment a send has disabled the chip, it does not matter whether it was enabled before. */
  lemma SendForgetsLine(chip: Chip, payload: seq<byte>, useAck: bool, sch: Schedule, busOk: nat -> bool, k: nat)
    requires chip.ce
    ensures SendChip(chip, payload, useAck, sch, busOk, k) == SendChip(chip.(ce := false), payload, useAck, sch, busOk, k)
       <==> busOk(k) || MovesLine(sch.cleared)
  {
    LineForgets(sch.cleared);
    assert ChipAfter(chip, sch.cleared).(ce := false) == ChipAfter(chip.(ce := false), sch.cleared).(ce := false);
    assert ThreeOk(busOk, k) ==>
        Loaded(chip, payload, useAck, sch.mid) == Loaded(chip.(ce := false), payload, useAck, sch.mid);
  }

  lemma SameOutcomes(chip: Chip, payload: seq<byte>, useAck: bool, sch: Schedule, busOk1: nat -> bool, k1: nat, busOk2: nat -> bool, k2: nat)
    requires SameSend(busOk1, k1, busOk2, k2)
    ensures SendChip(chip, payload, useAck, sch, busOk1, k1) == SendChip(chip, payload, useAck, sch, busOk2, k2)
    ensures SendResult(useAck, sch, busOk1, k1) == SendResult(useAck, sch, busOk2, k2)
  {
  }

  lemma PathsAgree(chip: Chip, payload: seq<byte>, useAck: bool, sch: Schedule, busOk1: nat -> bool, k1: nat, busOk2: nat -> bool, k2: nat)
    requires SameSend(busOk1, k1, busOk2, k2)
    ensures SendResult(useAck, sch, busOk1, k1) == SendResult(useAck, sch, busOk2, k2)
    ensures SendChip(chip, payload, useAck, sch, busOk1, k1) == SendChip(chip.(ce := false), payload, useAck, sch, busOk2, k2)
       <==> !chip.ce || busOk1(k1) || MovesLine(sch.cleared)
  {
    SameOutcomes(chip.(ce := false), payload, useAck, sch, busOk1, k1, busOk2, k2);
    if chip.ce {
      SendForgetsLine(chip, payload, useAck, sch, busOk1, k1);
    } else {
      assert chip.(ce := false) == chip;
    }
  }

  /**
    Fast path and slow path.  Two drivers whose chips have been addressed to `a`: one sends
    without setting the address again, the other sets it.  If one of the five accesses that
    only the slow path makes fails, that path reports it and leaves the FIFO alone.
    Otherwise, and with the same outcomes of the accesses they share, the results are the
    same; registers, FIFO and lines are, too, unless the chip was enabled and the send did
    not get as far as disabling it: the slow path has then disabled it before.
   */
  method FastPathAgrees(d1: Driver, d2: Driver, a: seq<byte>, payload: seq<byte>, useAck: bool, sch: Schedule)
    returns (ok: bool, r1: nat, r2: nat)
    requires d1 != d2 && d1.chip == d2.chip && |a| == ADDRESS_LEN
    modifies d1, d2
    ensures ok <==> d1.inited && d2.inited && Wide(old(d1.chip)) && FourOk(d1.busOk, old(d1.ops)) && FourOk(d2.busOk, old(d2.ops))
    ensures ok && !FiveOk(d2.busOk, old(d2.ops) + 4) ==> r2 != 0 && d2.chip.fifo == old(d2.chip.fifo)
    ensures ok && FiveOk(d2.busOk, old(d2.ops) + 4) && SameSend(d1.busOk, old(d1.ops) + 4, d2.busOk, old(d2.ops) + 9) ==>
              && r1 == r2
              && (d1.chip == d2.chip <==>
                    || !old(d1.chip.ce)
                    || (|payload| <= MAX_PAYLOAD && (d1.busOk(old(d1.ops) + 4) || MovesLine(sch.cleared))))
  {
    r1 := d1.BasicSetTxAddress(a);
    r2 := d2.BasicSetTxAddress(a);
    ok := r1 == 0 && r2 == 0;
    if ok {
      SlowPath(d1.chip, a, payload, useAck, sch, d1.busOk, d1.ops, d2.busOk, d2.ops);
      r1 := d1.BasicSent(payload, useAck, sch);
      r2 := d2.BasicSend(a, payload, useAck, sch);
    }
  }

  /** The slow path on a chip that is already addressed, next to the fast path. */
  lemma SlowPath(chip: Chip, a: seq<byte>, payload: seq<byte>, useAck: bool, sch: Schedule, busOk1: nat -> bool, k1: nat, busOk2: nat -> bool, k2: nat)
    requires Wide(chip) && chip.txAddr == chip.rxAddr0 == Reversed(a)
    ensures !FiveOk(busOk2, k2) ==>
              && BasicResult(chip, payload, useAck, sch, busOk2, k2) != 0
              && BasicChip(chip, a, payload, useAck, sch, busOk2, k2).fifo == chip.fifo
    ensures FiveOk(busOk2, k2) && |payload| > MAX_PAYLOAD ==>
              && BasicResult(chip, payload, useAck, sch, busOk2, k2) == 1
              && BasicChip(chip, a, payload, useAck, sch, busOk2, k2) == chip.(ce := false)
    ensures FiveOk(busOk2, k2) && SameSend(busOk1, k1, busOk2, k2 + 5) && |payload| <= MAX_PAYLOAD ==>
              && BasicResult(chip, payload, useAck, sch, busOk2, k2) == SentResult(useAck, sch, busOk1, k1)
              && (SendChip(chip, payload, useAck, sch, busOk1, k1) == BasicChip(chip, a, payload, useAck, sch, busOk2, k2) <==>
                    !chip.ce || busOk1(k1) || MovesLine(sch.cleared))
  {
    assert Addressed(chip, a) == chip;
    if SameSend(busOk1, k1, busOk2, k2 + 5) {
      PathsAgree(chip, payload, useAck, sch, busOk1, k1, busOk2, k2 + 5);
    }
  }

  /** The calls that have to do with the transmit address. */
  datatype AddressCall =
    | SetTo(addr: seq<byte>)
    | SendTo(addr: seq<byte>, payload: seq<byte>, useAck: bool, sch: Schedule)
    | SendOn(payload: seq<byte>, useAck: bool, sch: Schedule)

  predicate ProperAddress(c: AddressCall) {
    c.SendOn? || |c.addr| == ADDRESS_LEN
  }

  /** What does not change while calls are made: bus, initialisation, address width. */
  datatype Setting = Setting(busOk: nat -> bool, inited: bool, wide: bool)

  /**
    The account of a run of calls: the number of the next access, whether an address is
    remembered, the last address that reached the TX_ADDR register and the last one remembered.
   */
  datatype Account = Account(ops: nat, isSet: bool, reached: Option<seq<byte>>, remembered: Option<seq<byte>>)

  /** The address of a call whose first access is number `k` reaches the register. */
  predicate Reaches(st: Setting, k: nat, c: AddressCall) {
    st.inited && match c
                 case SetTo(_) => TxReached(st.wide, st.busOk, k)
                 case SendTo(_, _, _, _) => st.busOk(k) && TxReached(st.wide, st.busOk, k + 1)
                 case SendOn(_, _, _) => false
  }

  /** The address of such a call is remembered. */
  predicate Remembers(st: Setting, k: nat, c: AddressCall) {
    st.inited && c.SetTo? && BothReached(st.wide, st.busOk, k)
  }

  ghost function CallOps(st: Setting, k: nat, isSet: bool, c: AddressCall): nat {
    if !st.inited then k
    else match c
      case SetTo(_) => AddressOps(st.wide, st.busOk, k)
      case SendTo(_, payload, useAck, sch) =>
        BasicOps(st.wide, payload, useAck, sch, st.busOk, k)
      case SendOn(payload, useAck, sch) =>
        if !isSet || |payload| > MAX_PAYLOAD then k else SendOps(useAck, sch, st.busOk, k)
  }

  ghost function Enter(st: Setting, acc: Account, c: AddressCall): Account {
    Account(CallOps(st, acc.ops, acc.isSet, c),
            acc.isSet || Remembers(st, acc.ops, c),
            if Reaches(st, acc.ops, c) then Some(c.addr) else acc.reached,
            if Remembers(st, acc.ops, c) then Some(c.addr) else acc.remembered)
  }

  ghost function AccountOf(st: Setting, start: Account, calls: seq<AddressCall>): Account {
    if calls == [] then start else Enter(st, AccountOf(st, start, calls[..|calls| - 1]), calls[|calls| - 1])
  }

  ghost predicate Known(o: Option<seq<byte>>, reversed: bool, before: seq<byte>, now: seq<byte>) {
    now == if o.None? then before else if reversed then Reversed(o.value) else o.value
  }

  method MakeCall(d: Driver, c: AddressCall)
    requires ProperAddress(c)
    modifies d
    ensures d.inited == old(d.inited) && d.chip.setupAw == old(d.chip.setupAw)
    ensures var st, k := Setting(d.busOk, d.inited, Wide(d.chip)), old(d.ops);
            && d.ops == CallOps(st, k, old(d.cached), c)
            && d.chip.txAddr == (if Reaches(st, k, c) then Reversed(c.addr) else old(d.chip.txAddr))
            && d.cachedAddr == (if Remembers(st, k, c) then c.addr else old(d.cachedAddr))
            && d.cached == (Remembers(st, k, c) || old(d.cached))
  {
    var r;
    match c {
      case SetTo(a) => r := d.BasicSetTxAddress(a);
      case SendTo(a, p, ack, sch) => r := d.BasicSend(a, p, ack, sch);
      case SendOn(p, ack, sch) => r := d.BasicSent(p, ack, sch);
    }
  }

  /**
    What the driver reports after any run of such calls, whichever accesses fail.  Once an
    address has been remembered, the reported address is the chip's if and only if the last
    address that reached the TX_ADDR register is the last one remembered.
   */
  method ReportedAfter(d: Driver, calls: seq<AddressCall>) returns (reported: seq<byte>, isSet: bool)
    requires forall c :: c in calls ==> ProperAddress(c)
    modifies d
    ensures var acc := AccountOf(Setting(d.busOk, old(d.inited), Wide(old(d.chip))), Account(old(d.ops), old(d.cached), None, None), calls);
            && isSet == acc.isSet && d.ops == acc.ops
            && Known(acc.reached, true, old(d.chip.txAddr), d.chip.txAddr)
            && Known(acc.remembered, false, old(d.cachedAddr), reported)
            && (acc.remembered.Some? ==> (d.chip.txAddr == Reversed(reported) <==> acc.reached == acc.remembered))
  {
    ghost var st, start := Setting(d.busOk, d.inited, Wide(d.chip)), Account(d.ops, d.cached, None, None);
    for i := 0 to |calls|
      invariant d.inited == st.inited && d.chip.setupAw == old(d.chip.setupAw)
      invariant var acc := AccountOf(st, start, calls[..i]);
                && d.cached == acc.isSet && d.ops == acc.ops
                && Known(acc.reached, true, old(d.chip.txAddr), d.chip.txAddr)
                && Known(acc.remembered, false, old(d.cachedAddr), d.cachedAddr)
    {
      MakeCall(d, calls[i]);
      assert calls[..i + 1][..i] == calls[..i];
    }
    assert calls[..|calls|] == calls;
    reported, isSet := d.BasicGetTxAddress();
    RememberedWasReached(st, start, calls);
    if AccountOf(st, start, calls).remembered.Some? {
      ReversedTwice(reported);
      ReversedTwice(AccountOf(st, start, calls).reached.value);
    }
  }

  lemma {:induction false} RememberedWasReached(st: Setting, start: Account, calls: seq<AddressCall>)
    requires start.remembered.Some? ==> start.reached.Some?
    ensures AccountOf(st, start, calls).remembered.Some? ==> AccountOf(st, start, calls).reached.Some?
    decreases |calls|
  {
    if calls != [] {
      RememberedWasReached(st, start, calls[..|calls| - 1]);
    }
  }

  /** The address of the last `SetTo`, if there is one. */
  function LastSet(calls: seq<AddressCall>): Option<seq<byte>> {
    if calls == [] then None
    else if calls[|calls| - 1].SetTo? then Some(calls[|calls| - 1].addr)
    else LastSet(calls[..|calls| - 1])
  }

  /** The address of the last `SetTo` or `SendTo`, if there is one. */
  function LastWritten(calls: seq<AddressCall>): Option<seq<byte>> {
    if calls == [] then None
    else if !calls[|calls| - 1].SendOn? then Some(calls[|calls| - 1].addr)
    else LastWritten(calls[..|calls| - 1])
  }

  /** Without bus failures, every address reaches the register and every address set is remembered. */
  lemma {:induction false} AccountWithoutFailures(st: Setting, ops: nat, isSet: bool, calls: seq<AddressCall>)
    requires NoFailures(st.busOk) && st.inited && st.wide
    ensures AccountOf(st, Account(ops, isSet, None, None), calls).reached == LastWritten(calls)
    ensures AccountOf(st, Account(ops, isSet, None, None), calls).remembered == LastSet(calls)
    ensures AccountOf(st, Account(ops, isSet, None, None), calls).isSet == (isSet || LastSet(calls).Some?)
    decreases |calls|
  {
    if calls != [] {
      AccountWithoutFailures(st, ops, isSet, calls[..|calls| - 1]);
    }
  }

  /** Two calls, in the account. */
  lemma TwoCalls(st: Setting, start: Account, c1: AddressCall, c2: AddressCall)
    ensures AccountOf(st, start, [c1, c2]) == Enter(st, Enter(st, start, c1), c2)
  {
    assert [c1, c2][..1] == [c1] && [c1][..0] == [];
    assert AccountOf(st, start, [c1]) == Enter(st, AccountOf(st, start, [c1][..0]), c1);
  }

  /** The shortest run that goes wrong without bus failures: the chip sends to `b` while `a` is reported. */
  method ReportedAddressGoesStale(d: Driver, a: seq<byte>, b: seq<byte>, payload: seq<byte>, useAck: bool, sch: Schedule)
    returns (reported: seq<byte>, isSet: bool)
    requires d.inited && NoFailures(d.busOk) && Wide(d.chip)
    requires |a| == |b| == ADDRESS_LEN && a != b
    modifies d
    ensures isSet && reported == a
    ensures d.chip.txAddr == Reversed(b) != Reversed(reported)
  {
    var calls := [SetTo(a), SendTo(b, payload, useAck, sch)];
    AccountWithoutFailures(Setting(d.busOk, true, true), d.ops, d.cached, calls);
    assert calls[..1] == [SetTo(a)];
    assert LastWritten(calls) == Some(b) && LastSet(calls) == LastSet([SetTo(a)]) == Some(a);
    reported, isSet := ReportedAfter(d, calls);
  }

  /** The same with a failure: setting `b` fails at its last access, after TX_ADDR was written. */
  method FailedSetGoesStale(d: Driver, a: seq<byte>, b: seq<byte>) returns (reported: seq<byte>, isSet: bool)
    requires d.inited && Wide(d.chip) && FourOk(d.busOk, d.ops) && ThreeOk(d.busOk, d.ops + 4) && !d.busOk(d.ops + 7)
    requires |a| == |b| == ADDRESS_LEN && a != b
    modifies d
    ensures isSet && reported == a
    ensures d.chip.txAddr == Reversed(b) != Reversed(reported)
  {
    var calls := [SetTo(a), SetTo(b)];
    ghost var st, start := Setting(d.busOk, true, true), Account(d.ops, d.cached, None, None);
    TwoCalls(st, start, calls[0], calls[1]);
    assert Enter(st, start, SetTo(a)) == Account(d.ops + 4, true, Some(a), Some(a));
    assert Enter(st, Account(d.ops + 4, true, Some(a), Some(a)), SetTo(b)) == Account(d.ops + 8, true, Some(b), Some(a));
    reported, isSet := ReportedAfter(d, calls);
  }

  /**
    A report over the radio, through both drivers: the sender loads the trimmed report; what
    is in its FIFO goes on air if the chip could be enabled, and the receiver's handler hands
    on bytes 1 to 31 of the USB report exactly if its accesses succeed.
   */
  method ReportOverRadio(tx: Driver, rx: Driver, buf: seq<byte>, len: nat, useAck: bool, sch: Schedule, status: byte)
    returns (sent: nat, received: Option<seq<byte>>)
    requires |buf| == 64 && buf[0] == 1 && len >= 41 && tx != rx
    modifies tx, rx
    ensures received ==
              if && tx.inited && ThreeOk(tx.busOk, old(tx.ops)) && Flush !in sch.mid + ActsDuring(sch, useAck)
                 && rx.inited && Receives(rx.busOk, old(rx.ops), status, 31)
              then Some(buf[1..32]) else None
    ensures tx.inited ==> ResultTells(sent, useAck, sch, tx.busOk, old(tx.ops))
    // on two good buses an unacknowledged report that is not flushed arrives, and the sender is told so
    ensures tx.inited && rx.inited && NoFailures(tx.busOk) && NoFailures(rx.busOk) && status / 0x40 % 2 == 1 && !useAck ==>
              sent == 0 && (Flush !in sch.mid + sch.irqs(0) ==> received == Some(buf[1..32]))
  {
    var trimmed := Decode(buf, len).value[..TRIMMED];
    assert trimmed == buf[1..1 + TRIMMED];
    PayloadStays(tx.chip, trimmed, useAck, sch);
    var enabled := tx.inited && ThreeOk(tx.busOk, tx.ops);
    var ticks, res;
    sent, ticks := tx.Send(trimmed, useAck, sch);
    if !enabled || tx.chip.fifo == [] {
      return sent, None;
    }
    var air := tx.chip.fifo[1..];
    assert air == Reversed(trimmed);
    ReversedTwice(trimmed);
    ghost var acts;
    res, received, acts := rx.IrqHandler(status, |air|, air);
  }
}
