/**
  The interrupt handler of the nRF24L01 driver (src/nrf24l01/nrf24l01.c:468-595) and a send
  (351-456) side by side.  The handler runs in a thread of its own (main.c:943-966), so any
  part of a run may fall between any two accesses of the send: what the handler does is a
  list of acts, and a schedule says which acts fall where.
 */
module Nrf24Handler {
  import opened Machine
  import opened Nrf24Bytes

  const CMD_W_TX_PAYLOAD: byte := 0xA0
  const CMD_W_TX_PAYLOAD_NO_ACK: byte := 0xB0
  const TIMEOUT := 5000

  predicate MaxRetries(status: byte) {
    status / 16 % 2 == 1
  }

  predicate DataSent(status: byte) {
    status / 32 % 2 == 1
  }

  // ---- What the handler does, act by act ----

  /**
    The acts of the handler that others can see: it disables the chip, reads and clears the
    status, flushes the transmit FIFO, sets `finished` to 2 or to 1, and enables the chip
    again or leaves because that failed.
   */
  datatype Act = Disable | Learn(status: byte) | Flush | GiveUp | Succeed | Enable | Leave

  /** Where the handler is: while `Busy`, the duties it still has. */
  datatype Phase = Idle | Woken | Busy(flush: bool, giveUp: bool, ack: bool)

  /** The handler after one act, if it can make that act now. */
  function Step(p: Phase, a: Act): Option<Phase> {
    match a
    case Disable => if p.Idle? then Some(Woken) else None
    case Learn(st) => if p.Woken? then Some(Busy(MaxRetries(st), MaxRetries(st), DataSent(st))) else None
    case Flush => if p.Busy? && p.flush then Some(p.(flush := false)) else None
    case GiveUp => if p.Busy? && !p.flush && p.giveUp then Some(p.(giveUp := false)) else None
    case Succeed => if p.Busy? && !p.flush && !p.giveUp && p.ack then Some(p.(ack := false)) else None
    case _ => if p.Woken? || (p.Busy? && (p.flush || (!p.giveUp && !p.ack))) then Some(Idle) else None
  }

  /** The handler after acts in a row; `None` when it does not act like that. */
  function PhaseAfter(p: Phase, acts: seq<Act>): Option<Phase> {
    if acts == [] then Some(p)
    else
      var before := PhaseAfter(p, acts[..|acts| - 1]);
      if before.None? then None else Step(before.value, acts[|acts| - 1])
  }

  function FlagAfter(finished: nat, acts: seq<Act>): nat {
    if acts == [] then finished
    else if acts[|acts| - 1].GiveUp? then 2
    else if acts[|acts| - 1].Succeed? then 1
    else FlagAfter(finished, acts[..|acts| - 1])
  }

  function FifoAfter(fifo: seq<byte>, acts: seq<Act>): seq<byte> {
    if acts == [] then fifo
    else if acts[|acts| - 1].Flush? then []
    else FifoAfter(fifo, acts[..|acts| - 1])
  }

  function CeAfter(ce: bool, acts: seq<Act>): bool {
    if acts == [] then ce
    else if acts[|acts| - 1].Disable? then false
    else if acts[|acts| - 1].Enable? then true
    else CeAfter(ce, acts[..|acts| - 1])
  }

  /** Effects of acts in a row. */
  lemma {:induction false} ActsConcat(a: seq<Act>, b: seq<Act>)
    ensures forall finished :: FlagAfter(finished, a + b) == FlagAfter(FlagAfter(finished, a), b)
    ensures forall fifo :: FifoAfter(fifo, a + b) == FifoAfter(FifoAfter(fifo, a), b)
    ensures forall ce :: CeAfter(ce, a + b) == CeAfter(CeAfter(ce, a), b)
    decreases |b|
  {
    if b == [] {
      assert a + b == a;
    } else {
      assert (a + b)[..|a + b| - 1] == a + b[..|b| - 1];
      ActsConcat(a, b[..|b| - 1]);
    }
  }

  lemma {:induction false} PhaseConcat(p: Phase, a: seq<Act>, b: seq<Act>)
    ensures PhaseAfter(p, a + b) == if PhaseAfter(p, a).None? then None else PhaseAfter(PhaseAfter(p, a).value, b)
    decreases |b|
  {
    if b == [] {
      assert a + b == a;
    } else {
      assert (a + b)[..|a + b| - 1] == a + b[..|b| - 1];
      PhaseConcat(p, a, b[..|b| - 1]);
    }
  }

  /** Acts empty the FIFO if one of them is a flush, and leave it as it is otherwise. */
  lemma {:induction false} FifoIsWholeOrEmpty(fifo: seq<byte>, acts: seq<Act>)
    ensures FifoAfter(fifo, acts) == if Flush in acts then [] else fifo
    decreases |acts|
  {
    if acts != [] {
      FifoIsWholeOrEmpty(fifo, acts[..|acts| - 1]);
      assert acts == acts[..|acts| - 1] + [acts[|acts| - 1]];
    }
  }

  /** Once set, the flag is never cleared by the handler. */
  lemma {:induction false} NeverCleared(finished: nat, acts: seq<Act>)
    requires finished != 0
    ensures FlagAfter(finished, acts) != 0
    decreases |acts|
  {
    if acts != [] {
      NeverCleared(finished, acts[..|acts| - 1]);
    }
  }

  /** The flag is what it was, or what an act has set. */
  lemma {:induction false} FlagComesFrom(finished: nat, acts: seq<Act>)
    ensures FlagAfter(finished, acts) == finished
         || (FlagAfter(finished, acts) == 1 && Succeed in acts)
         || (FlagAfter(finished, acts) == 2 && GiveUp in acts)
    decreases |acts|
  {
    if acts != [] {
      FlagComesFrom(finished, acts[..|acts| - 1]);
    }
  }

  /** The handler has read an acknowledgement that it has still to report. */
  predicate Acking(p: Phase) {
    p.Busy? && p.ack
  }

  /** The handler has flushed the FIFO and has still to report that. */
  predicate Flushed(p: Phase) {
    p.Busy? && !p.flush && p.giveUp
  }

  /** Among the acts an acknowledgement is read. */
  ghost predicate LearnsAck(acts: seq<Act>) {
    exists a :: a in acts && a.Learn? && DataSent(a.status)
  }

  /** Success is only reported after an acknowledgement has been read, by these acts or just before. */
  lemma {:induction false} OneMeansAcknowledged(p: Phase, acts: seq<Act>)
    requires PhaseAfter(p, acts).Some? && !Acking(p) && !LearnsAck(acts)
    ensures !Acking(PhaseAfter(p, acts).value) && Succeed !in acts
    decreases |acts|
  {
    if acts != [] {
      var front := acts[..|acts| - 1];
      assert forall a :: a in front ==> a in acts;
      OneMeansAcknowledged(p, front);
      assert acts == front + [acts[|acts| - 1]];
    }
  }

  /** Giving up is only reported after a flush, by these acts or just before. */
  lemma {:induction false} TwoMeansFlushed(p: Phase, acts: seq<Act>)
    requires PhaseAfter(p, acts).Some? && !Flushed(p) && Flush !in acts
    ensures !Flushed(PhaseAfter(p, acts).value) && GiveUp !in acts
    decreases |acts|
  {
    if acts != [] {
      var front := acts[..|acts| - 1];
      assert forall a :: a in front ==> a in acts;
      TwoMeansFlushed(p, front);
      assert acts == front + [acts[|acts| - 1]];
    }
  }

  // ---- A run as the code makes it ----

  /** The last act of a run. */
  function Closing(ok: bool): Act {
    if ok then Enable else Leave
  }

  /** What the handler does about a status. */
  function Duties(status: byte, flushOk: bool): seq<Act> {
    if MaxRetries(status) && !flushOk then []
    else (if MaxRetries(status) then [Flush, GiveUp] else []) + (if DataSent(status) then [Succeed] else [])
  }

  /** A run: could it disable the chip, read and clear the status, flush, and enable the chip again? */
  function RunActs(started: bool, statusOk: bool, status: byte, flushOk: bool, enabled: bool): seq<Act> {
    if !started then []
    else if !statusOk then [Disable, Closing(enabled)]
    else [Disable, Learn(status)] + Duties(status, flushOk) + [Closing(enabled)]
  }

  /** One act after others. */
  lemma OneMore(acts: seq<Act>, a: Act)
    ensures (acts + [a])[..|acts + [a]| - 1] == acts && (acts + [a])[|acts + [a]| - 1] == a
    ensures forall p :: PhaseAfter(p, acts + [a]) == if PhaseAfter(p, acts).None? then None else Step(PhaseAfter(p, acts).value, a)
    ensures forall finished: nat :: FlagAfter(finished, acts + [a]) == if a.GiveUp? then 2 else if a.Succeed? then 1 else FlagAfter(finished, acts)
    ensures forall fifo :: FifoAfter(fifo, acts + [a]) == if a.Flush? then [] else FifoAfter(fifo, acts)
    ensures forall ce :: CeAfter(ce, acts + [a]) == if a.Disable? then false else if a.Enable? then true else CeAfter(ce, acts)
  {
  }

  lemma DutiesAre(status: byte, flushOk: bool)
    ensures var p := PhaseAfter(Busy(MaxRetries(status), MaxRetries(status), DataSent(status)), Duties(status, flushOk));
            p.Some? && Step(p.value, Enable) == Step(p.value, Leave) == Some(Idle)
  {
    ShortLists();
    OneMore([], Flush);
    OneMore([], Succeed);
    OneMore([Flush], GiveUp);
    OneMore([Flush, GiveUp], Succeed);
  }

  /** The effects of these duties on flag, FIFO and line. */
  lemma DutiesDo(status: byte, flushOk: bool)
    ensures forall finished: nat :: FlagAfter(finished, Duties(status, flushOk)) ==
              if MaxRetries(status) && !flushOk then finished
              else if DataSent(status) then 1
              else if MaxRetries(status) then 2
              else finished
    ensures forall fifo :: FifoAfter(fifo, Duties(status, flushOk)) == if MaxRetries(status) && flushOk then [] else fifo
    ensures forall ce :: CeAfter(ce, Duties(status, flushOk)) == ce
  {
    ShortLists();
    OneMore([], Flush);
    OneMore([], Succeed);
    OneMore([Flush], GiveUp);
    OneMore([Flush, GiveUp], Succeed);
  }

  lemma ShortLists()
    ensures [] + [Flush] == [Flush] && [] + [Succeed] == [Succeed]
    ensures [Flush] + [GiveUp] == [Flush, GiveUp] && [Flush, GiveUp] + [] == [Flush, GiveUp]
    ensures [Flush, GiveUp] + [Succeed] == [Flush, GiveUp, Succeed]
  {
  }

  /** The code makes legal runs, whichever accesses fail. */
  lemma RunIsLegal(started: bool, statusOk: bool, status: byte, flushOk: bool, enabled: bool)
    ensures PhaseAfter(Idle, RunActs(started, statusOk, status, flushOk, enabled)) == Some(Idle)
  {
    OneMore([], Disable);
    assert [] + [Disable] == [Disable];
    if started && !statusOk {
      OneMore([Disable], Closing(enabled));
      assert [Disable] + [Closing(enabled)] == [Disable, Closing(enabled)];
    } else if started {
      OneMore([Disable], Learn(status));
      assert [Disable] + [Learn(status)] == [Disable, Learn(status)];
      DutiesAre(status, flushOk);
      PhaseConcat(Idle, [Disable, Learn(status)], Duties(status, flushOk));
      OneMore([Disable, Learn(status)] + Duties(status, flushOk), Closing(enabled));
    }
  }

  // ---- A send with the handler in between ----

  /**
    What the handler does during a send: between clearing the flag and disabling the chip,
    between that and loading the payload, between that and enabling the chip, and before look
    number `k` at the flag.
   */
  datatype Schedule = Schedule(cleared: seq<Act>, early: seq<Act>, mid: seq<Act>, irqs: nat -> seq<Act>)

  /** The acts before the payload is loaded. */
  function Early(sch: Schedule): seq<Act> {
    sch.cleared + sch.early
  }

  lemma FlagInParts(sch: Schedule)
    ensures FlagAfter(FlagAfter(FlagAfter(0, sch.cleared), sch.early), sch.mid) == FlagAfter(0, Early(sch) + sch.mid)
  {
    ActsConcat(sch.cleared, sch.early);
    ActsConcat(Early(sch), sch.mid);
  }

  /** The acts after the chip was enabled and before look number `k`. */
  function ActsBefore(irqs: nat -> seq<Act>, k: nat): seq<Act> {
    if k == 0 then irqs(0) else ActsBefore(irqs, k - 1) + irqs(k)
  }

  /** The acts between loading the payload and look number `k`. */
  function Later(sch: Schedule, k: nat): seq<Act> {
    sch.mid + ActsBefore(sch.irqs, k)
  }

  /** All acts between clearing the flag and look number `k` at it. */
  function AllBefore(sch: Schedule, k: nat): seq<Act> {
    Early(sch) + Later(sch, k)
  }

  /** The handler can act like that, starting from `p`. */
  ghost predicate Legal(p: Phase, sch: Schedule) {
    forall k: nat :: PhaseAfter(p, AllBefore(sch, k)).Some?
  }

  /** What look number `k` at the flag sees. */
  function Look(sch: Schedule, k: nat): nat {
    FlagAfter(0, AllBefore(sch, k))
  }

  /** The flag is found set for the first time at look `k`. */
  ghost predicate CompletesAt(sch: Schedule, k: nat) {
    k < TIMEOUT && Look(sch, k) != 0 && forall j: nat :: j < k ==> Look(sch, j) == 0
  }

  /** Ticks a send waits: up to the first look that finds the flag set. */
  ghost function WaitTicks(sch: Schedule): nat {
    if exists k: nat :: CompletesAt(sch, k) then
      var k: nat :| CompletesAt(sch, k);
      k
    else TIMEOUT
  }

  /** The result of the waiting part of a send. */
  ghost function WaitResult(sch: Schedule): nat {
    if WaitTicks(sch) == TIMEOUT then 5 else if Look(sch, WaitTicks(sch) + 1) == 1 then 0 else 1
  }

  lemma WaitTicksIs(sch: Schedule, k: nat)
    requires CompletesAt(sch, k) || (k == TIMEOUT && forall j: nat :: j < TIMEOUT ==> Look(sch, j) == 0)
    ensures WaitTicks(sch) == k
  {
    if CompletesAt(sch, k) {
      forall j: nat | CompletesAt(sch, j)
        ensures j == k
      {
      }
    }
  }

  /** The result by the looks at the flag: see `CompletesAt`. */
  lemma ResultByLooks(sch: Schedule)
    ensures WaitResult(sch) == 5 <==> forall k: nat :: k < 5000 ==> Look(sch, k) == 0
    ensures WaitResult(sch) == 0 <==> exists t: nat :: CompletesAt(sch, t) && Look(sch, t + 1) == 1
    ensures WaitResult(sch) == 1 <==> exists t: nat :: CompletesAt(sch, t) && Look(sch, t + 1) != 1
  {
    if t: nat :| CompletesAt(sch, t) {
      WaitTicksIs(sch, t);
    } else {
      FirstSet(sch, TIMEOUT);
      WaitTicksIs(sch, TIMEOUT);
    }
  }

  /** No first look that finds the flag set: no look does. */
  lemma {:induction false} FirstSet(sch: Schedule, n: nat)
    requires n <= TIMEOUT && !exists k: nat :: CompletesAt(sch, k)
    ensures forall j: nat :: j < n ==> Look(sch, j) == 0
  {
    if n > 0 {
      FirstSet(sch, n - 1);
      assert !CompletesAt(sch, n - 1);
    }
  }

  /** One more look. */
  lemma NextLook(sch: Schedule, k: nat)
    ensures Look(sch, k + 1) == FlagAfter(Look(sch, k), sch.irqs(k + 1))
    ensures forall ce :: CeAfter(ce, ActsBefore(sch.irqs, k + 1)) == CeAfter(CeAfter(ce, ActsBefore(sch.irqs, k)), sch.irqs(k + 1))
    ensures forall fifo :: FifoAfter(fifo, ActsBefore(sch.irqs, k + 1)) == FifoAfter(FifoAfter(fifo, ActsBefore(sch.irqs, k)), sch.irqs(k + 1))
  {
    assert AllBefore(sch, k + 1) == AllBefore(sch, k) + sch.irqs(k + 1);
    ActsConcat(AllBefore(sch, k), sch.irqs(k + 1));
    ActsConcat(ActsBefore(sch.irqs, k), sch.irqs(k + 1));
  }

  /** What the deciding look sees: 1 for success, 2 for failure. */
  lemma Verdict(sch: Schedule)
    requires WaitResult(sch) != 5
    ensures CompletesAt(sch, WaitTicks(sch))
    ensures Look(sch, WaitTicks(sch) + 1) == if WaitResult(sch) == 0 then 1 else 2
    ensures WaitResult(sch) <= 1
  {
    var k := WaitTicks(sch);
    NextLook(sch, k);
    NeverCleared(Look(sch, k), sch.irqs(k + 1));
    FlagComesFrom(0, AllBefore(sch, k + 1));
  }

  // ---- The chip ----

  /** The registers and lines the sending path touches; `fifo` is the payload last loaded, with its command byte. */
  datatype Chip = Chip(setupAw: byte, txAddr: seq<byte>, rxAddr0: seq<byte>, fifo: seq<byte>, ce: bool)

  /** The chip after acts of the handler. */
  function ChipAfter(chip: Chip, acts: seq<Act>): Chip {
    chip.(fifo := FifoAfter(chip.fifo, acts), ce := CeAfter(chip.ce, acts))
  }

  function PayloadCommand(useAck: bool): byte {
    if useAck then CMD_W_TX_PAYLOAD else CMD_W_TX_PAYLOAD_NO_ACK
  }

  /** What a payload is in the FIFO. */
  function Framed(payload: seq<byte>, useAck: bool): seq<byte> {
    [PayloadCommand(useAck)] + Reversed(payload)
  }

  /** The acts between enabling the chip and the return of a send. */
  ghost function ActsDuring(sch: Schedule, useAck: bool): seq<Act> {
    ActsBefore(sch.irqs, if useAck then WaitTicks(sch) + 1 else 0)
  }

  /** The chip with a payload loaded and the chip enabled. */
  function Loaded(chip: Chip, payload: seq<byte>, useAck: bool, mid: seq<Act>): Chip {
    chip.(fifo := FifoAfter(Framed(payload, useAck), mid), ce := true)
  }

  /** The chip when a send returns whose accesses have all succeeded. */
  ghost function Sent(chip: Chip, payload: seq<byte>, useAck: bool, sch: Schedule): Chip {
    ChipAfter(Loaded(chip, payload, useAck, sch.mid), ActsDuring(sch, useAck))
  }

  /** The payload is in the FIFO when a send returns, unless the handler has flushed it. */
  lemma PayloadStays(chip: Chip, payload: seq<byte>, useAck: bool, sch: Schedule)
    ensures Sent(chip, payload, useAck, sch).fifo == if Flush in sch.mid + ActsDuring(sch, useAck) then [] else Framed(payload, useAck)
  {
    ActsConcat(sch.mid, ActsDuring(sch, useAck));
    FifoIsWholeOrEmpty(Framed(payload, useAck), sch.mid + ActsDuring(sch, useAck));
  }

  // ---- Is the result of a send about its own payload? ----

  /** Whatever follows such a beginning: a send that fails has had its payload flushed. */
  ghost predicate FailureIsFlush(p: Phase, early: seq<Act>) {
    forall sch: Schedule, chip: Chip, payload: seq<byte> ::
      Early(sch) == early && Legal(p, sch) && WaitResult(sch) == 1 ==> Sent(chip, payload, true, sch).fifo == []
  }

  /** Whatever follows such a beginning: for a send that succeeds an acknowledgement has been read after its payload was loaded. */
  ghost predicate SuccessIsAck(p: Phase, early: seq<Act>) {
    forall sch: Schedule ::
      Early(sch) == early && Legal(p, sch) && WaitResult(sch) == 0 ==> LearnsAck(sch.mid + ActsDuring(sch, true))
  }

  /** The flag and the handler after the acts that follow the loading. */
  lemma LaterActs(p: Phase, sch: Schedule, k: nat)
    requires Legal(p, sch)
    ensures PhaseAfter(p, Early(sch)).Some? && PhaseAfter(PhaseAfter(p, Early(sch)).value, Later(sch, k)).Some?
    ensures Look(sch, k) == FlagAfter(FlagAfter(0, Early(sch)), Later(sch, k))
  {
    assert PhaseAfter(p, AllBefore(sch, k)).Some?;
    PhaseConcat(p, Early(sch), Later(sch, k));
    ActsConcat(Early(sch), Later(sch, k));
  }

  lemma FailureFlushed(p: Phase, sch: Schedule, chip: Chip, payload: seq<byte>)
    requires Legal(p, sch) && PhaseAfter(p, Early(sch)).Some? && WaitResult(sch) == 1
    requires FlagAfter(0, Early(sch)) != 2 && !Flushed(PhaseAfter(p, Early(sch)).value)
    ensures Sent(chip, payload, true, sch).fifo == []
  {
    Verdict(sch);
    var k := WaitTicks(sch) + 1;
    LaterActs(p, sch, k);
    FlagComesFrom(FlagAfter(0, Early(sch)), Later(sch, k));
    if Flush !in Later(sch, k) {
      TwoMeansFlushed(PhaseAfter(p, Early(sch)).value, Later(sch, k));
    }
    PayloadStays(chip, payload, true, sch);
  }

  lemma SuccessAcked(p: Phase, sch: Schedule)
    requires Legal(p, sch) && PhaseAfter(p, Early(sch)).Some? && WaitResult(sch) == 0
    requires FlagAfter(0, Early(sch)) != 1 && !Acking(PhaseAfter(p, Early(sch)).value)
    ensures LearnsAck(sch.mid + ActsDuring(sch, true))
  {
    Verdict(sch);
    var k := WaitTicks(sch) + 1;
    LaterActs(p, sch, k);
    FlagComesFrom(FlagAfter(0, Early(sch)), Later(sch, k));
    if !LearnsAck(Later(sch, k)) {
      OneMeansAcknowledged(PhaseAfter(p, Early(sch)).value, Later(sch, k));
    }
  }

  /** A send during which the handler acts before and just after the loading only. */
  function Short(early: seq<Act>, mid: seq<Act>): Schedule {
    Schedule([], early, mid, _ => [])
  }


  lemma ShortSend(p: Phase, early: seq<Act>, mid: seq<Act>)
    requires PhaseAfter(p, early + mid).Some?
    ensures Early(Short(early, mid)) == early && Legal(p, Short(early, mid))
    ensures FlagAfter(0, early + mid) != 0 ==> WaitResult(Short(early, mid)) == if FlagAfter(0, early + mid) == 1 then 0 else 1
    ensures mid + ActsDuring(Short(early, mid), true) == mid
  {
    var sch := Short(early, mid);
    forall k: nat
      ensures AllBefore(sch, k) == early + mid && ActsBefore(sch.irqs, k) == []
    {
      NoActsIn(sch.irqs, k);
      assert AllBefore(sch, k) == early + mid;
    }
    if FlagAfter(0, early + mid) != 0 {
      assert CompletesAt(sch, 0);
      WaitTicksIs(sch, 0);
    }
  }

  lemma {:induction false} NoActsIn(irqs: nat -> seq<Act>, k: nat)
    requires forall j: nat :: irqs(j) == []
    ensures ActsBefore(irqs, k) == []
  {
    if k > 0 {
      NoActsIn(irqs, k - 1);
    }
  }

  /**
    Exactly when failure can be trusted: when neither the flag has been set to 2 before the
    loading nor the handler is about to set it for a flush that came before.
   */
  lemma FailureExact(p: Phase, early: seq<Act>)
    requires PhaseAfter(p, early).Some?
    ensures FailureIsFlush(p, early) <==> FlagAfter(0, early) != 2 && !Flushed(PhaseAfter(p, early).value)
  {
    var at := PhaseAfter(p, early).value;
    if FlagAfter(0, early) != 2 && !Flushed(at) {
      forall sch: Schedule, chip: Chip, payload: seq<byte> | Early(sch) == early && Legal(p, sch) && WaitResult(sch) == 1
        ensures Sent(chip, payload, true, sch).fifo == []
      {
        FailureFlushed(p, sch, chip, payload);
      }
    } else if FlagAfter(0, early) == 2 {
      NextActs(p, early, []);
      FailsUnflushed(p, early, []);
    } else {
      NextActs(p, early, [GiveUp]);
      OneMore([], GiveUp);
      assert [] + [GiveUp] == [GiveUp];
      FailsUnflushed(p, early, [GiveUp]);
    }
  }

  /** A short send that fails without a flush. */
  lemma FailsUnflushed(p: Phase, early: seq<Act>, mid: seq<Act>)
    requires PhaseAfter(p, early + mid).Some? && FlagAfter(0, early + mid) == 2 && Flush !in mid
    ensures !FailureIsFlush(p, early)
  {
    ShortSend(p, early, mid);
    var chip := Chip(0, [], [], [], false);
    PayloadStays(chip, [], true, Short(early, mid));
    assert Sent(chip, [], true, Short(early, mid)).fifo != [];
  }

  lemma NextActs(p: Phase, early: seq<Act>, mid: seq<Act>)
    requires PhaseAfter(p, early).Some?
    ensures PhaseAfter(p, early + mid) == PhaseAfter(PhaseAfter(p, early).value, mid)
    ensures FlagAfter(0, early + mid) == FlagAfter(FlagAfter(0, early), mid)
  {
    PhaseConcat(p, early, mid);
    ActsConcat(early, mid);
  }

  /** What is left to do up to reporting an acknowledgement already read. */
  function UpToSucceed(p: Phase): seq<Act>
    requires Acking(p)
  {
    (if p.flush then [Flush] else []) + (if p.giveUp then [GiveUp] else []) + [Succeed]
  }

  lemma UpToSucceedIs(p: Phase)
    requires Acking(p)
    ensures PhaseAfter(p, UpToSucceed(p)).Some? && !LearnsAck(UpToSucceed(p))
    ensures forall finished: nat :: FlagAfter(finished, UpToSucceed(p)) == 1
  {
    var flush, giveUp: seq<Act> := if p.flush then [Flush] else [], if p.giveUp then [GiveUp] else [];
    OneMore([], Flush);
    OneMore(flush, GiveUp);
    OneMore(flush + giveUp, Succeed);
    assert [] + [Flush] == [Flush] && flush + [] == flush;
  }

  /**
    Exactly when success can be trusted: when neither the flag has been set to 1 before the
    loading nor the handler is about to set it for an acknowledgement read before.
   */
  lemma SuccessExact(p: Phase, early: seq<Act>)
    requires PhaseAfter(p, early).Some?
    ensures SuccessIsAck(p, early) <==> FlagAfter(0, early) != 1 && !Acking(PhaseAfter(p, early).value)
  {
    var at := PhaseAfter(p, early).value;
    if FlagAfter(0, early) != 1 && !Acking(at) {
      forall sch: Schedule | Early(sch) == early && Legal(p, sch) && WaitResult(sch) == 0
        ensures LearnsAck(sch.mid + ActsDuring(sch, true))
      {
        SuccessAcked(p, sch);
      }
    } else {
      var mid := if FlagAfter(0, early) == 1 then [] else UpToSucceed(at);
      NextActs(p, early, mid);
      if FlagAfter(0, early) != 1 {
        UpToSucceedIs(at);
      }
      ShortSend(p, early, mid);
      assert !LearnsAck(Short(early, mid).mid + ActsDuring(Short(early, mid), true));
    }
  }

  lemma RunParts(status: byte, flushOk: bool, enabled: bool)
    ensures [Disable, Learn(status)] + (Duties(status, flushOk) + [Closing(enabled)]) == RunActs(true, true, status, flushOk, enabled)
  {
  }

  /** A run in short: its acts are legal and have these effects. */
  lemma RunFacts(finished: nat, chip: Chip, started: bool, statusOk: bool, status: byte, flushOk: bool, enabled: bool, acts: seq<Act>)
    requires acts == RunActs(started, statusOk, status, flushOk, enabled) && (statusOk ==> started)
    ensures PhaseAfter(Idle, acts) == Some(Idle)
    ensures FlagAfter(finished, acts) == FlagByRun(finished, statusOk, status, flushOk)
    ensures ChipAfter(chip, acts) == ChipByRun(chip, started, statusOk, status, flushOk, enabled)
  {
    RunIsLegal(started, statusOk, status, flushOk, enabled);
    RunDoes(finished, chip, started, statusOk, status, flushOk, enabled);
  }

  /**
    A run of the handler for the transmission before, just after the flag was cleared: the
    send fails at once (`status` says that the retries ran out) or succeeds at once
    (`status` says that data was sent), while its own payload stays in the FIFO.
   */
  lemma StaleRunDecides(chip: Chip, payload: seq<byte>, status: byte)
    requires MaxRetries(status) || DataSent(status)
    ensures var sch := Short(RunActs(true, true, status, true, true), []);
            && Legal(Idle, sch)
            && WaitResult(sch) == (if DataSent(status) then 0 else 1)
            && Sent(chip, payload, true, sch).fifo == Framed(payload, true)
            && sch.mid + ActsDuring(sch, true) == []
  {
    var acts := RunActs(true, true, status, true, true);
    RunIsLegal(true, true, status, true, true);
    RunDoes(0, chip, true, true, status, true, true);
    assert acts + [] == acts;
    ShortSend(Idle, acts, []);
    PayloadStays(chip, payload, true, Short(acts, []));
  }

  /** What the duties do to the flag and to the chip. */
  function FlagByDuties(finished: nat, status: byte, flushOk: bool): nat {
    if MaxRetries(status) && !flushOk then finished
    else if DataSent(status) then 1
    else if MaxRetries(status) then 2
    else finished
  }

  function ChipByDuties(chip: Chip, status: byte, flushOk: bool): Chip {
    if MaxRetries(status) && flushOk then chip.(fifo := []) else chip
  }

  function FlagByRun(finished: nat, statusOk: bool, status: byte, flushOk: bool): nat {
    if statusOk then FlagByDuties(finished, status, flushOk) else finished
  }

  function ChipByRun(chip: Chip, started: bool, statusOk: bool, status: byte, flushOk: bool, enabled: bool): Chip {
    if statusOk then ChipByDuties(chip, status, flushOk).(ce := enabled)
    else if started then chip.(ce := enabled)
    else chip
  }

  /** The effects of a run on flag and chip. */
  lemma RunDoes(finished: nat, chip: Chip, started: bool, statusOk: bool, status: byte, flushOk: bool, enabled: bool)
    requires statusOk ==> started
    ensures FlagAfter(finished, RunActs(started, statusOk, status, flushOk, enabled)) == FlagByRun(finished, statusOk, status, flushOk)
    ensures ChipAfter(chip, RunActs(started, statusOk, status, flushOk, enabled)) == ChipByRun(chip, started, statusOk, status, flushOk, enabled)
  {
    OneMore([], Disable);
    assert [] + [Disable] == [Disable];
    if started && !statusOk {
      OneMore([Disable], Closing(enabled));
      assert [Disable] + [Closing(enabled)] == [Disable, Closing(enabled)];
    } else if started {
      OneMore([Disable], Learn(status));
      assert [Disable] + [Learn(status)] == [Disable, Learn(status)];
      DutiesDo(status, flushOk);
      ActsConcat([Disable, Learn(status)], Duties(status, flushOk));
      OneMore([Disable, Learn(status)] + Duties(status, flushOk), Closing(enabled));
    }
  }
}
