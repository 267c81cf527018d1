/**
  The lock-free protocol between the target, which writes an up-buffer, and the
  host, which reads it at any time (src/RTT/SEGGER_RTT.h:324-331).  Each access to
  shared memory is one step, and a memcpy may move its bytes in any order.

  The writer follows `_WriteBlocking`, `_WriteNoCheck` and the skip writers, the
  reader `SEGGER_RTT_ReadUpBufferNoLock`, which does what the host does.
 */
module RttProtocol {
  import opened Machine
  import opened RingSpec

  datatype Writer =
    | WriterIdle
    /** at the head of the blocking loop, about to read `RdOff` */
    | WriterLoop(rest: seq<byte>)
    /** copying the first `n` bytes of `rest`; `rdSeen` is the value of `RdOff` it went by */
    | WriterCopy(rest: seq<byte>, n: nat, rdSeen: nat, done: set<nat>)

  datatype Reader =
    | ReaderIdle
    /** fetching `n` bytes; `wrSeen` is the value of `WrOff` it went by */
    | ReaderCopy(wrSeen: nat, n: nat, got: map<nat, byte>)

  /** `ledger` is all the writer has committed to, `published` what the offsets show, `delivered` what was read. */
  datatype State = State(
    ring: Ring, writer: Writer, reader: Reader,
    ledger: seq<byte>, published: seq<byte>, delivered: seq<byte>)

  datatype Step =
    | StartBlocking(data: seq<byte>)
    | StartSkip(data: seq<byte>)
    | StartTrim(data: seq<byte>)
    | Snapshot
    | StoreByte(i: nat)
    | Publish
    | StartRead(bufferSize: nat)
    | FetchByte(i: nat)
    | Release

  /** Free space as the writer computes it from the `RdOff` it read. */
  function SpaceSeen(size: nat, rdSeen: nat, wr: nat): nat
    requires rdSeen < size && wr < size
  {
    if rdSeen <= wr then size - 1 - wr + rdSeen else rdSeen - wr - 1
  }

  /** What the writer has committed to and not yet published. */
  function Unpublished(w: Writer): seq<byte> {
    if w.WriterIdle? then [] else w.rest
  }

  predicate Enabled(s: State, step: Step) {
    match step
    case StartBlocking(_) => s.writer.WriterIdle?
    case StartSkip(_) => s.writer.WriterIdle?
    case StartTrim(_) => s.writer.WriterIdle?
    case Snapshot => s.writer.WriterLoop?
    case StoreByte(i) => s.writer.WriterCopy? && i < s.writer.n
    case Publish => s.writer.WriterCopy? && forall i :: 0 <= i < s.writer.n ==> i in s.writer.done
    case StartRead(_) => s.reader.ReaderIdle?
    case FetchByte(i) => s.reader.ReaderCopy? && i < s.reader.n
    case Release => s.reader.ReaderCopy? && forall i :: 0 <= i < s.reader.n ==> i in s.reader.got
  }

  /** The sizes the code computes never leave the buffer; `Inv` keeps this true in every run. */
  predicate InBounds(s: State) {
    && s.ring.Valid()
    && (s.writer.WriterCopy? ==> s.writer.n <= |s.writer.rest| && s.writer.n < |s.ring.buf|)
    && (s.reader.ReaderCopy? ==> s.reader.n < |s.ring.buf|)
  }

  function StoreStep(s: State, i: nat): State
    requires InBounds(s) && Enabled(s, StoreByte(i))
  {
    s.(ring := s.ring.(buf := s.ring.buf[Idx(|s.ring.buf|, s.ring.wr, i) := s.writer.rest[i]]),
       writer := s.writer.(done := s.writer.done + {i}))
  }

  function PublishStep(s: State): State
    requires InBounds(s) && Enabled(s, Publish)
  {
    var n := s.writer.n;
    var rest := s.writer.rest[n..];
    s.(ring := s.ring.(wr := Idx(|s.ring.buf|, s.ring.wr, n)),
       published := s.published + s.writer.rest[..n],
       writer := if rest == [] then WriterIdle else WriterLoop(rest))
  }

  function ReleaseStep(s: State): State
    requires InBounds(s) && Enabled(s, Release)
  {
    var n := s.reader.n;
    s.(ring := if n == 0 then s.ring else s.ring.(rd := Idx(|s.ring.buf|, s.ring.rd, n)),
       delivered := s.delivered + seq(n, i requires 0 <= i < n => s.reader.got[i]),
       reader := ReaderIdle)
  }

  function Next(s: State, step: Step): State
    requires InBounds(s) && Enabled(s, step)
  {
    var size, wr, rd := |s.ring.buf|, s.ring.wr, s.ring.rd;
    match step
    case StartBlocking(data) =>
      s.(writer := WriterLoop(data), ledger := s.ledger + data)
    case StartSkip(data) =>
      if SpaceSeen(size, rd, wr) < |data| then s
      else s.(writer := WriterCopy(data, |data|, rd, {}), ledger := s.ledger + data)
    case StartTrim(data) =>
      var n := Min(SpaceSeen(size, rd, wr), |data|);
      s.(writer := WriterCopy(data[..n], n, rd, {}), ledger := s.ledger + data[..n])
    case Snapshot =>
      var n := Min(Min(SpaceSeen(size, rd, wr), size - wr), |s.writer.rest|);
      s.(writer := WriterCopy(s.writer.rest, n, rd, {}))
    case StoreByte(i) => StoreStep(s, i)
    case Publish => PublishStep(s)
    case StartRead(bufferSize) =>
      s.(reader := ReaderCopy(wr, Min(Dist(size, rd, wr), bufferSize), map[]))
    case FetchByte(i) =>
      s.(reader := s.reader.(got := s.reader.got[i := s.ring.buf[Idx(size, rd, i)]]))
    case Release => ReleaseStep(s)
  }

  predicate Init(s: State) {
    && s.ring.Valid() && s.ring.wr == s.ring.rd
    && s.writer.WriterIdle? && s.reader.ReaderIdle?
    && s.ledger == s.published == s.delivered == []
  }

  ghost predicate WriterInv(s: State)
    requires s.ring.Valid()
  {
    s.writer.WriterCopy? ==>
      var r, size, n, rdSeen := s.ring, |s.ring.buf|, s.writer.n, s.writer.rdSeen;
      && n <= |s.writer.rest| && rdSeen < size
      // the host can only have moved from rdSeen towards wr
      && Dist(size, rdSeen, r.rd) + r.Used() == Dist(size, rdSeen, r.wr)
      && n <= SpaceSeen(size, rdSeen, r.wr)
      && forall i :: i in s.writer.done ==> i < n && r.buf[Idx(size, r.wr, i)] == s.writer.rest[i]
  }

  ghost predicate ReaderInv(s: State)
    requires s.ring.Valid()
  {
    s.reader.ReaderCopy? ==>
      var r, size, n, wrSeen := s.ring, |s.ring.buf|, s.reader.n, s.reader.wrSeen;
      && wrSeen < size
      && n <= Dist(size, r.rd, wrSeen) <= r.Used()
      && forall i :: i in s.reader.got ==> i < n && s.reader.got[i] == r.buf[Idx(size, r.rd, i)]
  }

  ghost predicate Inv(s: State) {
    && s.ring.Valid()
    && s.ledger == s.published + Unpublished(s.writer)
    && s.delivered + s.ring.Contents() == s.published
    && WriterInv(s)
    && ReaderInv(s)
  }

  lemma InvInBounds(s: State)
    requires Inv(s)
    ensures InBounds(s)
  {
  }

  /** A store hits neither the queue nor anything the reader is fetching. */
  lemma StoreMissesUnread(s: State, i: nat)
    requires Inv(s) && InBounds(s) && Enabled(s, StoreByte(i))
    ensures forall k :: 0 <= k < s.ring.Used() ==>
              Idx(|s.ring.buf|, s.ring.rd, k) != Idx(|s.ring.buf|, s.ring.wr, i)
    ensures StoreStep(s, i).ring.Contents() == s.ring.Contents()
  {
    assert i < s.ring.Free();
  }

  lemma StoreKeepsInv(s: State, i: nat)
    requires Inv(s) && InBounds(s) && Enabled(s, StoreByte(i))
    ensures Inv(StoreStep(s, i))
  {
    StoreMissesUnread(s, i);
    var size, wr, s' := |s.ring.buf|, s.ring.wr, StoreStep(s, i);
    forall j | j in s'.writer.done
      ensures j < s'.writer.n && s'.ring.buf[Idx(size, wr, j)] == s'.writer.rest[j]
    {
      assert j != i ==> Idx(size, wr, j) != Idx(size, wr, i);
    }
  }

  /** Once every byte is in place, moving `WrOff` is an enqueue. */
  lemma PublishIsEnqueue(s: State)
    requires Inv(s) && InBounds(s) && Enabled(s, Publish)
    ensures s.writer.n <= s.ring.Free()
    ensures PublishStep(s).ring == Enqueue(s.ring, s.writer.rest[..s.writer.n])
  {
    var r, n := s.ring, s.writer.n;
    forall j | 0 <= j < |r.buf|
      ensures Place(r.buf, r.wr, s.writer.rest[..n])[j] == r.buf[j]
    {
      var d := Dist(|r.buf|, r.wr, j);
      assert Idx(|r.buf|, r.wr, d) == j;
      assert d < n ==> d in s.writer.done;
    }
  }

  /** The reader's view stays right when more bytes are published behind it. */
  lemma PublishKeepsReader(s: State)
    requires Inv(s) && InBounds(s) && Enabled(s, Publish)
    ensures ReaderInv(PublishStep(s))
  {
    assert s.writer.n <= s.ring.Free();
    assert PublishStep(s).ring.Used() == s.ring.Used() + s.writer.n;
  }

  lemma PublishKeepsQueue(s: State)
    requires Inv(s) && InBounds(s) && Enabled(s, Publish)
    ensures PublishStep(s).ring.Valid()
    ensures s.delivered + PublishStep(s).ring.Contents() == s.published + s.writer.rest[..s.writer.n]
  {
    var chunk := s.writer.rest[..s.writer.n];
    PublishIsEnqueue(s);
    EnqueueAppends(s.ring, chunk);
    assert s.delivered + (s.ring.Contents() + chunk) == (s.delivered + s.ring.Contents()) + chunk;
  }

  lemma PublishKeepsLedger(s: State)
    requires Inv(s) && InBounds(s) && Enabled(s, Publish)
    ensures s.ledger == (s.published + s.writer.rest[..s.writer.n]) + s.writer.rest[s.writer.n..]
  {
    var n, rest := s.writer.n, s.writer.rest;
    assert rest == rest[..n] + rest[n..];
  }

  lemma PublishKeepsInv(s: State)
    requires Inv(s) && InBounds(s) && Enabled(s, Publish)
    ensures Inv(PublishStep(s))
  {
    PublishKeepsReader(s);
    PublishKeepsQueue(s);
    PublishKeepsLedger(s);
  }

  lemma ReleaseKeepsInv(s: State)
    requires Inv(s) && InBounds(s) && Enabled(s, Release)
    ensures Inv(ReleaseStep(s))
  {
    var n, r, s' := s.reader.n, s.ring, ReleaseStep(s);
    DequeueRemoves(r, n);
    assert s'.ring == Dequeue(r, n);
    assert seq(n, i requires 0 <= i < n => s.reader.got[i]) == r.Contents()[..n];
    assert r.Contents() == r.Contents()[..n] + r.Contents()[n..];
    assert s'.delivered + s'.ring.Contents() == s.delivered + (r.Contents()[..n] + r.Contents()[n..]);
    assert s'.ring.Used() == r.Used() - n;
  }

  lemma StartWriteKeepsInv(s: State, step: Step)
    requires Inv(s) && InBounds(s) && Enabled(s, step)
    requires step.StartSkip? || step.StartTrim? || step.Snapshot?
    ensures Inv(Next(s, step))
  {
    var size, r := |s.ring.buf|, s.ring;
    assert Dist(size, r.rd, r.rd) == 0;
  }

  lemma ReadKeepsInv(s: State, step: Step)
    requires Inv(s) && InBounds(s) && Enabled(s, step)
    requires step.StartRead? || step.FetchByte?
    ensures Inv(Next(s, step))
  {
  }

  lemma StepKeepsInv(s: State, step: Step)
    requires Inv(s) && InBounds(s) && Enabled(s, step)
    ensures Inv(Next(s, step))
  {
    match step
    case StoreByte(i) => StoreKeepsInv(s, i);
    case Publish => PublishKeepsInv(s);
    case Release => ReleaseKeepsInv(s);
    case StartBlocking(data) => assert s.published + data == s.ledger + data;
    case StartSkip(_) => StartWriteKeepsInv(s, step);
    case StartTrim(_) => StartWriteKeepsInv(s, step);
    case Snapshot => StartWriteKeepsInv(s, step);
    case StartRead(_) => ReadKeepsInv(s, step);
    case FetchByte(_) => ReadKeepsInv(s, step);
  }

  /** `s'` is reached from `s` by the given steps, each enabled when it is taken. */
  ghost predicate Run(s: State, steps: seq<Step>, s': State)
    decreases |steps|
  {
    if steps == [] then s == s'
    else InBounds(s) && Enabled(s, steps[0]) && Run(Next(s, steps[0]), steps[1..], s')
  }

  lemma {:induction false} RunKeepsInv(s: State, steps: seq<Step>, s': State)
    requires Inv(s) && Run(s, steps, s')
    ensures Inv(s') && InBounds(s')
    decreases |steps|
  {
    InvInBounds(s);
    if steps != [] {
      StepKeepsInv(s, steps[0]);
      RunKeepsInv(Next(s, steps[0]), steps[1..], s');
    }
  }

  // ---- What the calls are given ----

  /**
    What a call has to get across, by its mode and the free space it meets: all of its
    data, all or nothing, or what fits.
   */
  function Owed(r: Ring, step: Step): seq<byte>
    requires r.Valid()
  {
    match step
    case StartBlocking(data) => data
    case StartSkip(data) => if |data| <= r.Free() then data else []
    case StartTrim(data) => data[..Min(r.Free(), |data|)]
    case _ => []
  }

  /** What the calls of a run have to get across, in order. */
  ghost function Given(s: State, steps: seq<Step>, s': State): seq<byte>
    requires Run(s, steps, s')
    decreases |steps|
  {
    if steps == [] then [] else Owed(s.ring, steps[0]) + Given(Next(s, steps[0]), steps[1..], s')
  }

  /** Free space as the code computes it from the present offsets. */
  lemma SpaceIsFree(r: Ring)
    requires r.Valid()
    ensures SpaceSeen(|r.buf|, r.rd, r.wr) == r.Free()
  {
  }

  /** A call commits to exactly what it has to get across. */
  lemma CallCommits(s: State, step: Step)
    requires InBounds(s) && Enabled(s, step)
    ensures Next(s, step).ledger == s.ledger + Owed(s.ring, step)
  {
    SpaceIsFree(s.ring);
  }

  /**
    What the single steps ask for: a blocking writer the largest chunk that is free, in one
    piece and needed; a reader all that is queued, up to the size of its buffer.
   */
  lemma StepsAskForAll(s: State, step: Step)
    requires InBounds(s) && Enabled(s, step)
    ensures step.Snapshot? ==>
              var w := Next(s, step).writer;
              && w.WriterCopy? && w.rest == s.writer.rest && w.done == {}
              && (w.n == s.ring.Free() || w.n == |s.ring.buf| - s.ring.wr || w.n == |w.rest|)
              && w.n <= s.ring.Free() && w.n <= |s.ring.buf| - s.ring.wr && w.n <= |w.rest|
    ensures step.StartRead? ==>
              var r := Next(s, step).reader;
              r.ReaderCopy? && r.n == Min(s.ring.Used(), step.bufferSize) && r.got == map[]
    ensures (step.StartSkip? || step.StartTrim?) && Owed(s.ring, step) != [] ==>
              var w := Next(s, step).writer;
              w.WriterCopy? && w.rest == Owed(s.ring, step) && w.n == |w.rest| && w.done == {}
  {
    SpaceIsFree(s.ring);
  }

  /**
    Neither side is held up by the other or by an order: an idle writer may start any call, an
    idle reader any read, and bytes are copied as they come.
   */
  lemma AnyOrder(s: State, data: seq<byte>, n: nat, i: nat)
    ensures s.writer.WriterIdle? ==> Enabled(s, StartBlocking(data)) && Enabled(s, StartSkip(data)) && Enabled(s, StartTrim(data))
    ensures s.writer.WriterLoop? ==> Enabled(s, Snapshot)
    ensures s.writer.WriterCopy? && i < s.writer.n ==> Enabled(s, StoreByte(i))
    ensures s.writer.WriterCopy? && (forall j :: 0 <= j < s.writer.n ==> j in s.writer.done) ==> Enabled(s, Publish)
    ensures s.reader.ReaderIdle? ==> Enabled(s, StartRead(n))
    ensures s.reader.ReaderCopy? && i < s.reader.n ==> Enabled(s, FetchByte(i))
    ensures s.reader.ReaderCopy? && (forall j :: 0 <= j < s.reader.n ==> j in s.reader.got) ==> Enabled(s, Release)
  {
  }

  lemma {:induction false} LedgerIsGiven(s: State, steps: seq<Step>, s': State)
    requires Run(s, steps, s')
    ensures s'.ledger == s.ledger + Given(s, steps, s')
    decreases |steps|
  {
    if steps != [] {
      CallCommits(s, steps[0]);
      LedgerIsGiven(Next(s, steps[0]), steps[1..], s');
    }
  }

  /**
    What holds at every point of every interleaving: the bytes delivered, followed
    by those in the ring and by what the current call has still to publish, are the bytes
    the calls were given, in order; an old `RdOff` only makes the writer too careful; the
    reader asks for no more than is there; and no store changes what the host has still to
    read.
   */
  lemma EveryRunIsSafe(init: State, steps: seq<Step>, s: State)
    requires Init(init) && Run(init, steps, s)
    ensures InBounds(s)
    ensures s.delivered + s.ring.Contents() == s.published
    ensures s.delivered + s.ring.Contents() + Unpublished(s.writer) == Given(init, steps, s)
    ensures s.writer.WriterCopy? ==>
              s.writer.rdSeen < |s.ring.buf| &&
              s.writer.n <= SpaceSeen(|s.ring.buf|, s.writer.rdSeen, s.ring.wr) <= s.ring.Free()
    ensures s.reader.ReaderCopy? ==> s.reader.n <= s.ring.Used()
    ensures forall i :: Enabled(s, StoreByte(i)) ==>
              StoreStep(s, i).ring.Contents() == s.ring.Contents() &&
              forall k :: 0 <= k < s.ring.Used() ==>
                Idx(|s.ring.buf|, s.ring.rd, k) != Idx(|s.ring.buf|, s.ring.wr, i)
  {
    assert init.ring.Contents() == [];
    RunKeepsInv(init, steps, s);
    LedgerIsGiven(init, steps, s);
    forall i | Enabled(s, StoreByte(i))
      ensures StoreStep(s, i).ring.Contents() == s.ring.Contents()
      ensures forall k :: 0 <= k < s.ring.Used() ==>
                Idx(|s.ring.buf|, s.ring.rd, k) != Idx(|s.ring.buf|, s.ring.wr, i)
    {
      StoreMissesUnread(s, i);
    }
  }
}
