/**
  Publication of DualSense reports (main.c): the HID interrupt writes the back
  slot of a two-slot buffer, flips the index and signals the consumers; each consumer
  thread waits for the event, reads the index and copies the trimmed report out.

  The interrupt runs to completion; a consumer can be interrupted between any two
  byte copies.  An event that is signalled while already pending is coalesced.
 */
module Ds5Publication {
  import opened Machine

  const FULL := 40      // sizeof(PS5DataFull)
  const TRIMMED := 31   // sizeof(PS5Data)

  type Report = s: seq<byte> | |s| == FULL witness seq(FULL, _ => 0)

  /** A snapshot under way or finished: `seen[j]` is how many reports had been accepted when byte `j` was copied. */
  datatype Snapshot = Snapshot(start: nat, bytes: map<nat, byte>, seen: map<nat, nat>)

  datatype Phase =
    | Parked                               // in chEvtWaitOne
    | Woken                                // about to read ds5PublishedIndex
    | Copying(idx: nat, snap: Snapshot)    // in convert_to_trimmed

  /** `registered` and `woke` count the reports accepted at registration and at the last wake-up. */
  datatype Consumer = Consumer(phase: Phase, pending: bool, registered: nat, woke: nat, last: Option<Snapshot>)

  datatype Shared = Shared(slots: seq<Report>, index: nat, generation: u32)

  datatype State = State(shared: Shared, consumers: seq<Consumer>, accepted: seq<Report>)

  // ---- The interrupt ----

  /** `ds5_from_hid_report`: only a USB report of full length is taken. */
  function Decode(buf: seq<byte>, len: nat): (r: Option<Report>)
    requires |buf| == 64
    ensures r.Some? ==> r.value == buf[1..1 + FULL]
    ensures r.Some? <==> buf[0] == 1 && len >= 1 + FULL
  {
    if len < 2 then None
    else if buf[0] == 0x01 then
      if len < 1 + FULL then None else Some(buf[1..1 + FULL])
    else None
  }

  /** The shared variables after a report has been published. */
  function Publish(sh: Shared, r: Report): Shared
    requires |sh.slots| == 2 && sh.index < 2
  {
    var next := 1 - sh.index;
    Shared(sh.slots[next := r], next, (sh.generation + 1) % TWO_32)
  }

  class Publisher {
    var buf0: Report
    var buf1: Report
    var index: nat
    var generation: u32

    ghost function Val(): Shared
      reads this
    {
      Shared([buf0, buf1], index, generation)
    }

    /** `_hid_report_callback`; returns whether the consumers are to be signalled. */
    method HidReportCallback(report: seq<byte>, len: nat) returns (broadcast: bool)
      requires index < 2 && |report| == 64
      modifies this
      ensures broadcast <==> report[0] == 1 && len >= 41
      ensures broadcast ==>
                && index == 1 - old(index) && generation == (old(generation) + 1) % TWO_32
                && (if index == 0 then buf0 == report[1..41] && buf1 == old(buf1) else buf1 == report[1..41] && buf0 == old(buf0))
      ensures !broadcast ==> Val() == old(Val())
    {
      var next := if index == 0 then 1 else 0;
      var r := Decode(report, len);
      broadcast := r.Some?;
      if broadcast {
        if next == 0 {
          buf0 := r.value;
        } else {
          buf1 := r.value;
        }
        index := next;
        generation := (generation + 1) % TWO_32;
      }
    }
  }

  // ---- Interleaving ----

  datatype Step =
    | Interrupt(buf: seq<byte>, len: nat)
    | Register
    | Wake(c: nat)
    | ReadIndex(c: nat)
    | CopyByte(c: nat, j: nat)
    | Finish(c: nat)

  predicate Enabled(s: State, step: Step) {
    match step
    case Interrupt(buf, _) => |buf| == 64
    case Register => true
    case Wake(c) => c < |s.consumers| && s.consumers[c].phase.Parked? && s.consumers[c].pending
    case ReadIndex(c) => c < |s.consumers| && s.consumers[c].phase.Woken?
    case CopyByte(c, j) => c < |s.consumers| && s.consumers[c].phase.Copying? && j < TRIMMED
    case Finish(c) =>
      && c < |s.consumers| && s.consumers[c].phase.Copying?
      && Complete(s.consumers[c].phase.snap)
  }

  predicate Complete(snap: Snapshot) {
    forall j :: 0 <= j < TRIMMED ==> j in snap.bytes
  }

  predicate WellFormed(s: State) {
    && |s.shared.slots| == 2 && s.shared.index < 2
    && forall c :: c in s.consumers && c.phase.Copying? ==> c.phase.idx < 2
  }

  function Signalled(consumers: seq<Consumer>): (r: seq<Consumer>)
    ensures |r| == |consumers|
    ensures forall i :: 0 <= i < |r| ==> r[i] == consumers[i].(pending := true)
  {
    seq(|consumers|, i requires 0 <= i < |consumers| => consumers[i].(pending := true))
  }

  /** The step of one consumer; it touches nothing but the consumer. */
  function Advance(s: State, step: Step, c: Consumer): Consumer
    requires WellFormed(s)
    requires c.phase.Copying? ==> c.phase.idx < 2
  {
    var n := |s.accepted|;
    match step
    case Wake(_) => c.(phase := Woken, pending := false, woke := n)
    case ReadIndex(_) => c.(phase := Copying(s.shared.index, Snapshot(n, map[], map[])))
    case CopyByte(_, j) =>
      if c.phase.Copying? && j < FULL then
        var snap := c.phase.snap;
        c.(phase := c.phase.(snap := snap.(bytes := snap.bytes[j := s.shared.slots[c.phase.idx][j]], seen := snap.seen[j := n])))
      else c
    case Finish(_) => if c.phase.Copying? then c.(phase := Parked, last := Some(c.phase.snap)) else c
    case _ => c
  }

  function Next(s: State, step: Step): State
    requires WellFormed(s) && Enabled(s, step)
  {
    match step
    case Interrupt(buf, len) =>
      var r := Decode(buf, len);
      if r.None? then s
      else State(Publish(s.shared, r.value), Signalled(s.consumers), s.accepted + [r.value])
    case Register =>
      s.(consumers := s.consumers + [Consumer(Parked, false, |s.accepted|, |s.accepted|, None)])
    case _ => s.(consumers := s.consumers[step.c := Advance(s, step, s.consumers[step.c])])
  }

  predicate Init(s: State) {
    && |s.shared.slots| == 2 && s.shared.index == 0 && s.shared.generation == 0
    && s.consumers == [] && s.accepted == []
  }

  ghost predicate Run(s: State, steps: seq<Step>, s': State)
    decreases |steps|
  {
    if steps == [] then s == s'
    else WellFormed(s) && Enabled(s, steps[0]) && Run(Next(s, steps[0]), steps[1..], s')
  }

  /** The interrupt step is what the callback does: the same shared variables, and all consumers signalled exactly on a broadcast. */
  method InterruptIsCallback(p: Publisher, s: State, buf: seq<byte>, len: nat) returns (broadcast: bool)
    requires |buf| == 64 && WellFormed(s) && p.Val() == s.shared
    modifies p
    ensures p.Val() == Next(s, Interrupt(buf, len)).shared
    ensures broadcast ==> Next(s, Interrupt(buf, len)).consumers == Signalled(s.consumers)
    ensures !broadcast ==> Next(s, Interrupt(buf, len)) == s
  {
    broadcast := p.HidReportCallback(buf, len);
  }

  // ---- Invariant ----

  /** The report in the slot read after `start` acceptances, once there are `n`: a position in the history. */
  function VersionAt(start: nat, n: nat): (v: nat)
    requires 1 <= start <= n
    ensures v < n
  {
    start - 1 + (n - start) / 2 * 2
  }

  /** The report that byte `j` of a snapshot came from. */
  function Version(snap: Snapshot, j: nat): nat
    requires j in snap.seen && 1 <= snap.start <= snap.seen[j]
  {
    VersionAt(snap.start, snap.seen[j])
  }

  ghost predicate SnapOk(snap: Snapshot, accepted: seq<Report>) {
    && 1 <= snap.start <= |accepted|
    && snap.bytes.Keys == snap.seen.Keys
    && forall j :: j in snap.seen ==>
         && j < TRIMMED && snap.start <= snap.seen[j] <= |accepted|
         && snap.bytes[j] == accepted[Version(snap, j)][j]
  }

  /** While bytes remain to be copied: the slot being read holds the newest report of its parity. */
  ghost predicate SharedOk(sh: Shared, accepted: seq<Report>) {
    && |sh.slots| == 2
    && sh.index == |accepted| % 2
    && sh.generation == |accepted| % TWO_32
    && (|accepted| >= 1 ==> sh.slots[sh.index] == accepted[|accepted| - 1])
    && (|accepted| >= 2 ==> sh.slots[1 - sh.index] == accepted[|accepted| - 2])
  }

  ghost predicate ConsumerOk(c: Consumer, accepted: seq<Report>) {
    && c.registered <= c.woke <= |accepted|
    && (c.pending <==> c.woke < |accepted|)
    && (!c.phase.Parked? ==> c.registered < c.woke)
    && (c.phase.Copying? ==>
          && c.woke <= c.phase.snap.start
          && c.phase.idx == c.phase.snap.start % 2
          && SnapOk(c.phase.snap, accepted))
    && (c.last.Some? ==> SnapOk(c.last.value, accepted) && Complete(c.last.value))
    && (c.phase.Parked? && c.registered < c.woke ==> c.last.Some? && c.woke <= c.last.value.start)
  }

  ghost predicate Inv(s: State) {
    && SharedOk(s.shared, s.accepted)
    && forall i :: 0 <= i < |s.consumers| ==> ConsumerOk(s.consumers[i], s.accepted)
  }

  lemma AcceptKeepsConsumer(c: Consumer, accepted: seq<Report>, r: Report)
    requires ConsumerOk(c, accepted)
    ensures ConsumerOk(c.(pending := true), accepted + [r])
  {
  }

  lemma AcceptKeepsShared(sh: Shared, accepted: seq<Report>, r: Report)
    requires SharedOk(sh, accepted)
    ensures SharedOk(Publish(sh, r), accepted + [r])
  {
  }

  /** A slot holds the newest report of its parity. */
  lemma SlotVersion(sh: Shared, accepted: seq<Report>, start: nat)
    requires SharedOk(sh, accepted) && 1 <= start <= |accepted|
    ensures sh.slots[start % 2] == accepted[start - 1 + (|accepted| - start) / 2 * 2]
  {
    var n := |accepted|;
    if (n - start) % 2 == 0 {
      assert start % 2 == n % 2;
    } else {
      assert start % 2 == 1 - n % 2;
    }
  }

  lemma CopyKeepsSnap(sh: Shared, accepted: seq<Report>, snap: Snapshot, j: nat)
    requires SharedOk(sh, accepted) && SnapOk(snap, accepted) && j < TRIMMED
    ensures SnapOk(snap.(bytes := snap.bytes[j := sh.slots[snap.start % 2][j]], seen := snap.seen[j := |accepted|]), accepted)
  {
    SlotVersion(sh, accepted, snap.start);
    var snap' := snap.(bytes := snap.bytes[j := sh.slots[snap.start % 2][j]], seen := snap.seen[j := |accepted|]);
    forall i | i in snap'.seen
      ensures i < TRIMMED && snap'.start <= snap'.seen[i] <= |accepted| && snap'.bytes[i] == accepted[Version(snap', i)][i]
    {
      if i != j {
        assert i in snap.seen && Version(snap, i) == Version(snap', i);
      }
    }
  }

  lemma AdvanceKeepsConsumer(s: State, step: Step)
    requires Inv(s) && WellFormed(s) && Enabled(s, step) && !step.Interrupt? && !step.Register?
    ensures ConsumerOk(Advance(s, step, s.consumers[step.c]), s.accepted)
  {
    var c := s.consumers[step.c];
    assert ConsumerOk(c, s.accepted);
    if step.CopyByte? {
      CopyKeepsSnap(s.shared, s.accepted, c.phase.snap, step.j);
    }
  }

  lemma StepKeepsInv(s: State, step: Step)
    requires Inv(s) && WellFormed(s) && Enabled(s, step)
    ensures Inv(Next(s, step))
  {
    if step.Interrupt? {
      var r := Decode(step.buf, step.len);
      if r.Some? {
        AcceptKeepsShared(s.shared, s.accepted, r.value);
        forall i | 0 <= i < |s.consumers|
          ensures ConsumerOk(s.consumers[i].(pending := true), s.accepted + [r.value])
        {
          AcceptKeepsConsumer(s.consumers[i], s.accepted, r.value);
        }
      }
    } else if !step.Register? {
      AdvanceKeepsConsumer(s, step);
    }
  }

  lemma {:induction false} RunKeepsInv(s: State, steps: seq<Step>, s': State)
    requires Inv(s) && Run(s, steps, s')
    ensures Inv(s')
    decreases |steps|
  {
    if steps != [] {
      StepKeepsInv(s, steps[0]);
      RunKeepsInv(Next(s, steps[0]), steps[1..], s');
    }
  }

  // ---- Results ----

  /** The reports that arrive in a run, by its steps alone: the payloads of the USB reports of full length. */
  function Arrived(steps: seq<Step>): seq<Report>
    decreases |steps|
  {
    if steps == [] then [] else Arriving(steps[0]) + Arrived(steps[1..])
  }

  function Arriving(step: Step): seq<Report> {
    if step.Interrupt? && |step.buf| == 64 && step.buf[0] == 1 && step.len >= 41 then [step.buf[1..41]] else []
  }

  lemma StepAccepts(s: State, step: Step)
    requires WellFormed(s) && Enabled(s, step)
    ensures Next(s, step).accepted == s.accepted + Arriving(step)
    ensures Arriving(step) != [] ==>
              && |Next(s, step).consumers| == |s.consumers|
              && forall i :: 0 <= i < |s.consumers| ==> Next(s, step).consumers[i] == s.consumers[i].(pending := true)
  {
  }

  /** The history is what arrived. */
  lemma {:induction false} AcceptedIsArrived(s: State, steps: seq<Step>, s': State)
    requires Run(s, steps, s')
    ensures s'.accepted == s.accepted + Arrived(steps)
    decreases |steps|
  {
    if steps == [] {
      assert s.accepted + [] == s.accepted;
    } else {
      StepAccepts(s, steps[0]);
      AcceptedIsArrived(Next(s, steps[0]), steps[1..], s');
      assert s.accepted + Arriving(steps[0]) + Arrived(steps[1..]) == s.accepted + (Arriving(steps[0]) + Arrived(steps[1..]));
    }
  }

  /**
    In every interleaving the index is the parity of the generation, which counts the
    reports that have arrived, and the published slot holds the last one.
   */
  lemma PublishedIsLatest(init: State, steps: seq<Step>, s: State)
    requires Init(init) && Run(init, steps, s)
    ensures |s.shared.slots| == 2 && s.accepted == Arrived(steps)
    ensures s.shared.generation == |Arrived(steps)| % TWO_32 && s.shared.index == s.shared.generation % 2
    ensures Arrived(steps) != [] ==> s.shared.slots[s.shared.index] == Arrived(steps)[|Arrived(steps)| - 1]
  {
    RunKeepsInv(init, steps, s);
    AcceptedIsArrived(init, steps, s);
    assert [] + Arrived(steps) == Arrived(steps);
    Parity(|s.accepted|);
  }

  lemma Parity(n: nat)
    ensures n % TWO_32 % 2 == n % 2
  {
    assert n == n / TWO_32 * TWO_32 + n % TWO_32;
  }

  /** The snapshot is the trimmed form of the report at position `m` of the history. */
  ghost predicate IsTrimOf(snap: Snapshot, accepted: seq<Report>, m: nat) {
    m < |accepted| && forall j :: j in snap.bytes && j < FULL ==> snap.bytes[j] == accepted[m][j]
  }

  /**
    Every finished snapshot of every interleaving: byte `j` comes from the report that
    was in the slot when it was copied; with at most one acceptance after the index was
    read this is one report throughout, the one published then.
   */
  lemma SnapshotVersions(init: State, steps: seq<Step>, s: State, c: nat)
    requires Init(init) && Run(init, steps, s)
    requires c < |s.consumers| && s.consumers[c].last.Some?
    ensures var snap := s.consumers[c].last.value;
            && Complete(snap) && SnapOk(snap, s.accepted) && CopyRecord(|s.accepted|, snap.start, snap.seen)
            && ((forall j :: j in snap.seen ==> snap.seen[j] <= snap.start + 1) ==> IsTrimOf(snap, s.accepted, snap.start - 1))
  {
    RunKeepsInv(init, steps, s);
    assert ConsumerOk(s.consumers[c], s.accepted);
    var snap := s.consumers[c].last.value;
    if forall j :: j in snap.seen ==> snap.seen[j] <= snap.start + 1 {
      forall j | j in snap.bytes
        ensures snap.bytes[j] == s.accepted[snap.start - 1][j]
      {
        assert j in snap.seen;
        assert (snap.seen[j] - snap.start) / 2 == 0;
      }
    }
  }

  /** A possible record of a finished copy: index read after `start` of `n` acceptances, byte `j` copied after `seen[j]`. */
  ghost predicate CopyRecord(n: nat, start: nat, seen: map<nat, nat>) {
    && 1 <= start <= n
    && (forall j :: 0 <= j < TRIMMED ==> j in seen)
    && (forall j :: j in seen ==> j < TRIMMED && start <= seen[j] <= n)
  }

  /** No slot was reused between any two bytes of the copy. */
  ghost predicate OneVersion(n: nat, start: nat, seen: map<nat, nat>)
    requires CopyRecord(n, start, seen)
  {
    forall i, j :: i in seen && j in seen ==> VersionAt(start, seen[i]) == VersionAt(start, seen[j])
  }

  /** All-zero reports but for a 1 at byte `i` of report `v` and one at byte `j` of report `w`. */
  function Spotted(n: nat, v: nat, i: nat, w: nat, j: nat): (r: seq<Report>)
    ensures |r| == n
    ensures forall m, k :: 0 <= m < n && 0 <= k < FULL ==>
              r[m][k] == if (m == v && k == i) || (m == w && k == j) then 1 else 0
  {
    seq(n, m requires 0 <= m < n => seq(FULL, k requires 0 <= k < FULL => if (m == v && k == i) || (m == w && k == j) then 1 else 0))
  }

  lemma SpottedIsTorn(n: nat, v: nat, i: nat, w: nat, j: nat, snap: Snapshot)
    requires v < n && w < n && v != w && i < FULL && j < FULL && i != j
    requires i in snap.bytes && j in snap.bytes && snap.bytes[i] == snap.bytes[j] == 1
    ensures !exists m: nat :: IsTrimOf(snap, Spotted(n, v, i, w, j), m)
  {
    var accepted := Spotted(n, v, i, w, j);
    forall m: nat
      ensures !IsTrimOf(snap, accepted, m)
    {
    }
  }

  lemma WholeSnapshot(snap: Snapshot, accepted: seq<Report>)
    requires SnapOk(snap, accepted) && 0 in snap.seen
    requires forall j :: j in snap.seen ==> Version(snap, j) == Version(snap, 0)
    ensures IsTrimOf(snap, accepted, Version(snap, 0))
  {
    forall j | j in snap.bytes && j < FULL
      ensures snap.bytes[j] == accepted[Version(snap, 0)][j]
    {
      assert j in snap.seen;
    }
  }

  /** A consumer that is there stays, with its registration. */
  lemma {:induction false} ConsumerStays(s: State, steps: seq<Step>, s': State, c: nat)
    requires Run(s, steps, s') && c < |s.consumers|
    ensures c < |s'.consumers| && s'.consumers[c].registered == s.consumers[c].registered
    decreases |steps|
  {
    if steps != [] {
      ConsumerStays(Next(s, steps[0]), steps[1..], s', c);
    }
  }

  /** The snapshot is the beginning of the report `r`. */
  ghost predicate Shows(snap: Snapshot, r: Report) {
    forall j :: 0 <= j < 31 ==> j in snap.bytes && snap.bytes[j] == r[j]
  }

  /** A consumer that has seen all there is: parked, with no event pending. */
  ghost predicate UpToDate(s: State, c: nat) {
    c < |s.consumers| && s.consumers[c].phase.Parked? && !s.consumers[c].pending
  }

  lemma ParkedHoldsLatest(s: State, c: nat)
    requires Inv(s) && UpToDate(s, c) && s.consumers[c].registered < |s.accepted|
    ensures s.consumers[c].last.Some? && Shows(s.consumers[c].last.value, s.accepted[|s.accepted| - 1])
  {
    assert ConsumerOk(s.consumers[c], s.accepted);
    var snap := s.consumers[c].last.value;
    forall j | 0 <= j < 31
      ensures j in snap.bytes && snap.bytes[j] == s.accepted[|s.accepted| - 1][j]
    {
      assert j in snap.seen;
      assert (snap.seen[j] - snap.start) / 2 == 0;
    }
  }

  /**
    Coalescing loses nothing that matters.  A consumer registers after the steps `before`;
    whenever it is parked with no event pending and reports have arrived since, its last
    snapshot is, untorn, the last report that arrived.
   */
  lemma LatestIsNotLost(init: State, before: seq<Step>, s0: State, after: seq<Step>, s: State)
    requires Init(init) && Run(init, before, s0) && Run(s0, [Register] + after, s)
    requires UpToDate(s, |s0.consumers|) && Arrived(after) != []
    ensures s.consumers[|s0.consumers|].last.Some?
    ensures Shows(s.consumers[|s0.consumers|].last.value, Arrived(after)[|Arrived(after)| - 1])
  {
    RunKeepsInv(init, before, s0);
    RunKeepsInv(s0, [Register] + after, s);
    assert ([Register] + after)[1..] == after;
    var s1 := Next(s0, Register);
    AcceptedIsArrived(s1, after, s);
    ConsumerStays(s1, after, s, |s0.consumers|);
    ParkedHoldsLatest(s, |s0.consumers|);
  }

  // ---- Every record of a copy happens ----

  lemma {:induction false} RunConcat(s: State, a: seq<Step>, s1: State, b: seq<Step>, s2: State)
    requires Run(s, a, s1) && Run(s1, b, s2)
    ensures Run(s, a + b, s2)
    decreases |a|
  {
    if a == [] {
      assert a + b == b;
    } else {
      assert (a + b)[1..] == a[1..] + b;
      RunConcat(Next(s, a[0]), a[1..], s1, b, s2);
    }
  }

  ghost predicate Reaches(s: State, s': State) {
    exists steps :: Run(s, steps, s')
  }

  lemma ReachesTransitive(s: State, s1: State, s2: State)
    requires Reaches(s, s1) && Reaches(s1, s2)
    ensures Reaches(s, s2)
  {
    var a :| Run(s, a, s1);
    var b :| Run(s1, b, s2);
    RunConcat(s, a, s1, b, s2);
  }

  lemma Take(s: State, step: Step) returns (s': State)
    requires Inv(s) && Enabled(s, step)
    ensures WellFormed(s) && s' == Next(s, step) && Reaches(s, s') && Inv(s')
  {
    StepKeepsInv(s, step);
    s' := Next(s, step);
    assert Run(s', [step][1..], s');
    assert Run(s, [step], s');
  }

  // ---- Every consumer can catch up ----

  /** Consumer `c` copies the bytes from `k` on; nothing else happens. */
  lemma {:induction false} CopyFrom(s: State, c: nat, k: nat) returns (s': State)
    requires Inv(s) && c < |s.consumers| && s.consumers[c].phase.Copying? && k <= TRIMMED
    requires forall j :: 0 <= j < k ==> j in s.consumers[c].phase.snap.bytes
    ensures Reaches(s, s') && Inv(s') && s'.accepted == s.accepted && |s'.consumers| == |s.consumers|
    ensures s'.consumers[c].phase.Copying? && Complete(s'.consumers[c].phase.snap)
    ensures s'.consumers[c].pending == s.consumers[c].pending
    decreases TRIMMED - k
  {
    if k == TRIMMED {
      s' := s;
      assert Run(s, [], s);
    } else {
      var s1 := Take(s, CopyByte(c, k));
      s' := CopyFrom(s1, c, k + 1);
      ReachesTransitive(s, s1, s');
    }
  }

  /** A consumer that has been woken parks again. */
  lemma FinishRound(s: State, c: nat) returns (s': State)
    requires Inv(s) && c < |s.consumers|
    ensures Reaches(s, s') && Inv(s') && s'.accepted == s.accepted && |s'.consumers| == |s.consumers|
    ensures s'.consumers[c].phase.Parked? && s'.consumers[c].pending == s.consumers[c].pending
  {
    s' := s;
    assert Run(s, [], s);
    if s.consumers[c].phase.Woken? {
      s' := Take(s, ReadIndex(c));
    }
    if s'.consumers[c].phase.Copying? {
      var s1 := s';
      var s2 := CopyFrom(s1, c, 0);
      s' := Take(s2, Finish(c));
      ReachesTransitive(s, s1, s2);
      ReachesTransitive(s, s2, s');
    }
  }

  lemma CatchUp(s: State, c: nat) returns (s': State)
    requires Inv(s) && c < |s.consumers|
    ensures Reaches(s, s') && Inv(s') && s'.accepted == s.accepted && UpToDate(s', c)
  {
    var s1 := FinishRound(s, c);
    if s1.consumers[c].pending {
      var s2 := Take(s1, Wake(c));
      s' := FinishRound(s2, c);
      ReachesTransitive(s, s1, s2);
      ReachesTransitive(s, s2, s');
    } else {
      s' := s1;
    }
  }

  /**
    Every consumer can catch up: from every point of every interleaving, without a further
    report, it gets to hold the last report that arrived since it registered.
   */
  lemma EveryConsumerCatchesUp(init: State, before: seq<Step>, s0: State, after: seq<Step>, s: State)
    requires Init(init) && Run(init, before, s0) && Run(s0, [Register] + after, s) && Arrived(after) != []
    ensures exists s' :: Reaches(s, s') && s'.accepted == s.accepted && UpToDate(s', |s0.consumers|)
              && s'.consumers[|s0.consumers|].last.Some?
              && Shows(s'.consumers[|s0.consumers|].last.value, Arrived(after)[|Arrived(after)| - 1])
  {
    RunKeepsInv(init, before, s0);
    RunKeepsInv(s0, [Register] + after, s);
    assert ([Register] + after)[1..] == after;
    var s1, c := Next(s0, Register), |s0.consumers|;
    AcceptedIsArrived(s1, after, s);
    ConsumerStays(s1, after, s, c);
    var s' := CatchUp(s, c);
    var more :| Run(s, more, s');
    ConsumerStays(s, more, s', c);
    ParkedHoldsLatest(s', c);
  }

  /**
    Nothing valid is turned away: at every point of every interleaving any USB report of full
    length can arrive, and every consumer can get to hold it.
   */
  lemma AnyReportGetsThrough(init: State, steps: seq<Step>, s: State, c: nat, buf: seq<byte>, len: nat)
    requires Init(init) && Run(init, steps, s) && c < |s.consumers|
    requires |buf| == 64 && buf[0] == 1 && len >= 41
    ensures exists s' :: Reaches(s, s') && s'.accepted == s.accepted + [buf[1..41]] && UpToDate(s', c)
              && s'.consumers[c].last.Some? && Shows(s'.consumers[c].last.value, buf[1..41])
  {
    RunKeepsInv(init, steps, s);
    assert ConsumerOk(s.consumers[c], s.accepted);
    var s1 := Take(s, Interrupt(buf, len));
    var s' := CatchUp(s1, c);
    ReachesTransitive(s, s1, s');
    var more :| Run(s1, more, s');
    ConsumerStays(s1, more, s', c);
    ParkedHoldsLatest(s', c);
  }

  /** A USB report with a given payload. */
  function Usb(r: Report): (buf: seq<byte>)
    ensures |buf| == 64 && Decode(buf, 64) == Some(r)
  {
    var buf := [1] + r + seq(63 - FULL, _ => 0);
    assert buf[1..1 + FULL] == r;
    buf
  }

  /** A report is accepted; all consumers are signalled and none moves. */
  lemma Accept(s: State, r: Report) returns (s': State)
    requires Inv(s)
    ensures Reaches(s, s') && Inv(s') && s'.accepted == s.accepted + [r] && s'.consumers == Signalled(s.consumers)
  {
    s' := Take(s, Interrupt(Usb(r), 64));
  }

  /** One consumer, parked. */
  ghost predicate Waiting(s: State) {
    Inv(s) && |s.consumers| == 1 && s.consumers[0].phase.Parked?
  }

  /** The history grows to `accepted[..n]` while the consumer is parked. */
  lemma {:induction false} AcceptUpTo(s: State, accepted: seq<Report>, n: nat) returns (s': State)
    requires Waiting(s) && |s.accepted| < n <= |accepted| && s.accepted == accepted[..|s.accepted|]
    ensures Reaches(s, s') && Waiting(s') && s'.accepted == accepted[..n] && s'.consumers[0].pending
    decreases n - |s.accepted|
  {
    var k := |s.accepted|;
    s' := Accept(s, accepted[k]);
    assert accepted[..k + 1] == accepted[..k] + [accepted[k]];
    if k + 1 < n {
      var s1 := s';
      s' := AcceptUpTo(s1, accepted, n);
      ReachesTransitive(s, s1, s');
    }
  }

  /** The part of a record that is done after `n` acceptances and `k` further bytes. */
  ghost function Done(seen: map<nat, nat>, n: nat, k: nat): map<nat, nat> {
    map j | j in seen && (seen[j] < n || (seen[j] == n && j < k)) :: seen[j]
  }

  /** One consumer in the middle of the copy that such a record tells of. */
  ghost predicate Following(s: State, accepted: seq<Report>, start: nat, seen: map<nat, nat>, k: nat) {
    && Inv(s) && |s.consumers| == 1 && s.consumers[0].phase.Copying?
    && |s.accepted| <= |accepted| && s.accepted == accepted[..|s.accepted|]
    && s.consumers[0].phase.snap.start == start
    && s.consumers[0].phase.snap.seen == Done(seen, |s.accepted|, k)
  }

  /** Up to the index read, after `start` acceptances. */
  lemma UpToIndexRead(init: State, accepted: seq<Report>, start: nat, seen: map<nat, nat>) returns (s: State)
    requires Init(init) && CopyRecord(|accepted|, start, seen)
    ensures Reaches(init, s) && Following(s, accepted, start, seen, 0) && |s.accepted| == start
  {
    var s1 := Take(init, Register);
    assert accepted[..0] == [];
    var s2 := AcceptUpTo(s1, accepted, start);
    var s3 := Take(s2, Wake(0));
    s := Take(s3, ReadIndex(0));
    ReachesTransitive(init, s1, s2);
    ReachesTransitive(init, s2, s3);
    ReachesTransitive(init, s3, s);
    assert Done(seen, start, 0) == map[];
  }

  lemma DoneNext(seen: map<nat, nat>, n: nat, k: nat)
    requires k in seen
    ensures Done(seen, n, k + 1) == if seen[k] == n then Done(seen, n, k)[k := n] else Done(seen, n, k)
  {
  }

  /** Byte `k` is copied if it is to be copied now. */
  lemma CopyOrSkip(s: State, accepted: seq<Report>, start: nat, seen: map<nat, nat>, k: nat) returns (s': State)
    requires CopyRecord(|accepted|, start, seen) && k < TRIMMED && Following(s, accepted, start, seen, k)
    ensures Reaches(s, s') && Following(s', accepted, start, seen, k + 1) && s'.accepted == s.accepted
  {
    DoneNext(seen, |s.accepted|, k);
    if seen[k] == |s.accepted| {
      s' := Take(s, CopyByte(0, k));
    } else {
      s' := s;
      assert Run(s, [], s);
    }
  }

  /** The bytes from `k` on that are to be copied now. */
  lemma {:induction false} CopyNow(s: State, accepted: seq<Report>, start: nat, seen: map<nat, nat>, k: nat) returns (s': State)
    requires CopyRecord(|accepted|, start, seen) && k <= TRIMMED && Following(s, accepted, start, seen, k)
    ensures Reaches(s, s') && Following(s', accepted, start, seen, TRIMMED) && s'.accepted == s.accepted
    decreases TRIMMED - k
  {
    if k == TRIMMED {
      s' := s;
      assert Run(s, [], s);
    } else {
      var s1 := CopyOrSkip(s, accepted, start, seen, k);
      s' := CopyNow(s1, accepted, start, seen, k + 1);
      ReachesTransitive(s, s1, s');
    }
  }

  /** The rest of the copy: in turn, the bytes for the present count and one more report. */
  lemma {:induction false} CopyOn(s: State, accepted: seq<Report>, start: nat, seen: map<nat, nat>) returns (s': State)
    requires CopyRecord(|accepted|, start, seen) && Following(s, accepted, start, seen, 0)
    ensures Reaches(s, s') && Following(s', accepted, start, seen, TRIMMED) && s'.accepted == accepted
    decreases |accepted| - |s.accepted|
  {
    s' := CopyNow(s, accepted, start, seen, 0);
    var n := |s.accepted|;
    if n < |accepted| {
      var s1 := s';
      var s2 := Accept(s1, accepted[n]);
      assert accepted[..n + 1] == accepted[..n] + [accepted[n]];
      assert Done(seen, n + 1, 0) == Done(seen, n, TRIMMED);
      s' := CopyOn(s2, accepted, start, seen);
      ReachesTransitive(s, s1, s2);
      ReachesTransitive(s, s2, s');
    }
  }

  /** A state in which the only consumer has finished a copy with this record. */
  ghost predicate Finished(s: State, accepted: seq<Report>, start: nat, seen: map<nat, nat>) {
    && s.accepted == accepted && |s.consumers| == 1 && s.consumers[0].last.Some?
    && s.consumers[0].last.value.start == start && s.consumers[0].last.value.seen == seen
  }

  /** Every record happens, with any reports. */
  lemma EveryRecordHappens(init: State, accepted: seq<Report>, start: nat, seen: map<nat, nat>) returns (s: State)
    requires Init(init) && CopyRecord(|accepted|, start, seen)
    ensures Reaches(init, s) && Inv(s) && Finished(s, accepted, start, seen)
  {
    var s1 := UpToIndexRead(init, accepted, start, seen);
    var s2 := CopyOn(s1, accepted, start, seen);
    assert Done(seen, |accepted|, TRIMMED) == seen;
    assert ConsumerOk(s2.consumers[0], s2.accepted);
    s := Take(s2, Finish(0));
    ReachesTransitive(init, s1, s2);
    ReachesTransitive(init, s2, s);
  }

  // ---- Exactly when ----

  /** In every run with such a copy, whatever the reports contain, the snapshot is one of them. */
  ghost predicate AlwaysWhole(init: State, n: nat, start: nat, seen: map<nat, nat>) {
    forall s: State, c: nat ::
      && Reaches(init, s) && |s.accepted| == n && c < |s.consumers| && s.consumers[c].last.Some?
      && s.consumers[c].last.value.start == start && s.consumers[c].last.value.seen == seen ==>
        exists m: nat :: IsTrimOf(s.consumers[c].last.value, s.accepted, m)
  }

  /** A slot reused between two bytes: there is a run whose snapshot is no report at all. */
  lemma ReuseTears(init: State, n: nat, start: nat, seen: map<nat, nat>, i: nat, j: nat) returns (s: State)
    requires Init(init) && CopyRecord(n, start, seen) && i in seen && j in seen
    requires VersionAt(start, seen[i]) != VersionAt(start, seen[j])
    ensures Reaches(init, s) && Finished(s, s.accepted, start, seen) && |s.accepted| == n
    ensures !exists m: nat :: IsTrimOf(s.consumers[0].last.value, s.accepted, m)
  {
    var v, w := VersionAt(start, seen[i]), VersionAt(start, seen[j]);
    var accepted := Spotted(n, v, i, w, j);
    s := EveryRecordHappens(init, accepted, start, seen);
    assert ConsumerOk(s.consumers[0], s.accepted);
    SpottedIsTorn(n, v, i, w, j, s.consumers[0].last.value);
  }

  /**
    Exactly when a copy is safe, for every number of reports and every timing: in all runs
    with such a copy the snapshot is one report, if and only if no slot was reused between
    two of its bytes.
   */
  lemma TornExactly(init: State, n: nat, start: nat, seen: map<nat, nat>)
    requires Init(init) && CopyRecord(n, start, seen)
    ensures AlwaysWhole(init, n, start, seen) <==> OneVersion(n, start, seen)
  {
    if OneVersion(n, start, seen) {
      forall s: State, c: nat |
        && Reaches(init, s) && |s.accepted| == n && c < |s.consumers| && s.consumers[c].last.Some?
        && s.consumers[c].last.value.start == start && s.consumers[c].last.value.seen == seen
        ensures exists m: nat :: IsTrimOf(s.consumers[c].last.value, s.accepted, m)
      {
        var steps :| Run(init, steps, s);
        RunKeepsInv(init, steps, s);
        assert ConsumerOk(s.consumers[c], s.accepted);
        WholeSnapshot(s.consumers[c].last.value, s.accepted);
      }
    } else {
      var i, j :| i in seen && j in seen && VersionAt(start, seen[i]) != VersionAt(start, seen[j]);
      var s := ReuseTears(init, n, start, seen, i, j);
    }
  }

  /** The record of a copy with two acceptances after its first byte, from byte `k` on. */
  function FirstThenRest(k: nat): (seen: map<nat, nat>)
    requires k <= TRIMMED
    ensures forall j :: j in seen <==> k <= j < TRIMMED
    ensures forall j :: j in seen ==> seen[j] == if j == 0 then 1 else 3
    decreases TRIMMED - k
  {
    if k == TRIMMED then map[] else FirstThenRest(k + 1)[k := if k == 0 then 1 else 3]
  }

  /** The shortest way: two reports accepted after the first byte was copied. */
  lemma TearingHappens(init: State) returns (s: State)
    requires Init(init)
    ensures Reaches(init, s)
    ensures |s.consumers| == 1 && s.consumers[0].last.Some? && |s.accepted| == 3
    ensures !exists m: nat :: IsTrimOf(s.consumers[0].last.value, s.accepted, m)
  {
    s := ReuseTears(init, 3, 1, FirstThenRest(0), 0, 1);
  }
}
