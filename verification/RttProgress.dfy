/**
  The protocol of `RttProtocol` cannot get stuck: from every point of every
  interleaving, writer and reader can go on until all that the calls were given has been
  delivered.
 */
module RttProgress {
  import opened Machine
  import opened RingSpec
  import opened RttProtocol

  ghost predicate Reaches(s: State, s': State) {
    exists steps :: Run(s, steps, s')
  }

  lemma {:induction false} RunConcat(s: State, a: seq<Step>, s1: State, b: seq<Step>, s2: State)
    requires Run(s, a, s1) && Run(s1, b, s2)
    ensures Run(s, a + b, s2)
    decreases |a|
  {
    if a == [] {
      assert a + b == b;
    } else {
      assert (a + b)[1..] == a[1..] + b;
      RunConcat(Next(s, a[0]), a[1..], s1, b, s2);
    }
  }

  lemma ReachesSelf(s: State)
    ensures Reaches(s, s)
  {
    assert Run(s, [], s);
  }

  lemma ReachesTransitive(s: State, s1: State, s2: State)
    requires Reaches(s, s1) && Reaches(s1, s2)
    ensures Reaches(s, s2)
  {
    var a :| Run(s, a, s1);
    var b :| Run(s1, b, s2);
    RunConcat(s, a, s1, b, s2);
  }

  lemma Take(s: State, step: Step) returns (s': State)
    requires Inv(s) && Enabled(s, step)
    ensures InBounds(s) && s' == Next(s, step) && Reaches(s, s') && Inv(s')
  {
    InvInBounds(s);
    StepKeepsInv(s, step);
    s' := Next(s, step);
    assert Run(s', [step][1..], s');
    assert Run(s, [step], s');
  }

  /** The reader fetches what it has not fetched yet; nothing else changes. */
  lemma {:induction false} FetchRest(s: State, k: nat) returns (s': State)
    requires Inv(s) && s.reader.ReaderCopy? && k <= s.reader.n
    requires forall i :: 0 <= i < k ==> i in s.reader.got
    ensures Inv(s') && Reaches(s, s') && Enabled(s', Release)
    ensures s'.reader.n == s.reader.n && s' == s.(reader := s'.reader)
    decreases s.reader.n - k
  {
    if k == s.reader.n {
      s' := s;
      ReachesSelf(s);
    } else {
      var s1 := Take(s, FetchByte(k));
      s' := FetchRest(s1, k + 1);
      ReachesTransitive(s, s1, s');
    }
  }

  /** The writer's side, and what was committed to and published, are as before. */
  ghost predicate WriterUntouched(s: State, s': State) {
    && s'.writer == s.writer && s'.ledger == s.ledger && s'.published == s.published
    && |s'.ring.buf| == |s.ring.buf| && s'.ring.wr == s.ring.wr
  }

  lemma FinishRead(s: State) returns (s': State)
    requires Inv(s)
    ensures Inv(s') && Reaches(s, s') && s'.reader.ReaderIdle?
    ensures WriterUntouched(s, s')
    ensures s.reader.ReaderCopy? ==> |s'.delivered| == |s.delivered| + s.reader.n
  {
    if s.reader.ReaderIdle? {
      s' := s;
      ReachesSelf(s);
    } else {
      var s1 := FetchRest(s, 0);
      s' := Take(s1, Release);
      ReachesTransitive(s, s1, s');
    }
  }

  /** The reader empties the ring. */
  lemma Drain(s: State) returns (s': State)
    requires Inv(s)
    ensures Inv(s') && Reaches(s, s') && s'.reader.ReaderIdle?
    ensures WriterUntouched(s, s') && s'.delivered == s.published
  {
    var s1 := FinishRead(s);
    var s2 := Take(s1, StartRead(|s1.ring.buf|));
    s' := FinishRead(s2);
    ReachesTransitive(s, s1, s2);
    ReachesTransitive(s, s2, s');
    assert |s1.delivered| + s1.ring.Used() == |s1.published|;
    assert |s'.delivered| == |s'.published|;
    assert s'.ring.Contents() == [];
  }

  /** The writer copies what it has not copied yet. */
  lemma {:induction false} StoreRest(s: State, k: nat) returns (s': State)
    requires Inv(s) && s.writer.WriterCopy? && k <= s.writer.n
    requires forall i :: 0 <= i < k ==> i in s.writer.done
    ensures Inv(s') && Reaches(s, s') && Enabled(s', Publish)
    ensures s'.writer.n == s.writer.n && s'.writer.rest == s.writer.rest
    ensures s'.ledger == s.ledger
    decreases s.writer.n - k
  {
    if k == s.writer.n {
      s' := s;
      ReachesSelf(s);
    } else {
      var s1 := Take(s, StoreByte(k));
      s' := StoreRest(s1, k + 1);
      ReachesTransitive(s, s1, s');
    }
  }

  /** The writer finishes the chunk it is copying. */
  lemma FinishChunk(s: State) returns (s': State)
    requires Inv(s) && s.writer.WriterCopy?
    ensures Inv(s') && Reaches(s, s') && s'.ledger == s.ledger
    ensures !s'.writer.WriterCopy? && Unpublished(s'.writer) == s.writer.rest[s.writer.n..]
    ensures s.writer.rest[s.writer.n..] == [] ==> s'.writer.WriterIdle?
  {
    var s1 := StoreRest(s, 0);
    s' := Take(s1, Publish);
    ReachesTransitive(s, s1, s');
  }

  /** A waiting writer whose ring has been emptied publishes at least one byte. */
  lemma NextChunk(s: State) returns (s': State)
    requires Inv(s) && s.writer.WriterLoop?
    ensures Inv(s') && Reaches(s, s') && s'.ledger == s.ledger && !s'.writer.WriterCopy?
    ensures |Unpublished(s'.writer)| < |s.writer.rest| || s'.writer.WriterIdle?
  {
    var s1 := Drain(s);
    assert s1.ring.Contents() == [];
    var s2 := Take(s1, Snapshot);
    assert s2.writer.rest == [] || s2.writer.n > 0;
    s' := FinishChunk(s2);
    ReachesTransitive(s, s1, s2);
    ReachesTransitive(s, s2, s');
  }

  /** A call under way can be completed. */
  lemma {:induction false} FinishWrite(s: State) returns (s': State)
    requires Inv(s)
    ensures Inv(s') && Reaches(s, s') && s'.writer.WriterIdle? && s'.ledger == s.ledger
    decreases |Unpublished(s.writer)|, if s.writer.WriterCopy? then 1 else 0
  {
    if s.writer.WriterIdle? {
      s' := s;
      ReachesSelf(s);
    } else {
      var s1;
      if s.writer.WriterCopy? {
        s1 := FinishChunk(s);
      } else {
        s1 := NextChunk(s);
      }
      if s1.writer.WriterIdle? {
        s' := s1;
      } else {
        s' := FinishWrite(s1);
        ReachesTransitive(s, s1, s');
      }
    }
  }

  /** Everything under way can be finished. */
  lemma FinishAll(s: State) returns (s': State)
    requires Inv(s)
    ensures Inv(s') && Reaches(s, s') && s'.writer.WriterIdle? && s'.reader.ReaderIdle?
    ensures s'.delivered == s'.ledger == s.ledger && s'.ring.Used() == 0
  {
    var s1 := FinishWrite(s);
    s' := Drain(s1);
    ReachesTransitive(s, s1, s');
    assert s'.published + Unpublished(s'.writer) == s'.published;
    assert |s'.delivered| + |s'.ring.Contents()| == |s'.published|;
  }

  /** From every point of every interleaving all bytes the calls were given can still be delivered. */
  lemma EverythingCanArrive(init: State, steps: seq<Step>, s: State)
    requires Init(init) && Run(init, steps, s)
    ensures exists s' :: Reaches(s, s') && s'.writer.WriterIdle? && s'.reader.ReaderIdle? && s'.delivered == Given(init, steps, s)
  {
    LedgerIsGiven(init, steps, s);
    assert init.ring.Contents() == [];
    RunKeepsInv(init, steps, s);
    var s' := FinishAll(s);
  }

  lemma {:induction false} RunKeepsSize(s: State, steps: seq<Step>, s': State)
    requires Run(s, steps, s')
    ensures |s'.ring.buf| == |s.ring.buf|
    decreases |steps|
  {
    if steps != [] {
      RunKeepsSize(Next(s, steps[0]), steps[1..], s');
    }
  }

  /** What a call gets across on an empty ring of that size. */
  function OnEmptyRing(size: nat, call: Step): seq<byte>
    requires size > 0
  {
    match call
    case StartBlocking(data) => data
    case StartSkip(data) => if |data| < size then data else []
    case StartTrim(data) => if |data| < size then data else data[..size - 1]
    case _ => []
  }

  /** All under way delivered, and then one more call. */
  lemma FinishAndCall(s: State, call: Step) returns (s': State)
    requires Inv(s) && (call.StartBlocking? || call.StartSkip? || call.StartTrim?)
    ensures Reaches(s, s') && Inv(s')
    ensures s'.ledger == s.ledger + OnEmptyRing(|s.ring.buf|, call)
  {
    var s2 := FinishAll(s);
    var steps :| Run(s, steps, s2);
    RunKeepsSize(s, steps, s2);
    s' := Take(s2, call);
    CallCommits(s2, call);
    ReachesTransitive(s, s2, s');
  }

  /**
    From every point of every interleaving any further call can be made, and what it has to
    get across can be delivered after all that the calls before were given.
   */
  lemma AnyCallGetsThrough(init: State, steps: seq<Step>, s: State, call: Step)
    requires Init(init) && Run(init, steps, s)
    requires call.StartBlocking? || call.StartSkip? || call.StartTrim?
    ensures s.ring.Valid()
    ensures exists s' :: Reaches(s, s') && s'.writer.WriterIdle? && s'.reader.ReaderIdle?
              && s'.delivered == Given(init, steps, s) + OnEmptyRing(|s.ring.buf|, call)
  {
    assert init.ring.Contents() == [];
    LedgerIsGiven(init, steps, s);
    RunKeepsInv(init, steps, s);
    var s1 := FinishAndCall(s, call);
    var s2 := FinishAll(s1);
    ReachesTransitive(s, s1, s2);
  }
}
