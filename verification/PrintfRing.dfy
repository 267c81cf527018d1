/**
  RTT printf on a ring (src/RTT/SEGGER_RTT_printf.c:322-480 over SEGGER_RTT.c:1094-1143):
  what a host that reads meanwhile gets to see of the text, in the modes that do not wait.
 */
module PrintfRing {
  import opened Machine
  import opened RingSpec
  import opened RttBuffer
  import opened PrintfFormat
  import opened RttPrintf

  /** What is stored of `n` bytes when `free` fit. */
  function Room(mode: nat, free: nat, n: nat): (stored: nat)
    ensures stored <= n && stored <= free
  {
    if mode == MODE_NO_BLOCK_SKIP then if n <= free then n else 0
    else if mode == MODE_NO_BLOCK_TRIM then Min(free, n)
    else 0
  }

  /** Chunk `i` of a text; the last one may be incomplete. */
  function Chunk(text: seq<byte>, i: nat): (c: seq<byte>)
    ensures |c| <= SIZE
  {
    text[Min(SIZE * i, |text|)..Min(SIZE * i + SIZE, |text|)]
  }

  /** A ring that holds `cap` bytes, its mode, and a host that takes up to `take(k)` bytes before offer `k`. */
  datatype Link = Link(mode: nat, cap: nat, take: nat -> u32)

  /** The printing as the ring sees it: bytes queued, the chunk offered next, whether one has been refused. */
  datatype Line = Line(used: nat, next: nat, refused: bool)

  /** What offer `k` is answered: what the ring stores of the chunk once the host has taken its bytes. */
  function Reply(link: Link, text: seq<byte>, l: Line, k: nat): (n: nat)
    requires l.used <= link.cap
    ensures n <= |Chunk(text, l.next)| && LeftOver(link, l, k) + n <= link.cap
  {
    Room(link.mode, link.cap - LeftOver(link, l, k), |Chunk(text, l.next)|)
  }

  function Rest(used: nat, take: nat): nat {
    if used <= take then 0 else used - take
  }

  function LeftOver(link: Link, l: Line, k: nat): (n: nat)
    ensures n <= l.used
  {
    Rest(l.used, link.take(k))
  }

  /** Before offer `k`; a refused chunk is offered again. */
  function LineAt(link: Link, used: nat, text: seq<byte>, k: nat): (l: Line)
    requires used <= link.cap
    ensures l.used <= link.cap
  {
    if k == 0 then Line(used, 0, false)
    else
      var l := LineAt(link, used, text, k - 1);
      var n := Reply(link, text, l, k - 1);
      var ok := n == |Chunk(text, l.next)|;
      Line(LeftOver(link, l, k - 1) + n, if ok && !l.refused then l.next + 1 else l.next, l.refused || !ok)
  }

  function AnswerAt(link: Link, used: nat, text: seq<byte>, k: nat): nat
    requires used <= link.cap
  {
    Reply(link, text, LineAt(link, used, text, k), k)
  }

  function AnswersOf(link: Link, used: nat, text: seq<byte>): (accepts: nat -> nat)
    requires used <= link.cap
    ensures Answers(accepts, link, used, text)
  {
    (k: nat) => AnswerAt(link, used, text, k)
  }

  /** The answers a printer gets from such a ring. */
  ghost predicate Answers(accepts: nat -> nat, link: Link, used: nat, text: seq<byte>)
    requires used <= link.cap
  {
    forall k: nat {:trigger AnswerAt(link, used, text, k)} :: accepts(k) == AnswerAt(link, used, text, k)
  }

  /** What the ring has stored of the offers before number `k`. */
  function Stored(link: Link, used: nat, text: seq<byte>, k: nat): seq<byte>
    requires used <= link.cap
  {
    if k == 0 then []
    else
      var l := LineAt(link, used, text, k - 1);
      Stored(link, used, text, k - 1) + Chunk(text, l.next)[..Reply(link, text, l, k - 1)]
  }

  lemma FullChunk(text: seq<byte>, i: nat)
    requires SIZE * i + SIZE <= |text|
    ensures Chunk(text, i) == text[SIZE * i..SIZE * i + SIZE] && Chunk(text, i)[..SIZE] == Chunk(text, i)
    ensures text[..SIZE * i] + Chunk(text, i) == text[..SIZE * i + SIZE]
  {
  }

  lemma StoredStep(accepts: nat -> nat, link: Link, used: nat, text: seq<byte>, k: nat)
    requires used <= link.cap && Answers(accepts, link, used, text)
    ensures var c := Chunk(text, LineAt(link, used, text, k).next);
            accepts(k) <= |c| && Stored(link, used, text, k + 1) == Stored(link, used, text, k) + c[..accepts(k)]
  {
    assert accepts(k) == AnswerAt(link, used, text, k);
  }

  lemma StoredNext(accepts: nat -> nat, link: Link, used: nat, text: seq<byte>, k: nat)
    requires used <= link.cap && Answers(accepts, link, used, text)
    requires SIZE * k + SIZE <= |text| && accepts(k) == SIZE
    requires LineAt(link, used, text, k).next == k && !LineAt(link, used, text, k).refused
    requires Stored(link, used, text, k) == text[..SIZE * k]
    ensures LineAt(link, used, text, k + 1).next == k + 1 && !LineAt(link, used, text, k + 1).refused
    ensures Stored(link, used, text, k + 1) == text[..SIZE * k + SIZE]
  {
    StoredStep(accepts, link, used, text, k);
    FullChunk(text, k);
  }

  lemma AcceptedBefore(accepts: nat -> nat, k: nat, i: nat)
    requires AllAccepted(accepts, k) && i <= k
    ensures AllAccepted(accepts, i)
  {
  }

  /** While all chunks are accepted, they are offered in turn, and stored. */
  lemma {:induction false} InTurn(accepts: nat -> nat, link: Link, used: nat, text: seq<byte>, k: nat)
    requires used <= link.cap && Answers(accepts, link, used, text)
    requires SIZE * k <= |text| && AllAccepted(accepts, k)
    ensures LineAt(link, used, text, k).next == k && !LineAt(link, used, text, k).refused
    ensures Stored(link, used, text, k) == text[..SIZE * k]
  {
    if k > 0 {
      AcceptedBefore(accepts, k, k - 1);
      InTurn(accepts, link, used, text, k - 1);
      assert accepts(k - 1) == SIZE;
      StoredNext(accepts, link, used, text, k - 1);
    }
  }

  /** The calls of a printer are the offers of the line. */
  ghost predicate Offers(calls: seq<Call>, link: Link, used: nat, text: seq<byte>)
    requires used <= link.cap
  {
    forall i :: 0 <= i < |calls| ==> calls[i].chunk == Chunk(text, LineAt(link, used, text, i).next)
  }

  lemma CleanCall(text: seq<byte>, ok: bool, i: nat)
    requires i < |CleanCalls(text, ok)|
    ensures CleanCalls(text, ok)[i].chunk == Chunk(text, i)
  {
  }

  lemma CleanOffers(accepts: nat -> nat, link: Link, used: nat, text: seq<byte>, ok: bool)
    requires used <= link.cap && Answers(accepts, link, used, text)
    requires AllAccepted(accepts, |text| / SIZE)
    ensures Offers(CleanCalls(text, ok), link, used, text)
  {
    forall i | 0 <= i < |CleanCalls(text, ok)|
      ensures CleanCalls(text, ok)[i].chunk == Chunk(text, LineAt(link, used, text, i).next)
    {
      AcceptedBefore(accepts, |text| / SIZE, i);
      InTurn(accepts, link, used, text, i);
      CleanCall(text, ok, i);
    }
  }

  /** The calls of a printer that had a chunk refused. */
  lemma BrokenCall(d: Desc, text: seq<byte>, accepts: nat -> nat, m: nat, retried: bool, i: nat)
    requires Broken(d, text, accepts, m, retried) && i < |d.calls|
    ensures d.calls[i].chunk == Chunk(text, Min(i, m))
  {
    FullChunk(text, Min(i, m));
    if i <= m {
      assert d.calls[i] == d.calls[..m + 1][i];
    }
  }

  lemma BrokenOffers(accepts: nat -> nat, link: Link, used: nat, text: seq<byte>, d: Desc, m: nat, retried: bool)
    requires used <= link.cap && Answers(accepts, link, used, text)
    requires Broken(d, text, accepts, m, retried)
    ensures Offers(d.calls, link, used, text)
  {
    forall i | 0 <= i < |d.calls|
      ensures d.calls[i].chunk == Chunk(text, LineAt(link, used, text, i).next)
    {
      BrokenCall(d, text, accepts, m, retried, i);
      BrokenLine(accepts, link, used, text, m, i);
    }
  }

  lemma BrokenLine(accepts: nat -> nat, link: Link, used: nat, text: seq<byte>, m: nat, i: nat)
    requires used <= link.cap && Answers(accepts, link, used, text) && i <= m + 1
    requires SIZE * m + SIZE <= |text| && AllAccepted(accepts, m) && accepts(m) != SIZE
    ensures LineAt(link, used, text, i).next == Min(i, m)
  {
    if i <= m {
      AcceptedBefore(accepts, m, i);
      InTurn(accepts, link, used, text, i);
    } else {
      RefusedAgain(accepts, link, used, text, m);
    }
  }

  lemma RefusedStays(accepts: nat -> nat, link: Link, used: nat, text: seq<byte>, k: nat)
    requires used <= link.cap && Answers(accepts, link, used, text)
    requires accepts(k) != |Chunk(text, LineAt(link, used, text, k).next)|
    ensures LineAt(link, used, text, k + 1).next == LineAt(link, used, text, k).next
  {
    assert accepts(k) == AnswerAt(link, used, text, k);
  }

  /** After the first refusal the same chunk is next. */
  lemma RefusedAgain(accepts: nat -> nat, link: Link, used: nat, text: seq<byte>, m: nat)
    requires used <= link.cap && Answers(accepts, link, used, text)
    requires SIZE * m + SIZE <= |text| && AllAccepted(accepts, m) && accepts(m) != SIZE
    ensures LineAt(link, used, text, m).next == m && LineAt(link, used, text, m + 1).next == m
    ensures accepts(m) <= |Chunk(text, m)| && accepts(m + 1) <= |Chunk(text, m)|
    ensures Stored(link, used, text, m + 1) == text[..SIZE * m] + Chunk(text, m)[..accepts(m)]
    ensures Stored(link, used, text, m + 2) == text[..SIZE * m] + Chunk(text, m)[..accepts(m)] + Chunk(text, m)[..accepts(m + 1)]
  {
    InTurn(accepts, link, used, text, m);
    FullChunk(text, m);
    StoredStep(accepts, link, used, text, m);
    RefusedStays(accepts, link, used, text, m);
    StoredStep(accepts, link, used, text, m + 1);
  }

  lemma TailChunk(text: seq<byte>, n: nat)
    requires n <= |text| % SIZE
    ensures |Chunk(text, |text| / SIZE)| == |text| % SIZE
    ensures text[..SIZE * (|text| / SIZE)] + Chunk(text, |text| / SIZE)[..n] == text[..Min(SIZE * (|text| / SIZE) + n, |text|)]
  {
    var k := |text| / SIZE;
    assert Chunk(text, k) == text[SIZE * k..];
  }

  /** What is stored when chunk `m` is stored in part twice, `a` bytes and then `b`. */
  function Twice(text: seq<byte>, m: nat, a: nat, b: nat): seq<byte>
    requires SIZE * m + SIZE <= |text| && a <= SIZE && b <= SIZE
  {
    text[..SIZE * m] + text[SIZE * m..][..a] + text[SIZE * m..][..b]
  }

  lemma TwiceIs(text: seq<byte>, m: nat, a: nat, b: nat)
    requires SIZE * m + SIZE <= |text| && a <= SIZE && b <= SIZE
    ensures |Chunk(text, m)| == SIZE
    ensures Twice(text, m, a, b) == text[..SIZE * m] + Chunk(text, m)[..a] + Chunk(text, m)[..b]
    ensures Twice(text, m, a, 0) == text[..SIZE * m] + Chunk(text, m)[..a]
  {
    assert Chunk(text, m)[..a] == text[SIZE * m..][..a] && Chunk(text, m)[..b] == text[SIZE * m..][..b];
  }

  /** What the ring gets of a text. */
  ghost predicate Arrives(stored: seq<byte>, r: int, fmt: seq<byte>, args: seq<Arg>, accepts: nat -> nat)
    requires Render(Actual, fmt, 0, args).Some?
  {
    TextArrives(stored, r, Render(Actual, fmt, 0, args).value, OfferedAgain(fmt, args), accepts)
  }

  ghost predicate TextArrives(stored: seq<byte>, r: int, text: seq<byte>, again: nat -> bool, accepts: nat -> nat) {
    var k, tail := |text| / SIZE, |text| % SIZE;
    if AllAccepted(accepts, k) then
      r == |text| + tail && stored == text[..Min(SIZE * k + accepts(k), |text|)]
    else
      && r == -1
      && exists m: nat :: FirstRefused(accepts, text, m) && IsStoredAgain(stored, text, accepts, m, again(m))
  }

  ghost predicate FirstRefused(accepts: nat -> nat, text: seq<byte>, m: nat) {
    SIZE * m + SIZE <= |text| && AllAccepted(accepts, m) && accepts(m) < SIZE
  }

  /** The chunks before the refused one, what was stored of that and, if it was offered again, what was stored of it then. */
  ghost predicate IsStoredAgain(stored: seq<byte>, text: seq<byte>, accepts: nat -> nat, m: nat, again: bool) {
    && SIZE * m + SIZE <= |text| && accepts(m) <= SIZE && accepts(m + 1) <= SIZE
    && stored == Twice(text, m, accepts(m), if again then accepts(m + 1) else 0)
  }

  /** All full chunks accepted: the text is stored but for what is missing of the last, incomplete chunk. */
  lemma ArrivesClean(accepts: nat -> nat, link: Link, used: nat, text: seq<byte>, calls: seq<Call>, r: int)
    requires used <= link.cap && Answers(accepts, link, used, text) && AllAccepted(accepts, |text| / SIZE)
    requires r == |text| + |text| % SIZE && calls == CleanCalls(text, accepts(|text| / SIZE) == |text| % SIZE)
    ensures Offers(calls, link, used, text)
    ensures Stored(link, used, text, |calls|) == text[..Min(SIZE * (|text| / SIZE) + accepts(|text| / SIZE), |text|)]
  {
    var k := |text| / SIZE;
    CleanOffers(accepts, link, used, text, accepts(k) == |text| % SIZE);
    InTurn(accepts, link, used, text, k);
    StoredStep(accepts, link, used, text, k);
    TailChunk(text, 0);
    TailChunk(text, accepts(k));
    assert |calls| == if |text| % SIZE == 0 then k else k + 1;
  }

  /** A refused chunk: what is stored. */
  lemma ArrivesBroken(accepts: nat -> nat, link: Link, used: nat, text: seq<byte>, d: Desc, m: nat, again: bool)
    requires used <= link.cap && Answers(accepts, link, used, text)
    requires Broken(d, text, accepts, m, again)
    ensures Offers(d.calls, link, used, text)
    ensures FirstRefused(accepts, text, m) && IsStoredAgain(Stored(link, used, text, |d.calls|), text, accepts, m, again)
  {
    BrokenOffers(accepts, link, used, text, d, m, again);
    RefusedAgain(accepts, link, used, text, m);
    FullChunk(text, m);
    TwiceIs(text, m, accepts(m), accepts(m + 1));
  }

  /**
    A result that is no error: it is the number of bytes stored exactly if no incomplete
    chunk is left over, and it says nothing about that chunk, on which alone it depends
    whether the whole text is stored.
   */
  lemma ResultExact(stored: seq<byte>, r: int, fmt: seq<byte>, args: seq<Arg>, accepts: nat -> nat)
    requires Render(Actual, fmt, 0, args).Some? && Arrives(stored, r, fmt, args, accepts) && r >= 0
    ensures var text := Render(Actual, fmt, 0, args).value;
            && (r == |stored| <==> |text| % SIZE == 0)
            && (stored == text <==> accepts(|text| / SIZE) >= |text| % SIZE)
  {
    var text := Render(Actual, fmt, 0, args).value;
    var k := |text| / SIZE;
    assert AllAccepted(accepts, k);
    assert stored == text ==> |stored| == |text|;
    assert text[..|text|] == text;
  }

  /** In skip mode only whole chunks are stored: those before the refused one and, if it was accepted the second time, that one. */
  lemma SkipStoresWholeChunks(link: Link, used: nat, text: seq<byte>, accepts: nat -> nat, stored: seq<byte>, m: nat, again: bool)
    requires link.mode == MODE_NO_BLOCK_SKIP && used <= link.cap && Answers(accepts, link, used, text)
    requires FirstRefused(accepts, text, m) && IsStoredAgain(stored, text, accepts, m, again)
    ensures stored == text[..if again && accepts(m + 1) == SIZE then SIZE * m + SIZE else SIZE * m]
  {
    RefusedAgain(accepts, link, used, text, m);
    FullChunk(text, m);
    TwiceIs(text, m, 0, accepts(m + 1));
    assert accepts(m) == AnswerAt(link, used, text, m) && accepts(m + 1) == AnswerAt(link, used, text, m + 1);
    assert accepts(m) == 0 && (accepts(m + 1) == 0 || accepts(m + 1) == SIZE);
    assert Chunk(text, m)[..0] == [];
  }

  /** Whatever the text: what is stored is the beginning of it. */
  ghost predicate NeverRepeats(n: nat, m: nat, a: nat, b: nat)
    requires SIZE * m + SIZE <= n && a <= SIZE && b <= SIZE
  {
    forall text: seq<byte> :: |text| == n ==> Twice(text, m, a, b) <= text
  }

  lemma OnceIsPrefix(text: seq<byte>, m: nat, a: nat, b: nat)
    requires SIZE * m + SIZE <= |text| && a <= SIZE && b <= SIZE && (a == 0 || b == 0)
    ensures Twice(text, m, a, b) <= text
  {
    assert Twice(text, m, a, b) == text[..SIZE * m + a + b];
  }

  /** A refused chunk that is offered again: bytes are repeated unless one of the two offers stored nothing. */
  lemma RepeatsExact(n: nat, m: nat, a: nat, b: nat)
    requires SIZE * m + SIZE <= n && a < SIZE && b <= SIZE
    ensures NeverRepeats(n, m, a, b) <==> a == 0 || b == 0
  {
    if a == 0 || b == 0 {
      forall text: seq<byte> | |text| == n
        ensures Twice(text, m, a, b) <= text
      {
        OnceIsPrefix(text, m, a, b);
      }
    } else {
      var text := Marked(n, SIZE * m);
      assert Twice(text, m, a, b)[SIZE * m + a] == text[SIZE * m] == 1;
      assert text[SIZE * m + a] == 0;
      assert !(Twice(text, m, a, b) <= text);
    }
  }

  method HostTakes(up: UpBuffer, take: u32) returns (got: seq<byte>)
    requires up.Valid()
    modifies up`rdOff
    ensures up.Valid() && got + up.Val().Contents() == old(up.Val().Contents())
    ensures |up.Val().Contents()| == Rest(|old(up.Val().Contents())|, take)
  {
    ghost var before := up.Val();
    got := up.Read(take);
    DequeueRemoves(before, |got|);
    assert before.Contents() == got + before.Contents()[|got|..];
  }

  /** The ring answers an offer. */
  method Offer(up: UpBuffer, chunk: seq<byte>) returns (status: nat)
    requires up.Valid() && up.flags != MODE_BLOCK_IF_FIFO_FULL
    modifies up`wrOff, up`rdOff, up.buffer
    ensures up.Valid() && |old(up.Val().Contents())| < up.buffer.Length
    ensures status == Room(up.flags, up.buffer.Length - 1 - |old(up.Val().Contents())|, |chunk|)
    ensures up.Val().Contents() == old(up.Val().Contents()) + chunk[..status]
  {
    var none;
    status, none := up.WriteNoLock(chunk, []);
    assert none + up.Val().Contents() == up.Val().Contents();
  }

  /** The host takes its bytes, then the ring answers an offer. */
  method TakeAndOffer(up: UpBuffer, chunk: seq<byte>, take: u32) returns (got: seq<byte>, status: nat)
    requires up.Valid() && up.flags != MODE_BLOCK_IF_FIFO_FULL
    modifies up`wrOff, up`rdOff, up.buffer
    ensures up.Valid() && Rest(|old(up.Val().Contents())|, take) < up.buffer.Length
    ensures status == Room(up.flags, up.buffer.Length - 1 - Rest(|old(up.Val().Contents())|, take), |chunk|)
    ensures |up.Val().Contents()| == Rest(|old(up.Val().Contents())|, take) + status
    ensures got + up.Val().Contents() == old(up.Val().Contents()) + chunk[..status]
  {
    got := HostTakes(up, take);
    ghost var queue := up.Val().Contents();
    status := Offer(up, chunk);
    assert got + (queue + chunk[..status]) == got + queue + chunk[..status];
  }

  /** The queue after offer `i` is what the line says. */
  method OfferCall(up: UpBuffer, link: Link, ghost used: nat, ghost text: seq<byte>, chunk: seq<byte>, i: nat) returns (got: seq<byte>)
    requires up.Valid() && up.flags == link.mode != MODE_BLOCK_IF_FIFO_FULL && up.buffer.Length == link.cap + 1 && used <= link.cap
    requires |up.Val().Contents()| == LineAt(link, used, text, i).used && chunk == Chunk(text, LineAt(link, used, text, i).next)
    modifies up`wrOff, up`rdOff, up.buffer
    ensures up.Valid() && |up.Val().Contents()| == LineAt(link, used, text, i + 1).used
    ensures got + up.Val().Contents() == old(up.Val().Contents()) + chunk[..Reply(link, text, LineAt(link, used, text, i), i)]
  {
    ghost var l := LineAt(link, used, text, i);
    var status;
    got, status := TakeAndOffer(up, chunk, link.take(i));
    assert status == Reply(link, text, l, i);
  }

  /** After `i` offers the queue is as long as the line says, and host and ring have gained what it says. */
  ghost predicate Keeps(up: UpBuffer, link: Link, used: nat, text: seq<byte>, i: nat, got: seq<byte>, queue: seq<byte>)
    reads up, up.buffer
  {
    && up.Valid() && up.flags == link.mode != MODE_BLOCK_IF_FIFO_FULL && up.buffer.Length == link.cap + 1 && used <= link.cap
    && |up.Val().Contents()| == LineAt(link, used, text, i).used
    && got + up.Val().Contents() == queue + Stored(link, used, text, i)
  }

  /** One offer, in the account of all of them. */
  method OfferNext(up: UpBuffer, link: Link, ghost used: nat, ghost text: seq<byte>, chunk: seq<byte>, i: nat, got0: seq<byte>, ghost queue: seq<byte>)
    returns (got: seq<byte>)
    requires Keeps(up, link, used, text, i, got0, queue)
    requires chunk == Chunk(text, LineAt(link, used, text, i).next)
    modifies up`wrOff, up`rdOff, up.buffer
    ensures Keeps(up, link, used, text, i + 1, got, queue)
  {
    ghost var before, piece := up.Val().Contents(), chunk[..Reply(link, text, LineAt(link, used, text, i), i)];
    var more := OfferCall(up, link, used, text, chunk, i);
    Gains(got0, before, more, up.Val().Contents(), queue, Stored(link, used, text, i), piece);
    assert Stored(link, used, text, i + 1) == Stored(link, used, text, i) + piece;
    got := got0 + more;
  }

  /** All the offers: the ring gains what the line says is stored. */
  method OfferAll(up: UpBuffer, link: Link, ghost used: nat, ghost text: seq<byte>, calls: seq<Call>) returns (got: seq<byte>)
    requires up.Valid() && up.flags == link.mode != MODE_BLOCK_IF_FIFO_FULL && up.buffer.Length == link.cap + 1
    requires used == |up.Val().Contents()| <= link.cap && Offers(calls, link, used, text)
    modifies up`wrOff, up`rdOff, up.buffer
    ensures Keeps(up, link, used, text, |calls|, got, old(up.Val().Contents()))
  {
    got := [];
    ghost var queue := up.Val().Contents();
    assert [] + queue == queue + [];
    for i := 0 to |calls|
      invariant Keeps(up, link, used, text, i, got, queue)
    {
      got := OfferNext(up, link, used, text, calls[i].chunk, i, got, queue);
    }
  }

  lemma Gains(got: seq<byte>, before: seq<byte>, more: seq<byte>, after: seq<byte>, queue: seq<byte>, stored: seq<byte>, piece: seq<byte>)
    requires got + before == queue + stored && more + after == before + piece
    ensures got + more + after == queue + (stored + piece)
  {
    assert got + more + after == got + (more + after) == got + before + piece == queue + stored + piece;
  }

  /**
    printf on a ring that does not make it wait.  The printer's calls are made on the ring in
    their order, with the host taking bytes before each, and every one of them is answered as
    the printer was told.  The host and the ring together gain: all full chunks and what fits
    of the last one, or all chunks before the first refused one, what was stored of that, and
    what was stored of it when it was offered again.
   */
  method PrintfToRing(up: UpBuffer, fmt: CString, args: seq<Arg>, take: nat -> u32) returns (r: int, got: seq<byte>, ghost stored: seq<byte>)
    requires up.Valid() && up.flags != MODE_BLOCK_IF_FIFO_FULL
    requires Render(Actual, fmt, 0, args).Some?
    modifies up`wrOff, up`rdOff, up.buffer
    ensures up.Valid() && got + up.Val().Contents() == old(up.Val().Contents()) + stored
    ensures var used, link := |old(up.Val().Contents())|, Link(up.flags, up.buffer.Length - 1, take);
            var text := Render(Actual, fmt, 0, args).value;
            used <= link.cap && Arrives(stored, r, fmt, args, AnswersOf(link, used, text))
  {
    var text := Render(Actual, fmt, 0, args).value;
    var free := up.GetAvailWriteSpace();
    var link := Link(up.flags, up.buffer.Length - 1, take);
    var used, calls := link.cap - free, [];
    r, calls := PrintAnswered(link, used, fmt, args);
    stored := Stored(link, used, text, |calls|);
    got := OfferAll(up, link, used, text, calls);
  }

  /** The printer with the answers of such a ring. */
  method PrintAnswered(link: Link, used: nat, fmt: CString, args: seq<Arg>) returns (r: int, calls: seq<Call>)
    requires used <= link.cap && Render(Actual, fmt, 0, args).Some?
    ensures var text := Render(Actual, fmt, 0, args).value;
            && Offers(calls, link, used, text)
            && Arrives(Stored(link, used, text, |calls|), r, fmt, args, AnswersOf(link, used, text))
  {
    var text := Render(Actual, fmt, 0, args).value;
    var accepts := AnswersOf(link, used, text);
    var printer := new Printer(accepts);
    r := printer.VPrintf(fmt, args);
    calls := printer.calls;
    AnsweredArrives(accepts, link, used, text, OfferedAgain(fmt, args), printer.Val(), r);
  }

  lemma AnsweredArrives(accepts: nat -> nat, link: Link, used: nat, text: seq<byte>, again: nat -> bool, d: Desc, r: int)
    requires used <= link.cap && Answers(accepts, link, used, text)
    requires TextDid(r, d, text, again, accepts)
    ensures Offers(d.calls, link, used, text) && TextArrives(Stored(link, used, text, |d.calls|), r, text, again, accepts)
  {
    if AllAccepted(accepts, |text| / SIZE) {
      ArrivesClean(accepts, link, used, text, d.calls, r);
    } else {
      var m: nat :| Broken(d, text, accepts, m, again(m));
      ArrivesBroken(accepts, link, used, text, d, m, again(m));
    }
  }
}
