/**
  The stream interface on the down-buffer of channel 0 (src/RTT/SEGGER_RTT_Channel.c):
  a caller's buffer is filled from repeated ring reads while the host keeps writing.
  `arrivals[i]` is what the host tries to send before the i-th look at the ring; it
  stores what fits.
 */
module RttChannel {
  import opened Machine
  import opened RingSpec
  import opened RttBuffer

  /** `stream` is all that has been in the ring, `taken` how much of it has been read, `r` the 16-bit count of that. */
  datatype Progress = Progress(stream: seq<byte>, taken: nat, r: nat)

  /** A count kept in 16 bits. */
  function Low16(x: nat): (r: nat)
    ensures r <= x && r < 0x1_0000
  {
    if x < 0x1_0000 then x else Low16(x - 0x1_0000)
  }

  lemma {:induction false} Low16IsRemainder(x: nat)
    ensures Low16(x) == x % 0x1_0000
  {
    if x >= 0x1_0000 {
      Low16IsRemainder(x - 0x1_0000);
    }
  }

  predicate Sane(p: Progress, cap: nat, n: nat) {
    p.r <= p.taken <= |p.stream| <= p.taken + cap && p.r <= n
  }

  /** What the host can store of `data`: as much as the ring has room for. */
  function Fitting(p: Progress, cap: nat, data: seq<byte>): seq<byte>
    requires p.taken <= |p.stream| <= p.taken + cap
  {
    data[..Min(cap - (|p.stream| - p.taken), |data|)]
  }

  /** One look: the host stores what fits, the target takes what it still wants. */
  function LookAt(cap: nat, n: nat, p: Progress, data: seq<byte>): (p': Progress)
    requires Sane(p, cap, n)
    ensures Sane(p', cap, n)
  {
    var stream := p.stream + Fitting(p, cap, data);
    var k := Min(n - p.r, |stream| - p.taken);
    Progress(stream, p.taken + k, Low16(p.r + k))
  }

  /** The state of a read of `n` bytes after as many looks as there are arrivals, from a ring of `cap` bytes that held `queue`. */
  function AfterLooks(cap: nat, n: nat, queue: seq<byte>, arrivals: seq<seq<byte>>): (p: Progress)
    requires |queue| <= cap
    ensures Sane(p, cap, n)
  {
    if arrivals == [] then Progress(queue, 0, 0)
    else LookAt(cap, n, AfterLooks(cap, n, queue, arrivals[..|arrivals| - 1]), arrivals[|arrivals| - 1])
  }

  /** What the host stored before each look. */
  function Stored(cap: nat, n: nat, queue: seq<byte>, arrivals: seq<seq<byte>>): (sent: seq<seq<byte>>)
    requires |queue| <= cap
    ensures |sent| == |arrivals|
    ensures forall i :: 0 <= i < |sent| ==> sent[i] <= arrivals[i]
  {
    if arrivals == [] then []
    else
      var front := arrivals[..|arrivals| - 1];
      Stored(cap, n, queue, front) + [Fitting(AfterLooks(cap, n, queue, front), cap, arrivals[|arrivals| - 1])]
  }

  function Flatten(parts: seq<seq<byte>>): seq<byte> {
    if parts == [] then [] else Flatten(parts[..|parts| - 1]) + parts[|parts| - 1]
  }

  /** The stream is the old queue and what the host stored, nothing else. */
  lemma {:induction false} StreamIsWhatCame(cap: nat, n: nat, queue: seq<byte>, arrivals: seq<seq<byte>>)
    requires |queue| <= cap
    ensures AfterLooks(cap, n, queue, arrivals).stream == queue + Flatten(Stored(cap, n, queue, arrivals))
    decreases |arrivals|
  {
    if arrivals == [] {
      assert queue + [] == queue;
    } else {
      var front := arrivals[..|arrivals| - 1];
      var before, last := Stored(cap, n, queue, front), Fitting(AfterLooks(cap, n, queue, front), cap, arrivals[|arrivals| - 1]);
      StreamIsWhatCame(cap, n, queue, front);
      FlattenLast(queue, before, last);
    }
  }

  lemma FlattenLast(queue: seq<byte>, before: seq<seq<byte>>, last: seq<byte>)
    ensures queue + Flatten(before + [last]) == queue + Flatten(before) + last
  {
    var all := before + [last];
    assert all[..|all| - 1] == before && all[|all| - 1] == last;
  }

  /** Requests below 65536 are counted right: after any look all that is wanted and there has been taken.  Larger ones never are. */
  lemma {:induction false} CountIsRight(cap: nat, n: nat, queue: seq<byte>, arrivals: seq<seq<byte>>)
    requires |queue| <= cap
    ensures var p := AfterLooks(cap, n, queue, arrivals);
            && p.r < 0x1_0000
            && (n < 0x1_0000 ==> p.taken == p.r == if arrivals == [] then 0 else Min(n, |p.stream|))
    decreases |arrivals|
  {
    if arrivals != [] {
      CountIsRight(cap, n, queue, arrivals[..|arrivals| - 1]);
    }
  }

  /** After look number `k` there are still too few bytes. */
  ghost predicate TooFew(cap: nat, n: nat, queue: seq<byte>, arrivals: seq<seq<byte>>, k: nat)
    requires |queue| <= cap
  {
    k <= |arrivals| && |AfterLooks(cap, n, queue, arrivals[..k]).stream| < n
  }

  /** The stream only grows. */
  lemma {:induction false} EarlierTooFew(cap: nat, n: nat, queue: seq<byte>, arrivals: seq<seq<byte>>, k: nat)
    requires |queue| <= cap && TooFew(cap, n, queue, arrivals, k)
    ensures forall j :: 0 <= j <= k ==> TooFew(cap, n, queue, arrivals, j)
    decreases k
  {
    if k > 0 {
      assert arrivals[..k][..k - 1] == arrivals[..k - 1];
      EarlierTooFew(cap, n, queue, arrivals, k - 1);
    }
  }

  /** After look number `k` the count is `n`. */
  ghost predicate CountedAt(cap: nat, n: nat, queue: seq<byte>, arrivals: seq<seq<byte>>, k: nat)
    requires |queue| <= cap
  {
    k <= |arrivals| && AfterLooks(cap, n, queue, arrivals[..k]).r == n
  }

  /** As long as the count is right, the caller's buffer starts with what has been taken. */
  ghost predicate Holds(filled: seq<byte>, p: Progress) {
    p.taken == p.r <= |p.stream| ==> p.r <= |filled| && filled[..p.r] == p.stream[..p.r]
  }

  /** One look: the ring keeps the rest of the stream, and what the caller's buffer holds of it is extended. */
  lemma StreamMoves(cap: nat, n: nat, p: Progress, data: seq<byte>, queue: seq<byte>, k: nat, filled: seq<byte>, filled': seq<byte>)
    requires Sane(p, cap, n) && n <= |filled| && Holds(filled, p)
    requires queue == p.stream[p.taken..] + Fitting(p, cap, data) && k == Min(n - p.r, |queue|)
    requires filled' == Splice(filled, p.r, queue[..k])
    ensures var p' := LookAt(cap, n, p, data);
            && p'.taken == p.taken + k && p'.r == Low16(p.r + k)
            && queue[k..] == p'.stream[p'.taken..]
            && Holds(filled', p')
  {
    var stream := p.stream + Fitting(p, cap, data);
    assert queue == stream[p.taken..];
    if p.taken == p.r {
      assert stream[..p.r] == p.stream[..p.r];
      assert stream[..p.r + k] == stream[..p.r] + stream[p.r..][..k];
      assert Splice(filled, p.r, queue[..k])[..p.r + k] == filled[..p.r] + queue[..k];
    }
  }

  /** The same with what the ring and the host's part look like afterwards. */
  lemma LookMoves(cap: nat, n: nat, p: Progress, data: seq<byte>, sent: seq<byte>, k: nat, filled: seq<byte>, filled': seq<byte>, rest: seq<byte>)
    returns (p': Progress)
    requires Sane(p, cap, n) && n <= |filled| && Holds(filled, p)
    requires sent == data[..Min(cap - |p.stream[p.taken..]|, |data|)] && k == Min(n - p.r, |p.stream[p.taken..] + sent|)
    requires filled' == Splice(filled, p.r, (p.stream[p.taken..] + sent)[..k]) && rest == (p.stream[p.taken..] + sent)[k..]
    ensures p' == LookAt(cap, n, p, data)
    ensures p'.taken <= |p'.stream| && rest == p'.stream[p'.taken..] && Holds(filled', p')
    ensures p'.r == (p.r + k) % 0x1_0000
  {
    p' := LookAt(cap, n, p, data);
    StreamMoves(cap, n, p, data, p.stream[p.taken..] + sent, k, filled, filled');
    Low16IsRemainder(p.r + k);
  }

  class Channel {
    const down: UpBuffer

    ghost predicate Valid()
      reads this, down, down.buffer
    {
      down.Valid()
    }

    constructor (down: UpBuffer)
      requires down.Valid()
      ensures Valid() && this.down == down
    {
      this.down := down;
    }

    /** The host stores as much of `data` as fits. */
    method HostSends(data: seq<byte>) returns (sent: seq<byte>)
      requires Valid()
      modifies down`wrOff, down.buffer
      ensures Valid() && |old(down.Val().Contents())| < down.buffer.Length
      ensures sent == data[..Min(down.buffer.Length - 1 - |old(down.Val().Contents())|, |data|)]
      ensures down.Val().Contents() == old(down.Val().Contents()) + sent
    {
      var avail := down.GetAvailWriteSpace();
      sent := data[..Min(avail, |data|)];
      EnqueueAppends(down.Val(), sent);
      down.WriteNoCheck(sent);
    }

    /** `SEGGER_RTT_Read` into the caller's buffer at position `r`. */
    method ReadInto(bp: array<byte>, r: nat, room: u32) returns (n: nat)
      requires Valid() && bp != down.buffer && r + room <= bp.Length
      modifies down`rdOff, bp
      ensures Valid() && down.buffer[..] == old(down.buffer[..])
      ensures n == Min(room, |old(down.Val().Contents())|)
      ensures bp[..] == Splice(old(bp[..]), r, old(down.Val().Contents())[..n])
      ensures down.Val().Contents() == old(down.Val().Contents())[n..]
    {
      ghost var before := down.Val();
      var out := down.Read(room);
      n := |out|;
      DequeueRemoves(before, n);
      forall i | 0 <= i < n {
        bp[r + i] := out[i];
      }
    }

    /** The host stores what fits behind `queue`, then the target reads up to `room` bytes. */
    method Exchange(bp: array<byte>, r: nat, room: u32, data: seq<byte>, ghost queue: seq<byte>) returns (k: nat, ghost sent: seq<byte>)
      requires Valid() && bp != down.buffer && r + room <= bp.Length && queue == down.Val().Contents()
      modifies down`rdOff, down`wrOff, down.buffer, bp
      ensures Valid() && |queue| < down.buffer.Length
      ensures sent == data[..Min(down.buffer.Length - 1 - |queue|, |data|)]
      ensures k == Min(room, |queue + sent|)
      ensures bp[..] == Splice(old(bp[..]), r, (queue + sent)[..k])
      ensures down.Val().Contents() == (queue + sent)[k..]
    {
      sent := HostSends(data);
      k := ReadInto(bp, r, room);
    }

    ghost function Capacity(): nat
      requires Valid()
      reads this, down, down.buffer
    {
      down.buffer.Length - 1
    }

    /** The ring holds what is still to be taken, the caller's buffer what has been. */
    ghost predicate At(bp: array<byte>, p: Progress)
      reads this, down, down.buffer, bp
    {
      && Valid() && p.taken <= |p.stream| && down.Val().Contents() == p.stream[p.taken..]
      && Holds(bp[..], p)
    }

    /** One look at the ring: host, then read. */
    method Look(bp: array<byte>, r: nat, n: u32, data: seq<byte>, ghost p: Progress) returns (r': nat, ghost p': Progress)
      requires Valid() && bp != down.buffer && n <= bp.Length
      requires Sane(p, down.buffer.Length - 1, n) && At(bp, p) && p.r == r
      modifies down`rdOff, down`wrOff, down.buffer, bp
      ensures At(bp, p') && p'.r == r' && p' == LookAt(down.buffer.Length - 1, n, p, data)
    {
      var k, sent := Exchange(bp, r, n - r, data, p.stream[p.taken..]);
      r' := (r + k) % 0x1_0000;
      p' := LookMoves(down.buffer.Length - 1, n, p, data, sent, k, old(bp[..]), bp[..], down.Val().Contents());
    }

    /**
      `__reads` (and `__readt` without a time limit).  It returns after the first look with
      which the requested bytes have arrived, and then holds the next bytes of the stream, in
      order; the stream goes on behind them.  A request of 65536 bytes or more never returns,
      since the count is kept in 16 bits.
     */
    method Reads(bp: array<byte>, n: u32, arrivals: seq<seq<byte>>) returns (done: bool, looks: nat)
      requires Valid() && bp != down.buffer && n <= bp.Length
      modifies down`rdOff, down`wrOff, down.buffer, bp
      ensures looks <= |arrivals| && (!done ==> looks == |arrivals|)
      ensures Standing(bp, n, old(down.Val().Contents()), arrivals, looks)
      ensures done ==>
                var stream := old(down.Val().Contents()) + Flatten(Stored(Capacity(), n, old(down.Val().Contents()), arrivals[..looks]));
                |stream| >= n && bp[..n] == stream[..n] && down.Val().Contents() == stream[n..]
      ensures done <==> looks > 0 && n < 0x1_0000 && !TooFew(Capacity(), n, old(down.Val().Contents()), arrivals, looks)
      ensures n < 0x1_0000 ==>
                forall k :: 0 < k < looks ==> TooFew(Capacity(), n, old(down.Val().Contents()), arrivals, k)
    {
      ghost var queue := down.Val().Contents();
      var r;
      done, looks, r := ReadLoop(bp, n, arrivals, queue);
      Stands(bp, n, queue, arrivals, looks);
      StreamIsWhatCame(Capacity(), n, queue, arrivals[..looks]);
      CountIsRight(Capacity(), n, queue, arrivals[..looks]);
      if looks > 1 && n < 0x1_0000 {
        CountIsRight(Capacity(), n, queue, arrivals[..looks - 1]);
        EarlierTooFew(Capacity(), n, queue, arrivals, looks - 1);
      }
    }

    /** The loop of `__reads`: up to the first look after which the count is `n`. */
    method ReadLoop(bp: array<byte>, n: u32, arrivals: seq<seq<byte>>, ghost queue: seq<byte>) returns (done: bool, looks: nat, r: nat)
      requires Valid() && bp != down.buffer && n <= bp.Length && queue == down.Val().Contents()
      modifies down`rdOff, down`wrOff, down.buffer, bp
      ensures looks <= |arrivals| && (!done ==> looks == |arrivals|)
      ensures StillCounting(bp, n, queue, arrivals, looks, r)
      ensures done <==> looks > 0 && r == n
    {
      done, looks, r := false, 0, 0;
      Start(bp, n, arrivals);
      while looks < |arrivals| && !done
        invariant looks <= |arrivals| && StillCounting(bp, n, queue, arrivals, looks, r)
        invariant done <==> looks > 0 && r == n
      {
        r := ReadMore(bp, r, n, queue, arrivals, looks);
        looks := looks + 1;
        done := r == n;
      }
    }

    /** After `looks` looks the count is `r`, and the look before did not complete it. */
    ghost predicate StillCounting(bp: array<byte>, n: nat, queue: seq<byte>, arrivals: seq<seq<byte>>, looks: nat, r: nat)
      reads this, down, down.buffer, bp
    {
      Counting(bp, n, queue, arrivals, looks, r) && (looks > 1 ==> !CountedAt(Capacity(), n, queue, arrivals, looks - 1))
    }

    /** One round of the loop. */
    method ReadMore(bp: array<byte>, r: nat, n: u32, ghost queue: seq<byte>, arrivals: seq<seq<byte>>, looks: nat) returns (r': nat)
      requires bp != down.buffer && n <= bp.Length && looks < |arrivals|
      requires StillCounting(bp, n, queue, arrivals, looks, r) && (looks > 0 ==> r != n)
      modifies down`rdOff, down`wrOff, down.buffer, bp
      ensures StillCounting(bp, n, queue, arrivals, looks + 1, r')
    {
      assert CountedAt(Capacity(), n, queue, arrivals, looks) <==> r == n;
      r' := ReadOnce(bp, r, n, queue, arrivals, looks);
    }

    /** After `looks` looks the count is `r`. */
    ghost predicate Counting(bp: array<byte>, n: nat, queue: seq<byte>, arrivals: seq<seq<byte>>, looks: nat, r: nat)
      reads this, down, down.buffer, bp
    {
      && Valid() && |queue| <= Capacity() && looks <= |arrivals|
      && var p := AfterLooks(Capacity(), n, queue, arrivals[..looks]);
         At(bp, p) && p.r == r
    }

    lemma Start(bp: array<byte>, n: nat, arrivals: seq<seq<byte>>)
      requires Valid()
      ensures Counting(bp, n, down.Val().Contents(), arrivals, 0, 0)
    {
      var queue := down.Val().Contents();
      assert queue[0..] == queue && bp[..][..0] == queue[..0] && arrivals[..0] == [];
    }

    /** After the last look. */
    lemma Finish(bp: array<byte>, n: nat, queue: seq<byte>, arrivals: seq<seq<byte>>, r: nat)
      requires n <= bp.Length && Counting(bp, n, queue, arrivals, |arrivals|, r)
      ensures var p := AfterLooks(Capacity(), n, queue, arrivals);
              && r == p.r <= n && down.Val().Contents() == p.stream[p.taken..]
              && (p.taken == r ==> bp[..r] == p.stream[..r])
    {
      assert arrivals[..|arrivals|] == arrivals && bp[..][..r] == bp[..r];
    }

    /** One look with its count. */
    method ReadOnce(bp: array<byte>, r: nat, n: u32, ghost queue: seq<byte>, arrivals: seq<seq<byte>>, looks: nat) returns (r': nat)
      requires bp != down.buffer && n <= bp.Length && looks < |arrivals|
      requires Counting(bp, n, queue, arrivals, looks, r)
      modifies down`rdOff, down`wrOff, down.buffer, bp
      ensures Counting(bp, n, queue, arrivals, looks + 1, r')
    {
      assert arrivals[..looks + 1][..looks] == arrivals[..looks];
      ghost var p;
      r', p := Look(bp, r, n, arrivals[looks], AfterLooks(Capacity(), n, queue, arrivals[..looks]));
    }

    /**
      Where a read of `n` bytes stands after `looks` looks: the ring holds the rest of the
      stream, and for requests below 65536 all that is wanted and there is in the caller's buffer.
     */
    ghost predicate Standing(bp: array<byte>, n: nat, queue: seq<byte>, arrivals: seq<seq<byte>>, looks: nat)
      reads this, down, down.buffer, bp
    {
      && Valid() && |queue| <= Capacity() && looks <= |arrivals|
      && var p := AfterLooks(Capacity(), n, queue, arrivals[..looks]);
         && down.Val().Contents() == p.stream[p.taken..]
         && (n < 0x1_0000 ==>
               && p.taken == (if looks == 0 then 0 else Min(n, |p.stream|)) <= bp.Length
               && bp[..p.taken] == p.stream[..p.taken])
    }

    lemma Stands(bp: array<byte>, n: u32, queue: seq<byte>, arrivals: seq<seq<byte>>, looks: nat)
      requires Valid() && |queue| <= Capacity() && looks <= |arrivals|
      requires At(bp, AfterLooks(Capacity(), n, queue, arrivals[..looks]))
      ensures Standing(bp, n, queue, arrivals, looks)
    {
      CountIsRight(Capacity(), n, queue, arrivals[..looks]);
      var p := AfterLooks(Capacity(), n, queue, arrivals[..looks]);
      assert p.r <= bp.Length ==> bp[..][..p.r] == bp[..p.r];
    }

    /**
      `__readt` with a time limit: one look now and, unless the limit is zero, one later.
      The count is right exactly as long as it fits 16 bits.
     */
    method ReadTimed(bp: array<byte>, n: u32, immediate: bool, arrival: seq<byte>) returns (r: nat)
      requires Valid() && bp != down.buffer && n <= bp.Length
      modifies down`rdOff, down`wrOff, down.buffer, bp
      ensures Valid()
      ensures var p := AfterLooks(down.buffer.Length - 1, n, old(down.Val().Contents()), TimedArrivals(immediate, arrival));
              && r == p.r && down.Val().Contents() == p.stream[p.taken..]
              && p.stream == old(down.Val().Contents()) + (if immediate then [] else Behind(down.buffer.Length - 1, n, old(down.Val().Contents()), arrival))
              && (r == Min(n, |p.stream|) <==> Min(n, |p.stream|) < 0x1_0000)
              && (Min(n, |p.stream|) < 0x1_0000 ==> r <= n && bp[..r] == p.stream[..r] && p.taken == r)
    {
      ghost var queue := down.Val().Contents();
      r := LookOnceOrTwice(bp, n, TimedArrivals(immediate, arrival), queue);
      TimedCount(Capacity(), n, queue, immediate, arrival);
    }

    method LookOnceOrTwice(bp: array<byte>, n: u32, arrivals: seq<seq<byte>>, ghost queue: seq<byte>) returns (r: nat)
      requires Valid() && bp != down.buffer && n <= bp.Length && queue == down.Val().Contents()
      requires 1 <= |arrivals| <= 2
      modifies down`rdOff, down`wrOff, down.buffer, bp
      ensures Valid() && |queue| <= Capacity()
      ensures var p := AfterLooks(Capacity(), n, queue, arrivals);
              && r == p.r <= n && down.Val().Contents() == p.stream[p.taken..]
              && (p.taken == r ==> bp[..r] == p.stream[..r])
    {
      Start(bp, n, arrivals);
      r := ReadOnce(bp, 0, n, queue, arrivals, 0);
      if |arrivals| == 2 {
        r := ReadOnce(bp, r, n, queue, arrivals, 1);
      }
      Finish(bp, n, queue, arrivals, r);
    }
  }

  /** What comes before the looks of a timed read: nothing before the first one. */
  function TimedArrivals(immediate: bool, arrival: seq<byte>): seq<seq<byte>> {
    if immediate then [[]] else [[], arrival]
  }

  /** What fits of an arrival once `n` bytes of the queue have been read. */
  function Behind(cap: nat, n: nat, queue: seq<byte>, arrival: seq<byte>): seq<byte> {
    var left := if n < |queue| then |queue| - n else 0;
    if left + |arrival| <= cap then arrival else if left <= cap then arrival[..cap - left] else []
  }

  /** The looks of a timed read, and when their count is right. */
  lemma TimedCount(cap: nat, n: nat, queue: seq<byte>, immediate: bool, arrival: seq<byte>)
    requires |queue| <= cap
    ensures var p := AfterLooks(cap, n, queue, TimedArrivals(immediate, arrival));
            && (p.r == Min(n, |p.stream|) <==> Min(n, |p.stream|) < 0x1_0000)
            && (p.r == Min(n, |p.stream|) ==> p.taken == p.r)
            && p.stream == queue + if immediate then [] else Behind(cap, n, queue, arrival)
  {
    TimedLooks(cap, n, queue, immediate, arrival);
    var p1 := LookAt(cap, n, Progress(queue, 0, 0), []);
    assert p1.stream == queue && p1.taken == Min(n, |queue|);
  }

  lemma TimedLooks(cap: nat, n: nat, queue: seq<byte>, immediate: bool, arrival: seq<byte>)
    requires |queue| <= cap
    ensures var p1 := LookAt(cap, n, Progress(queue, 0, 0), []);
            AfterLooks(cap, n, queue, TimedArrivals(immediate, arrival)) == if immediate then p1 else LookAt(cap, n, p1, arrival)
  {
    var one: seq<seq<byte>> := [[]];
    assert [[], arrival][..1] == one && one[..0] == [];
    assert AfterLooks(cap, n, queue, one) == LookAt(cap, n, AfterLooks(cap, n, queue, one[..0]), []);
  }
}
