/**
  The ring-buffer routines of src/RTT/SEGGER_RTT.c on one up-buffer.  The buffer
  is changed in place; each method is specified by what it does to the abstract
  ring `Val()`.

  The host (debug probe) moves `rdOff` while the target waits.  Where a routine
  re-reads `rdOff` in a loop, the parameter `host` lists how many bytes the host
  takes before each re-read: every finite run of the loop is one such list.
 */
module RttBuffer {
  import opened Machine
  import opened RingSpec

  const MODE_NO_BLOCK_SKIP := 0
  const MODE_NO_BLOCK_TRIM := 1
  const MODE_BLOCK_IF_FIFO_FULL := 2

  /** A write that stores everything or nothing. */
  function SkipWrite(r: Ring, data: seq<byte>): (r': Ring)
    requires r.Valid()
    ensures r'.Valid()
  {
    if |data| <= r.Free() then Enqueue(r, data) else r
  }

  /** A write that stores the prefix that fits. */
  function TrimWrite(r: Ring, data: seq<byte>): (r': Ring)
    requires r.Valid()
    ensures r'.Valid()
  {
    Enqueue(r, data[..Min(r.Free(), |data|)])
  }

  class UpBuffer {
    const buffer: array<byte>
    var wrOff: nat
    var rdOff: nat
    var flags: nat

    ghost predicate Valid()
      reads this, buffer
    {
      Val().Valid()
    }

    ghost function Val(): (r: Ring)
      reads this, buffer
    {
      Ring(buffer[..], wrOff, rdOff)
    }

    constructor (size: nat, mode: nat)
      requires 2 <= size < TWO_31
      ensures Valid() && fresh(buffer) && buffer.Length == size
      ensures Val().Contents() == [] && flags == mode
    {
      buffer := new byte[size];
      wrOff, rdOff, flags := 0, 0, mode;
    }

    /** `_GetAvailWriteSpace`: together with the queued bytes it always makes up size - 1. */
    method GetAvailWriteSpace() returns (r: nat)
      requires Valid()
      ensures r + |Val().Contents()| == buffer.Length - 1
    {
      var rd, wr := rdOff, wrOff;
      if rd <= wr {
        r := buffer.Length - 1 - wr + rd;
      } else {
        r := rd - wr - 1;
      }
    }

    /**
      `SEGGER_RTT_GetBytesInBuffer`: right exactly while the used region does not
      wrap; otherwise the unsigned subtraction goes the wrong way round.
     */
    method GetBytesInBuffer() returns (r: u32)
      requires Valid()
      ensures rdOff <= wrOff ==> r == |Val().Contents()|
      ensures rdOff > wrOff ==> r == |Val().Contents()| + 2 * (rdOff - wrOff)
      ensures r == |Val().Contents()| <==> rdOff <= wrOff
    {
      var rd, wr := rdOff, wrOff;
      if rd <= wr {
        r := wr - rd;
      } else {
        r := Sub32(buffer.Length, Sub32(wr, rd));
      }
    }

    /** memcpy into the buffer. */
    method CopyIn(off: nat, src: seq<byte>)
      requires off + |src| <= buffer.Length
      modifies buffer
      ensures buffer[..] == Splice(old(buffer[..]), off, src)
    {
      forall i | 0 <= i < |src| {
        buffer[off + i] := src[i];
      }
    }

    /** Copy that stays below the end of the buffer. */
    method CopyStraight(data: seq<byte>)
      requires wrOff < buffer.Length && wrOff + |data| <= buffer.Length
      modifies buffer
      ensures buffer[..] == Place(old(buffer[..]), wrOff, data)
    {
      PlaceIsSplice(buffer[..], wrOff, data);
      CopyIn(wrOff, data);
    }

    /** Copy in two chunks, the second one from the start of the buffer. */
    method CopyWrapped(data: seq<byte>)
      requires wrOff < buffer.Length <= wrOff + |data| && |data| < buffer.Length
      modifies buffer
      ensures buffer[..] == Place(old(buffer[..]), wrOff, data)
    {
      PlaceIsSplice(buffer[..], wrOff, data);
      var rem := buffer.Length - wrOff;
      CopyIn(wrOff, data[..rem]);
      // the second memcpy may be empty
      CopyIn(0, data[rem..]);
    }

    /** `_WriteNoCheck`: the caller has made sure that the data fits. */
    method WriteNoCheck(data: seq<byte>)
      requires Valid() && |data| <= Val().Free()
      modifies this`wrOff, buffer
      ensures Valid() && Val() == Enqueue(old(Val()), data)
    {
      var wr := wrOff;
      var rem := buffer.Length - wr;
      if rem > |data| {
        CopyStraight(data);
        wrOff := wr + |data|;
      } else {
        CopyWrapped(data);
        wrOff := |data| - rem;
      }
    }

    /**
      `SEGGER_RTT_ReadUpBufferNoLock` and `SEGGER_RTT_ReadNoLock`.  After a partial
      first chunk `wr - rd` wraps to a huge number; the exhausted `room` masks it.
     */
    method Read(bufferSize: u32) returns (out: seq<byte>)
      requires Valid()
      modifies this`rdOff
      ensures Valid()
      ensures out == old(Val().Contents())[..Min(old(Val().Used()), bufferSize)]
      ensures Val() == Dequeue(old(Val()), |out|)
    {
      var rd, wr, room := rdOff, wrOff, bufferSize;
      out := [];
      if rd > wr {
        var n := Min(buffer.Length - rd, room);
        out := buffer[rd..rd + n];
        room := room - n;
        rd := rd + n;
        if rd == buffer.Length {
          rd := 0;
        }
      }
      var n := Min(Sub32(wr, rd), room);
      if n > 0 {
        out := out + buffer[rd..rd + n];
        rd := rd + n;
      }
      if |out| > 0 {
        rdOff := rd;
      }
    }

    /**
      `_WriteBlocking`: before round `i` the host has taken up to `host[i]` bytes.
      `got` is what the host took, in order.  The call is still waiting when it
      runs out of host moves with data left.
     */
    method WriteBlocking(data: seq<byte>, host: seq<u32>) returns (written: nat, rounds: nat, got: seq<byte>)
      requires Valid()
      modifies this`wrOff, this`rdOff, buffer
      ensures Valid()
      ensures written <= |data| && rounds <= |host|
      ensures written < |data| ==> rounds == |host|
      // nothing lost, nothing reordered, nothing invented
      ensures got + Val().Contents() == old(Val().Contents()) + data[..written]
      // data that fits needs at most two rounds, whatever the host does
      ensures |data| <= old(Val().Free()) && |host| >= 2 ==> written == |data| && rounds <= 2
      // a host that takes something in every round lets every round make progress
      ensures (forall i :: 0 <= i < |host| ==> host[i] > 0) ==> written >= Min(|data|, |host|)
    {
      written, rounds, got := 0, 0, [];
      var wr := wrOff;
      ghost var queued := Val().Contents();
      ghost var free := Val().Free();
      while rounds < |host| && (rounds == 0 || written < |data|)
        invariant Valid() && wr == wrOff
        invariant written <= |data| && rounds <= |host|
        invariant got + Val().Contents() == queued + data[..written]
        invariant written + Val().Free() >= free
        invariant |data| <= free ==> rounds <= 2 && (rounds == 1 && written < |data| ==> wr == 0) && (rounds == 2 ==> written == |data|)
        invariant (forall i :: 0 <= i < |host| ==> host[i] > 0) ==> written >= Min(|data|, rounds)
      {
        written, wr, got := WriteRound(data, written, host[rounds], got, queued);
        rounds := rounds + 1;
      }
    }

    /** One round of the blocking loop, after the host has taken up to `take` bytes. */
    method WriteRound(data: seq<byte>, done: nat, take: u32, got: seq<byte>, ghost queued: seq<byte>)
      returns (written: nat, wr: nat, got': seq<byte>)
      requires Valid() && done <= |data|
      requires got + Val().Contents() == queued + data[..done]
      modifies this`wrOff, this`rdOff, buffer
      ensures Valid() && wr == wrOff
      ensures done <= written <= |data|
      ensures got' + Val().Contents() == queued + data[..written]
      ensures written + Val().Free() >= done + old(Val().Free())
      // the round stops short only at the end of the buffer or when the ring is full
      ensures written == |data| || wr == 0 || Val().Free() == 0
      ensures old(wrOff) == 0 ==> written == |data| || Val().Free() == 0
      ensures take > 0 && done < |data| ==> written > done
    {
      ghost var before := Val();
      var chunk := Read(take);
      ghost var mid := Val();
      var n := WriteChunk(data[done..]);
      wr, written, got' := wrOff, done + n, got + chunk;
      DequeueRemoves(before, |chunk|);
      EnqueueAppends(mid, data[done..][..n]);
      RoundAccounts(queued, got, before.Contents(), |chunk|, data, done, n);
    }

    /** The target's part of a round: one memcpy, at most up to the end of the buffer. */
    method WriteChunk(data: seq<byte>) returns (n: nat)
      requires Valid()
      modifies this`wrOff, buffer
      ensures n == Min(Min(old(Val().Free()), buffer.Length - old(wrOff)), |data|)
      ensures Valid() && Val() == Enqueue(old(Val()), data[..n])
    {
      var rd, wr := rdOff, wrOff;
      if rd > wr {
        n := rd - wr - 1;
      } else {
        n := buffer.Length - (wr - rd + 1);
      }
      n := Min(n, buffer.Length - wr);
      n := Min(n, |data|);
      PlaceIsSplice(buffer[..], wr, data[..n]);
      CopyIn(wr, data[..n]);
      wr := wr + n;
      if wr == buffer.Length {
        wr := 0;
      }
      wrOff := wr;
    }

    /** `SEGGER_RTT_WriteNoLock`: the mode decides what is stored. */
    method WriteNoLock(data: seq<byte>, host: seq<u32>) returns (status: nat, got: seq<byte>)
      requires Valid()
      modifies this`wrOff, this`rdOff, buffer
      ensures Valid()
      ensures status <= |data|
      ensures got + Val().Contents() == old(Val().Contents()) + data[..status]
      ensures flags != MODE_BLOCK_IF_FIFO_FULL ==> got == []
      ensures flags == MODE_NO_BLOCK_SKIP ==>
                Val() == SkipWrite(old(Val()), data) && status == (if |data| <= old(Val().Free()) then |data| else 0)
      ensures flags == MODE_NO_BLOCK_TRIM ==>
                Val() == TrimWrite(old(Val()), data) && status == Min(old(Val().Free()), |data|)
      ensures flags == MODE_BLOCK_IF_FIFO_FULL && |data| <= old(Val().Free()) && |host| >= 2 ==> status == |data|
      ensures flags == MODE_BLOCK_IF_FIFO_FULL && (forall i :: 0 <= i < |host| ==> host[i] > 0) ==>
                status >= Min(|data|, |host|)
      ensures flags > 2 ==> Val() == old(Val()) && status == 0
    {
      got, status := [], 0;
      ghost var before := Val();
      if flags == MODE_NO_BLOCK_SKIP {
        var avail := GetAvailWriteSpace();
        if avail >= |data| {
          EnqueueAppends(before, data);
          status := |data|;
          WriteNoCheck(data);
        }
      } else if flags == MODE_NO_BLOCK_TRIM {
        var avail := GetAvailWriteSpace();
        status := if avail < |data| then avail else |data|;
        EnqueueAppends(before, data[..status]);
        WriteNoCheck(data[..status]);
      } else if flags == MODE_BLOCK_IF_FIFO_FULL {
        var rounds;
        status, rounds, got := WriteBlocking(data, host);
      }
    }

    /** `SEGGER_RTT_WriteSkipNoLock`: the unrolled skip writer stores exactly what the simple one does. */
    method WriteSkipNoLock(data: seq<byte>) returns (ok: nat)
      requires Valid()
      modifies this`wrOff, buffer
      ensures Valid() && Val() == SkipWrite(old(Val()), data)
      ensures ok == if |data| <= old(Val().Free()) then 1 else 0
    {
      var rd, wr := rdOff, wrOff;
      if rd <= wr {
        var avail := buffer.Length - wr - 1;
        if avail >= |data| {
          CopyStraight(data);
          wrOff := wr + |data|;
          return 1;
        }
        avail := avail + rd;
        if avail >= |data| {
          var rem := buffer.Length - wr;
          CopyWrapped(data);
          wrOff := |data| - rem;
          return 1;
        }
      } else {
        var avail := rd - wr - 1;
        if avail >= |data| {
          CopyStraight(data);
          wrOff := wr + |data|;
          return 1;
        }
      }
      return 0;
    }

    /** `SEGGER_RTT_PutCharSkipNoLock`: a one-byte skip write. */
    method PutCharSkipNoLock(c: byte) returns (status: nat)
      requires Valid()
      modifies this`wrOff, buffer
      ensures Valid() && Val() == SkipWrite(old(Val()), [c])
      ensures status == if old(Val().Free()) >= 1 then 1 else 0
    {
      PlaceIsSplice(buffer[..], wrOff, [c]);
      var wr := wrOff + 1;
      if wr == buffer.Length {
        wr := 0;
      }
      if wr != rdOff {
        buffer[wrOff] := c;
        wrOff := wr;
        status := 1;
      } else {
        status := 0;
      }
    }

    /** `SEGGER_RTT_WriteWithOverwriteNoLock`: push the read offset on, then copy without looking at it. */
    method WriteWithOverwriteNoLock(data: seq<byte>)
      requires Valid() && |data| < TWO_32
      modifies this`wrOff, this`rdOff, buffer
      ensures Valid() && Val() == Overwrite(old(Val()), data)
      ensures OverwrittenBy(old(Val()), data, Val())
      // a bounded queue, unless the data is too long; then `OverwriteExact` tells what goes wrong
      ensures |data| < 2 * buffer.Length - 1 - old(wrOff) ==>
                Val().Contents() == LastN(old(Val().Contents()) + data, buffer.Length - 1)
    {
      ghost var before := Val();
      PushAndCopy(data);
      OverwriteAnyLength(before, data);
      if |data| < 2 * buffer.Length - 1 - old(wrOff) {
        OverwriteKeepsNewest(before, data);
      }
    }

    method PushAndCopy(data: seq<byte>)
      requires Valid() && |data| < TWO_32
      modifies this`wrOff, this`rdOff, buffer
      ensures Valid() && Val() == Overwrite(old(Val()), data)
    {
      MakeRoom(|data|);
      OverwriteCopy(data);
    }

    /** Drops as many of the oldest bytes as `n` new bytes need. */
    method MakeRoom(n: u32)
      requires Valid()
      modifies this`rdOff
      ensures rdOff == PushedOn(old(Val()), n)
    {
      var avail;
      if wrOff == rdOff {
        avail := buffer.Length - 1;
      } else if wrOff < rdOff {
        avail := rdOff - wrOff - 1;
      } else {
        avail := rdOff - wrOff - 1 + buffer.Length;
      }
      if n > avail {
        rdOff := Add32(rdOff, n - avail);
        while rdOff >= buffer.Length
          invariant Reduce(rdOff, buffer.Length) == Reduce(Add32(old(rdOff), n - avail), buffer.Length)
        {
          rdOff := rdOff - buffer.Length;
        }
      }
    }

    /** The copy loop of the overwriting writer. */
    method OverwriteCopy(data: seq<byte>)
      requires Valid()
      modifies this`wrOff, buffer
      ensures (buffer[..], wrOff) == OverwriteRounds(old(buffer[..]), old(wrOff), buffer.Length - old(wrOff), data)
    {
      var avail := buffer.Length - wrOff;
      var left := data;
      var more := true;
      ghost var result := OverwriteRounds(buffer[..], wrOff, avail, data);
      while more
        invariant 0 < avail && wrOff + avail <= buffer.Length
        invariant more ==> OverwriteRounds(buffer[..], wrOff, avail, left) == result
        invariant !more ==> (buffer[..], wrOff) == result
        decreases |left|, more
      {
        if avail > |left| {
          CopyIn(wrOff, left);
          wrOff := wrOff + |left|;
          avail := avail - |left|;
          more := false;
        } else {
          CopyIn(wrOff, left[..avail]);
          left := left[avail..];
          wrOff := 0;
          avail := buffer.Length - 1;
          more := |left| > 0;
        }
      }
    }
  }

  /** Bookkeeping of a round: the host takes the front of the queue, the target extends its back. */
  lemma RoundAccounts(queued: seq<byte>, got: seq<byte>, q: seq<byte>, taken: nat, data: seq<byte>, done: nat, n: nat)
    requires taken <= |q| && done + n <= |data|
    requires got + q == queued + data[..done]
    ensures (got + q[..taken]) + (q[taken..] + data[done..][..n]) == queued + data[..done + n]
  {
    assert q == q[..taken] + q[taken..];
    assert data[..done + n] == data[..done] + data[done..][..n];
    calc {
      (got + q[..taken]) + (q[taken..] + data[done..][..n]);
      (got + (q[..taken] + q[taken..])) + data[done..][..n];
      queued + data[..done] + data[done..][..n];
      queued + data[..done + n];
    }
  }

  function Reduce(x: nat, size: nat): (r: nat)
    requires size > 0
    ensures r < size
  {
    if x < size then x else Reduce(x - size, size)
  }

  /** The copy rounds of the overwriting writer: from the second round on it uses only size - 1 cells. */
  function OverwriteRounds(buf: seq<byte>, wr: nat, avail: nat, data: seq<byte>): (r: (seq<byte>, nat))
    requires 2 <= |buf| && 0 < avail && wr + avail <= |buf|
    ensures |r.0| == |buf| && r.1 < |buf|
    decreases |data|
  {
    if avail > |data| then
      (Splice(buf, wr, data), wr + |data|)
    else
      var buf' := Splice(buf, wr, data[..avail]);
      if |data| == avail then (buf', 0) else OverwriteRounds(buf', 0, |buf| - 1, data[avail..])
  }

  /** The read offset once there is room for `n` new bytes; the sum wraps at 2^32 before it is reduced. */
  function PushedOn(r: Ring, n: nat): (rd: nat)
    requires r.Valid()
    ensures rd < |r.buf|
  {
    if n > r.Free() then Reduce(Add32(r.rd, n - r.Free()), |r.buf|) else r.rd
  }

  /** Short of two rounds, it ends up just behind the last new byte. */
  lemma PushedShort(r: Ring, n: nat)
    requires r.Valid() && r.Free() < n < 2 * |r.buf| - r.wr
    ensures PushedOn(r, n) == Idx(|r.buf|, if r.wr + n < |r.buf| then r.wr + n else r.wr + n - |r.buf|, 1)
  {
    var size, x := |r.buf|, r.rd + n - r.Free();
    assert x == r.wr + n + 1 || x + size == r.wr + n + 1;
    assert x < 2 * size + 1 < TWO_32;
    assert x >= size ==> Reduce(x, size) == Reduce(x - size, size);
    assert Reduce(size, size) == Reduce(0, size) == 0;
  }

  function Overwrite(r: Ring, data: seq<byte>): (r': Ring)
    requires r.Valid()
    ensures r'.Valid() && |r'.buf| == |r.buf|
  {
    var (buf, wr) := OverwriteRounds(r.buf, r.wr, |r.buf| - r.wr, data);
    Ring(buf, wr, PushedOn(r, |data|))
  }

  /** Number of queued bytes that `n` new ones push out. */
  function Dropped(r: Ring, n: nat): nat
    requires r.Valid()
  {
    if n <= r.Free() then 0 else n - r.Free()
  }

  /** The outcome of an overwriting write with at most one wrap, cell by cell. */
  ghost predicate OverwrittenOnce(r: Ring, data: seq<byte>, r': Ring)
    requires r.Valid() && r'.Valid()
  {
    var size, end := |r.buf|, r.wr + |data|;
    && |r'.buf| == size
    && r'.wr == (if end < size then end else end - size)
    && r'.rd == (if |data| <= r.Free() then r.rd else Idx(size, r'.wr, 1))
    && forall i :: 0 <= i < size ==>
         r'.buf[i] == if i + size < end then data[size - r.wr + i]
                      else if r.wr <= i < end then data[i - r.wr]
                      else r.buf[i]
  }

  lemma OverwriteShort(r: Ring, data: seq<byte>)
    requires r.Valid() && |data| < 2 * |r.buf| - 1 - r.wr
    ensures OverwrittenOnce(r, data, Overwrite(r, data))
  {
    var size, end, r' := |r.buf|, r.wr + |data|, Overwrite(r, data);
    if end >= size {
      var first := Splice(r.buf, r.wr, data[..size - r.wr]);
      var rest := data[size - r.wr..];
      assert rest == [] ==> r'.buf == first;
      assert rest != [] ==> OverwriteRounds(first, 0, size - 1, rest) == (Splice(first, 0, rest), |rest|);
    }
    if |data| > r.Free() {
      PushedShort(r, |data|);
    }
  }

  lemma OverwrittenUsed(r: Ring, data: seq<byte>, r': Ring)
    requires r.Valid() && r'.Valid() && |data| < 2 * |r.buf| - 1 - r.wr
    requires OverwrittenOnce(r, data, r')
    ensures r'.Used() == r.Used() + |data| - Dropped(r, |data|)
  {
  }

  lemma OverwrittenAt(r: Ring, data: seq<byte>, r': Ring, k: nat)
    requires r.Valid() && r'.Valid() && |data| < 2 * |r.buf| - 1 - r.wr
    requires OverwrittenOnce(r, data, r') && k < r'.Used()
    ensures r'.Contents()[k] == (r.Contents() + data)[Dropped(r, |data|) + k]
  {
    OverwrittenUsed(r, data, r');
    var size, drop := |r.buf|, Dropped(r, |data|);
    var i := Idx(size, r'.rd, k);
    if drop + k < r.Used() {
      assert i == Idx(size, r.rd, drop + k);
      assert r'.buf[i] == r.buf[i];
    } else {
      var j := drop + k - r.Used();
      assert i == r.wr + j || i == r.wr + j - size;
      assert r'.buf[i] == data[j];
    }
  }

  /** Overwriting with data that is not too long keeps the newest size - 1 bytes of queue and data. */
  lemma OverwriteKeepsNewest(r: Ring, data: seq<byte>)
    requires r.Valid() && |data| < 2 * |r.buf| - 1 - r.wr
    ensures Overwrite(r, data).Contents() == LastN(r.Contents() + data, |r.buf| - 1)
  {
    var r', all := Overwrite(r, data), r.Contents() + data;
    OverwriteShort(r, data);
    OverwrittenUsed(r, data, r');
    forall k | 0 <= k < r'.Used()
      ensures r'.Contents()[k] == all[Dropped(r, |data|) + k]
    {
      OverwrittenAt(r, data, r', k);
    }
  }

  /** From the second round on the last cell is never written again, and the write offset never points at it. */
  lemma OverwriteStrandsLastCell(buf: seq<byte>, data: seq<byte>)
    requires 2 <= |buf|
    ensures var (buf', wr) := OverwriteRounds(buf, 0, |buf| - 1, data);
            wr < |buf| - 1 && buf'[|buf| - 1] == buf[|buf| - 1]
    decreases |data|
  {
    if |data| > |buf| - 1 {
      OverwriteStrandsLastCell(Splice(buf, 0, data[..|buf| - 1]), data[|buf| - 1..]);
    }
  }

  function Marked(n: nat, at: nat): (s: seq<byte>)
    ensures |s| == n
  {
    seq(n, i => if i == at then 1 else 0)
  }

  /** For every longer length there is data the overwriting writer gets wrong. */
  lemma OverwriteLongFails(r: Ring, n: nat)
    requires r.Valid() && n >= 2 * |r.buf| - 1 - r.wr
    ensures var data := Marked(n, |r.buf| - 1 - r.wr);
            Overwrite(r, data).Contents() != LastN(r.Contents() + data, |r.buf| - 1)
  {
    var size := |r.buf|;
    var data := Marked(n, size - 1 - r.wr);
    var r' := Overwrite(r, data);
    var first := Splice(r.buf, r.wr, data[..size - r.wr]);
    OverwriteStrandsLastCell(first, data[size - r.wr..]);
    assert (r'.buf, r'.wr) == OverwriteRounds(first, 0, size - 1, data[size - r.wr..]);
    FirstRound(r.buf, r.wr, data[..size - r.wr], size - 1);
    assert r'.buf[size - 1] == 1;
    MarkIsGone(r.Contents(), n, size - 1 - r.wr, size - 1);
    if r'.Used() == size - 1 {
      LastCellIsQueued(r');
    }
  }

  lemma LastCellIsQueued(r: Ring)
    requires r.Valid() && r.Used() == |r.buf| - 1 && r.wr < |r.buf| - 1
    ensures r.buf[|r.buf| - 1] in r.Contents()
  {
    var k := Dist(|r.buf|, r.rd, |r.buf| - 1);
    assert r.Contents()[k] == r.buf[|r.buf| - 1];
  }

  lemma MarkIsGone(queue: seq<byte>, n: nat, at: nat, l: nat)
    requires at + l < n
    ensures 1 !in LastN(queue + Marked(n, at), l)
  {
    var all := queue + Marked(n, at);
    forall i | |all| - l <= i < |all|
      ensures all[i] == 0
    {
      assert all[i] == Marked(n, at)[i - |queue|];
    }
  }

  ghost predicate OverwriteRight(r: Ring, n: nat)
    requires r.Valid()
  {
    forall data: seq<byte> :: |data| == n ==> Overwrite(r, data).Contents() == LastN(r.Contents() + data, |r.buf| - 1)
  }

  /** Exactly when overwrite mode is a bounded queue: a test on lengths the caller can make beforehand. */
  lemma OverwriteExact(r: Ring, n: nat)
    requires r.Valid()
    ensures OverwriteRight(r, n) <==> n < 2 * |r.buf| - 1 - r.wr
  {
    if n < 2 * |r.buf| - 1 - r.wr {
      forall data: seq<byte> | |data| == n
        ensures Overwrite(r, data).Contents() == LastN(r.Contents() + data, |r.buf| - 1)
      {
        OverwriteKeepsNewest(r, data);
      }
    } else {
      OverwriteLongFails(r, n);
      var data := Marked(n, |r.buf| - 1 - r.wr);
      assert |data| == n && Overwrite(r, data).Contents() != LastN(r.Contents() + data, |r.buf| - 1);
    }
  }

  // ---- Data of any length ----

  /**
    The outcome of an overwriting write of any length, cell by cell.  The first round fills
    the buffer up to its end; from then on byte `p` of the rest goes to cell p mod (size - 1),
    and the last byte for a cell stays.
   */
  ghost predicate OverwrittenBy(r: Ring, data: seq<byte>, r': Ring)
    requires r.Valid()
  {
    var size, room := |r.buf|, |r.buf| - r.wr;
    && |r'.buf| == size
    && r'.rd == (if |data| <= r.Free() then r.rd else (r.rd + (|data| - r.Free())) % 0x1_0000_0000 % size)
    && r'.wr == (if |data| < room then r.wr + |data| else (|data| - room) % (size - 1))
    && forall i :: 0 <= i < size ==> r'.buf[i] == LastByte(r.buf, r.wr, data, i)
  }

  /** The byte that cell `i` ends up with. */
  function LastByte(buf: seq<byte>, wr: nat, data: seq<byte>, i: nat): byte
    requires wr < |buf| && i < |buf|
  {
    var size, rest := |buf|, |data| - (|buf| - wr);
    if i < size - 1 && i < rest then data[size - wr + LastFor(i, rest, size - 1)]
    else if wr <= i && i - wr < |data| then data[i - wr]
    else buf[i]
  }

  /** The last position below `n` that is `i` modulo `l`. */
  function LastFor(i: nat, n: nat, l: nat): (p: nat)
    requires i < n && i < l
    ensures p < n
    decreases n
  {
    if i + l < n then
      var p := LastFor(i, n - l, l);
      p + l
    else i
  }

  lemma {:induction false} LastForIs(i: nat, n: nat, l: nat)
    requires i < n && i < l
    ensures LastFor(i, n, l) % l == i && n <= LastFor(i, n, l) + l
    decreases n
  {
    if i + l < n {
      LastForIs(i, n - l, l);
      AddModulus(LastFor(i, n - l, l), l);
    }
  }

  lemma AddModulus(x: nat, l: nat)
    requires l > 0
    ensures (x + l) % l == x % l
  {
    var q := x / l;
    assert x == l * q + x % l;
    assert x + l == l * (q + 1) + x % l;
    ModIs(x + l, l, q + 1, x % l);
  }

  lemma ModIs(x: nat, l: nat, q: nat, m: nat)
    requires l > 0 && m < l && x == l * q + m
    ensures x % l == m
  {
    var d := x / l - q;
    assert x == l * (x / l) + x % l;
    assert l * d == m - x % l;
    Multiple(l, d);
  }

  lemma Multiple(l: int, d: int)
    requires l > 0 && -l < l * d < l
    ensures d == 0
  {
    assert d >= 1 ==> l * d >= l * 1;
    assert d <= -1 ==> l * d <= l * -1;
  }

  lemma {:induction false} ReduceIsMod(x: nat, size: nat)
    requires size > 0
    ensures Reduce(x, size) == x % size
    decreases x
  {
    if x >= size {
      ReduceIsMod(x - size, size);
      AddModulus(x - size, size);
    }
  }

  /** The rounds after the first one. */
  lemma {:induction false} RoundsAt(buf: seq<byte>, data: seq<byte>, i: nat)
    requires 2 <= |buf| && i < |buf|
    ensures var (buf', wr) := OverwriteRounds(buf, 0, |buf| - 1, data);
            && wr == Reduce(|data|, |buf| - 1)
            && buf'[i] == if i < |buf| - 1 && i < |data| then data[LastFor(i, |data|, |buf| - 1)] else buf[i]
    decreases |data|
  {
    var l := |buf| - 1;
    if |data| >= l {
      var buf', rest := Splice(buf, 0, data[..l]), data[l..];
      assert Reduce(|data|, l) == Reduce(|rest|, l);
      if |data| > l {
        RoundsAt(buf', rest, i);
      }
    }
  }

  /** Exactly what an overwriting write does, whatever the length of the data. */
  lemma OverwriteAnyLength(r: Ring, data: seq<byte>)
    requires r.Valid()
    ensures OverwrittenBy(r, data, Overwrite(r, data))
  {
    OffsetsAnyLength(r, data);
    var r' := Overwrite(r, data);
    forall i | 0 <= i < |r.buf|
      ensures r'.buf[i] == LastByte(r.buf, r.wr, data, i)
    {
      if |data| >= |r.buf| - r.wr {
        LaterRounds(r.buf, r.wr, data, i);
      }
    }
  }

  lemma OffsetsAnyLength(r: Ring, data: seq<byte>)
    requires r.Valid()
    ensures var size, room, r' := |r.buf|, |r.buf| - r.wr, Overwrite(r, data);
            && r'.rd == (if |data| <= r.Free() then r.rd else (r.rd + (|data| - r.Free())) % 0x1_0000_0000 % size)
            && r'.wr == (if |data| < room then r.wr + |data| else (|data| - room) % (size - 1))
  {
    var size, room := |r.buf|, |r.buf| - r.wr;
    if |data| > r.Free() {
      ReduceIsMod(Add32(r.rd, |data| - r.Free()), size);
    }
    if |data| >= room {
      LaterRounds(r.buf, r.wr, data, 0);
      ReduceIsMod(|data| - room, size - 1);
    }
  }

  lemma LaterRounds(buf: seq<byte>, wr: nat, data: seq<byte>, i: nat)
    requires 2 <= |buf| && wr < |buf| && |data| >= |buf| - wr && i < |buf|
    ensures var (buf', wr') := OverwriteRounds(buf, wr, |buf| - wr, data);
            wr' == Reduce(|data| - (|buf| - wr), |buf| - 1) && buf'[i] == LastByte(buf, wr, data, i)
  {
    var room := |buf| - wr;
    var first, rest := Splice(buf, wr, data[..room]), data[room..];
    FirstRound(buf, wr, data[..room], i);
    if rest != [] {
      RoundsAt(first, rest, i);
      LastInRest(data, room, i, |buf| - 1);
    }
  }

  lemma LastInRest(data: seq<byte>, room: nat, i: nat, l: nat)
    requires room <= |data|
    ensures i < l && i < |data| - room ==> data[room..][LastFor(i, |data| - room, l)] == data[room + LastFor(i, |data| - room, l)]
  {
  }

  lemma FirstRound(buf: seq<byte>, wr: nat, data: seq<byte>, i: nat)
    requires wr + |data| == |buf| && i < |buf|
    ensures Splice(buf, wr, data)[i] == if wr <= i then data[i - wr] else buf[i]
  {
  }

  /** At the first failing length everything is gone: the ring looks empty. */
  lemma OverwriteFirstFailureEmpties(r: Ring, data: seq<byte>)
    requires r.Valid() && |data| == 2 * |r.buf| - 1 - r.wr
    ensures Overwrite(r, data).wr == 0 && Overwrite(r, data).rd == 0
    ensures Overwrite(r, data).Contents() == []
  {
    var size := |r.buf|;
    var first := Splice(r.buf, r.wr, data[..size - r.wr]);
    assert OverwriteRounds(first, 0, size - 1, data[size - r.wr..]).1 == 0;
    PushedShort(r, |data|);
  }
}
