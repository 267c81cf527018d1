/**
  The abstract view of an RTT ring buffer: one slot always stays empty, so that
  equal offsets mean "empty" (src/RTT/SEGGER_RTT.c:64-71).  Every reader and
  writer of the buffer is specified by `Enqueue` and `Dequeue`, and the lemmas
  here say what these do to the byte queue the ring stands for.
 */
module RingSpec {
  import opened Machine

  /** Number of steps from offset `from` forward to offset `to` in a ring of `size` cells. */
  function Dist(size: nat, from: nat, to: nat): nat
    requires from < size && to < size
  {
    if from <= to then to - from else size - from + to
  }

  /** The cell `k` steps after offset `off`. */
  function Idx(size: nat, off: nat, k: nat): nat
    requires off < size && k <= size
  {
    if off + k < size then off + k else off + k - size
  }

  datatype Ring = Ring(buf: seq<byte>, wr: nat, rd: nat) {
    predicate Valid() {
      2 <= |buf| < TWO_31 && wr < |buf| && rd < |buf|
    }

    function Used(): nat
      requires Valid()
    {
      Dist(|buf|, rd, wr)
    }

    function Free(): nat
      requires Valid()
    {
      |buf| - 1 - Used()
    }

    /** The queued bytes, oldest first. */
    function Contents(): (s: seq<byte>)
      requires Valid()
      ensures |s| == Used()
    {
      seq(Used(), k requires 0 <= k < Used() => buf[Idx(|buf|, rd, k)])
    }
  }

  /** `data` laid into `buf` from offset `wr` on, going round the end. */
  function Place(buf: seq<byte>, wr: nat, data: seq<byte>): (r: seq<byte>)
    requires wr < |buf| && |data| <= |buf|
    ensures |r| == |buf|
  {
    seq(|buf|, i requires 0 <= i < |buf| =>
      if Dist(|buf|, wr, i) < |data| then data[Dist(|buf|, wr, i)] else buf[i])
  }

  function Enqueue(r: Ring, data: seq<byte>): (r': Ring)
    requires r.Valid() && |data| < |r.buf|
    ensures r'.Valid() && |r'.buf| == |r.buf| && r'.rd == r.rd
  {
    Ring(Place(r.buf, r.wr, data), Idx(|r.buf|, r.wr, |data|), r.rd)
  }

  function Dequeue(r: Ring, n: nat): (r': Ring)
    requires r.Valid() && n <= r.Used()
    ensures r'.Valid() && r'.buf == r.buf && r'.wr == r.wr
  {
    r.(rd := Idx(|r.buf|, r.rd, n))
  }

  /** Writing bytes that fit appends them to the queue, and takes exactly that much free space. */
  lemma EnqueueAppends(r: Ring, data: seq<byte>)
    requires r.Valid() && |data| <= r.Free()
    ensures Enqueue(r, data).Contents() == r.Contents() + data
    ensures Enqueue(r, data).Free() == r.Free() - |data|
  {
    var r' := Enqueue(r, data);
    assert r'.Used() == r.Used() + |data|;
    forall k | 0 <= k < r'.Used()
      ensures r'.Contents()[k] == (r.Contents() + data)[k]
    {
      var i := Idx(|r.buf|, r.rd, k);
      assert Dist(|r.buf|, r.rd, i) == k;
      assert k >= r.Used() ==> Dist(|r.buf|, r.wr, i) == k - r.Used();
      assert k < r.Used() ==> Dist(|r.buf|, r.wr, i) >= |data|;
    }
  }

  /** Reading `n` bytes removes exactly the oldest `n`, and frees exactly that much space. */
  lemma DequeueRemoves(r: Ring, n: nat)
    requires r.Valid() && n <= r.Used()
    ensures Dequeue(r, n).Contents() == r.Contents()[n..]
    ensures Dequeue(r, n).Free() == r.Free() + n
  {
    var r' := Dequeue(r, n);
    assert r'.Used() == r.Used() - n;
    forall k | 0 <= k < r'.Used()
      ensures r'.Contents()[k] == r.Contents()[n + k]
    {
      assert Idx(|r.buf|, r'.rd, k) == Idx(|r.buf|, r.rd, n + k);
    }
  }

  /** Two writes in a row are one write of the concatenation. */
  lemma EnqueueTwice(r: Ring, a: seq<byte>, b: seq<byte>)
    requires r.Valid() && |a| + |b| < |r.buf|
    ensures Enqueue(Enqueue(r, a), b) == Enqueue(r, a + b)
  {
    var r1 := Enqueue(r, a);
    forall i | 0 <= i < |r.buf|
      ensures Place(r1.buf, r1.wr, b)[i] == Place(r.buf, r.wr, a + b)[i]
    {
      var d := Dist(|r.buf|, r.wr, i);
      assert d < |a| ==> Dist(|r.buf|, r1.wr, i) == |r.buf| - |a| + d;
      assert d >= |a| ==> Dist(|r.buf|, r1.wr, i) == d - |a|;
    }
  }

  /** A non-empty write that fits never makes the ring look empty. */
  lemma NonEmptyWriteIsVisible(r: Ring, data: seq<byte>)
    requires r.Valid() && 0 < |data| <= r.Free()
    ensures Enqueue(r, data).wr != Enqueue(r, data).rd
  {
    EnqueueAppends(r, data);
  }

  /** A write that does not wrap is one memcpy; one that wraps is two. */
  lemma PlaceIsSplice(buf: seq<byte>, wr: nat, data: seq<byte>)
    requires wr < |buf| && |data| <= |buf|
    ensures wr + |data| <= |buf| ==> Place(buf, wr, data) == Splice(buf, wr, data)
    ensures wr + |data| >= |buf| ==>
              Place(buf, wr, data) == Splice(Splice(buf, wr, data[..|buf| - wr]), 0, data[|buf| - wr..])
  {
  }
}
