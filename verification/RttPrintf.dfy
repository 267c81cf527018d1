/**
  RTT printf as it runs (src/RTT/SEGGER_RTT_printf.c): characters go through a
  64-byte staging buffer that is handed to `SEGGER_RTT_Write` whenever it is full.
  Whether a write is accepted is up to the ring; `accepts(k)` is what the k-th
  call of `SEGGER_RTT_Write` returns.
 */
module RttPrintf {
  import opened Machine
  import opened NumberFormat
  import opened PrintfSpec
  import opened PrintfCode
  import opened PrintfFormat
  import opened PrintfMeaning

  const SIZE := 64

  /** A call of `SEGGER_RTT_Write`, and whether it stored the whole chunk. */
  datatype Call = Call(chunk: seq<byte>, ok: bool)

  /** The value of a `SEGGER_RTT_PRINTF_DESC`, together with the calls made so far. */
  datatype Desc = Desc(pending: seq<byte>, ret: int, calls: seq<Call>)

  /** `_StoreChar`. */
  function Store(d: Desc, c: byte, accepts: nat -> nat): Desc {
    var d1 := if |d.pending| + 1 <= SIZE then d.(pending := d.pending + [c], ret := d.ret + 1) else d;
    if |d1.pending| == SIZE then
      if accepts(|d1.calls|) != SIZE then d1.(ret := -1, calls := d1.calls + [Call(d1.pending, false)])
      else d1.(pending := [], calls := d1.calls + [Call(d1.pending, true)])
    else d1
  }

  // ---- What the descriptor looks like after a text ----

  /** The first `k` full chunks of a text, all accepted. */
  function Flushed(text: seq<byte>, k: nat): (calls: seq<Call>)
    requires SIZE * k <= |text|
    ensures |calls| == k
  {
    seq(k, i requires 0 <= i < k => Call(text[SIZE * i..SIZE * i + SIZE], true))
  }

  ghost predicate AllAccepted(accepts: nat -> nat, n: nat) {
    forall k: nat :: k < n ==> accepts(k) == SIZE
  }

  /** Everything printed so far was accepted: the last incomplete chunk is pending. */
  ghost predicate Clean(d: Desc, text: seq<byte>, accepts: nat -> nat) {
    && d.ret == |text|
    && d.calls == Flushed(text, |text| / SIZE)
    && d.pending == text[|text| / SIZE * SIZE..]
    && AllAccepted(accepts, |text| / SIZE)
  }

  /**
    Chunk `m` was the first to be refused.  Since then no character has been taken,
    and the same chunk has been offered again at most once.
   */
  ghost predicate Broken(d: Desc, text: seq<byte>, accepts: nat -> nat, m: nat, retried: bool) {
    && SIZE * m + SIZE <= |text|
    && AllAccepted(accepts, m) && accepts(m) != SIZE
    && d.ret == -1
    && var chunk := text[SIZE * m..SIZE * m + SIZE];
       && |d.calls| == m + (if retried then 2 else 1)
       && d.calls[..m + 1] == Flushed(text, m) + [Call(chunk, false)]
       && (retried ==> d.calls[m + 1] == Call(chunk, accepts(m + 1) == SIZE))
       && d.pending == if retried && d.calls[m + 1].ok then [] else chunk
  }

  /** The descriptor after `text` was to be printed; a chunk that a character from `lo` to `hi` completes is offered again if refused. */
  ghost predicate Printed(d: Desc, text: seq<byte>, accepts: nat -> nat, lo: nat, hi: nat) {
    Clean(d, text, accepts) || exists m :: BrokenIn(d, text, accepts, m, lo, hi)
  }

  ghost predicate BrokenIn(d: Desc, text: seq<byte>, accepts: nat -> nat, m: nat, lo: nat, hi: nat) {
    Broken(d, text, accepts, m, lo <= LastOf(m) < hi)
  }

  /** The position of the character that completes chunk `m`. */
  function LastOf(m: nat): nat {
    SIZE * m + SIZE - 1
  }

  /** The same, with no second offer made. */
  ghost predicate PrintedOnce(d: Desc, text: seq<byte>, accepts: nat -> nat) {
    Clean(d, text, accepts) || exists m :: Broken(d, text, accepts, m, false)
  }

  /** The first refused chunk stops everything: nothing printed later makes a difference. */
  lemma BrokenStays(d: Desc, text: seq<byte>, more: seq<byte>, accepts: nat -> nat, m: nat, retried: bool)
    requires Broken(d, text, accepts, m, retried)
    ensures Broken(d, text + more, accepts, m, retried)
  {
    var all := text + more;
    assert all[SIZE * m..SIZE * m + SIZE] == text[SIZE * m..SIZE * m + SIZE];
    FlushedPrefix(text, more, m);
  }

  lemma FlushedPrefix(text: seq<byte>, more: seq<byte>, k: nat)
    requires SIZE * k <= |text|
    ensures Flushed(text + more, k) == Flushed(text, k)
  {
    forall i | 0 <= i < k
      ensures (text + more)[SIZE * i..SIZE * i + SIZE] == text[SIZE * i..SIZE * i + SIZE]
    {
    }
  }

  /** A refusal before the characters that matter. */
  lemma OnceBefore(d: Desc, text: seq<byte>, more: seq<byte>, accepts: nat -> nat, lo: nat, hi: nat)
    requires PrintedOnce(d, text, accepts) && d.ret < 0 && (|text| <= lo || lo == hi)
    ensures Printed(d, text + more, accepts, lo, hi)
  {
    var m :| Broken(d, text, accepts, m, false);
    BrokenStays(d, text, more, accepts, m, false);
    assert BrokenIn(d, text + more, accepts, m, lo, hi);
  }

  /** A refusal after them. */
  lemma OnceAfter(d: Desc, text: seq<byte>, more: seq<byte>, accepts: nat -> nat, lo: nat, hi: nat)
    requires PrintedOnce(d, text + more, accepts) && AllAccepted(accepts, |text| / SIZE) && hi <= |text|
    ensures Printed(d, text + more, accepts, lo, hi)
  {
    if !Clean(d, text + more, accepts) {
      var m :| Broken(d, text + more, accepts, m, false);
      BreaksLater(accepts, |text|, m);
      assert BrokenIn(d, text + more, accepts, m, lo, hi);
    }
  }

  /** After `text` a piece was to be printed, in which the characters of `span` matter. */
  ghost predicate PrintedAt(d: Desc, text: seq<byte>, piece: seq<byte>, accepts: nat -> nat, span: (nat, nat)) {
    Printed(d, text + piece, accepts, |text| + span.0, |text| + span.1)
  }

  /** With all chunks of a text accepted, the refused one is completed by a later character. */
  lemma BreaksLater(accepts: nat -> nat, n: nat, m: nat)
    requires AllAccepted(accepts, n / SIZE) && accepts(m) != SIZE
    ensures LastOf(m) >= n
  {
    assert !(m < n / SIZE);
  }

  /** Only the characters count: all empty spans are alike. */
  lemma SameSpan(d: Desc, text: seq<byte>, accepts: nat -> nat, lo: nat, hi: nat, lo': nat, hi': nat)
    requires Printed(d, text, accepts, lo, hi) && ((lo == lo' && hi == hi') || (lo == hi && lo' == hi'))
    ensures Printed(d, text, accepts, lo', hi')
  {
    if !Clean(d, text, accepts) {
      var m :| BrokenIn(d, text, accepts, m, lo, hi);
      assert BrokenIn(d, text, accepts, m, lo', hi');
    }
  }

  lemma OnceIsPrinted(d: Desc, text: seq<byte>, accepts: nat -> nat, lo: nat)
    requires PrintedOnce(d, text, accepts)
    ensures Printed(d, text, accepts, lo, lo)
  {
    if !Clean(d, text, accepts) {
      var m :| Broken(d, text, accepts, m, false);
      assert BrokenIn(d, text, accepts, m, lo, lo);
    }
  }

  lemma PrintedOnceStays(d: Desc, text: seq<byte>, more: seq<byte>, accepts: nat -> nat)
    requires PrintedOnce(d, text, accepts) && d.ret < 0
    ensures PrintedOnce(d, text + more, accepts)
  {
    var m :| Broken(d, text, accepts, m, false);
    BrokenStays(d, text, more, accepts, m, false);
  }

  /** Storing a character when all is well. */
  lemma StoreClean(d: Desc, text: seq<byte>, c: byte, accepts: nat -> nat)
    requires Clean(d, text, accepts)
    ensures var d' := Store(d, c, accepts);
            Clean(d', text + [c], accepts) || Broken(d', text + [c], accepts, |text| / SIZE, false)
  {
    var k, all, d' := |text| / SIZE, text + [c], Store(d, c, accepts);
    FlushedPrefix(text, [c], k);
    assert |d.pending| == |text| - k * SIZE < SIZE;
    assert d.pending + [c] == all[k * SIZE..];
    if |d.pending| + 1 == SIZE {
      assert |all| / SIZE == k + 1;
      assert d.pending + [c] == all[SIZE * k..SIZE * k + SIZE];
      assert Flushed(all, k + 1) == Flushed(all, k) + [Call(d.pending + [c], true)];
    } else {
      assert |all| / SIZE == k;
    }
  }

  /** Storing a character after a refusal: the chunk is offered once more, the character is lost. */
  lemma StoreBroken(d: Desc, text: seq<byte>, c: byte, accepts: nat -> nat, m: nat)
    requires Broken(d, text, accepts, m, false)
    ensures Broken(Store(d, c, accepts), text, accepts, m, true)
  {
  }

  /** Were a character stored after an accepted second offer, the error would be forgotten: the callers must stop. */
  lemma StoreForgetsError(d: Desc, text: seq<byte>, c: byte, accepts: nat -> nat, m: nat)
    requires Broken(d, text, accepts, m, true) && d.calls[m + 1].ok
    ensures Store(d, c, accepts).ret == 0 && Store(d, c, accepts).pending == [c]
  {
  }

  /** The bytes handed to `SEGGER_RTT_Write`, in order. */
  function Concat(calls: seq<Call>): seq<byte> {
    if calls == [] then [] else Concat(calls[..|calls| - 1]) + calls[|calls| - 1].chunk
  }

  lemma {:induction false} FlushedConcat(text: seq<byte>, k: nat)
    requires SIZE * k <= |text|
    ensures Concat(Flushed(text, k)) == text[..SIZE * k]
  {
    if k > 0 {
      assert Flushed(text, k)[..k - 1] == Flushed(text, k - 1);
      FlushedConcat(text, k - 1);
      assert text[..SIZE * k] == text[..SIZE * (k - 1)] + text[SIZE * (k - 1)..SIZE * k];
    }
  }

  /** The full chunks and the incomplete last one make up the text. */
  lemma LastChunk(text: seq<byte>, ok: bool)
    ensures var k := |text| / SIZE;
            && Concat(Flushed(text, k) + [Call(text[k * SIZE..], ok)]) == text
            && (|text| % SIZE == 0 ==> Concat(Flushed(text, k)) == text)
  {
    var k := |text| / SIZE;
    FlushedConcat(text, k);
    var all := Flushed(text, k) + [Call(text[k * SIZE..], ok)];
    assert all[..|all| - 1] == Flushed(text, k);
    assert text == text[..SIZE * k] + text[k * SIZE..];
    assert |text| % SIZE == 0 ==> text[..SIZE * k] == text;
  }

  /** The calls of a printer that got all its full chunks accepted. */
  function CleanCalls(text: seq<byte>, ok: bool): seq<Call> {
    var k := |text| / SIZE;
    Flushed(text, k) + if |text| % SIZE == 0 then [] else [Call(text[k * SIZE..], ok)]
  }

  /** Lead, digits and tail are the field, and the digits are what matters if there is a tail. */
  lemma PaddedIs(d: Desc, text: seq<byte>, v: u32, base: nat, precision: nat, fieldWidth: nat, width: nat, f: Flags, accepts: nat -> nat)
    requires base >= 2 && Printable(v, base, precision) && width == Max(precision, NumLen(v, base))
    requires var lead, body, tail := CodeLead(fieldWidth, width, precision, f), CodeBody(v, base, precision), CodeTail(fieldWidth, width, f);
             Printed(d, text + lead + (body + tail), accepts, |text + lead|, |text + lead| + if tail == [] then 0 else |body|)
    ensures PrintedAt(d, text, CodeUnsigned(v, base, precision, fieldWidth, f), accepts, UnsignedSpan(v, base, precision, fieldWidth, f))
  {
    var lead, body, tail := CodeLead(fieldWidth, width, precision, f), CodeBody(v, base, precision), CodeTail(fieldWidth, width, f);
    PiecesAre(text, lead, body, tail);
    SameSpan(d, text + lead + (body + tail), accepts, |text + lead|, |text + lead| + if tail == [] then 0 else |body|,
             |text|, |text| + if tail == [] then 0 else |body|);
  }

  /** A lead before a piece moves what matters in it. */
  lemma SpanMoves(d: Desc, text: seq<byte>, lead: seq<byte>, piece: seq<byte>, accepts: nat -> nat, span: (nat, nat))
    requires PrintedAt(d, text + lead, piece, accepts, span)
    ensures PrintedAt(d, text, lead + piece, accepts, (|lead| + span.0, |lead| + span.1))
  {
    assert text + (lead + piece) == text + lead + piece;
  }

  lemma PiecesAre(text: seq<byte>, lead: seq<byte>, body: seq<byte>, tail: seq<byte>)
    ensures text + (lead + body + tail) == text + lead + (body + tail)
  {
  }

  /** The refused chunk was completed by a character from `lo` to `hi`. */
  ghost predicate BreaksIn(d: Desc, text: seq<byte>, accepts: nat -> nat, lo: nat, hi: nat) {
    forall m :: Broken(d, text, accepts, m, false) ==> lo <= LastOf(m) < hi
  }

  lemma BreaksWithin(d: Desc, text: seq<byte>, more: seq<byte>, accepts: nat -> nat)
    requires AllAccepted(accepts, |text| / SIZE)
    ensures BreaksIn(d, text + more, accepts, |text|, |text| + |more|)
  {
    forall m | Broken(d, text + more, accepts, m, false)
      ensures |text| <= LastOf(m) < |text| + |more|
    {
      BreaksLater(accepts, |text|, m);
    }
  }

  /** The descriptor after a format was to be printed. */
  ghost predicate PrintedBy(d: Desc, fmt: seq<byte>, args: seq<Arg>, accepts: nat -> nat)
    requires Render(Actual, fmt, 0, args).Some?
  {
    var text := Render(Actual, fmt, 0, args).value;
    Clean(d, text, accepts) || exists m: nat :: Broken(d, text, accepts, m, OfferedAgain(fmt, args)(m))
  }

  /**
    What printf has done when it returns `r`.  With every full chunk accepted, the chunks are
    the text and the result is its length plus that of the last, incomplete chunk.  Otherwise
    the result is -1, chunk `m` was the first to be refused, and it was offered again exactly
    if it was completed by a digit of a left-justified number with blanks behind it.
   */
  ghost predicate PrintfDid(r: int, d: Desc, fmt: seq<byte>, args: seq<Arg>, accepts: nat -> nat)
    requires Render(Actual, fmt, 0, args).Some?
  {
    TextDid(r, d, Render(Actual, fmt, 0, args).value, OfferedAgain(fmt, args), accepts)
  }

  ghost predicate TextDid(r: int, d: Desc, text: seq<byte>, again: nat -> bool, accepts: nat -> nat) {
    if AllAccepted(accepts, |text| / SIZE) then
      && r == |text| + |text| % SIZE && Concat(d.calls) == text
      && d.calls == CleanCalls(text, accepts(|text| / SIZE) == |text| % SIZE)
    else r == -1 && exists m: nat :: Broken(d, text, accepts, m, again(m))
  }

  /** Is chunk `m` offered again if it is refused? */
  function OfferedAgain(fmt: seq<byte>, args: seq<Arg>): nat -> bool {
    (m: nat) => RetriesAt(fmt, 0, args, LastOf(m))
  }

  /** From position `n` of the text on, it is the format from position `i` on. */
  ghost predicate SameFrom(fmt: seq<byte>, args: seq<Arg>, n: nat, i: nat, left: seq<Arg>) {
    i <= |fmt| && forall k: nat :: RetriesAt(fmt, 0, args, n + k) == RetriesAt(fmt, i, left, k)
  }

  /** The directive at position `i` prints `n` characters, in which those of `span` matter. */
  ghost predicate RetriesOn(fmt: seq<byte>, i: nat, args: seq<Arg>, n: nat, span: (nat, nat), next: nat, left: seq<Arg>) {
    && i <= next <= |fmt|
    && forall k: nat :: RetriesAt(fmt, i, args, k) == if k < n then span.0 <= k < span.1 else RetriesAt(fmt, next, left, k - n)
  }

  lemma PlainRetries(fmt: seq<byte>, i: nat, args: seq<Arg>)
    requires i < |fmt| && fmt[i] != PERCENT
    ensures RetriesOn(fmt, i, args, 1, (0, 0), i + 1, args)
  {
  }

  lemma ConversionRetries(d: Directive, fmt: seq<byte>, i: nat, args: seq<Arg>)
    requires Starts(d, fmt, i, args) && TextOf(Actual, d).Some?
    ensures RetriesOn(fmt, i, args, |TextOf(Actual, d).value|, SpanOf(d), d.sp.end + 1, d.left)
  {
    forall k: nat
      ensures RetriesAt(fmt, i, args, k) ==
                if k < |TextOf(Actual, d).value| then SpanOf(d).0 <= k < SpanOf(d).1
                else RetriesAt(fmt, d.sp.end + 1, d.left, k - |TextOf(Actual, d).value|)
    {
      RetryHere(d, fmt, i, args, k);
    }
  }

  lemma RetryHere(d: Directive, fmt: seq<byte>, i: nat, args: seq<Arg>, k: nat)
    requires Starts(d, fmt, i, args) && TextOf(Actual, d).Some?
    ensures RetriesAt(fmt, i, args, k) ==
              if k < |TextOf(Actual, d).value| then SpanOf(d).0 <= k < SpanOf(d).1
              else RetriesAt(fmt, d.sp.end + 1, d.left, k - |TextOf(Actual, d).value|)
  {
  }

  lemma SameOn(fmt: seq<byte>, args: seq<Arg>, n: nat, i: nat, left: seq<Arg>, size: nat, next: nat, left': seq<Arg>, span: (nat, nat))
    requires SameFrom(fmt, args, n, i, left) && RetriesOn(fmt, i, left, size, span, next, left')
    ensures SameFrom(fmt, args, n + size, next, left')
  {
    forall k: nat
      ensures RetriesAt(fmt, 0, args, n + size + k) == RetriesAt(fmt, next, left', k)
    {
      assert RetriesAt(fmt, 0, args, n + (size + k)) == RetriesAt(fmt, i, left, size + k);
    }
  }

  /** In these characters of the text, those of `span` matter. */
  ghost predicate AgreesOn(again: nat -> bool, n: nat, size: nat, span: (nat, nat)) {
    forall m: nat :: n <= LastOf(m) < n + size ==> again(m) == (n + span.0 <= LastOf(m) < n + span.1)
  }

  lemma DirectiveAgrees(fmt: seq<byte>, args: seq<Arg>, n: nat, size: nat, span: (nat, nat), i: nat, left: seq<Arg>, next: nat, left': seq<Arg>)
    requires SameFrom(fmt, args, n, i, left) && RetriesOn(fmt, i, left, size, span, next, left')
    ensures AgreesOn(OfferedAgain(fmt, args), n, size, span)
  {
    forall m: nat | n <= LastOf(m) < n + size
      ensures OfferedAgain(fmt, args)(m) == (n + span.0 <= LastOf(m) < n + span.1)
    {
      var k := LastOf(m) - n;
      assert RetriesAt(fmt, 0, args, n + k) == RetriesAt(fmt, i, left, k) == (span.0 <= k < span.1);
    }
  }

  /** A directive that runs into a refusal. */
  lemma FailsBy(d: Desc, text: seq<byte>, again: nat -> bool, accepts: nat -> nat, done: seq<byte>, piece: seq<byte>, rest: seq<byte>, span: (nat, nat))
    requires d.ret < 0 && PrintedAt(d, done, piece, accepts, span) && AllAccepted(accepts, |done| / SIZE)
    requires AgreesOn(again, |done|, |piece|, span) && text == done + piece + rest
    ensures exists m: nat :: Broken(d, text, accepts, m, again(m))
  {
    var m :| BrokenIn(d, done + piece, accepts, m, |done| + span.0, |done| + span.1);
    BreaksLater(accepts, |done|, m);
    BrokenStays(d, done + piece, rest, accepts, m, again(m));
  }

  class Printer {
    const buffer: array<byte>
    const accepts: nat -> nat
    var cnt: nat
    var ret: int
    var calls: seq<Call>

    ghost predicate Valid()
      reads this
    {
      buffer.Length == SIZE && cnt <= SIZE
    }

    ghost function Val(): Desc
      requires Valid()
      reads this, buffer
    {
      Desc(buffer[..cnt], ret, calls)
    }

    constructor (accepts: nat -> nat)
      ensures Valid() && fresh(buffer) && this.accepts == accepts
      ensures Clean(Val(), [], accepts)
    {
      buffer := new byte[SIZE];
      this.accepts := accepts;
      cnt, ret, calls := 0, 0, [];
    }

    /** `_StoreChar`. */
    method StoreChar(c: byte)
      requires Valid()
      modifies this, buffer
      ensures Valid() && Val() == Store(old(Val()), c, accepts)
    {
      ghost var before := Val();
      if cnt + 1 <= SIZE {
        buffer[cnt] := c;
        cnt := cnt + 1;
        ret := ret + 1;
        assert buffer[..cnt] == before.pending + [c];
      }
      if cnt == SIZE {
        var stored := accepts(|calls|);
        calls := calls + [Call(buffer[..cnt], stored == SIZE)];
        if stored != SIZE {
          ret := -1;
        } else {
          cnt := 0;
        }
      }
    }

    /** Stores a character when all is well so far. */
    method Put(c: byte, ghost text: seq<byte>)
      requires Valid() && Clean(Val(), text, accepts)
      modifies this, buffer
      ensures Valid() && PrintedOnce(Val(), text + [c], accepts)
    {
      StoreClean(Val(), text, c, accepts);
      StoreChar(c);
    }

    /** Stores character `i` of a text `s` that comes after `text`; after a refusal the rest of `s` does not matter. */
    method PutNext(c: byte, ghost s: seq<byte>, ghost i: nat, ghost text: seq<byte>)
      requires i < |s| && c == s[i]
      requires Valid() && Clean(Val(), text + s[..i], accepts)
      modifies this, buffer
      ensures Valid()
      ensures ret >= 0 ==> Clean(Val(), text + s[..i + 1], accepts)
      ensures ret < 0 ==> PrintedOnce(Val(), text + s, accepts)
    {
      assert text + s[..i] + [c] == text + s[..i + 1];
      Put(c, text + s[..i]);
      if ret < 0 {
        assert text + s[..i + 1] + s[i + 1..] == text + s;
        PrintedOnceStays(Val(), text + s[..i + 1], s[i + 1..], accepts);
      }
    }

    /** Storing a character after a refusal that a character from `lo` to `hi` brought about. */
    method OfferAgain(c: byte, ghost text: seq<byte>, ghost more: seq<byte>, ghost lo: nat, ghost hi: nat)
      requires Valid() && PrintedOnce(Val(), text, accepts) && ret < 0 && BreaksIn(Val(), text, accepts, lo, hi)
      modifies this, buffer
      ensures Valid() && ret < 0 && Printed(Val(), text + more, accepts, lo, hi)
    {
      ghost var m :| Broken(Val(), text, accepts, m, false);
      BrokenStays(Val(), text, more, accepts, m, false);
      StoreBroken(Val(), text + more, c, accepts, m);
      StoreChar(c);
      assert BrokenIn(Val(), text + more, accepts, m, lo, hi);
    }

    /**
      The padding loop, which occurs four times in the source.  Entered after a
      refusal (as the trailing loop may be) it stores nothing, but offers the chunk again.
     */
    method Pad(fieldWidth: nat, width: nat, c: byte, ghost text: seq<byte>, ghost lo: nat, ghost hi: nat) returns (left: nat)
      requires Valid() && PrintedOnce(Val(), text, accepts) && lo <= hi <= |text|
      requires ret < 0 ==> if Missing(fieldWidth, width) > 0 then BreaksIn(Val(), text, accepts, lo, hi) else lo == hi
      modifies this, buffer
      ensures Valid() && Printed(Val(), text + Fill(c, Missing(fieldWidth, width)), accepts, lo, hi)
      ensures old(ret) >= 0 ==> PrintedOnce(Val(), text + Fill(c, Missing(fieldWidth, width)), accepts)
      ensures ret >= 0 ==> left == fieldWidth - Missing(fieldWidth, width)
    {
      left := fieldWidth;
      ghost var n := Missing(fieldWidth, width);
      if ret < 0 {
        if left != 0 && width < left {
          left := left - 1;
          OfferAgain(c, text, Fill(c, n), lo, hi);
        } else {
          OnceBefore(Val(), text, Fill(c, n), accepts, lo, hi);
        }
        return;
      }
      left := PadClean(fieldWidth, width, c, text);
      OnceAfter(Val(), text, Fill(c, n), accepts, lo, hi);
    }

    /** The same entered with no refusal so far. */
    method PadClean(fieldWidth: nat, width: nat, c: byte, ghost text: seq<byte>) returns (left: nat)
      requires Valid() && Clean(Val(), text, accepts)
      modifies this, buffer
      ensures Valid() && PrintedOnce(Val(), text + Fill(c, Missing(fieldWidth, width)), accepts)
      ensures ret >= 0 ==> left == fieldWidth - Missing(fieldWidth, width)
    {
      left := fieldWidth;
      ghost var n := Missing(fieldWidth, width);
      ghost var pad := Fill(c, n);
      assert text + pad[..0] == text;
      while left != 0 && width < left
        invariant Valid() && left <= fieldWidth && Missing(left, width) == n - (fieldWidth - left)
        invariant Clean(Val(), text + pad[..fieldWidth - left], accepts)
      {
        left := left - 1;
        PutNext(c, pad, fieldWidth - left - 1, text);
        if ret < 0 {
          return;
        }
      }
      assert pad[..n] == pad;
    }

    /** The divisor loop of `_PrintUnsigned`. */
    method Divisor(v: u32, base: nat, numDigits: nat) returns (digit: u32)
      requires base >= 2 && Printable(v, base, numDigits)
      ensures digit > 0 && CodeDigits(v, base, numDigits) == Emit(v, base, digit)
    {
      digit := 1;
      var left := numDigits;
      ghost var start := Raise(1, base, Max(numDigits, 1) - 1);
      while true
        invariant Raise(digit, base, Max(left, 1) - 1) == start || (left <= 1 && digit > 0 && Grow(v, base, digit) == Grow(v, base, start))
        decreases left, v - digit
      {
        if left > 1 {
          left := left - 1;
        } else {
          assert digit > 0 && Grow(v, base, digit) == Grow(v, base, start);
          if v / digit < base {
            return;
          }
          GrowsSafely(v, base, digit);
        }
        digit := Times(digit, base);
      }
    }

    /** The digit loop of `_PrintUnsigned`. */
    method Digits(v0: u32, base: nat, digit0: u32, ghost text: seq<byte>, ghost digits: seq<nat>)
      requires Valid() && Clean(Val(), text, accepts)
      requires base >= 2 && digit0 > 0 && Emit(v0, base, digit0) == Some(digits)
      requires AreDigits(digits, 16)
      modifies this, buffer
      ensures Valid() && PrintedOnce(Val(), text + Chars(digits), accepts)
    {
      var v, digit := v0, digit0;
      ghost var n, body := 0, Chars(digits);
      EmitDigits(v, base, digit);
      assert text + body[..0] == text;
      while digit > 0
        invariant Valid() && n <= |digits| && Clean(Val(), text + body[..n], accepts)
        invariant if digit == 0 then n == |digits| else n < |digits| && Emit(v, base, digit) == Some(digits[n..])
        decreases digit
      {
        EmitHead(v, base, digit, digits[n..]);
        assert digits[n..][1..] == digits[n + 1..];
        var div := v / digit;
        v := Left(v, digit);
        PutNext(DigitChar(div), body, n, text);
        n := n + 1;
        if ret < 0 {
          return;
        }
        digit := Lower(digit, base);
      }
      assert body[..n] == body;
    }

    /** `_PrintUnsigned`. */
    method PrintUnsigned(v: u32, base: nat, numDigits: nat, fieldWidth: nat, f: Flags, ghost text: seq<byte>)
      requires Valid() && Clean(Val(), text, accepts)
      requires base >= 2 && Printable(v, base, numDigits)
      modifies this, buffer
      ensures Valid() && PrintedAt(Val(), text, CodeUnsigned(v, base, numDigits, fieldWidth, f), accepts, UnsignedSpan(v, base, numDigits, fieldWidth, f))
      // which, up to the precision of `UnsignedExact`, is the number in its field
      ensures (base == 10 || base == 16) && numDigits <= MaxPrecision(base) ==>
                PrintedAt(Val(), text, UnsignedText(v, base, numDigits, fieldWidth, f), accepts, UnsignedSpan(v, base, numDigits, fieldWidth, f))
    {
      if (base == 10 || base == 16) && numDigits <= MaxPrecision(base) {
        UnsignedRight(v, base, numDigits, fieldWidth, f);
      }
      var width := CountDigits(v, base);
      if numDigits > width {
        width := numDigits;
      }
      PrintPadded(v, base, numDigits, fieldWidth, width, f, text);
    }

    /** Leading padding, then the rest unless that has failed. */
    method PrintPadded(v: u32, base: nat, numDigits: nat, fieldWidth: nat, width: nat, f: Flags, ghost text: seq<byte>)
      requires Valid() && Clean(Val(), text, accepts)
      requires base >= 2 && Printable(v, base, numDigits) && width == Max(numDigits, NumLen(v, base))
      modifies this, buffer
      ensures Valid() && PrintedAt(Val(), text, CodeUnsigned(v, base, numDigits, fieldWidth, f), accepts, UnsignedSpan(v, base, numDigits, fieldWidth, f))
    {
      ghost var lead, body, tail := CodeLead(fieldWidth, width, numDigits, f), CodeBody(v, base, numDigits), CodeTail(fieldWidth, width, f);
      var left := PrintLead(fieldWidth, width, numDigits, f, text);
      if ret >= 0 {
        PrintBody(v, base, numDigits, left, width, f, text + lead, tail);
      } else {
        OnceBefore(Val(), text + lead, body + tail, accepts, |text + lead|, |text + lead| + if tail == [] then 0 else |body|);
      }
      PaddedIs(Val(), text, v, base, numDigits, fieldWidth, width, f, accepts);
    }

    /** Leading padding, unless the field is left-justified. */
    method PrintLead(fieldWidth: nat, width: nat, numDigits: nat, f: Flags, ghost text: seq<byte>) returns (left: nat)
      requires Valid() && Clean(Val(), text, accepts)
      modifies this, buffer
      ensures Valid() && PrintedOnce(Val(), text + CodeLead(fieldWidth, width, numDigits, f), accepts)
      ensures ret >= 0 ==> left == if f.left then fieldWidth else fieldWidth - Missing(fieldWidth, width)
    {
      left := fieldWidth;
      if !f.left {
        left := Pad(fieldWidth, width, if f.zero && numDigits == 0 then ZERO else SPACE, text, |text|, |text|);
      } else {
        assert text + CodeLead(fieldWidth, width, numDigits, f) == text;
      }
    }

    /** Digits and trailing spaces. */
    method PrintBody(v: u32, base: nat, numDigits: nat, left: nat, width: nat, f: Flags, ghost text: seq<byte>, ghost tail: seq<byte>)
      requires Valid() && Clean(Val(), text, accepts)
      requires base >= 2 && Printable(v, base, numDigits)
      requires tail == if f.left then Fill(SPACE, Missing(left, width)) else []
      modifies this, buffer
      ensures Valid()
      ensures Printed(Val(), text + (CodeBody(v, base, numDigits) + tail), accepts, |text|, |text| + if tail == [] then 0 else |CodeBody(v, base, numDigits)|)
    {
      ghost var body := CodeBody(v, base, numDigits);
      assert text + (body + tail) == text + body + tail;
      var digit := Divisor(v, base, numDigits);
      EmitDigits(v, base, digit);
      Digits(v, base, digit, text, CodeDigits(v, base, numDigits).value);
      PrintTail(left, width, f, text, body, tail);
    }

    /** Trailing spaces, for a left-justified field. */
    method PrintTail(left: nat, width: nat, f: Flags, ghost text: seq<byte>, ghost body: seq<byte>, ghost tail: seq<byte>)
      requires Valid() && PrintedOnce(Val(), text + body, accepts) && AllAccepted(accepts, |text| / SIZE)
      requires tail == if f.left then Fill(SPACE, Missing(left, width)) else []
      modifies this, buffer
      ensures Valid() && Printed(Val(), text + body + tail, accepts, |text|, |text| + if tail == [] then 0 else |body|)
    {
      if f.left {
        BreaksWithin(Val(), text, body, accepts);
        var rest := Pad(left, width, SPACE, text + body, |text|, |text| + if tail == [] then 0 else |body|);
      } else {
        assert text + body + tail == text + body;
        OnceIsPrinted(Val(), text + body, accepts, |text|);
      }
    }

    /** The loop that counts the digits of a number. */
    method CountDigits(v: nat, base: nat) returns (width: nat)
      requires base >= 2
      ensures width == NumLen(v, base)
    {
      var number: nat := v;
      width := 1;
      while number >= base
        invariant NumLen(v, base) == width - 1 + NumLen(number, base)
      {
        DivShrinks(number, base);
        number := number / base;
        width := width + 1;
      }
    }

    /** `_PrintInt`, in base 10 as it is used.  Negating the least integer is undefined in C. */
    method PrintInt(v: i32, numDigits: nat, fieldWidth: nat, f: Flags, ghost text: seq<byte>)
      requires Valid() && Clean(Val(), text, accepts)
      requires v > INT_MIN && Printable(Abs(v), 10, numDigits)
      modifies this, buffer
      ensures Valid() && PrintedAt(Val(), text, CodeInt(v, numDigits, fieldWidth, f), accepts, IntSpan(v, numDigits, fieldWidth, f))
      // which, up to the precision of `IntExact`, is the number in its field
      ensures numDigits <= MaxPrecision(10) ==>
                PrintedAt(Val(), text, IntText(v, numDigits, fieldWidth, f), accepts, IntSpan(v, numDigits, fieldWidth, f))
    {
      var width := CountDigits(if v < 0 then 0 - v else v, 10);
      if numDigits > width {
        width := numDigits;
      }
      var left := fieldWidth;
      if left > 0 && (v < 0 || f.plus) {
        left := left - 1;
      }
      left := PrintIntLead(v, numDigits, width, left, fieldWidth, f, text);
      PrintIntRest(v, numDigits, left, fieldWidth, f, text);
      if numDigits <= MaxPrecision(10) {
        IntExact(v, numDigits, fieldWidth, f);
      }
    }

    /** Hands over to `_PrintUnsigned` with what is left of the field. */
    method PrintIntRest(v: i32, numDigits: nat, left: nat, ghost fieldWidth: nat, f: Flags, ghost text: seq<byte>)
      requires Valid() && PrintedOnce(Val(), text + IntLead(v, numDigits, fieldWidth, f), accepts)
      requires Printable(Abs(v), 10, numDigits)
      requires ret >= 0 ==> left == WidthLeft(v, numDigits, fieldWidth, f)
      modifies this, buffer
      ensures Valid() && PrintedAt(Val(), text, CodeInt(v, numDigits, fieldWidth, f), accepts, IntSpan(v, numDigits, fieldWidth, f))
    {
      ghost var lead := IntLead(v, numDigits, fieldWidth, f);
      ghost var tail := CodeUnsigned(Abs(v), 10, numDigits, WidthLeft(v, numDigits, fieldWidth, f), f);
      ghost var span := UnsignedSpan(Abs(v), 10, numDigits, WidthLeft(v, numDigits, fieldWidth, f), f);
      PrintIntDigits(Abs(v), numDigits, left, f, text + lead, tail, span);
      SpanMoves(Val(), text, lead, tail, accepts, span);
    }

    /** The digits, unless the lead has already failed. */
    method PrintIntDigits(v: u32, numDigits: nat, left: nat, f: Flags, ghost text: seq<byte>, ghost tail: seq<byte>, ghost span: (nat, nat))
      requires Valid() && PrintedOnce(Val(), text, accepts)
      requires ret >= 0 ==>
                 && Printable(v, 10, numDigits) && tail == CodeUnsigned(v, 10, numDigits, left, f)
                 && span == UnsignedSpan(v, 10, numDigits, left, f)
      modifies this, buffer
      ensures Valid() && PrintedAt(Val(), text, tail, accepts, span)
    {
      if ret >= 0 {
        PrintUnsigned(v, 10, numDigits, left, f, text);
      } else {
        OnceBefore(Val(), text, tail, accepts, |text| + span.0, |text| + span.1);
      }
    }

    /** Leading spaces, sign, leading zeros. */
    method PrintIntLead(v: i32, numDigits: nat, width: nat, digitWidth: nat, ghost fieldWidth: nat, f: Flags, ghost text: seq<byte>)
      returns (left: nat)
      requires Valid() && Clean(Val(), text, accepts)
      requires width == Max(numDigits, NumLen(Abs(v), 10)) && digitWidth == DigitWidth(v, fieldWidth, f)
      modifies this, buffer
      ensures Valid() && PrintedOnce(Val(), text + IntLead(v, numDigits, fieldWidth, f), accepts)
      ensures ret >= 0 ==> left == WidthLeft(v, numDigits, fieldWidth, f)
    {
      left := digitWidth;
      ghost var lead, sign := IntLead(v, numDigits, fieldWidth, f), SignText(v, f);
      ghost var n := Missing(digitWidth, width);
      ghost var spaces := if (!f.zero || numDigits != 0) && !f.left then Fill(SPACE, n) else [];
      ghost var zeros := if f.zero && !f.left && numDigits == 0 then Fill(ZERO, n) else [];
      assert lead == spaces + sign + zeros;
      assert text + lead == text + spaces + sign + zeros == text + spaces + (sign + zeros);
      if (!f.zero || numDigits != 0) && !f.left {
        left := Pad(left, width, SPACE, text, |text|, |text|);
      } else {
        assert text + spaces == text;
      }
      if ret < 0 {
        PrintedOnceStays(Val(), text + spaces, sign + zeros, accepts);
        return;
      }
      PutSign(v, f, text + spaces);
      if ret < 0 {
        PrintedOnceStays(Val(), text + spaces + sign, zeros, accepts);
        return;
      }
      if f.zero && !f.left && numDigits == 0 {
        left := Pad(left, width, ZERO, text + spaces + sign, |text|, |text|);
      } else {
        assert text + spaces + sign + zeros == text + spaces + sign;
      }
    }

    method PutSign(v: i32, f: Flags, ghost text: seq<byte>)
      requires Valid() && Clean(Val(), text, accepts)
      modifies this, buffer
      ensures Valid() && PrintedOnce(Val(), text + SignText(v, f), accepts)
    {
      if v < 0 {
        Put(MINUS, text);
      } else if f.plus {
        Put(PLUS, text);
      } else {
        assert text + SignText(v, f) == text;
      }
    }

    /** The `%s` loop. */
    method PrintString(s: seq<byte>, precisionSet: bool, precision: u32, ghost text: seq<byte>)
      requires Valid() && Clean(Val(), text, accepts)
      modifies this, buffer
      ensures Valid()
      ensures PrintedOnce(Val(), text + (if precisionSet then s[..Min(precision, |s|)] else s), accepts)
    {
      var left, i := precision, 0;
      ghost var all := if precisionSet then s[..Min(precision, |s|)] else s;
      assert text + all[..0] == text;
      while i < |s|
        invariant Valid() && i <= |all| && Clean(Val(), text + all[..i], accepts)
        invariant precisionSet ==> left == precision - i
      {
        if precisionSet && left == 0 {
          break;
        }
        PutNext(s[i], all, i, text);
        left := Sub32(left, 1);
        i := i + 1;
        if ret < 0 {
          return;
        }
      }
      assert all[..i] == all;
    }

    /** The conversion switch of `SEGGER_RTT_vprintf`. */
    method PrintConversion(conv: byte, f: Flags, width: u32, precisionSet: bool, precision: u32, arg: Option<Arg>, ghost text: seq<byte>)
      requires Valid() && Clean(Val(), text, accepts)
      requires precisionSet || precision == 0
      requires Convert(Actual, conv, f, width, if precisionSet then precision else NO_PRECISION, arg).Some?
      modifies this, buffer
      ensures Valid()
      ensures var p := if precisionSet then precision else NO_PRECISION;
              && PrintedAt(Val(), text, Convert(Actual, conv, f, width, p, arg).value, accepts, RetrySpan(conv, f, width, p, arg))
              && (Within(conv, p) ==> Depicts(Convert(Actual, conv, f, width, p, arg).value, conv, f, width, p, arg))
    {
      ConversionDepicts(conv, f, width, if precisionSet then precision else NO_PRECISION, arg);
      if conv == PERCENT {
        Put(PERCENT, text);
        OnceIsPrinted(Val(), text + [PERCENT], accepts, |text|);
      } else if !TakesArg(conv) {
        assert text + [] == text;
      } else if conv == LOWER_S {
        if arg.value.Null? {
          PrintString(NULL_TEXT, false, precision, text);
          OnceIsPrinted(Val(), text + NULL_TEXT, accepts, |text|);
        } else {
          PrintString(arg.value.s, precisionSet, precision, text);
          OnceIsPrinted(Val(), text + if precisionSet then arg.value.s[..Min(precision, |arg.value.s|)] else arg.value.s, accepts, |text|);
        }
      } else if conv == LOWER_C {
        Put(ToUnsigned(arg.value.v) % 256, text);
        OnceIsPrinted(Val(), text + [ToUnsigned(arg.value.v) % 256], accepts, |text|);
      } else if conv == LOWER_D {
        PrintInt(arg.value.v, precision, width, f, text);
      } else if conv == LOWER_P {
        PrintUnsigned(ToUnsigned(arg.value.v), 16, 8, 8, Flags(false, false, false), text);
      } else {
        var base := if conv == LOWER_U then 10 else 16;
        PrintUnsigned(ToUnsigned(arg.value.v), base, precision, width, f, text);
      }
    }

    /** Scanner for the flag characters. */
    method ScanFlags(fmt: seq<byte>, i: nat) returns (f: Flags, e: nat)
      requires i <= |fmt|
      ensures e == SpanEnd(fmt, i, FlagChars) && f == FlagsOf(fmt[i..e])
    {
      f, e := Flags(false, false, false), i;
      while e < |fmt| && Is(fmt[e], FlagChars)
        invariant i <= e <= |fmt| && SpanEnd(fmt, i, FlagChars) == SpanEnd(fmt, e, FlagChars)
        invariant f == FlagsOf(fmt[i..e])
      {
        assert fmt[i..e + 1] == fmt[i..e] + [fmt[e]];
        if fmt[e] == MINUS {
          f := f.(left := true);
        } else if fmt[e] == ZERO {
          f := f.(zero := true);
        } else if fmt[e] == PLUS {
          f := f.(plus := true);
        }
        e := e + 1;
      }
    }

    /** Scanner for field width and precision. */
    method ScanDecimal(fmt: seq<byte>, i: nat) returns (n: u32, e: nat)
      requires i <= |fmt|
      ensures e == SpanEnd(fmt, i, DigitChars) && n == Decimal(fmt[i..e])
    {
      n, e := 0, i;
      while e < |fmt| && ZERO <= fmt[e] <= NINE
        invariant i <= e <= |fmt| && SpanEnd(fmt, i, DigitChars) == SpanEnd(fmt, e, DigitChars)
        invariant forall k :: i <= k < e ==> Is(fmt[k], DigitChars)
        invariant n == Decimal(fmt[i..e])
      {
        assert fmt[i..e + 1][..e - i] == fmt[i..e];
        n := (n * 10 + (fmt[e] - ZERO)) % TWO_32;
        e := e + 1;
      }
    }

    /** Scanner for the precision. */
    method ScanPrecision(fmt: seq<byte>, i: nat) returns (p: Precision, e: nat)
      requires i <= |fmt|
      ensures (p, e) == ParsePrecision(fmt, i)
    {
      p, e := Unset, i;
      if e < |fmt| && fmt[e] == DOT {
        e := e + 1;
        if e < |fmt| && fmt[e] == STAR {
          return FromArgument, e + 1;
        }
        var n, end := ScanDecimal(fmt, e);
        if end > e {
          p := Literal(n);
        }
        e := end;
      }
    }

    /** Scanner for the length modifiers, which are ignored. */
    method ScanLength(fmt: seq<byte>, i: nat) returns (e: nat)
      requires i <= |fmt|
      ensures e == SpanEnd(fmt, i, LengthChars)
    {
      e := i;
      while e < |fmt| && (fmt[e] == LOWER_L || fmt[e] == LOWER_H)
        invariant i <= e <= |fmt| && SpanEnd(fmt, i, LengthChars) == SpanEnd(fmt, e, LengthChars)
      {
        e := e + 1;
      }
    }

    /** Scanner for a whole conversion specification. */
    method ScanSpec(fmt: seq<byte>, i: nat) returns (sp: Spec)
      requires i <= |fmt|
      ensures sp == ParseSpec(fmt, i)
    {
      var flags, f := ScanFlags(fmt, i);
      var width, w := ScanDecimal(fmt, f);
      var precision, p := ScanPrecision(fmt, w);
      var e := ScanLength(fmt, p);
      sp := Spec(flags, width, precision, e);
    }

    /** `SEGGER_RTT_vprintf` on a fresh descriptor; what it does with the text is `PrintfDid`. */
    method VPrintf(fmt: CString, args: seq<Arg>) returns (r: int)
      requires Valid() && Clean(Val(), [], accepts)
      requires Render(Actual, fmt, 0, args).Some?
      modifies this, buffer
      ensures Valid() && PrintfDid(r, Val(), fmt, args, accepts)
      ensures var n := |Render(Actual, fmt, 0, args).value|;
              r == if forall k: nat :: k < n / 64 ==> accepts(k) == 64 then n + n % 64 else -1
      // the text is the intended one, exactly if the numeric precisions are within their limits
      ensures Render(Intended, fmt, 0, args).Some?
      ensures Render(Actual, fmt, 0, args) == Render(Intended, fmt, 0, args) <==> InLimits(fmt, 0, args)
      // and it is what the items of the format mean
      ensures forall items :: Writes(items, fmt) ==> Render(Actual, fmt, 0, args) == Meaning(Actual, items, args)
    {
      WrittenMeans(Actual, fmt, args);
      ActualIsIntended(fmt, 0, args);
      RenderExact(fmt, args);
      r := PrintFormat(fmt, args);
      r := FlushRest(r, Render(Actual, fmt, 0, args).value);
    }

    /** The last, incomplete chunk, if nothing was refused. */
    method FlushRest(printed: int, ghost text: seq<byte>) returns (r: int)
      requires Valid() && printed == ret
      requires Clean(Val(), text, accepts) || exists m, retried :: Broken(Val(), text, accepts, m, retried)
      modifies this`calls
      ensures Valid()
      ensures AllAccepted(accepts, |text| / SIZE) <==> old(Clean(Val(), text, accepts))
      ensures if AllAccepted(accepts, |text| / SIZE) then
                && r == |text| + |text| % SIZE && Concat(calls) == text
                && calls == CleanCalls(text, accepts(|text| / SIZE) == |text| % SIZE)
              else r == -1 && Val() == old(Val())
    {
      r := printed;
      if r > 0 {
        if cnt != 0 {
          var stored := accepts(|calls|);
          LastChunk(text, stored == cnt);
          calls := calls + [Call(buffer[..cnt], stored == cnt)];
        } else {
          LastChunk(text, true);
        }
        r := r + cnt;
      }
    }

    /** The scanning loop of `SEGGER_RTT_vprintf`. */
    method PrintFormat(fmt: CString, args: seq<Arg>) returns (r: int)
      requires Valid() && Clean(Val(), [], accepts)
      requires Render(Actual, fmt, 0, args).Some?
      modifies this, buffer
      ensures Valid() && r == ret && PrintedBy(Val(), fmt, args, accepts)
    {
      ghost var text, done := Render(Actual, fmt, 0, args).value, [];
      var i, left := 0, args;
      assert [] + text == text;
      while i < |fmt|
        invariant i <= |fmt| && Valid() && Clean(Val(), done, accepts)
        invariant Append(Some(done), Render(Actual, fmt, i, left)) == Some(text)
        invariant SameFrom(fmt, args, |done|, i, left)
        decreases |fmt| - i
      {
        ghost var piece, span, i0, left0 := [], (0, 0), i, left;
        i, left, piece, span := PrintDirective(fmt, i, left, done);
        AppendStep(done, piece, Render(Actual, fmt, i, left), text);
        if ret < 0 {
          DirectiveAgrees(fmt, args, |done|, |piece|, span, i0, left0, i, left);
          FailsBy(Val(), text, OfferedAgain(fmt, args), accepts, done, piece, Render(Actual, fmt, i, left).value, span);
          return ret;
        }
        SameOn(fmt, args, |done|, i0, left0, |piece|, i, left, span);
        done := done + piece;
      }
      assert done + [] == done;
      return ret;
    }

    /** One round of that loop: a plain character or a conversion. */
    method PrintDirective(fmt: CString, i: nat, args: seq<Arg>, ghost done: seq<byte>)
      returns (next: nat, left: seq<Arg>, ghost piece: seq<byte>, ghost span: (nat, nat))
      requires Valid() && Clean(Val(), done, accepts)
      requires i < |fmt| && Render(Actual, fmt, i, args).Some?
      modifies this, buffer
      ensures i < next <= |fmt| && Render(Actual, fmt, i, args) == Append(Some(piece), Render(Actual, fmt, next, left))
      ensures RetriesOn(fmt, i, args, |piece|, span, next, left)
      ensures Valid() && PrintedAt(Val(), done, piece, accepts, span)
    {
      if fmt[i] != PERCENT {
        piece, span := [fmt[i]], (0, 0);
        Put(fmt[i], done);
        OnceIsPrinted(Val(), done + piece, accepts, |done|);
        PlainRetries(fmt, i, args);
        return i + 1, args, piece, span;
      }
      next, left, piece, span := PrintSpec(fmt, i, args, done);
    }

    /** A conversion. */
    method PrintSpec(fmt: CString, i: nat, args: seq<Arg>, ghost done: seq<byte>)
      returns (next: nat, left: seq<Arg>, ghost piece: seq<byte>, ghost span: (nat, nat))
      requires Valid() && Clean(Val(), done, accepts)
      requires i < |fmt| && fmt[i] == PERCENT && Render(Actual, fmt, i, args).Some?
      modifies this, buffer
      ensures i < next <= |fmt| && Render(Actual, fmt, i, args) == Append(Some(piece), Render(Actual, fmt, next, left))
      ensures RetriesOn(fmt, i, args, |piece|, span, next, left)
      ensures Valid() && PrintedAt(Val(), done, piece, accepts, span)
    {
      ghost var d := SomeDirective(Actual, fmt, i, args);
      RenderStarts(Actual, d, fmt, i, args);
      ConversionRetries(d, fmt, i, args);
      piece, span := TextOf(Actual, d).value, SpanOf(d);
      next, left := ScanAndPrint(fmt, i, args, done, d, piece, span);
    }

    /** Scans and prints the conversion `d`. */
    method ScanAndPrint(fmt: CString, i: nat, args: seq<Arg>, ghost done: seq<byte>, ghost d: Directive, ghost piece: seq<byte>, ghost span: (nat, nat))
      returns (next: nat, left: seq<Arg>)
      requires Valid() && Clean(Val(), done, accepts) && Starts(d, fmt, i, args)
      requires TextOf(Actual, d) == Some(piece) && span == SpanOf(d)
      modifies this, buffer
      ensures next == d.sp.end + 1 && left == d.left
      ensures Valid() && PrintedAt(Val(), done, piece, accepts, span)
    {
      var sp := ScanSpec(fmt, i + 1);
      var precisionSet, precision := false, 0;
      match sp.precision {
        case Unset =>
        case Literal(n) => precisionSet, precision := true, n;
        case FromArgument => precisionSet, precision := true, ToUnsigned(args[0].v);
      }
      left := AfterStar(sp.precision, args);
      var conv := fmt[sp.end];
      var arg := ArgOf(conv, left);
      left := AfterConv(conv, left);
      next := sp.end + 1;
      assert d.precision == if precisionSet then precision else NO_PRECISION;
      PrintConversion(conv, sp.flags, sp.width, precisionSet, precision, arg, done);
    }
  }
}
