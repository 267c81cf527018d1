/**
  Terminal multiplexing on channel 0 (src/RTT/SEGGER_RTT.c:1915-2037): the byte
  0xFF followed by an id character switches the terminal the following text is for.
 */
module RttTerminal {
  import opened Machine
  import opened RingSpec
  import opened RttBuffer

  const ESCAPE: byte := 0xFF
  const NUM_TERMINALS := 16

  /** `_aTerminalId`: '0'..'9', 'A'..'F'. */
  function IdChar(id: nat): byte
    requires id < NUM_TERMINALS
  {
    if id < 10 then 48 + id else 55 + id
  }

  function Switch(id: nat): (s: seq<byte>)
    requires id < NUM_TERMINALS
    ensures |s| == 2 && s[0] == 0xFF && s[1] == "0123456789ABCDEF"[id] as int
  {
    [ESCAPE, IdChar(id)]
  }

  // ---- The host's side: an escape state machine ----

  datatype Decoder = Decoder(cur: nat, escaped: bool)

  function Feed(d: Decoder, b: byte): Decoder {
    if d.escaped then
      Decoder(if 48 <= b <= 57 then b - 48 else if 65 <= b <= 70 then b - 55 else d.cur, false)
    else if b == ESCAPE then d.(escaped := true)
    else d
  }

  /** The decoder after a stream. */
  function After(d: Decoder, stream: seq<byte>): Decoder
    decreases |stream|
  {
    if stream == [] then d else After(Feed(d, stream[0]), stream[1..])
  }

  /** The text a stream shows on terminal `t`. */
  function Shown(d: Decoder, stream: seq<byte>, t: nat): seq<byte>
    decreases |stream|
  {
    if stream == [] then []
    else
      (if !d.escaped && stream[0] != ESCAPE && d.cur == t then [stream[0]] else []) +
      Shown(Feed(d, stream[0]), stream[1..], t)
  }

  lemma {:induction false} DecodeConcat(d: Decoder, a: seq<byte>, b: seq<byte>, t: nat)
    ensures After(d, a + b) == After(After(d, a), b)
    ensures Shown(d, a + b, t) == Shown(d, a, t) + Shown(After(d, a), b, t)
    decreases |a|
  {
    if a == [] {
      assert a + b == b;
    } else {
      assert (a + b)[1..] == a[1..] + b;
      DecodeConcat(Feed(d, a[0]), a[1..], b, t);
    }
  }

  lemma {:induction false} DecodePlain(d: Decoder, s: seq<byte>, t: nat)
    requires !d.escaped && ESCAPE !in s
    ensures After(d, s) == d
    ensures Shown(d, s, t) == if d.cur == t then s else []
    decreases |s|
  {
    if s != [] {
      DecodePlain(d, s[1..], t);
    }
  }

  lemma DecodeSwitch(d: Decoder, id: nat, t: nat)
    requires !d.escaped && id < NUM_TERMINALS
    ensures After(d, Switch(id)) == Decoder(id, false)
    ensures Shown(d, Switch(id), t) == []
  {
    var d1 := Feed(d, ESCAPE);
    assert Switch(id)[1..] == [IdChar(id)] && Switch(id)[1..][1..] == [];
    assert After(d1, [IdChar(id)]) == Feed(d1, IdChar(id));
    assert Shown(d1, [IdChar(id)], t) == [];
  }

  /** Whatever the stream, an escape byte is never shown. */
  lemma {:induction false} EscapeNeverShown(d: Decoder, s: seq<byte>, t: nat)
    ensures ESCAPE !in Shown(d, s, t)
    decreases |s|
  {
    if s != [] {
      EscapeNeverShown(Feed(d, s[0]), s[1..], t);
    }
  }

  /** A plain write is shown as it is exactly when it holds no escape byte. */
  lemma PlainTextExact(d: Decoder, s: seq<byte>)
    requires !d.escaped
    ensures Shown(d, s, d.cur) == s <==> ESCAPE !in s
  {
    if ESCAPE !in s {
      DecodePlain(d, s, d.cur);
    } else {
      EscapeNeverShown(d, s, d.cur);
    }
  }

  // ---- The target's side: what each call stores and returns ----

  datatype Call =
    | SetTerminal(id: nat)
    | TerminalOut(id: nat, s: seq<byte>)
    | Write(s: seq<byte>)

  /** What a call puts into the ring, the active terminal it leaves and the status it returns. */
  datatype Outcome = Outcome(stored: seq<byte>, active: nat, status: int)

  /** `flags` is the buffer's mode word and `avail` the free space when the call starts. */
  function Perform(c: Call, flags: nat, avail: nat, active: nat): (o: Outcome)
    requires active < NUM_TERMINALS
    ensures o.active < NUM_TERMINALS
  {
    match c
    case SetTerminal(id) =>
      if id < NUM_TERMINALS && (flags % 4 == MODE_BLOCK_IF_FIFO_FULL || avail >= 2)
      then Outcome(Switch(id), id, 0)
      else Outcome([], active, -1)
    case TerminalOut(id, s) =>
      if id >= NUM_TERMINALS || flags % 4 == 3 then Outcome([], active, -1)
      else if flags % 4 == MODE_NO_BLOCK_SKIP && avail < |s| + 4 then Outcome([], active, 0)
      else if flags % 4 == MODE_NO_BLOCK_TRIM && avail < 4 then Outcome([], active, -1)
      else
        var n := if flags % 4 == MODE_NO_BLOCK_TRIM then Min(|s|, avail - 4) else |s|;
        Outcome(Switch(id) + s[..n] + Switch(active), active, n)
    case Write(s) =>
      var n :=
        if flags == MODE_NO_BLOCK_SKIP then (if avail < |s| then 0 else |s|)
        else if flags == MODE_NO_BLOCK_TRIM then Min(avail, |s|)
        else if flags == MODE_BLOCK_IF_FIFO_FULL then |s|
        else 0;
      Outcome(s[..n], active, n)
  }

  /** The text a caller takes to be accepted for terminal `t`, going by the status it got back. */
  function Accepted(c: Call, status: int, active: nat, t: nat): seq<byte> {
    match c
    case SetTerminal(_) => []
    case TerminalOut(id, s) => if t == id && 0 <= status <= |s| then s[..status] else []
    case Write(s) => if t == active && 0 <= status <= |s| then s[..status] else []
  }

  predicate EscapeFree(c: Call) {
    c.SetTerminal? || ESCAPE !in c.s
  }

  /** One call: the decoder follows the active terminal, and shows what was accepted, where it was meant to go. */
  lemma CallDecodes(c: Call, flags: nat, avail: nat, active: nat, t: nat)
    requires active < NUM_TERMINALS && EscapeFree(c)
    ensures var o := Perform(c, flags, avail, active);
            && After(Decoder(active, false), o.stored) == Decoder(o.active, false)
            && Shown(Decoder(active, false), o.stored, t) == Accepted(c, o.status, active, t)
  {
    var o := Perform(c, flags, avail, active);
    var d := Decoder(active, false);
    if o.stored != [] {
      match c
      case SetTerminal(id) =>
        DecodeSwitch(d, id, t);
      case Write(s) =>
        DecodePlain(d, o.stored, t);
      case TerminalOut(id, s) =>
        var text := s[..o.status];
        DecodeSwitch(d, id, t);
        DecodePlain(Decoder(id, false), text, t);
        DecodeSwitch(Decoder(id, false), active, t);
        DecodeConcat(d, Switch(id), text, t);
        DecodeConcat(d, Switch(id) + text, Switch(active), t);
    }
  }

  /** A call together with the circumstances it met. */
  datatype Event = Event(call: Call, flags: nat, avail: nat)

  function Stream(events: seq<Event>, active: nat): seq<byte>
    requires active < NUM_TERMINALS
  {
    if events == [] then []
    else
      var o := Perform(events[0].call, events[0].flags, events[0].avail, active);
      o.stored + Stream(events[1..], o.active)
  }

  function ActiveAfter(events: seq<Event>, active: nat): nat
    requires active < NUM_TERMINALS
  {
    if events == [] then active
    else
      var o := Perform(events[0].call, events[0].flags, events[0].avail, active);
      ActiveAfter(events[1..], o.active)
  }

  /** All text accepted for terminal `t` in a run, going by the statuses returned. */
  function AcceptedText(events: seq<Event>, active: nat, t: nat): seq<byte>
    requires active < NUM_TERMINALS
  {
    if events == [] then []
    else
      var o := Perform(events[0].call, events[0].flags, events[0].avail, active);
      Accepted(events[0].call, o.status, active, t) + AcceptedText(events[1..], o.active, t)
  }

  /**
    Every run of calls, in any modes and whatever space each call met: the host shows
    on every terminal exactly the text accepted for it, and ends on the active terminal.
   */
  lemma {:induction false} RunDecodes(events: seq<Event>, active: nat, t: nat)
    requires active < NUM_TERMINALS
    requires forall e :: e in events ==> EscapeFree(e.call)
    ensures After(Decoder(active, false), Stream(events, active)) == Decoder(ActiveAfter(events, active), false)
    ensures Shown(Decoder(active, false), Stream(events, active), t) == AcceptedText(events, active, t)
    decreases |events|
  {
    if events != [] {
      var e := events[0];
      var o := Perform(e.call, e.flags, e.avail, active);
      CallDecodes(e.call, e.flags, e.avail, active, t);
      RunDecodes(events[1..], o.active, t);
      DecodeConcat(Decoder(active, false), o.stored, Stream(events[1..], o.active), t);
    }
  }

  /** The host reads late: whatever part of the stream it has, it shows a prefix of the accepted text. */
  lemma HostSeesPrefix(events: seq<Event>, active: nat, t: nat, delivered: seq<byte>)
    requires active < NUM_TERMINALS
    requires forall e :: e in events ==> EscapeFree(e.call)
    requires delivered <= Stream(events, active)
    ensures Shown(Decoder(active, false), delivered, t) <= AcceptedText(events, active, t)
  {
    var all := Stream(events, active);
    assert all == delivered + all[|delivered|..];
    DecodeConcat(Decoder(active, false), delivered, all[|delivered|..], t);
    RunDecodes(events, active, t);
  }

  /** In the non-blocking modes a call stores no more than the space it measured, and never a half switch. */
  lemma NonBlockingFits(c: Call, flags: nat, avail: nat, active: nat)
    requires active < NUM_TERMINALS
    requires flags == MODE_NO_BLOCK_SKIP || flags == MODE_NO_BLOCK_TRIM
    ensures var o := Perform(c, flags, avail, active);
            && |o.stored| <= avail
            && (c.TerminalOut? ==> |o.stored| == 0 || |o.stored| == 4 + o.status)
  {
  }

  /** The decoder of a host that has read `stream` from the start is on terminal `active`. */
  ghost predicate InSync(stream: seq<byte>, active: nat) {
    After(Decoder(0, false), stream) == Decoder(active, false)
  }

  /** A call on a synchronised stream keeps it so, and each terminal gets exactly what was accepted for it. */
  lemma CallKeepsSync(stream: seq<byte>, c: Call, flags: nat, avail: nat, active: nat, t: nat)
    requires active < NUM_TERMINALS && InSync(stream, active) && EscapeFree(c)
    ensures var o := Perform(c, flags, avail, active);
            && InSync(stream + o.stored, o.active)
            && Shown(Decoder(0, false), stream + o.stored, t) ==
                 Shown(Decoder(0, false), stream, t) + Accepted(c, o.status, active, t)
  {
    CallDecodes(c, flags, avail, active, t);
    DecodeConcat(Decoder(0, false), stream, Perform(c, flags, avail, active).stored, t);
  }

  lemma Chain(c0: seq<byte>, g1: seq<byte>, c1: seq<byte>, g2: seq<byte>, c2: seq<byte>, a: seq<byte>, b: seq<byte>)
    requires g1 + c1 == c0 + a
    requires g2 + c2 == c1 + b
    ensures (g1 + g2) + c2 == c0 + (a + b)
  {
    calc {
      (g1 + g2) + c2;
      g1 + (g2 + c2);
      (g1 + c1) + b;
      c0 + a + b;
      c0 + (a + b);
    }
  }

  /**
    Channel 0 together with its history: `stream` is all that was ever stored in the
    ring, `delivered` what the host has taken.
   */
  class Channel0 {
    const up: UpBuffer
    var active: nat
    ghost var stream: seq<byte>
    ghost var delivered: seq<byte>

    ghost predicate Valid()
      reads this, up, up.buffer
    {
      up.Valid() && active < NUM_TERMINALS && delivered + up.Val().Contents() == stream
    }

    /** The effect of a completed call on the stream, the active terminal and what the host will show. */
    twostate predicate Completed(c: Call, status: int)
      requires old(Valid())
      reads this, up, up.buffer
    {
      var o := old(Perform(c, up.flags, up.Val().Free(), active));
      && stream == old(stream) + o.stored && active == o.active && status == o.status
      && (old(InSync(stream, active)) && EscapeFree(c) ==>
            && InSync(stream, active)
            && forall t: nat :: Shown(Decoder(0, false), stream, t) ==
                 Shown(Decoder(0, false), old(stream), t) + Accepted(c, status, old(active), t))
    }

    constructor (up: UpBuffer)
      requires up.Valid() && up.Val().Contents() == []
      ensures Valid() && this.up == up && active == 0 && stream == [] && InSync(stream, active)
    {
      this.up := up;
      active, stream, delivered := 0, [], [];
    }

    /** Books what a call has stored and what the host has taken meanwhile. */
    ghost method Record(queued: seq<byte>, got: seq<byte>, stored: seq<byte>)
      requires up.Valid() && active < NUM_TERMINALS && delivered + queued == stream
      requires got + up.Val().Contents() == queued + stored
      modifies this`stream, this`delivered
      ensures Valid() && stream == old(stream) + stored && delivered == old(delivered) + got
    {
      assert (delivered + got) + up.Val().Contents() == delivered + (got + up.Val().Contents());
      assert delivered + (queued + stored) == (delivered + queued) + stored;
      stream, delivered := stream + stored, delivered + got;
    }

    /** `CallKeepsSync` for every terminal. */
    lemma SyncAll(before: seq<byte>, c: Call, flags: nat, avail: nat, active: nat)
      requires active < NUM_TERMINALS && InSync(before, active) && EscapeFree(c)
      ensures var o := Perform(c, flags, avail, active);
              && InSync(before + o.stored, o.active)
              && forall t: nat :: Shown(Decoder(0, false), before + o.stored, t) ==
                   Shown(Decoder(0, false), before, t) + Accepted(c, o.status, active, t)
    {
      var o := Perform(c, flags, avail, active);
      CallKeepsSync(before, c, flags, avail, active, 0);
      forall t: nat
        ensures Shown(Decoder(0, false), before + o.stored, t) ==
                  Shown(Decoder(0, false), before, t) + Accepted(c, o.status, active, t)
      {
        CallKeepsSync(before, c, flags, avail, active, t);
      }
    }

    /** `SEGGER_RTT_SetTerminal`; `done` is false while the blocking write still waits for the host. */
    method SetTerminal(id: byte, host: seq<u32>) returns (r: int, got: seq<byte>, done: bool)
      requires Valid()
      modifies this, up`wrOff, up`rdOff, up.buffer
      ensures Valid() && delivered == old(delivered) + got
      ensures done ==> Completed(Call.SetTerminal(id), r)
      // accepted exactly for a terminal that exists, if the mode waits or the switch fits
      ensures done ==>
                && r == (if id < 16 && (up.flags % 4 == 2 || old(up.Val().Free()) >= 2) then 0 else -1)
                && active == (if r == 0 then id else old(active))
                && stream == old(stream) + (if r == 0 then Switch(id) else [])
      ensures id < NUM_TERMINALS ==> old(stream) <= stream <= old(stream) + Switch(id)
      ensures up.flags % 4 != MODE_BLOCK_IF_FIFO_FULL ==> done && got == []
      ensures old(up.Val().Free()) >= 2 && |host| >= 2 ==> done
      ensures id >= NUM_TERMINALS ==> done
    {
      ghost var queued, stored := up.Val().Contents(), [];
      ghost var c, avail, was := Call.SetTerminal(id), up.Val().Free(), active;
      r, got, done, stored := PostSwitch(id, host);
      Record(queued, got, stored);
      if old(InSync(stream, active)) {
        SyncAll(old(stream), c, up.flags, avail, was);
      }
    }

    /** The part of `SEGGER_RTT_SetTerminal` that works on the ring. */
    method PostSwitch(id: byte, host: seq<u32>) returns (r: int, got: seq<byte>, done: bool, ghost stored: seq<byte>)
      requires up.Valid() && active < NUM_TERMINALS
      modifies this`active, up`wrOff, up`rdOff, up.buffer
      ensures up.Valid() && active < NUM_TERMINALS
      ensures got + up.Val().Contents() == old(up.Val().Contents()) + stored
      ensures var o := old(Perform(Call.SetTerminal(id), up.flags, up.Val().Free(), active));
              && (done ==> stored == o.stored && active == o.active && r == o.status)
      ensures id < NUM_TERMINALS ==> stored <= Switch(id)
      ensures up.flags % 4 != MODE_BLOCK_IF_FIFO_FULL ==> done && got == []
      ensures old(up.Val().Free()) >= 2 && |host| >= 2 ==> done
      ensures id >= NUM_TERMINALS ==> done
    {
      r, got, done, stored := 0, [], true, [];
      if id < NUM_TERMINALS {
        var ac := Switch(id);
        if up.flags % 4 == MODE_BLOCK_IF_FIFO_FULL {
          active := id;
          var n, rounds;
          n, rounds, got := up.WriteBlocking(ac, host);
          done := n == 2;
          stored := ac[..n];
        } else {
          var free := up.GetAvailWriteSpace();
          if free >= 2 {
            active := id;
            EnqueueAppends(up.Val(), ac);
            up.WriteNoCheck(ac);
            stored := ac;
          } else {
            r := -1;
          }
        }
      } else {
        r := -1;
      }
    }

    /** `SEGGER_RTT_WriteNoLock` on channel 0. */
    method Write(s: seq<byte>, host: seq<u32>) returns (status: nat, got: seq<byte>, done: bool)
      requires Valid()
      modifies this`stream, this`delivered, up`wrOff, up`rdOff, up.buffer
      ensures Valid() && delivered == old(delivered) + got
      ensures done ==> Completed(Call.Write(s), status)
      // all or nothing, what fits, everything, or nothing, by the mode word
      ensures done ==>
                status == (if up.flags == 0 then (if |s| <= old(up.Val().Free()) then |s| else 0)
                           else if up.flags == 1 then Min(old(up.Val().Free()), |s|)
                           else if up.flags == 2 then |s|
                           else 0)
      ensures status <= |s| && stream == old(stream) + s[..status]
      ensures up.flags != MODE_BLOCK_IF_FIFO_FULL ==> done && got == []
    {
      ghost var queued, c, avail := up.Val().Contents(), Call.Write(s), up.Val().Free();
      status, got := up.WriteNoLock(s, host);
      done := up.flags != MODE_BLOCK_IF_FIFO_FULL || status == |s|;
      Record(queued, got, s[..status]);
      if old(InSync(stream, active)) && EscapeFree(c) {
        SyncAll(old(stream), c, up.flags, avail, active);
      }
    }

    /** Switch, text, switch back: the three blocking writes that `SEGGER_RTT_TerminalOut` makes. */
    method Framed(id: nat, s: seq<byte>, h1: seq<u32>, h2: seq<u32>, h3: seq<u32>)
      returns (status: nat, got: seq<byte>, done: bool, ghost stored: seq<byte>)
      requires up.Valid() && active < NUM_TERMINALS && id < NUM_TERMINALS
      modifies up`wrOff, up`rdOff, up.buffer
      ensures up.Valid() && got + up.Val().Contents() == old(up.Val().Contents()) + stored
      ensures stored <= Switch(id) + s + Switch(active)
      ensures done ==> status == |s| && stored == Switch(id) + s + Switch(active)
      ensures |s| + 4 <= old(up.Val().Free()) && |h1| >= 2 && |h2| >= 2 && |h3| >= 2 ==> done
    {
      ghost var c0 := up.Val().Contents();
      var n, rounds, g;
      status, done := 0, false;
      n, rounds, got := up.WriteBlocking(Switch(id), h1);
      stored := Switch(id)[..n];
      if n < 2 {
        return;
      }
      ghost var c1, g1 := up.Val().Contents(), got;
      assert |g1 + c1| == |c0| + 2;
      status, rounds, g := up.WriteBlocking(s, h2);
      got := got + g;
      ghost var c2, g2 := up.Val().Contents(), got;
      Chain(c0, g1, c1, g, c2, Switch(id), s[..status]);
      stored := Switch(id) + s[..status];
      if status < |s| {
        return;
      }
      assert |g2 + c2| == |c0| + 2 + |s|;
      n, rounds, g := up.WriteBlocking(Switch(active), h3);
      got := got + g;
      Chain(c0, g2, c2, g, up.Val().Contents(), stored, Switch(active)[..n]);
      stored := stored + Switch(active)[..n];
      done := n == 2;
    }

    /**
      `SEGGER_RTT_TerminalOut`.  In the non-blocking modes it never waits: two looks at
      `RdOff` in each of its three writes are enough, however the host moves.
     */
    method TerminalOut(id: byte, s: seq<byte>, h1: seq<u32>, h2: seq<u32>, h3: seq<u32>)
      returns (status: int, got: seq<byte>, done: bool)
      requires Valid() && |s| < TWO_31
      modifies this`stream, this`delivered, up`wrOff, up`rdOff, up.buffer
      ensures Valid() && delivered == old(delivered) + got
      ensures done ==> Completed(Call.TerminalOut(id, s), status)
      // all or nothing, what fits beside the switches, or everything, by the mode
      ensures id >= 16 ==> done && status == -1 && stream == old(stream)
      ensures done && id < 16 ==>
                var free, mode := old(up.Val().Free()), up.flags % 4;
                && status == (if mode == 0 then (if |s| + 4 <= free then |s| else 0)
                              else if mode == 1 then (if free >= 4 then Min(|s|, free - 4) else -1)
                              else if mode == 2 then |s|
                              else -1)
                && stream == old(stream) + (if status < 0 || (mode == 0 && |s| + 4 > free) then [] else Switch(id) + s[..status] + Switch(active))
      // and the host shows what was accepted, on that terminal and on no other
      ensures done && id < 16 && ESCAPE !in s && old(InSync(stream, active)) ==>
                && InSync(stream, active)
                && forall t: nat :: Shown(Decoder(0, false), stream, t) ==
                     Shown(Decoder(0, false), old(stream), t) + if t == id && status > 0 then s[..status] else []
      // a call that still waits has stored a part of what it is to store
      ensures id < NUM_TERMINALS && up.flags % 4 == MODE_BLOCK_IF_FIFO_FULL ==>
                old(stream) <= stream <= old(stream) + (Switch(id) + s + Switch(active))
      ensures up.flags % 4 != MODE_BLOCK_IF_FIFO_FULL && |h1| >= 2 && |h2| >= 2 && |h3| >= 2 ==> done
      ensures |s| + 4 <= old(up.Val().Free()) && |h1| >= 2 && |h2| >= 2 && |h3| >= 2 ==> done
      ensures id >= NUM_TERMINALS ==> done
    {
      ghost var queued, stored := up.Val().Contents(), [];
      ghost var c, avail := Call.TerminalOut(id, s), up.Val().Free();
      status, got, done, stored := PostText(id, s, h1, h2, h3);
      Record(queued, got, stored);
      if old(InSync(stream, active)) && EscapeFree(c) {
        SyncAll(old(stream), c, up.flags, avail, active);
      }
    }

    /** The part of `SEGGER_RTT_TerminalOut` that works on the ring. */
    method PostText(id: byte, s: seq<byte>, h1: seq<u32>, h2: seq<u32>, h3: seq<u32>)
      returns (status: int, got: seq<byte>, done: bool, ghost stored: seq<byte>)
      requires up.Valid() && active < NUM_TERMINALS && |s| < TWO_31
      modifies up`wrOff, up`rdOff, up.buffer
      ensures up.Valid() && got + up.Val().Contents() == old(up.Val().Contents()) + stored
      ensures var o := old(Perform(Call.TerminalOut(id, s), up.flags, up.Val().Free(), active));
              done ==> stored == o.stored && status == o.status
      ensures id < NUM_TERMINALS && up.flags % 4 == MODE_BLOCK_IF_FIFO_FULL ==> stored <= Switch(id) + s + Switch(active)
      ensures up.flags % 4 != MODE_BLOCK_IF_FIFO_FULL && |h1| >= 2 && |h2| >= 2 && |h3| >= 2 ==> done
      ensures |s| + 4 <= old(up.Val().Free()) && |h1| >= 2 && |h2| >= 2 && |h3| >= 2 ==> done
      ensures id >= NUM_TERMINALS ==> done
    {
      status, got, done, stored := -1, [], true, [];
      assert s[..|s|] == s;
      if id < NUM_TERMINALS {
        var free := up.GetAvailWriteSpace();
        var mode := up.flags % 4;
        if mode == MODE_NO_BLOCK_SKIP {
          if free < |s| + 4 {
            status := 0;
          } else {
            status, got, done, stored := Framed(id, s, h1, h2, h3);
          }
        } else if mode == MODE_NO_BLOCK_TRIM {
          if free >= 4 {
            status, got, done, stored := Framed(id, s[..if |s| < free - 4 then |s| else free - 4], h1, h2, h3);
          }
        } else if mode == MODE_BLOCK_IF_FIFO_FULL {
          status, got, done, stored := Framed(id, s, h1, h2, h3);
        }
      }
    }
  }
}
