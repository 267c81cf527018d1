/**
  The byte path of a report over the radio: payloads are reversed in place by the
  sender, framed for the SPI bus, and reversed again by the receiver.
 */
module Nrf24Bytes {
  import opened Machine
  import opened Ds5Publication

  const SPI_BUFFER_SIZE := 34
  const MAX_PAYLOAD := 32

  function Reversed(s: seq<byte>): (r: seq<byte>)
    ensures |r| == |s| && forall i :: 0 <= i < |s| ==> r[|s| - 1 - i] == s[i]
  {
    seq(|s|, i requires 0 <= i < |s| => s[|s| - 1 - i])
  }

  /** Reversing is its own inverse. */
  lemma ReversedTwice(s: seq<byte>)
    ensures Reversed(Reversed(s)) == s
  {
    forall i | 0 <= i < |s|
      ensures Reversed(Reversed(s))[i] == s[i]
    {
    }
  }

  /** The swap loop on the first `len` bytes of a buffer, as sender, receiver and the address routines run it. */
  method ReverseInPlace(buffer: array<byte>, len: nat)
    requires len <= buffer.Length
    modifies buffer
    ensures forall j :: 0 <= j < len ==> buffer[j] == old(buffer[len - 1 - j])
    ensures buffer[..len] == Reversed(old(buffer[..len]))
    ensures buffer[len..] == old(buffer[len..])
  {
    var k := len / 2;
    var i := 0;
    while i < k
      invariant 0 <= i <= k
      invariant forall j :: 0 <= j < len ==>
                  buffer[j] == if j < i || j >= len - i then old(buffer[len - 1 - j]) else old(buffer[j])
      invariant forall j :: len <= j < buffer.Length ==> buffer[j] == old(buffer[j])
    {
      var tmp := buffer[i];
      buffer[i] := buffer[len - 1 - i];
      buffer[len - 1 - i] := tmp;
      i := i + 1;
    }
  }

  /** What goes over the bus for a write, unless the data is too long for the static buffer. */
  function WriteFrame(cmd: byte, data: seq<byte>): (r: Option<seq<byte>>)
    ensures r.Some? <==> |data| <= SPI_BUFFER_SIZE - 1
    ensures r.Some? ==> |r.value| == |data| + 1 && r.value[0] == cmd && r.value[1..] == data
  {
    if |data| >= SPI_BUFFER_SIZE then None else Some([cmd] + data)
  }

  /** The data part of what came over the bus for a read. */
  function ReadFrame(rx: seq<byte>, len: nat): (r: Option<seq<byte>>)
    requires |rx| >= len + 1
    ensures r.Some? <==> 1 <= len <= SPI_BUFFER_SIZE - 1
    ensures r.Some? ==> |r.value| == len && [rx[0]] + r.value <= rx
  {
    if len == 0 || len + 1 > SPI_BUFFER_SIZE then None else Some(rx[1..1 + len])
  }

  /** `nrf24l01_interface_spi_write` up to the bus: the static buffer is cleared, filled and sent in part. */
  method FillTxBuffer(spiTx: array<byte>, cmd: byte, data: seq<byte>) returns (frame: Option<seq<byte>>)
    requires spiTx.Length == SPI_BUFFER_SIZE
    modifies spiTx
    ensures frame == WriteFrame(cmd, data)
    ensures frame.Some? ==> spiTx[..] == frame.value + seq(SPI_BUFFER_SIZE - 1 - |data|, _ => 0)
    ensures frame.None? ==> spiTx[..] == old(spiTx[..])
  {
    if |data| >= SPI_BUFFER_SIZE {
      return None;
    }
    forall i | 0 <= i < spiTx.Length {
      spiTx[i] := 0;
    }
    spiTx[0] := cmd;
    forall i | 0 <= i < |data| {
      spiTx[1 + i] := data[i];
    }
    frame := Some(spiTx[..|data| + 1]);
    assert spiTx[..|data| + 1] == [cmd] + data;
    assert spiTx[..] == spiTx[..|data| + 1] + seq(SPI_BUFFER_SIZE - 1 - |data|, _ => 0);
  }

  /**
    The two length guards together: data written to the chip in one frame can be read back
    in one frame, whatever command and status bytes go with it, if and only if it has 1 to
    33 bytes.
   */
  lemma FrameRoundTrip(cmd: byte, status: byte, data: seq<byte>)
    ensures (WriteFrame(cmd, data).Some? && ReadFrame([status] + WriteFrame(cmd, data).value[1..], |data|) == Some(data))
       <==> 1 <= |data| <= 33
  {
    if 1 <= |data| <= SPI_BUFFER_SIZE - 1 {
      assert ([status] + data)[1..1 + |data|] == data;
    }
  }

  /** `nrf24l01_send` up to the bus: the frame for a payload. */
  function SendFrame(cmd: byte, payload: seq<byte>): Option<seq<byte>> {
    if |payload| > MAX_PAYLOAD then None else WriteFrame(cmd, Reversed(payload))
  }

  /** `nrf24l01_irq_handler` after the bus: the payload handed to the callback. */
  function Receive(rx: seq<byte>, width: nat): Option<seq<byte>>
    requires |rx| >= width + 1
  {
    match ReadFrame(rx, width)
    case None => None
    case Some(data) => Some(Reversed(data))
  }

  /** Every payload of 1 to 32 bytes comes out of the receiver as it went into the sender, whatever the command and status bytes. */
  lemma PayloadArrives(cmd: byte, status: byte, payload: seq<byte>)
    requires 1 <= |payload| <= MAX_PAYLOAD
    ensures SendFrame(cmd, payload).Some?
    ensures var air := SendFrame(cmd, payload).value[1..];
            Receive([status] + air, |air|) == Some(payload)
  {
    var air := SendFrame(cmd, payload).value[1..];
    assert air == Reversed(payload);
    assert ([status] + air)[1..1 + |air|] == air;
    ReversedTwice(payload);
  }

  /** From USB to the receiver: bytes 1 to 31 of every accepted report arrive unchanged. */
  lemma ReportArrives(buf: seq<byte>, len: nat, cmd: byte, status: byte)
    requires |buf| == 64 && Decode(buf, len).Some?
    ensures var trimmed := Decode(buf, len).value[..TRIMMED];
            && SendFrame(cmd, trimmed).Some?
            && var air := SendFrame(cmd, trimmed).value[1..];
               Receive([status] + air, |air|) == Some(buf[1..1 + TRIMMED])
  {
    var trimmed := Decode(buf, len).value[..TRIMMED];
    assert trimmed == buf[1..1 + TRIMMED];
    PayloadArrives(cmd, status, trimmed);
  }
}
