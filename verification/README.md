# ds-eth-comm: verified models

Dafny 4.11 models of the parts of the DualSense-to-Ethernet/radio bridge where
something runs concurrently or where bytes are repacked, with proofs about every
input, every run or every reachable state of those models.
`dafny verify dfyconfig.toml` checks the whole project.

| file | models |
|---|---|
| `Machine.dfy` | bytes, 32-bit unsigned arithmetic, memcpy on sequences |
| `RingSpec.dfy` | the byte queue an RTT ring buffer stands for |
| `RttBuffer.dfy` | the in-place ring readers and writers of `SEGGER_RTT.c` |
| `RttProtocol.dfy`, `RttProgress.dfy` | target and host working on one ring without a lock, step by step |
| `RttTerminal.dfy` | terminal multiplexing on channel 0, and the host's decoder |
| `RttChannel.dfy` | the stream reads of `SEGGER_RTT_Channel.c` |
| `NumberFormat.dfy`, `PrintfSpec.dfy`, `PrintfCode.dfy` | RTT printf: digits, numbers as intended and as printed |
| `PrintfFormat.dfy`, `RttPrintf.dfy` | RTT printf: formats, staging buffer and error handling |
| `PrintfMeaning.dfy` | RTT printf: what conversions and formats mean, said without the printing code |
| `PrintfRing.dfy` | RTT printf on a ring with a reading host |
| `Ds5Publication.dfy` | double-buffered publication of DualSense reports from the HID interrupt |
| `Nrf24Bytes.dfy` | byte path over the radio |
| `Nrf24Handler.dfy` | the radio's interrupt handler and an acknowledged send, interleaved |
| `Nrf24Driver.dfy` | the driver calls, and the cached address |

## Main results

- In every interleaving of a writer and a reader of one ring, byte copies in any order,
  the bytes delivered, in the ring and still to be published are the bytes the calls were
  given by their modes and the space they met, in order; from every such point all of them
  can still be delivered, and any further call can be made and get through
  (`RttProtocol.EveryRunIsSafe`, `RttProgress.EverythingCanArrive`,
  `RttProgress.AnyCallGetsThrough`).
- Whatever the modes and the space met, every terminal is shown exactly the text that the
  returned statuses call accepted, and the decoder ends on the active terminal
  (`RttTerminal.RunDecodes`); what `TerminalOut` accepts is fixed by mode and space, and it
  never waits in the non-blocking modes (`RttTerminal.Channel0.TerminalOut`).
- For every format and argument list whose C behaviour is defined and every pattern of
  accepted and refused writes, the outcome of printf is fixed exactly
  (`RttPrintf.Printer.VPrintf`).  The text is the intended one if and only if all numeric
  precisions are within the limits of the digit loop (`PrintfFormat.RenderExact`), and
  intended numbers read back (`PrintfSpec.IntRoundTrip`).  Every format written out from its
  items means what they say (`PrintfMeaning.FormatMeans`).  On a ring that does not wait,
  with a host that reads meanwhile, it is fixed exactly which bytes arrive
  (`PrintfRing.PrintfToRing`).
- A stream read returns at exactly the look that completes it, with exactly what was queued
  and what the host stored since, in order (`RttChannel.Channel.Reads`).
- In every interleaving of the HID interrupt with any number of consumers, each snapshot byte
  comes from a known report; every timing of a copy occurs in a run
  (`Ds5Publication.EveryRecordHappens`), all runs with a given timing give whole snapshots if
  and only if the slot was not reused (`Ds5Publication.TornExactly`).  The published report is
  the last valid one that arrived (`Ds5Publication.PublishedIsLatest`), it is not lost to
  event coalescing (`Ds5Publication.LatestIsNotLost`), and every consumer can get to hold it
  (`Ds5Publication.EveryConsumerCatchesUp`).
- For every interleaving of the radio's interrupt handler with a send and every pattern of
  failing accesses, result and chip are fixed exactly (`Nrf24Driver.Driver.Send`), it is proved
  exactly when a reported success or failure is about the send's own payload
  (`Nrf24Handler.SuccessExact`, `Nrf24Handler.FailureExact`), and exactly when a report
  gets through both drivers (`Nrf24Driver.ReportOverRadio`).

## Where the code differs from its stated intent

The model follows the code; the exact condition is proved in each case.

- Overwrite mode is a bounded queue exactly for lengths below 2 * size - 1 - WrOff
  (`RttBuffer.OverwriteExact`); at that length it leaves the ring empty.  What it leaves for
  data of any length is `RttBuffer.OverwriteAnyLength`.
- `SEGGER_RTT_GetBytesInBuffer` is right exactly when the used region does not wrap.
- `SEGGER_RTT_vprintf` promises the number of bytes stored; for a text of length n it
  returns n + n mod 64, so it keeps the promise exactly when 64 divides n.  What becomes of
  the last, incomplete chunk it does not report at all (`PrintfRing.ResultExact`).
- A refused chunk is offered again exactly if it was completed by a digit of a left-justified
  number with blanks behind it (`RttPrintf.Printer.VPrintf`, `PrintfMeaning.RetryMeans`); in
  trim mode it then arrives with bytes repeated, unless one of the two offers stored nothing
  (`PrintfRing.RepeatsExact`).
- Precisions beyond 10 (decimal) or 8 (hexadecimal) overflow the digit divisor, and too few
  digits are printed (`NumberFormat.DigitsExact`, `PrintfFormat.RenderExact`); beyond 8
  hexadecimal digits the code divides by zero.
- A snapshot is meant to avoid partial reads (main.c:908); two publications during one copy
  can tear it (`Ds5Publication.TearingHappens`).  Copies that cannot be torn are exactly
  those without a slot reuse between two of their bytes (`Ds5Publication.TornExactly`).
- `__reads` counts in 16 bits and never returns for requests of 65536 bytes or more.
- `nrf24l01_basic_get_tx_address` is described as returning the configured address.  After
  any run of calls that remembered one, whichever accesses fail, it does so if and only if the
  last address that reached the TX_ADDR register is the last one remembered
  (`Nrf24Driver.ReportedAfter`).  A send to another address breaks this
  (`Nrf24Driver.ReportedAddressGoesStale`), and so does a set that fails at its last access
  (`Nrf24Driver.FailedSetGoesStale`).
- The fast path is meant to be `nrf24l01_basic_send` without the address writes.  When those
  writes succeed and the shared accesses have the same outcomes, the results agree; the chip
  does if and only if it was disabled before or the send got as far as disabling it, or the
  handler moved the line first (`Nrf24Driver.FastPathAgrees`): the slow path disables it first.
- The result of an acknowledged send is meant to be about its own payload.  A handler run for
  the transmission before, after `finished` was cleared, makes the send fail or succeed at
  once, with its payload still in the FIFO (`Nrf24Handler.StaleRunDecides`).  Success is
  backed by an acknowledgement read after the loading, in all continuations, if and only if at
  the loading the flag is not 1 and the handler has no acknowledgement left to report
  (`Nrf24Handler.SuccessExact`).  Failure means that the payload was flushed, in all
  continuations, if and only if at the loading the flag is not 2 and the handler has no flush
  left to report (`Nrf24Handler.FailureExact`).
- The comment on `ds5_from_hid_report` mentions Bluetooth reports; only USB reports are taken.

## Modelling decisions

- Ring sizes are symbolic, at least 2 and below 2^31; offsets and lengths are naturals, and
  unsigned wrap-around is written out where the code meets it (`Sub32`, `Times`).
- A loop that waits for the host takes a finite list of host moves.  Every finite run of the
  loop is one such list; a call that has used up the list with work left is still waiting.
- The lock around the RTT calls makes target-side calls atomic among themselves; the host is
  never excluded.  The HID interrupt runs to completion.
- The radio's interrupt handler runs in a thread (main.c:943-966): its acts, not its runs, are
  interleaved with a send.  A single bus or GPIO access is atomic, and one that fails has no
  effect.
- Bus and GPIO results are arbitrary functions of the access number; so are the answers to
  printf's writes, except in `PrintfRing.dfy`, where a ring gives them.

## Model

| member | source | states |
|---|---|---|
| `RingSpec.EnqueueAppends` | src/RTT/SEGGER_RTT.c:64-71 | writing bytes that fit appends them to the queue and takes exactly that much free space, for every offset pair |
| `RingSpec.DequeueRemoves` | src/RTT/SEGGER_RTT.c:567-640 | reading removes exactly the oldest bytes and frees exactly that much space |
| `RingSpec.EnqueueTwice` | src/RTT/SEGGER_RTT.c:430-483 | two writes in a row are one write of the concatenation, cell for cell |
| `RingSpec.NonEmptyWriteIsVisible` | src/RTT/SEGGER_RTT.c:66-67 | a non-empty write that fits never makes the offsets equal |
| `RttBuffer.UpBuffer.constructor` | src/RTT/SEGGER_RTT.c:322-327 | a fresh up-buffer is an empty ring of the given size and mode |
| `RttBuffer.UpBuffer.GetAvailWriteSpace` | src/RTT/SEGGER_RTT.c:520-536 | free space and queued bytes always add up to size - 1 |
| `RttBuffer.UpBuffer.GetBytesInBuffer` | src/RTT/SEGGER_RTT.c:2073-2091 | right if and only if RdOff <= WrOff; otherwise too large by exactly 2 * (RdOff - WrOff) |
| `RttBuffer.UpBuffer.WriteNoCheck` | src/RTT/SEGGER_RTT.c:430-483 | with or without wrap, the new ring is the old one with the data enqueued |
| `RttBuffer.UpBuffer.Read` | src/RTT/SEGGER_RTT.c:567-640 | returns exactly the first min(used, room) queued bytes and removes exactly those, also where the unsigned difference wraps (the down-buffer read at 659-729 is the same code) |
| `RttBuffer.UpBuffer.WriteBlocking` | src/RTT/SEGGER_RTT.c:368-410 | whatever the host takes meanwhile: nothing lost, reordered or invented; data that fits needs at most two rounds; a host that keeps reading lets every round progress |
| `RttBuffer.UpBuffer.WriteRound` | src/RTT/SEGGER_RTT.c:379-408 | one round keeps the account of host and target and stops short only at the buffer end or a full ring |
| `RttBuffer.UpBuffer.WriteChunk` | src/RTT/SEGGER_RTT.c:381-407 | one memcpy of the largest chunk below free space, buffer end and data, as an enqueue |
| `RttBuffer.UpBuffer.WriteNoLock` | src/RTT/SEGGER_RTT.c:1094-1143 | skip stores all or nothing, trim the prefix that fits, block loses nothing, other mode words store nothing; the status is the number of bytes stored |
| `RttBuffer.UpBuffer.WriteSkipNoLock` | src/RTT/SEGGER_RTT.c:928-988 | same ring as the simple skip write for every state and data, and success exactly when that stores |
| `RttBuffer.UpBuffer.PutCharSkipNoLock` | src/RTT/SEGGER_RTT.c:1259-1289 | same ring and status as a one-byte skip write |
| `RttBuffer.UpBuffer.WriteWithOverwriteNoLock` | src/RTT/SEGGER_RTT.c:827-898 | for data of every 32-bit length: offsets and every cell, including the wrap of the offset sum at 2^32; below that length limit the queue is the last size - 1 bytes of old queue and data |
| `RttBuffer.OverwriteKeepsNewest` | src/RTT/SEGGER_RTT.c:827-898 | for shorter data the queue is the last size - 1 bytes of old queue and data, or all when they fit |
| `RttBuffer.OverwriteLongFails` | src/RTT/SEGGER_RTT.c:895 | for every longer length there is data whose overwrite is not that queue |
| `RttBuffer.OverwriteExact` | src/RTT/SEGGER_RTT.c:827-898 | overwrite is a bounded queue for all data of a length if and only if the length is below 2 * size - 1 - WrOff |
| `RttBuffer.OverwriteAnyLength` | src/RTT/SEGGER_RTT.c:827-898 | for data of any length: after the first round byte p of the rest goes to cell p mod (size - 1) and the last one for a cell stays; the offsets in closed form |
| `RttBuffer.LastForIs` | src/RTT/SEGGER_RTT.c:872-895 | that last byte is the one at the greatest position congruent to the cell |
| `RttBuffer.OverwriteFirstFailureEmpties` | src/RTT/SEGGER_RTT.c:895 | at that length both offsets become 0 and the ring is empty |
| `RttProtocol.StoreMissesUnread` | src/RTT/SEGGER_RTT.c:381-398 | no store of the writer hits a cell the host has still to read, however old its RdOff is |
| `RttProtocol.PublishIsEnqueue` | src/RTT/SEGGER_RTT.c:407 | once the bytes are in place, moving WrOff enqueues exactly them |
| `RttProtocol.StepKeepsInv` | src/RTT/SEGGER_RTT.c:368-483 | every step of writer and reader keeps the protocol invariant |
| `RttProtocol.RunKeepsInv` | src/RTT/SEGGER_RTT.h:324-331 | so does every finite interleaving |
| `RttProtocol.CallCommits` | src/RTT/SEGGER_RTT.c:1094-1143 | a blocking call takes on all of its data, a skip call all or nothing by the free space, a trim call what fits |
| `RttProtocol.StepsAskForAll` | src/RTT/SEGGER_RTT.c:379-398 | a blocking round takes the largest chunk below free space, buffer end and data; a read all that is queued up to its buffer size |
| `RttProtocol.AnyOrder` | src/RTT/SEGGER_RTT.h:324-331 | the interleavings are all of them: neither side waits for the other, any call or read can start when its side is idle, and bytes are copied in any order |
| `RttProtocol.LedgerIsGiven` | src/RTT/SEGGER_RTT.c:1094-1143 | over every run, what the writer has taken on is what its calls were given, in order |
| `RttProtocol.EveryRunIsSafe` | src/RTT/SEGGER_RTT.c:368-640 | in every interleaving: delivered + ring + rest of the call = what the calls were given, a stale RdOff only under-estimates free space, the reader stays within the queue, no unread byte is overwritten |
| `RttProgress.Drain` | src/RTT/SEGGER_RTT.c:567-640 | from any reachable point the reader can deliver all that is published without touching the writer |
| `RttProgress.NextChunk` | src/RTT/SEGGER_RTT.c:379-408 | a blocked writer whose ring is drained publishes at least one more byte |
| `RttProgress.EverythingCanArrive` | src/RTT/SEGGER_RTT.c:368-640 | from every point of every interleaving both sides can finish with all bytes the calls were given delivered |
| `RttProgress.AnyCallGetsThrough` | src/RTT/SEGGER_RTT.c:368-640 | from every point of every interleaving any further call can be made and what it has to get across delivered behind all before |
| `RttTerminal.DecodeConcat` | src/RTT/SEGGER_RTT.c:498-504 | decoding a stream in two parts is decoding it at once |
| `RttTerminal.PlainTextExact` | src/RTT/SEGGER_RTT.c:1094-1143 | plain text is shown as written if and only if it has no escape byte |
| `RttTerminal.CallDecodes` | src/RTT/SEGGER_RTT.c:1915-2037 | after each call the decoder is on the active terminal and has shown what was accepted, where it was addressed |
| `RttTerminal.RunDecodes` | src/RTT/SEGGER_RTT.c:1915-2037 | the same for every run of calls, in all modes and whatever space each call met |
| `RttTerminal.HostSeesPrefix` | src/RTT/SEGGER_RTT.c:498-504 | a host that has read only part of the stream shows a prefix of the accepted text |
| `RttTerminal.NonBlockingFits` | src/RTT/SEGGER_RTT.c:1993-2016 | in skip and trim mode a call stores 0 or 4 + status bytes, never more than the space first measured |
| `RttTerminal.CallKeepsSync` | src/RTT/SEGGER_RTT.c:1964-2037 | on a synchronised stream a call appends exactly the accepted text to its terminal and stays synchronised |
| `RttTerminal.Channel0.SetTerminal` | src/RTT/SEGGER_RTT.c:1915-1945 | accepted if and only if the terminal exists and the mode waits or two bytes are free; then the switch is stored and the active terminal changes, otherwise neither; never waits unless in blocking mode |
| `RttTerminal.Channel0.Write` | src/RTT/SEGGER_RTT.c:1094-1143 | the status by mode word and free space; ring, history and decoder stay in step |
| `RttTerminal.Channel0.TerminalOut` | src/RTT/SEGGER_RTT.c:1964-2037 | skip accepts all if it fits beside the switches and nothing otherwise, trim what fits from four free bytes on, blocking all; the stream gains switch, accepted text and switch back, and the host shows exactly that text, on that terminal; in skip and trim mode it finishes with two looks at RdOff per write however the host moves |
| `RttTerminal.Channel0.Framed` | src/RTT/SEGGER_RTT.c:1998-2000 | the three blocking writes store the framed text; with enough space none of them waits |
| `RttChannel.StreamMoves` | src/RTT/SEGGER_RTT_Channel.c:31-44 | one look leaves the rest of the stream in the ring and extends what the caller's buffer holds of it, as long as the count is right |
| `RttChannel.StreamIsWhatCame` | src/RTT/SEGGER_RTT_Channel.c:31-44 | the stream of any read is the old queue followed by what the host stored before each look, which is the part of each arrival that fitted, and nothing else |
| `RttChannel.CountIsRight` | src/RTT/SEGGER_RTT_Channel.c:31-44 | for requests below 65536 the count after any look is min(n, bytes that came); for larger ones it stays below 65536 |
| `RttChannel.EarlierTooFew` | src/RTT/SEGGER_RTT_Channel.c:31-44 | if too few bytes have come by one look, too few had come by every look before |
| `RttChannel.Channel.Reads` | src/RTT/SEGGER_RTT_Channel.c:31-44 | returns after the first look by which n bytes have come, holding the first n bytes of old queue and stored arrivals in order, with the ring holding the rest; never for n >= 65536 |
| `RttChannel.Channel.ReadTimed` | src/RTT/SEGGER_RTT_Channel.c:103-124 | without a limit the stream is the old queue, with one it is followed by what fits of the arrival after the first look; the count is right if and only if it fits 16 bits, and then the buffer holds that much of the stream and the ring the rest |
| `NumberFormat.NumeralRoundTrip` | src/RTT/SEGGER_RTT_printf.c:197-205 | positional notation has digits below the base and reads back as the number |
| `NumberFormat.NotationUnique` | src/RTT/SEGGER_RTT_printf.c:197-205 | digit strings of equal length and value are equal, so there is one right output |
| `NumberFormat.NumLenBounds` | src/RTT/SEGGER_RTT_printf.c:150-154 | the counted width is the number of digits |
| `NumberFormat.GrowIsPow` | src/RTT/SEGGER_RTT_printf.c:183-193 | the divisor loop ends at the power of the base that extracts the highest digit |
| `NumberFormat.HexOverflow` | src/RTT/SEGGER_RTT_printf.c:192 | eight multiplications by 16 make the 32-bit divisor zero, for good |
| `NumberFormat.DigitsExact` | src/RTT/SEGGER_RTT_printf.c:183-205 | the printed digits are the number's, zero-extended to the precision, if and only if the precision is at most 10 (base 10) or 8 (base 16) |
| `PrintfSpec.Field` | src/RTT/SEGGER_RTT_printf.c:500-503 | the length of a field is max(width, sign + digits), in all flag combinations |
| `PrintfMeaning.CharsAre` | src/RTT/SEGGER_RTT_printf.c:138 | digit d is character d of 0123456789ABCDEF |
| `PrintfMeaning.FieldShape` | src/RTT/SEGGER_RTT_printf.c:500-511 | blanks behind a left-justified field, zeros between sign and digits, or blanks in front, character by character |
| `PrintfSpec.UnsignedRoundTrip` | src/RTT/SEGGER_RTT_printf.c:137-221 | an unsigned number reads back from its field, for every width, precision and flags |
| `PrintfSpec.IntRoundTrip` | src/RTT/SEGGER_RTT_printf.c:227-297 | so does a signed number, with its sign |
| `RttPrintf.StoreClean` | src/RTT/SEGGER_RTT_printf.c:112-131 | storing a character extends the printed text, or its completed chunk is the first one refused |
| `RttPrintf.StoreBroken` | src/RTT/SEGGER_RTT_printf.c:122-130 | after a refusal a store takes no character and offers the same chunk once more |
| `RttPrintf.StoreForgetsError` | src/RTT/SEGGER_RTT_printf.c:116-120 | after an accepted second offer one more store would make the result non-negative |
| `RttPrintf.BrokenStays` | src/RTT/SEGGER_RTT_printf.c:112-131 | once a chunk is refused, whatever text was still to come makes no difference |
| `RttPrintf.FlushedConcat` | src/RTT/SEGGER_RTT_printf.c:124-130 | the flushed chunks are the text, in order |
| `PrintfCode.UnsignedExact` | src/RTT/SEGGER_RTT_printf.c:137-221 | padding, digits and tail are the intended field if and only if the precision is within the limit |
| `PrintfCode.NoSecondPadding` | src/RTT/SEGGER_RTT_printf.c:161-176 | a field that is already used up is not padded again |
| `PrintfCode.IntFromUnsigned` | src/RTT/SEGGER_RTT_printf.c:227-297 | what `_PrintInt` prints and what it leaves to `_PrintUnsigned` together are the intended field |
| `PrintfCode.IntExact` | src/RTT/SEGGER_RTT_printf.c:227-297 | a signed number is printed as its intended field if and only if the precision is at most 10 |
| `PrintfFormat.ConvertExact` | src/RTT/SEGGER_RTT_printf.c:412-463 | a conversion prints its intended text when its precision is within the limit, and a shorter one or none otherwise |
| `PrintfFormat.RenderChanges` | src/RTT/SEGGER_RTT_printf.c:338-468 | the same from every position of every format on: too large a precision anywhere makes the whole text shorter |
| `PrintfFormat.RenderExact` | src/RTT/SEGGER_RTT_printf.c:338-468 | a format is printed as intended if and only if every numeric precision in it is within the limit |
| `PrintfMeaning.ConversionMeans` | src/RTT/SEGGER_RTT_printf.c:412-463 | within the precision limits a conversion is defined exactly for a suitable argument: %u reads back in base 10 as the unsigned argument, %x, %X and %p in base 16, %d in base 10 with its sign, %c is the argument modulo 256, %s the string or its first bytes, (NULL) for a null string |
| `PrintfMeaning.SpecReadsBack` | src/RTT/SEGGER_RTT_printf.c:346-408 | a specification written out from flags, decimal width, precision and length modifiers parses back to them |
| `PrintfMeaning.DecimalIsValue` | src/RTT/SEGGER_RTT_printf.c:364-372 | a scanned number is the value of its digits modulo 2^32 |
| `PrintfMeaning.PlainFormat` | src/RTT/SEGGER_RTT_printf.c:338-468 | a format without a percent sign is printed as it is |
| `PrintfMeaning.FormatMeans` | src/RTT/SEGGER_RTT_printf.c:338-468 | every format written out from plain text and conversions renders as they mean, the conversions taking precisions and arguments from left to right |
| `PrintfMeaning.RetryMeans` | src/RTT/SEGGER_RTT_printf.c:197-219 | a store is made after a refusal exactly behind the digits of a left-justified number with blanks to come |
| `RttPrintf.Printer.StoreChar` | src/RTT/SEGGER_RTT_printf.c:112-131 | the descriptor after a character, including the flush of a full buffer and its refusal |
| `RttPrintf.Printer.Pad` | src/RTT/SEGGER_RTT_printf.c:168-174 | pads to the field width; entered after a refusal it stores nothing and makes the second offer |
| `RttPrintf.Printer.Digits` | src/RTT/SEGGER_RTT_printf.c:197-205 | the digit loop prints the digits, or stops at the first refused chunk |
| `RttPrintf.Printer.PrintUnsigned` | src/RTT/SEGGER_RTT_printf.c:137-221 | prints the field, or stops at the first refused chunk with at most one more offer |
| `RttPrintf.Printer.PrintInt` | src/RTT/SEGGER_RTT_printf.c:227-297 | prints what the digit loop gives for the signed number, for every printable precision, or stops at the first refused chunk; this is the intended field for precisions up to 10 |
| `RttPrintf.Printer.PrintString` | src/RTT/SEGGER_RTT_printf.c:440-451 | prints the string, cut to the precision if one is set |
| `RttPrintf.Printer.PrintConversion` | src/RTT/SEGGER_RTT_printf.c:412-463 | every conversion prints its text, also where a precision beyond the limit makes it wrong; within the limit it is what the conversion character says |
| `RttPrintf.Printer.ScanSpec` | src/RTT/SEGGER_RTT_printf.c:346-408 | the scanning loops find flags, width, precision and conversion as longest runs of their character classes |
| `RttPrintf.Printer.PrintFormat` | src/RTT/SEGGER_RTT_printf.c:338-468 | the loop prints the rendered format, or stops at the first refused chunk |
| `RttPrintf.Printer.VPrintf` | src/RTT/SEGGER_RTT_printf.c:322-480 | with every full chunk accepted, the chunks concatenate to the printed text of length n and the result is n + n mod 64; otherwise the result is -1, the chunks before the first refused one arrived, nothing after it did, and it was offered again exactly if a digit of a left-justified number with blanks behind it completed it; the text is what the items of the format mean, and the intended one if and only if all precisions are within the limits |
| `PrintfRing.PrintfToRing` | src/RTT/SEGGER_RTT_printf.c:322-480 | in skip and trim mode, whatever the host takes meanwhile: host and ring together gain all full chunks and what fits of the last one, or the chunks before the first refused one, what was stored of that and, exactly if it is offered again, what was stored of it then |
| `PrintfRing.ResultExact` | src/RTT/SEGGER_RTT_printf.c:470-479 | a non-negative result is the number of bytes stored if and only if 64 divides the length of the text; the whole text is stored if and only if the last chunk was, which the result does not tell |
| `PrintfRing.SkipStoresWholeChunks` | src/RTT/SEGGER_RTT.c:1107-1117 | in skip mode a refused text is stored up to a chunk boundary, with no byte twice |
| `PrintfRing.RepeatsExact` | src/RTT/SEGGER_RTT_printf.c:112-131 | of a chunk stored in part and then offered again, what is stored is the beginning of the text, whatever the text, if and only if one of the two offers stored nothing |
| `PrintfRing.InTurn` | src/RTT/SEGGER_RTT_printf.c:124-130 | while chunks are accepted they are offered in order, and what is stored is the text so far |
| `PrintfRing.RefusedAgain` | src/RTT/SEGGER_RTT_printf.c:124-127 | after a refusal the same chunk is offered next, and what is stored of both offers |
| `Ds5Publication.Decode` | main.c:327-338 | a report is taken if and only if it is a USB report of full length, and then its payload is |
| `Ds5Publication.Publisher.HidReportCallback` | main.c:745-757 | a USB report of at least 41 bytes goes, bytes 1 to 40, to the back slot, the index flips, the generation counts on and the consumers are signalled; any other changes nothing |
| `Ds5Publication.InterruptIsCallback` | main.c:745-757 | the interrupt step of the interleavings is the callback: same shared variables, all consumers signalled exactly on a broadcast |
| `Ds5Publication.AcceptedIsArrived` | main.c:327-338 | over every run, the accepted reports are bytes 1 to 40 of the USB reports of full length that arrived, in order |
| `Ds5Publication.StepKeepsInv` | main.c:745-757 | every step of interrupt and consumers keeps the publication invariant |
| `Ds5Publication.SlotVersion` | main.c:750-752 | a slot holds the newest report of its parity |
| `Ds5Publication.PublishedIsLatest` | main.c:248-251 | in every interleaving the generation counts the valid reports that arrived, the index is its parity and the published slot holds the last of them |
| `Ds5Publication.SnapshotVersions` | main.c:905-911 | every snapshot byte comes from the report in the slot at that moment; with at most one acceptance after the index read the snapshot is one report, the one published then |
| `Ds5Publication.TornExactly` | main.c:994-1000 | for every history length, index read and copy timing: in all runs with such a copy the snapshot is one report, if and only if no two of its bytes have a slot reuse between them |
| `Ds5Publication.ReuseTears` | main.c:750-752 | for every copy timing with a slot reuse between two bytes there is a run whose snapshot is no report |
| `Ds5Publication.EveryRecordHappens` | main.c:901-911 | every timing of a copy, with any reports, occurs in a run from the initial state |
| `Ds5Publication.LatestIsNotLost` | main.c:901-911 | a consumer that is parked with no event pending holds, untorn, the last valid report that arrived since it registered |
| `Ds5Publication.EveryConsumerCatchesUp` | main.c:901-911 | from every point of every interleaving a consumer can, without a further report, get to hold the last one that arrived since it registered |
| `Ds5Publication.AnyReportGetsThrough` | main.c:745-757 | at every point any valid report can arrive, and every consumer can get to hold it |
| `Ds5Publication.TearingHappens` | main.c:750-752 | two acceptances after the first byte of a copy do produce a snapshot that is no report |
| `Nrf24Bytes.ReversedTwice` | src/nrf24l01/nrf24l01.c:376-383 | reversing a payload is its own inverse |
| `Nrf24Bytes.ReverseInPlace` | src/nrf24l01/nrf24l01.c:376-383 | the swap loop puts byte len - 1 - j at position j for the first len bytes and leaves the rest of the buffer |
| `Nrf24Bytes.FillTxBuffer` | src/nrf24l01/nrf24l01_interface.c:77-101 | the static buffer is cleared and filled, and what goes out is the command followed by the data; data over 33 bytes is refused with the buffer untouched |
| `Nrf24Bytes.FrameRoundTrip` | src/nrf24l01/nrf24l01_interface.c:38-101 | data written in one frame is read back from one frame, whatever the command and status bytes, if and only if it has 1 to 33 bytes |
| `Nrf24Bytes.PayloadArrives` | src/nrf24l01/nrf24l01.c:565-584 | every payload of 1 to 32 bytes leaves the receiver as it entered the sender |
| `Nrf24Bytes.ReportArrives` | main.c:327-346 | bytes 1 to 31 of every accepted report reach the receiver's callback unchanged |
| `Nrf24Handler.OneMeansAcknowledged` | src/nrf24l01/nrf24l01.c:513-536 | the handler reports success only after it has read an acknowledgement |
| `Nrf24Handler.NeverCleared` | src/nrf24l01/nrf24l01.c:506-536 | the handler never clears a set flag |
| `Nrf24Handler.ResultByLooks` | src/nrf24l01/nrf24l01.c:422-449 | the result of an acknowledged send by the looks at the flag: 5 if 5000 of them find it clear, otherwise 0 or 1 by the look after the first that finds it set |
| `Nrf24Handler.TwoMeansFlushed` | src/nrf24l01/nrf24l01.c:513-525 | the handler reports a transmission given up only after it has flushed the transmit FIFO |
| `Nrf24Handler.RunIsLegal` | src/nrf24l01/nrf24l01.c:468-595 | whichever accesses fail, a run of the code is a run of the handler automaton from idle to idle |
| `Nrf24Handler.RunDoes` | src/nrf24l01/nrf24l01.c:468-595 | the acts of a run together change the flag, the FIFO and the line as its status and failing accesses say |
| `Nrf24Handler.FifoIsWholeOrEmpty` | src/nrf24l01/nrf24l01.c:513-525 | acts of the handler empty the FIFO if one of them is a flush and leave it whole otherwise |
| `Nrf24Handler.PayloadStays` | src/nrf24l01/nrf24l01.c:389-456 | when a send returns, its reversed payload is in the FIFO unless the handler has flushed it since it was loaded |
| `Nrf24Handler.FailureExact` | src/nrf24l01/nrf24l01.c:395-449 | in all continuations of a send a reported failure means that its payload was flushed, if and only if at the loading the flag is not 2 and the handler has no flush left to report |
| `Nrf24Handler.SuccessExact` | src/nrf24l01/nrf24l01.c:395-443 | in all continuations of a send a reported success rests on an acknowledgement read after its payload was loaded, if and only if at the loading the flag is not 1 and the handler has no acknowledgement left to report |
| `Nrf24Handler.StaleRunDecides` | src/nrf24l01/nrf24l01.c:395-443 | a handler run for the transmission before, just after the flag was cleared, decides the send at once, as failed or as successful by its status, with the payload still in the FIFO and no further act of the handler |
| `Nrf24Driver.SuccessIsReal` | src/nrf24l01/nrf24l01.c:440-443 | a successful look rests on an acknowledgement read after the clear, unless the handler already knew one |
| `Nrf24Driver.Driver.WaitLoop` | src/nrf24l01/nrf24l01.c:422-427 | the loop ends at the first look that finds the flag set, or after 5000 ticks |
| `Nrf24Driver.Driver.WaitFinished` | src/nrf24l01/nrf24l01.c:422-449 | for every interleaving with the handler: result 5 if and only if all 5000 looks find the flag clear, also when completion lands on the last tick; otherwise 0 or 1 by the next look |
| `Nrf24Driver.Driver.Send` | src/nrf24l01/nrf24l01.c:351-456 | guards; 0 for an unacknowledged send whose three accesses succeed, the result by the looks at the flag for an acknowledged one, 1 if an access fails; command byte and reversed payload in the FIFO unless flushed, the line up, the registers as before; chip after each failing access |
| `Nrf24Driver.Driver.IrqHandler` | src/nrf24l01/nrf24l01.c:468-595 | by the bits of the status register and for every failing access: effect on flag, FIFO and line, and data handed on, reversed and at most 33 bytes; a run makes exactly the acts that the schedules of a send are made of, in their order |
| `Nrf24Driver.Driver.ReadPayload` | src/nrf24l01/nrf24l01.c:537-584 | widths outside 1 to 33 are refused by the bus layer, also after the flush for widths over 32 |
| `Nrf24Driver.Driver.SetAddress` | src/nrf24l01/nrf24l01.c:2490-2551 | the reversed address reaches TX_ADDR or RX_ADDR_P0 if and only if both accesses succeed and SETUP_AW 1, 2 or 3 admits it with 3, 4 or 5 bytes (the pipe 0 routine at 1908-1971 has the same body) |
| `Nrf24Driver.Driver.BasicSend` | src/nrf24l01/nrf24l01_basic.c:722-758 | result and chip stage by stage, whichever access fails: 1 disabling, 2 address width or TX_ADDR, 3 pipe 0, 1 too long a payload, then 0 or 1 by the send |
| `Nrf24Driver.Driver.BasicSetTxAddress` | src/nrf24l01/nrf24l01_basic.c:816-847 | sets both addresses and remembers the address exactly on success; which registers have changed, whichever access fails |
| `Nrf24Driver.Driver.BasicSent` | src/nrf24l01/nrf24l01_basic.c:859-878 | 0 exactly if the send gets a 0, 1 otherwise, with the chip of the send and the address untouched; refuses without effect when none was set, the driver is not initialised or the payload is over 32 bytes |
| `Nrf24Driver.FastPathAgrees` | src/nrf24l01/nrf24l01_basic.c:859-878 | a failing address write of the slow path is reported and leaves the FIFO alone; otherwise, with the same outcomes of the shared accesses, both paths have the same result, and the same chip if and only if it was disabled before or the send (or the handler before it) moved the line |
| `Nrf24Driver.ReportedAfter` | src/nrf24l01/nrf24l01_basic.c:722-901 | after every run of sets and sends, whichever accesses fail, the reported address is the last one remembered, and it is the chip's if and only if it is the last one that reached TX_ADDR |
| `Nrf24Driver.AccountWithoutFailures` | src/nrf24l01/nrf24l01_basic.c:722-847 | without bus failures these are the last address set and the last one set or sent to |
| `Nrf24Driver.ReportedAddressGoesStale` | src/nrf24l01/nrf24l01_basic.c:889-901 | the shortest run that breaks it without failures: after a send to another address the chip is on that while the old address is reported |
| `Nrf24Driver.FailedSetGoesStale` | src/nrf24l01/nrf24l01_basic.c:816-847 | the shortest run that breaks it by a failure: a set that fails at the pipe 0 write has moved the chip to its address while the old one is reported |
| `Nrf24Driver.ReportOverRadio` | src/nrf24l01/nrf24l01.c:351-595 | through both drivers, delivery and result: the receiver's handler hands on bytes 1 to 31 of the USB report unchanged if and only if the three accesses of the send succeed, the handler at the sender does not flush the payload and the accesses of the receiver succeed; the sender gets the result of its send, 0 for an unacknowledged one on a good bus |

## Left out

- ChibiOS, lwIP, USB host stack, SPI/DMA, cache maintenance and memory barriers: an event is a pending flag, a bus access succeeds or fails.
- Atomicity of the SPI transfer routines, whose static buffers are filled before the bus is acquired: calls are taken one after the other.
- Initialisation of the RTT control block racing with itself: the model starts from an initialised block.
- The remaining RTT calls (key input, buffer allocation and configuration, `SEGGER_RTT_PutChar`, `SEGGER_RTT_WriteString`) and the assembly variant of the skip writer: they would only add easy members.
- The remaining register setters and getters of the radio driver, RF_SETUP among them, `nrf24l01_get_tx_address` and `nrf24l01_basic_init`: repetitive and easy.
- Flash storage, shell commands, thread monitoring, LED thread and UDP destination handling.
- RttTerminal.RunDecodes: covers completed calls with escape-free data; a blocking call that still waits is described by its own contract.
- RttPrintf.Printer.VPrintf: covers what C defines: missing or mistyped arguments, a conversion cut off by the terminator, the least 32-bit integer under %d and precisions at which the digit loop divides by zero or leaves its table are excluded; the result is an unbounded integer, so texts of 2^31 bytes or more, whose count overflows in C, are not covered; `accepts` is any function here, and the ring's in `PrintfRing.PrintfToRing`.
- RttPrintf.Printer.PrintInt: excludes the least 32-bit integer, whose negation is undefined in C, and precisions at which the digit loop leaves its table.
- PrintfRing.PrintfToRing: the blocking mode, in which a write waits, is left to `RttBuffer.UpBuffer.WriteBlocking`.
- RttBuffer.UpBuffer.WriteWithOverwriteNoLock: no host reads during the call, as the function's notes demand.
- RttTerminal.Channel0.TerminalOut: strings are below 2^31 bytes, since the count is returned as a signed integer.
- Nrf24Driver.Driver.Send: the transmit FIFO is the payload last loaded; its depth of three and what the chip takes from it are not modelled.
- Radio behaviour: status bytes, widths and payloads are arbitrary inputs, and what is on air arrives unchanged.
