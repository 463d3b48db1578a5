# Light-Dynamixel-Protocol: the DYNAMIXEL Protocol 2.0 codec in Dafny

This project models the core of Light-Dynamixel-Protocol, a header-only C++
library that talks DYNAMIXEL Protocol 2.0 to servo motors. The model covers
four layers:

- **Sentry.** `sentry_impl<N>` is a one-counter automaton that recognises
  the frame header `FF FF FD 00` (N = 4) or its stuffing prefix `FF FF FD`
  (N = 3) in a byte stream. It is modelled as the class
  `Sentry.SentryImpl` and proved against the fold `CountAfter` and the
  predicate `Fires` over everything fed so far.
- **Frame codec.** `calculate_length`, `write_packet` and
  `read_headerless_packet`:
  - `Frame.Encode` is the frame the encoder emits;
  - `Frame.Parse` is what the decoder returns, writes and consumes;
  - the methods of module `Packet` are the C++ loops, proved to compute
    exactly these functions;
  - modules `Stuffing` and `FrameProps` prove what the frames mean: their
    layout, byte stuffing and its inverse, the error cases, and a round trip
    for status frames.
- **Request and ticket.** A `request` stores id, instruction and a
  little-endian parameter tuple, and sends them with `write_packet`. A
  `ticket` decodes the answer into `T{id, fields...}`. Module `Fields`
  models the fixed-width little-endian tuples, with both round trips.
- **Hooked ticket.** `ticket_with_hook` and `restore_and_call` decode with a
  fresh ticket, call the stored callback only on success, and return OK or
  the decoder's error.

Byte sources (the C++ input functors and input iterators) are the class
`Packet.Source`: an endless stream `nat -> byte` and a read position. A
functor always delivers a byte, so a source never runs dry. Encoder output
is the sequence of bytes handed to the output functor. The iterator
overloads write into an `array`.

The CRC step `advance_crc` lives in include/ldp/detail/packet.hpp, which is
not part of this model. Every operation that folds a CRC therefore takes the
step as a parameter `adv`, and all general results hold for any step. The
worked examples use `Detail.Crc16`, the CRC-16 of the protocol (polynomial
0x8005, most significant bit first, initial value 0). The constants from the
same file come from the protocol: header `FF FF FD 00`, stuffing byte
`0xFD`, status instruction `0x55`, alert bit `0x80`.

Where the code and the protocol description differ, the model follows the
code:

- **Device error with only the alert bit.** Line 153 of packet.hpp tests
  the whole error byte. So an error byte `0x80` fails with kind OK and the
  alert flag set. It is not treated as success
  (`FrameProps.AlertAloneFails`).
- **CRC mismatch.** The CRC bytes are compared one at a time, low byte
  first. A mismatch on the low byte stops the decoder after one CRC byte
  (`FrameProps.ParseChecksCrc`).
- **Stay-on-0xFF rule.** The rule of line 26 of sentry.hpp applies to both
  sentries.
- **No BAD_LENGTH.** The code has no `BAD_LENGTH` error.

Three properties of the code as written are stated as lemmas:

- **Overlapping header.** The full-header sentry misses a header that
  overlaps a partial one: in `FF FF FD FF FF FD 00` it does not fire
  (`SentryExamples.HeaderSentryMissesOverlappingHeader`).
- **Stuffed parameters are over-counted.** The decoder counts `Length`
  down once per logical parameter byte, but `Length` counts the stuffing
  bytes too. A status frame whose parameters needed stuffing therefore
  reads one byte too many (`FrameProps.DecoderOvercountsStuffing`).
- **Restricted round trip.** The round trip encode-then-decode holds for
  parameters that need no stuffing (`FrameProps.StatusRoundTrip`).

## Model

| member | source | states |
|---|---|---|
| Sentry.Step | include/ldp/sentry.hpp:25-33 | one call: the counter stays below N, and a detection leaves it at 0 |
| Sentry.CountAfter | include/ldp/sentry.hpp:25-33 | between calls the counter is below N, so `header[count]` is in range |
| Sentry.RunSnoc | include/ldp/sentry.hpp:25-33 | feeding one more byte is one transition of line 26 and fires exactly when the counter reaches N |
| Sentry.StepSound | include/ldp/sentry.hpp:26 | a transition keeps the last `count` bytes equal to the first `count` header bytes; when it fires, the last N bytes are the header prefix |
| Sentry.SentrySound | include/ldp/sentry.hpp:24-33 | for any byte sequence, the counter measures a header prefix at the end, and a detection means the last N bytes are the first N header bytes |
| Sentry.StuffingCountExact | include/ldp/sentry.hpp:26 | the stuffing sentry's counter is the longest proper prefix of `FF FF FD` (below 3, since a full match resets it) ending the input |
| Sentry.StuffingSentryExact | include/ldp/sentry.hpp:46 | the stuffing sentry fires exactly when the last three bytes are `FF FF FD` |
| Sentry.SentryImpl.constructor | include/ldp/sentry.hpp:20 | a new sentry has count 0 and has seen nothing |
| Sentry.SentryImpl.Feed | include/ldp/sentry.hpp:25-33 | `operator()`: the new count and result are the transition of line 26, the result says whether the bytes fed so far end in the pattern (both directions for the stuffing sentry) |
| SentryExamples.HeaderSentryDetectsHeader | test/sentry.cpp:8-17 | the header sentry first fires at index 7 of the test sequence |
| SentryExamples.HeaderSentryDetectsMultipleHeaders | test/sentry.cpp:23-34 | the header sentry fires at indices 11 and 19 only |
| SentryExamples.StuffingSentryDetectsStuffing | test/sentry.cpp:40-49 | the stuffing sentry fires at index 6 only |
| SentryExamples.HeaderSentryMissesOverlappingHeader | include/ldp/sentry.hpp:26 | `FF FF FD FF FF FD 00` ends with the header, yet the header sentry never fires on it |
| Detail.LE16 | include/ldp/packet.hpp:86-87 | a 16-bit field is sent as two bytes, low byte first, which read back as the value |
| Frame.Instruction.Code | include/ldp/packet.hpp:32-49 | the instruction codes; only RETURN has the status code 0x55 |
| Frame.DeviceError | include/ldp/packet.hpp:153 | a device error's kind is the low seven bits of the error byte and its alert flag the eighth |
| Frame.CrcBytes | include/ldp/packet.hpp:106-107 | the CRC goes out as two bytes, low byte first |
| Frame.Stuff | include/ldp/packet.hpp:98-104 | the stuffed parameters are at least as long as the parameters; `Stuffing.StuffLength` makes that exact (one extra byte per sentry hit) and `Stuffing.DestuffStuff` proves the decoder's destuffing gives the parameters back |
| Frame.CalculateLength | include/ldp/packet.hpp:22-25 | `Length` fits in 16 bits; `Stuffing.LengthCountsStuffedBytes` proves it counts the stuffed parameters, the instruction and the CRC, and `FrameProps.FrameLayout` that it counts every byte after it in the encoded frame |
| Frame.Encode | include/ldp/packet.hpp:82-108 | the frame is ten bytes longer than the stuffed parameters; `FrameProps.FrameLayout` proves its whole layout and `FrameProps.StatusRoundTrip` that `Parse` inverts it for status frames that need no stuffing |
| Frame.Destuff | include/ldp/packet.hpp:143-149 | destuffing `k` logical bytes yields `k` bytes and consumes at least `k` raw bytes |
| Frame.ReadCrcCovers | include/ldp/packet.hpp:125-135 | the decoder's running CRC, seeded with the header, is the CRC of the header followed by every raw byte read |
| Frame.Parse | include/ldp/packet.hpp:120-156 | a decode consumes the five metadata bytes and at least one byte per parameter it writes; a status frame writes exactly the declared count; success needs the status instruction and error byte 0 and returns the frame's id; `FrameProps.ParseNotStatus`, `FrameProps.ParseChecksCrc` and `FrameProps.ParseStatusFrame` prove each outcome exactly |
| Frame.Conclude | include/ldp/packet.hpp:151-155 | the CRC phase keeps the parameters and reads one or two bytes; it succeeds only when both CRC bytes, low byte first, equal the running CRC and the error byte is 0, and then returns the id |
| Frame.StuffSnoc | include/ldp/packet.hpp:99-104 | one more parameter: a stuffing byte goes out just before it when the sentry fires on it, then the byte itself |
| Stuffing.StuffLength | include/ldp/packet.hpp:98-104 | the stuffed parameters are the parameters plus one byte per sentry hit |
| Stuffing.LengthCountsStuffedBytes | include/ldp/packet.hpp:22-25 | `Length` is the stuffed parameter count plus instruction and CRC, modulo 2^16 |
| Stuffing.HitIsStuffingByte | include/ldp/packet.hpp:101-102 | the stuffing sentry only fires on a `0xFD`, so the inserted byte doubles it |
| Stuffing.DestuffStuff | include/ldp/packet.hpp:143-149 | destuffing the stuffed parameters gives back the parameters and consumes exactly the stuffed bytes |
| Stuffing.DestuffStuffBuffer | include/ldp/packet.hpp:143-149 | the same for stuffed parameters at any position of a buffer |
| Stuffing.StuffEndNotPattern | include/ldp/packet.hpp:98-104 | stuffed parameters never end in `FF FF FD` |
| Stuffing.StuffBreaksPatterns | include/ldp/packet.hpp:98-104 | every `FF FF FD` in stuffed parameters is followed by a stuffing byte |
| Stuffing.NoHeaderInStuffed | include/ldp/packet.hpp:98-104 | stuffed parameters never contain the header `FF FF FD 00` |
| FrameProps.FrameLayout | include/ldp/packet.hpp:86-107 | an encoded frame is header, id, `Length` (little-endian, counting everything after it), instruction, stuffed parameters and the little-endian CRC of all bytes before it |
| FrameProps.StuffIdentity | include/ldp/packet.hpp:98-104 | parameters without `FF FF FD` go out unchanged |
| FrameProps.EncodeUnstuffed | include/ldp/packet.hpp:81-108 | for such parameters the frame is header, id, `Length` = count + 3, instruction, parameters and CRC |
| FrameProps.ParseNotStatus | include/ldp/packet.hpp:134-141 | decoding fails with NOT_STATUS exactly when the instruction is not 0x55, and then has consumed five bytes and written nothing |
| FrameProps.ParseChecksCrc | include/ldp/packet.hpp:151-155 | a status frame fails with RECEIVED_BAD_CRC exactly when a CRC byte differs; the first mismatch stops the reading; otherwise the result is the id or the device error |
| FrameProps.ParseErrorNotOk | include/ldp/packet.hpp:141-153 | no decoding failure is the plain OK error |
| FrameProps.AlertAloneFails | include/ldp/packet.hpp:153 | an error byte of `0x80` with a good CRC fails with kind OK and the alert flag |
| FrameProps.ParseStatusFrame | include/ldp/packet.hpp:119-156 | a well-formed status frame with unstuffed data decodes to its id (or device error) and data, and consumes the frame |
| FrameProps.StatusRoundTrip | include/ldp/packet.hpp:81-156 | decoding an encoded status frame whose error byte and data need no stuffing gives back the id (or device error) and the data, consuming the whole frame |
| FrameProps.DecoderOvercountsStuffing | include/ldp/packet.hpp:137-149 | for data `FF FF FD`, the encoder counts the stuffing byte into `Length` and the decoder then delivers a CRC byte as a fourth parameter |
| FrameProps.StuffedExample | include/ldp/packet.hpp:98-104 | `00 FF FF FD` is stuffed to `00 FF FF FD FD` |
| Packet.Source.Read | include/ldp/packet.hpp:129 | one call of the input functor delivers the next byte of the stream |
| Packet.Write | include/ldp/packet.hpp:90-93 | the `write` lambda sends a byte and folds it into the CRC |
| Packet.WriteParameter | include/ldp/packet.hpp:99-104 | one parameter turn sends the stuffing byte when the sentry fires, then the byte, so that what was sent is the stuffing of the parameters fed |
| Packet.WriteParameters | include/ldp/packet.hpp:98-104 | the parameter loop sends the stuffed parameters and folds them into the CRC |
| Packet.WritePacket | include/ldp/packet.hpp:81-108 | `write_packet` sends exactly `Encode` of its arguments |
| Packet.ReadFolded | include/ldp/packet.hpp:128-132 | the `read` lambda takes the next byte and folds it into the CRC |
| Packet.HeaderCrc | include/ldp/packet.hpp:125-126 | the CRC is seeded with the header |
| Packet.ReadMetadata | include/ldp/packet.hpp:124-139 | five bytes are read in order as id, `Length` (low, high), instruction and error, all folded into the CRC |
| Packet.ReadParameter | include/ldp/packet.hpp:145-147 | one turn delivers the next raw byte and skips a stuffing byte after a sentry hit, following `Destuff` |
| Packet.Put | include/ldp/packet.hpp:148 | `*parameters_it = byte` writes the next cell and no other |
| Packet.ReadParameters | include/ldp/packet.hpp:143-149 | the loop writes the destuffed parameters to the first `length` cells, leaves the rest alone and folds every raw byte into the CRC |
| Packet.CheckCrc | include/ldp/packet.hpp:151-152 | the received CRC is compared byte by byte, low first, stopping at the first mismatch |
| Packet.Finish | include/ldp/packet.hpp:151-155 | after the parameters: RECEIVED_BAD_CRC, then the device error, then the id |
| Packet.ReadHeaderlessPacket | include/ldp/packet.hpp:119-156 | `read_headerless_packet` returns, writes and consumes exactly what `Parse` says, and the cells past the parameters keep their values |
| PacketExamples.ReadRequestFrame | test/packet.cpp:12-19 | READ to device 1 with parameters `84 00 04 00` is the frame `FF FF FD 00 01 07 00 02 84 00 04 00 1D 15` |
| PacketExamples.PingFrame | test/request.cpp:24-27 | PING to device 1 is the frame `FF FF FD 00 01 03 00 01 19 4E` |
| PacketExamples.StatusFrameDecodes | test/packet.cpp:25-36 | the status frame of the test decodes to device 1 and data `A6 00 00 00`, consuming the whole frame |
| PacketExamples.PingReplyDecodes | test/request.cpp:25-29 | the ping reply decodes to device 1 and data `06 04 26` |
| PacketExamples.ReceiveStatusFrame | test/packet.cpp:22-37 | the decoder writes `A6 00 00 00` into a zeroed five-byte output, leaves the fifth cell 0 and yields device 1 |
| Fields.FromToLE | include/ldp/request.hpp:77 | a value written little-endian in `n` bytes reads back as the value |
| Fields.ToFromLE | include/ldp/ticket.hpp:64 | a field read from its bytes is below 256^n and writes back to the same bytes |
| Fields.UnpackPack | include/ldp/request.hpp:54-55 | unpacking a packed tuple gives back its values |
| Fields.PackUnpack | include/ldp/ticket.hpp:64-68 | the fields of any tuple fit their widths and pack back into the tuple |
| Fields.UnpackField | include/ldp/ticket.hpp:68 | field `i` of a tuple is the little-endian value of its own bytes, in declared order |
| Ticket.Filled | include/ldp/ticket.hpp:64-66 | the parameter tuple holds the decoded parameters from its first byte on, and zeros after them |
| Ticket.BuildOutcome | include/ldp/ticket.hpp:68-69 | the ticket succeeds exactly when the frame decodes; the value carries the id and fields that pack back into the tuple; an error passes unchanged |
| Ticket.BuildField | include/ldp/ticket.hpp:68 | each field of the value is read little-endian from its bytes of the tuple, in declared order |
| Ticket.Build | include/ldp/ticket.hpp:68-69 | a value comes out exactly when the decode succeeded, with the decoded id and one field per declared type; `Ticket.BuildOutcome` adds that the fields pack back into the tuple and that an error passes unchanged |
| Ticket.Decode | include/ldp/ticket.hpp:63-70 | a value comes out only of a status frame with error byte 0, and it carries the frame's id and one field per declared type |
| Ticket.Receive | include/ldp/ticket.hpp:63-70 | `operator<<(F)` returns `Decode` of the bytes from the source and consumes the frame; the same bytes always give the same result |
| Ticket.ReceiveAt | include/ldp/ticket.hpp:76-78 | `operator<<(It)` reads `*it++` from the buffer position and returns the same `Decode` |
| Request.NewRequest | include/ldp/request.hpp:54-55 | the constructor stores id and instruction unchanged, and parameter values that read back unchanged |
| Request.Send | include/ldp/request.hpp:61-64 | `operator>>(F)` sends exactly `Encode` of the stored fields and returns the default ticket whatever was sent; sending twice sends the same bytes |
| Request.SendTo | include/ldp/request.hpp:70-72 | `operator>>(It)` writes the frame to consecutive cells from the iterator on and changes no other cell |
| Request.Ping | include/ldp/ping.hpp:38-40 | `ping(id)` is PING to `id` with no parameters, answered by a 16-bit and an 8-bit field |
| Request.Read | include/ldp/read.hpp:36-39 | `read` is READ with the 16-bit address and the 16-bit size, answered by one field of that size |
| Request.Write | include/ldp/write.hpp:28-31 | `write` is WRITE with the 16-bit address and the value, answered by the id alone |
| ExchangeExamples.PingSends | test/request.cpp:24-27 | `ping(0x01)` sends `FF FF FD 00 01 03 00 01 19 4E` |
| ExchangeExamples.ReadSends | test/packet.cpp:13-18 | a read of 4 bytes at address 132 from device 1 carries `84 00 04 00` and sends the frame of the test |
| ExchangeExamples.PingReplyValue | test/request.cpp:29-35 | the ping ticket reads device 1, model number 1030 and firmware version 38 from the reply |
| ExchangeExamples.PingExchange | test/request.cpp:21-37 | the test end to end, with the 64-byte zeroed buffer the test evidently intends (its `buf{64}` is a one-element vector, see Left out): the ping frame is the buffer's prefix, zeros follow, and the returned ticket decodes the reply to `{1, 1030, 38}` |
| ExchangeExamples.HookedPing | include/ldp/detail/any_function.hpp:36-38 | a hooked ping ticket on the reply returns OK and calls its callback once, with `{1, 1030, 38}` |
| Hook.AbstractInputFunctor.constructor | include/ldp/detail/any_function.hpp:22 | the binder refers to the caller's functor |
| Hook.AbstractInputFunctor.Call | include/ldp/detail/any_function.hpp:24 | a call is forwarded: the same byte and the same consumption as a direct call |
| Hook.Outcome | include/ldp/detail/any_function.hpp:38 | a decoding error is returned unchanged |
| Hook.OutcomeOk | include/ldp/detail/any_function.hpp:38 | the restorer returns OK exactly when the ticket decodes |
| Hook.RestoreAndCall | include/ldp/detail/any_function.hpp:33-39 | decodes with a fresh ticket of the type, calls the callback once with the value on success and never on failure, and returns OK or the error |
| Hook.TicketWithHook.constructor | include/ldp/ticket.hpp:41-47 | stores the callback and the restorer for the ticket type |
| Hook.TicketWithHook.Call | include/ldp/ticket.hpp:28-30 | `operator()(F)` is the restorer on the stored callback and the wrapped functor |
| Hook.TicketWithHook.CallAt | include/ldp/ticket.hpp:35-37 | `operator()(It)` does the same reading `*it++` from the buffer position |
| Hook.WithHook | include/ldp/ticket.hpp:83 | `with_hook` builds a hooked ticket for this ticket type and callback |

## Left out

- The CRC step and the constants of include/ldp/detail/packet.hpp: that file is not part of this model. The step is a parameter, and `Detail.Crc16` is the step the protocol prescribes.
- Packet.ReadHeaderlessPacket: requires a declared `Length` of at least 4 for status frames. Below that, the subtraction at line 137 of packet.hpp wraps around to a huge count, which is not modelled.
- Packet.ReadHeaderlessPacket: requires the output to hold the declared parameters. The C++ writes past the end of its output iterator otherwise.
- Request.SendTo: requires the output array to hold the whole frame from `at` on. The C++ at lines 70-72 of request.hpp writes `*it++` with no bound, so a short buffer is overrun (undefined behaviour), which is not modelled.
- ExchangeExamples.PingExchange: test/request.cpp line 10 writes `buf{64}` on a `std::vector`, which is list-initialisation: a one-element vector holding 0x40. The ten-byte write at line 27 then overruns it, and the comparison at line 16 reads past its end. The member models the zeroed 64-byte buffer the test evidently intends instead.
- Ticket.Receive: requires the declared parameters to fit the ticket's tuple, for the same reason. The call at line 66 of ticket.hpp passes an end iterator that `read_headerless_packet` does not take; the model reads into a buffer of the tuple's size.
- Ticket.Decode: requires the same `Fits` condition as `Ticket.Receive`: the declared parameters fit the ticket's tuple.
- Ticket.ReceiveAt: requires the same `Fits` condition, on the buffer it reads from.
- Hook.OutcomeOk: requires the same `Fits` condition, since it is stated through `Ticket.Decode`.
- Hook.RestoreAndCall: requires the same `Fits` condition on the source its input functor is bound to.
- Hook.TicketWithHook.Call: requires the same `Fits` condition on its source.
- Hook.TicketWithHook.CallAt: requires the same `Fits` condition on the buffer it reads from.
- Ticket.Filled: the tuple's bytes past the decoded parameters are taken to be zero. The tuple is default-initialised at line 64 of ticket.hpp, so their value depends on the default constructor of the external `upd::tuple`, which is not part of this model; zero is an assumption about it.
- The `upd` tuple library is external. Its fields are modelled as unsigned little-endian numbers, and the signed mode is left out.
- Type erasure: the `reinterpret_cast` of the callback, its conversion to a function pointer and the virtual dispatch of `abstract_input_functor_base` are not modelled. The hooked ticket keeps the callback and the ticket type it was made for.
- Hook.RestoreAndCall: decodes from the source its `abstract_input_functor` is bound to, rather than through the binder's `operator()`. `Hook.AbstractInputFunctor.Call` is proved to forward each call unchanged.
- The callback's own effect is unknown to the library. The model records the values it is called with (`Hook.Callback`).
- `Frame.Over` reads zeros past the end of a buffer. A frame that fits in its buffer never reads there.
- I/O: serial ports and buses are only byte sources and sinks.
- Broadcast pings and the signed-mode overloads of the builders are not modelled. They only fix other constructor arguments.
- include/ldp/detail/sfinae.hpp, include/ldp/memzone.hpp and include/ldp/detail/def.hpp hold compile-time machinery and macros. They have no runtime behaviour of their own; `ASSERT` is modelled by its meaning, an early return of the error.
