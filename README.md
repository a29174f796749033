# SpektrumDSM in Dafny

A verified model of `SpektrumDSM`, an interrupt-driven decoder for the serial
byte stream of a Spektrum DSM satellite receiver. The protocol has no in-band
delimiter. A frame is `BUFFER_SIZE` bytes: the fade count, a reserved byte,
then (high, low) channel pairs. The only frame boundary is a silence of more
than 2500 µs between two serial events.

The project has two modules, plus a one-lemma helper module `ByteCasts`
(`byte_casts.dfy`) for converting small integers to bytes.

- `DsmFrame` (`dsm_frame.dfy`) covers the wire format. It holds the protocol
  variant with its two presets, DSM1024 `(7, 2, 0x03, 0)` and DSM2048
  `(8, 3, 0x07, 1)`. It decodes one pair into a channel index and a value, and
  folds a whole frame into the channel table (`DecodePairs` / `DecodeFrame`).
  An encoder for the presets serves as the independent partner for the
  round-trip lemmas.
- `SpektrumDsm` (`spektrum_dsm.dfy`) covers the decoder.
  - `DecoderState` and `HandleEvent` state, as a pure function, what one
    serial event does to all the decoder's state.
  - The class `SpektrumDSM` keeps that state where the C++ keeps it: scalar
    fields, plus the arrays `rxBuf` and `rcValue`.
  - `HandleSerialEvent` is proved to move the object's state exactly as
    `HandleEvent` says. It runs the copy loop (`ReadAvailable`) and the decode
    loop (`DecodeBuffer`), each proved against its own specification.
  - `GotNewFrame`, `GetChannelValues`, `GetFadeCount` and `TimedOut` are the
    accessors. `GetFadeCount` returns the fade count of the abstract state.
    What that byte holds is stated by `HandleEvent`: byte 0 of the last
    completed frame.

Modelling choices:
- Timestamps are `uint32` values, and the subtraction wraps explicitly
  modulo 2^32 (`Lag`).
- Bytes are `bv8`, so `&` with the channel mask is the bitwise operation
  itself.
- The C right shift of a non-negative `int` is `ShiftRight`, which halves
  `n` times. `ShiftRightIsDivision` proves it equal to division by 2^n.
- The serial port is replaced by the sequence of bytes available at the
  event. `HandleSerialEvent` returns how many of them it read.
- The function-local static `spekTimeLast` is the field `spekTimeLast`. Being
  a static, it is zero-initialised in the C++, so it starts at 0.
- `BUFFER_SIZE` is 16 bytes, and the channel table has 16 slots, one per
  4-bit index. The header that defines both is not part of this model.
- The C++ constructor (src/SpektrumDSM.cpp:23-32) sets only the four tuning
  numbers, `_gotNewFrame` (false) and `_lastInterruptMicros` (0). It leaves the
  cursor `_rxBufPos`, the buffer `_rxBuf`, the channel table `_rcValue` and
  `_fadeCount` unset. The model starts all four at 0; that is the model's
  choice, not the program's.

Behaviour of the code that the model keeps as written:
- After a full buffer, an event within 2500 µs reads nothing. It still decodes
  the same buffer again and raises the flag again (`FullBufferDecodedAgain`).
- The decoded value lies in [0, 1023] only under the two presets. An
  arbitrary mask and shift can give any 16-bit value.
- A DSM2048 channel reads back as its 11-bit wire value shifted right by one,
  not as the wire value (`PairRoundTrip`).
- `getChannelValues` is bounded only by the table size and the caller's
  array, not by the channel count.

## Model

| member | source | states |
|---|---|---|
| `DsmFrame.ShiftRight` | src/SpektrumDSM.cpp:65 | a right shift of a non-negative value never increases it, and a shift by one or more at least halves it |
| `DsmFrame.ShiftRightIsDivision` | src/SpektrumDSM.cpp:65 | shifting right by n is flooring division by 2^n |
| `DsmFrame.ChannelIndex` | src/SpektrumDSM.cpp:63 | the channel index `0x0F & (bh >> chanShift)` is always below 16, so it is a valid slot of the channel table |
| `DsmFrame.IsPreset` | src/SpektrumDSM.cpp:110-116 | in both presets (7, 2, 0x03, 0) and (8, 3, 0x07, 1), the mask is 2^chanShift - 1, so it keeps exactly the high-byte bits below the channel nibble; 8 + chanShift - valShift = 10, so values have 10 bits; and there are at most 8 channels |
| `DsmFrame.ChannelValue` | src/SpektrumDSM.cpp:65 | the decoded value is at most the composed word (masked high byte * 256 + low byte), and equals it when valShift is 0 |
| `DsmFrame.ChannelValueArithmetic` | src/SpektrumDSM.cpp:65 | the decoded value is (masked high byte * 256 + low byte) / 2^valShift |
| `DsmFrame.PresetValueBound` | src/SpektrumDSM.cpp:110-116 | under DSM1024 and under DSM2048 every decoded value is in [0, 1023] |
| `DsmFrame.ApplyPair` | src/SpektrumDSM.cpp:61-66 | applying one pair keeps the table at 16 slots |
| `DsmFrame.DecodePairs` | src/SpektrumDSM.cpp:60-67 | the pairs at offsets 2, 4, … applied in order keep the table at 16 slots |
| `DsmFrame.DecodeFrame` | src/SpektrumDSM.cpp:60-67 | decoding a full frame keeps the table at 16 slots |
| `DsmFrame.DecodePairsUntouched` | src/SpektrumDSM.cpp:60-67 | a slot that no in-range pair addresses keeps its previous value |
| `DsmFrame.DecodePairsLastWins` | src/SpektrumDSM.cpp:60-67 | a slot addressed by several in-range pairs holds the value of the last one |
| `DsmFrame.DecodeFrameIgnoresOutOfRange` | src/SpektrumDSM.cpp:63-64 | slots at or above rcChans are never written by a frame |
| `DsmFrame.DecodePairsKeepsBound` | src/SpektrumDSM.cpp:59-67 | under the presets, a table with every slot in [0, 1023] still has every slot in [0, 1023] after decoding |
| `DsmFrame.PairRoundTrip` | src/SpektrumDSM.cpp:63-65 | under the presets, a pair encoding channel ch with wire value w decodes to index ch and value w >> valShift |
| `DsmFrame.FrameRoundTrip` | src/SpektrumDSM.cpp:53-67 | under the presets, a frame carrying channel i in pair i decodes every carried channel to its value; the other slots are unchanged; byte 0 is the fade count |
| `SpektrumDsm.Lag` | src/SpektrumDSM.cpp:42 | the wrapping uint32 difference is the forward distance from the last timestamp to now: last + lag ≡ now (mod 2^32), and it is plain now - last when now ≥ last |
| `SpektrumDsm.LagAfterAdvance` | src/SpektrumDSM.cpp:42 | d µs after t, the lag is d, even when the timer wraps in between |
| `SpektrumDsm.Initial` | src/SpektrumDSM.cpp:23-32 | a new decoder has no new frame and a last-event time of 0, as the constructor sets; its cursor is 0, the model's choice for a field the constructor leaves unset |
| `SpektrumDsm.StartPos` | src/SpektrumDSM.cpp:42-46 | writing restarts at 0 exactly when the time since the previous event exceeds 2500 µs, counted as usec - last without a wrap and as usec + 2^32 - last across one; otherwise the cursor is kept |
| `SpektrumDsm.Fill` | src/SpektrumDSM.cpp:49-51 | writing bytes at the cursor leaves the entries before and after them unchanged and puts them there in order |
| `SpektrumDsm.Consumed` | src/SpektrumDSM.cpp:49-51 | an event reads at most the bytes available and never past the buffer end; it stops early only because the buffer is full |
| `SpektrumDsm.HandleEvent` | src/SpektrumDSM.cpp:34-72 | the cursor stays in [0, BUFFER_SIZE]; both timestamps become usec. With a gap over 2500 µs, writing restarts at 0 with the first min(available, BUFFER_SIZE) bytes. With a gap of 2500 µs or less, the old prefix is kept and min(available, BUFFER_SIZE - pos) bytes follow it. A full buffer decodes: fade count = byte 0, table = decoded frame, flag set. Otherwise fade count, table and flag are unchanged |
| `SpektrumDsm.WholeFrameAfterGap` | src/SpektrumDSM.cpp:34-72 | a whole frame in one event after a gap fills the buffer, sets the flag and the fade count, and decodes into the table |
| `SpektrumDsm.FrameInTwoParts` | src/SpektrumDSM.cpp:39-54 | a frame split over two events ≤ 2500 µs apart is assembled in order and decoded when complete |
| `SpektrumDsm.GapDiscardsPartialFrame` | src/SpektrumDSM.cpp:44-46 | after a gap, a partial frame is discarded: the cursor equals the new bytes alone, and no frame is raised |
| `SpektrumDsm.FullBufferDecodedAgain` | src/SpektrumDSM.cpp:49-70 | on a full buffer, an event ≤ 2500 µs later reads nothing, re-decodes the same buffer and raises the flag again |
| `SpektrumDsm.ReadFlag` | src/SpektrumDSM.cpp:75-82 | reading the flag returns its value and leaves it false |
| `SpektrumDsm.FlagReadOnce` | src/SpektrumDSM.cpp:69-82 | after a completed frame, the first read of the flag is true and a second read is false |
| `SpektrumDsm.ScaleChannel` | src/SpektrumDSM.cpp:87 | the output is value + 988, wrapped to 16 bits when it overflows |
| `SpektrumDsm.PresetPulseRange` | src/SpektrumDSM.cpp:84-89 | under the presets every decoded channel scales to [988, 2011] |
| `SpektrumDsm.PresetTableStaysInRange` | src/SpektrumDSM.cpp:59-67 | under the presets, a table in [0, 1023] stays in [0, 1023] after any event |
| `SpektrumDsm.ExampleFrame1024` | src/SpektrumDSM.cpp:53-71 | a DSM1024 frame with fade 42 and channel 0 at 512 gives fade count 42, table value 512 and output 1500 |
| `SpektrumDsm.SpektrumDSM.constructor` | src/SpektrumDSM.cpp:23-32 | stores the variant and starts in `Initial`: flag false and last-event time 0 as in the C++, and 0 for the cursor, buffer, table and fade count, which the C++ leaves unset |
| `SpektrumDsm.SpektrumDSM.HandleSerialEvent` | src/SpektrumDSM.cpp:34-72 | the new state is exactly `HandleEvent` of the old one; it reports how many bytes it read |
| `SpektrumDsm.SpektrumDSM.Resync` | src/SpektrumDSM.cpp:37-46 | both timestamps become usec, and the cursor becomes `StartPos` of the old state |
| `SpektrumDsm.SpektrumDSM.ReadAvailable` | src/SpektrumDSM.cpp:48-51 | copies min(available, BUFFER_SIZE - pos) bytes in order to rxBuf[pos..] and advances the cursor by that many |
| `SpektrumDsm.SpektrumDSM.DecodeBuffer` | src/SpektrumDSM.cpp:53-71 | fade count = rxBuf[0], rcValue = the decoded frame over the old table, flag raised |
| `SpektrumDsm.SpektrumDSM.GotNewFrame` | src/SpektrumDSM.cpp:75-82 | returns the flag and clears it, changing nothing else |
| `SpektrumDsm.SpektrumDSM.GetChannelValues` | src/SpektrumDSM.cpp:84-89 | values[k] = rcValue[k] + 988 for k < count, the rest untouched; under the presets each output is in [988, 2011] |
| `SpektrumDsm.SpektrumDSM.GetFadeCount` | src/SpektrumDSM.cpp:98-101 | returns the fade count of the decoder's state, which `HandleEvent` sets to byte 0 of each completed frame |
| `SpektrumDsm.SpektrumDSM.TimedOut` | src/SpektrumDSM.cpp:103-108 | with no wrap, timed out iff usec - last > maxMicros; across a wrap, iff usec + 2^32 - last > maxMicros |
| `SpektrumDsm.TimedOutAfter` | src/SpektrumDSM.cpp:103-108 | d µs after the last event the decoder has timed out exactly when d > maxMicros, so timer wrap-around gives no false positive |

## Left out

- `getChannelValuesNormalized` (src/SpektrumDSM.cpp:91-96) is not modelled: it uses float division.
- `dsmSerialAvailable` and `dsmSerialRead` are Arduino UART functions. They are replaced by the sequence of bytes available at the event. What the port does with bytes left unread is up to the port.
- The microsecond clock is not modelled: the caller supplies `usec`.
- Concurrency between the interrupt that calls `handleSerialEvent` and the readers is not modelled; calls are sequential.
- The header SpektrumDSM.h is not part of this model. `BUFFER_SIZE` is taken as 16, the channel table as 16 `uint16_t` slots, and `_rcValue` as `uint16_t`.
- The C++ `spekTimeLast` is a function-local static, so it is shared by all decoder objects. The model gives each object its own copy. The model is therefore exact only when the program has one decoder.
- Shift amounts of 32 or more are undefined behaviour in C++. The model gives 0 for the channel index and keeps halving for the value, which also gives 0.
- `SpektrumDsm.SpektrumDSM.GetChannelValues` requires `count` to be at most 16 and at most the length of the caller's array. The C++ does not check this; a larger count indexes out of bounds.
- `SpektrumDsm.SpektrumDSM.GetChannelValues`: its bound of [988, 2011] under the presets, and the preset clause of `Valid` (every table slot below 1024), hold before the first decoded frame only because the model starts the table at 0. In the C++ the table is indeterminate until the first frame is decoded, so `getChannelValues` can return anything before then. The same goes for `GetFadeCount` and `rxBuf` before the first frame.
