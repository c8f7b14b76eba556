# AVR SPI driver with interrupts: a Dafny model

This project models the interrupt-driven SPI library for 8-bit AVR
microcontrollers. It covers both variants of the driver: the `uint8_t`
version in `src/AVR_SPI_with_interrupts.c` and the older `char` version in
`src/AVR_SPI_with_interrupts.cpp`.

On the slave side, `ISR(SPI_STC_vect)` stores each received byte in
`SPI_buffer`. The terminator `DATA_END_CHAR` (0x0D) raises `dataReceived`.
The foreground routine `SPI_readAll` then copies the framed message into
`SPI_data`, clears the working buffer (all of it in the .cpp variant; in
the .c variant its first `receivedBytes` bytes, where `receivedBytes` counts
every payload byte received since the last successful read) and lowers the
flag. On the master
side, the transmit helpers drive the slave-select line low or high (depending
on the polarity mode), shift out a payload followed by the terminator, and
release the line. `hexArrayToUint64_t` / `hexArrayToHex` pack received bytes
back into a 64-bit number.

Modules:

- `Bytes`: the byte type, `DATA_END_CHAR`, `DATA_LENGTH` (51) and the
  C-string helpers the driver relies on (`strlen`, the string before the
  first NUL, zeroing a prefix).
- `Hex`: the big-endian fold `(acc << 8) | b`, with the 64-bit truncation
  written out. Also its reference reading as a weighted sum, the payload
  `SPI_transmitHex` emits, and the signed-`char` fold of the .cpp variant.
- `Bus`: the master's outside world. The slave-select port register is a
  `bv8`, and every byte transfer is one event appended to an output log
  (class `Master`). The polarity constants `DEFAULT_SS_CONTROL` = 1 and
  `INVERTED_SS_CONTROL` = 0 live here.
- `SpiC` and `SpiCpp`: one module per source file. Each holds:
  - the driver's globals as a value (`Globals`);
  - what one ISR firing and one `SPI_readAll` do to them, as functions
    (`AfterIsr`, `AfterReadAll`);
  - lemmas about those functions;
  - a class `Slave` holding the two arrays and the scalars, whose `Isr` and
    `ReadAll` methods update the arrays in place and are proved equal to
    the functions;
  - `flushBuffer`, the pack routine and the transmit helpers as methods
    with loops, proved against their specification functions.

## Model

| member | source | states |
|---|---|---|
| Bytes.IndexOf | src/AVR_SPI_with_interrupts.c:143-147 | where a `while (s[i] != x) i++` scan stops: the first position holding x, with no x before it |
| Bytes.IndexOfAppend | src/AVR_SPI_with_interrupts.c:143-147 | when x is not in s, its first index in s + t is len(s) plus its first index in t |
| Bytes.CopyUntil | src/AVR_SPI_with_interrupts.c:141-147 | the copy loop of `SPI_readAll` (also src/AVR_SPI_with_interrupts.cpp:122-129): the bytes before the first terminator are copied over the front of the destination, and the rest of it stays |
| Bytes.StrlenFirstNul | src/AVR_SPI_with_interrupts.cpp:104 | `strlen` (also at src/AVR_SPI_with_interrupts.cpp:264) is the position of the first NUL: that byte is NUL and none before it is |
| Bytes.Zeroed | src/AVR_SPI_with_interrupts.c:110-114 | `flushBuffer` on a value: the length is kept; the definition sets elements below n to 0 and keeps the others |
| Bytes.ZeroedSplit | src/AVR_SPI_with_interrupts.c:112-113 | zeroing the first n of s is n zeros followed by s from n on |
| Bytes.CStringOfPadded | src/AVR_SPI_with_interrupts.c:124-127 | a message without NUL followed by zero padding has exactly that message as its C string |
| Bytes.CStringHead | src/AVR_SPI_with_interrupts.c:124-127 | a C string read one byte at a time: a leading NUL ends it, any other leading byte is its first character |
| Hex.Pack | src/AVR_SPI_with_interrupts.c:283-286 | the unbounded accumulator fold; its low byte is always the last byte folded in |
| Hex.Shl8 | src/AVR_SPI_with_interrupts.c:286 | `acc << 8` on a uint64_t stays below 2^64 and has a zero low byte, so the following OR with a byte adds it |
| Hex.HexPayload | src/AVR_SPI_with_interrupts.c:313-314 | the payload has numBytes bytes and its last byte is the number's low byte |
| Hex.CharStep | src/AVR_SPI_with_interrupts.cpp:268 | one step with a `char` operand: the result is below 2^64 with that byte as its low byte; below 0x80 the earlier value moves up a byte (its top byte dropped); from 0x80 the result is 2^64 - 256 + b whatever came before |
| Hex.PackChars | src/AVR_SPI_with_interrupts.cpp:265-268 | the signed-`char` fold stays below 2^64 and its low byte is the last byte folded in |
| Hex.PackIsWeightedSum | src/AVR_SPI_with_interrupts.c:281-289 | the accumulator fold equals the sum of s[i]·256^(len(s)-1-i) (big-endian reading) |
| Hex.PackBound | src/AVR_SPI_with_interrupts.c:281-289 | n packed bytes are below 256^n |
| Hex.PackAppendMod | src/AVR_SPI_with_interrupts.c:285-286 | one loop step `(acc << 8)` OR b on the 64-bit accumulator is the unbounded fold extended by b, taken modulo 2^64 |
| Hex.ShiftInMod | src/AVR_SPI_with_interrupts.c:286 | `(acc << 8) OR b` on a uint64_t: shifting the truncated accumulator and adding b is the untruncated value modulo 2^64 |
| Hex.HexPayloadSnoc | src/AVR_SPI_with_interrupts.c:313-314 | the emitted payload ends with the low byte of the number, after the payload of the number shifted right by 8 |
| Hex.HexPayloadAt | src/AVR_SPI_with_interrupts.c:313-314 | byte numBytes-1-i of the payload is `(hexNumber >> (i * 8)) & 0xFF` |
| Hex.PackHexPayload | src/AVR_SPI_with_interrupts.c:313-314 | packing the n bytes `SPI_transmitHex` emits gives back the number modulo 256^n |
| Hex.PackCharsAscii | src/AVR_SPI_with_interrupts.cpp:267-268 | for bytes below 0x80 the signed-`char` fold equals the unsigned 64-bit fold |
| Hex.PackCharsSignExtends | src/AVR_SPI_with_interrupts.cpp:267-268 | a byte of 0x80 or more wipes out the accumulator: the result has bits 8..63 set and that byte as its low byte |
| Bus.PullHigh | src/AVR_SPI_with_interrupts.c:203 | `pullHigh` has the SS bit set and every other bit as the port had it |
| Bus.PullLow | src/AVR_SPI_with_interrupts.c:204 | `pullLow` has the SS bit cleared and every other bit as the port had it |
| Bus.Pick | src/AVR_SPI_with_interrupts.c:207 | the mode-selected value equals the source's `(SSmode == DEFAULT_SS_CONTROL) * a + (SSmode == INVERTED_SS_CONTROL) * b` on 8-bit values |
| Bus.StartLevel | src/AVR_SPI_with_interrupts.c:203-207 | the value written before the first byte: the SS bit low in default mode and high in inverted mode, other bits as in the snapshot taken at entry, and 0 for any other mode |
| Bus.EndLevel | src/AVR_SPI_with_interrupts.c:212 | the value written after the last byte: the SS bit high in default mode and low in inverted mode, other bits as in the entry snapshot, and 0 for any other mode |
| Bus.SentOuts | src/AVR_SPI_with_interrupts.c:169-175 | the bytes a run of transfers shifts out are exactly the bytes written, in order |
| Bus.SentAppend | src/AVR_SPI_with_interrupts.c:169-175 | the bytes shifted out by two consecutive logs are the first log's bytes followed by the second's |
| Bus.GuardedShape | src/AVR_SPI_with_interrupts.c:207-212 | a guarded exchange is one SS write, then one transfer per byte in order, then one SS write; it shifts out exactly the payload |
| Bus.Master.constructor | src/AVR_SPI_with_interrupts.c:201-204 | the bus starts with the given port value and an empty log |
| Bus.Master.SetPort | src/AVR_SPI_with_interrupts.c:207 | a write to the SS port register sets it and is logged |
| Bus.Master.Put | src/AVR_SPI_with_interrupts.c:169-175 | `SPI_masterPutUint8_t` appends exactly one byte to the log and leaves the port alone |
| SpiC.AfterIsr | src/AVR_SPI_with_interrupts.c:86-102 | one ISR firing stores b at the cursor and changes no other buffer element and no `SPI_data`; the flag is raised exactly by 0x0D, which rewinds the cursor and keeps the count; any other byte advances cursor and count by one |
| SpiC.AfterReadAll | src/AVR_SPI_with_interrupts.c:134-161 | returns the flag; with the flag down nothing changes; both arrays keep their length, the flag ends down, the cursor is untouched and a successful call resets the count |
| SpiC.AfterReadAllFixed | src/AVR_SPI_with_interrupts.c:134-161 | the corrected `SPI_readAll`: `SPI_data` is the copied prefix followed only by zeros, and every other part of the new state equals that of `AfterReadAll` |
| SpiC.Feed | src/AVR_SPI_with_interrupts.c:86-102 | a run of ISR firings never resizes the buffer, never touches `SPI_data`, and moves the cursor at most one place per byte |
| SpiC.FeedPayload | src/AVR_SPI_with_interrupts.c:88-95 | non-terminator bytes land one after another at the cursor; the cursor and `receivedBytes` rise by their number; the flag is unchanged |
| SpiC.FrameMessage | src/AVR_SPI_with_interrupts.c:86-102 | a message followed by 0x0D, fed from idle, lands at the front of `SPI_buffer` with its terminator; the flag goes up, the cursor is back at 0 and `receivedBytes` is the message length |
| SpiC.ReadFramed | src/AVR_SPI_with_interrupts.c:134-157 | `SPI_readAll` after such a frame returns true, puts the message in front of the old bytes of `SPI_data`, zeroes only the message bytes of `SPI_buffer` (the terminator stays) and returns to idle |
| SpiC.FrameThenRead | src/AVR_SPI_with_interrupts.c:86-161 | framing then `SPI_readAll` returns true once with the message at the front of `SPI_data`, and an immediate second call returns false and changes nothing |
| SpiC.ReadAllFrame | src/AVR_SPI_with_interrupts.c:136-156 | with k the first terminator and n = `receivedBytes`: `SPI_data[0..k)` becomes `SPI_buffer[0..k)`; `SPI_data` is zero on [k, n) and unchanged above; `SPI_buffer` is zero below n and unchanged from n on; flag and counter are reset |
| SpiC.ToggleScenario | src/AVR_SPI_with_interrupts.c:86-161 | feeding 'T','O','G','G','L','E',0x0D from start-up and then calling `SPI_readAll` gives `SPI_strcmp(SPI_data, "TOGGLE") == 0` |
| SpiC.ReadFromStart | src/AVR_SPI_with_interrupts.c:78-161 | the first message read after start-up is followed by zeros in `SPI_data`, and the driver is idle again |
| SpiC.StaleTail | src/AVR_SPI_with_interrupts.c:139 | after a message prev has been read, reading a shorter NUL-free message msg leaves the C string msg followed by the rest of prev in `SPI_data`, so `SPI_strcmp(SPI_data, msg) != 0` (e.g. "TOGGLED" then "TOGGLE" leaves "TOGGLED") |
| SpiC.FixedReadAllDelivers | src/AVR_SPI_with_interrupts.c:134-157 | with `SPI_data` flushed over its whole length, the data holds exactly the new message as a C string, whatever came before |
| SpiC.ReadFramedFixed | src/AVR_SPI_with_interrupts.c:134-157 | with the full flush, `SPI_data` after a frame is the message followed by zeros |
| SpiC.Slave.constructor | src/AVR_SPI_with_interrupts.c:78-83 | the globals start zeroed: both arrays are 51 zero bytes, the cursor and counter are 0 and the flag is down |
| SpiC.Slave.Isr | src/AVR_SPI_with_interrupts.c:86-102 | the byte is always stored at the cursor; a non-terminator advances the cursor and `receivedBytes` and keeps the flag; 0x0D raises the flag, rewinds the cursor and keeps the count |
| SpiC.Slave.ReadAll | src/AVR_SPI_with_interrupts.c:134-161 | with the flag down: returns false and changes nothing; with it up: returns true, `SPI_data[0..k)` equals the old `SPI_buffer[0..k)`, flag and counter are reset, and the whole new state is `AfterReadAll` of the old one |
| SpiC.FlushBuffer | src/AVR_SPI_with_interrupts.c:110-114 | exactly `a[0..size)` becomes 0 and every other element keeps its value |
| SpiC.Strcmp | src/AVR_SPI_with_interrupts.c:124-127 | zero exactly when the two C strings are equal |
| SpiC.StrcmpOrder | src/AVR_SPI_with_interrupts.c:121-126 | negative exactly when the first string sorts before the second (bytes compared unsigned, a proper prefix first), positive exactly when it sorts after, and antisymmetric |
| SpiC.HexArrayToUint64 | src/AVR_SPI_with_interrupts.c:281-289 | the loop returns the big-endian fold of `a[0..size)` modulo 2^64 |
| SpiC.PackFits | src/AVR_SPI_with_interrupts.c:281-289 | for at most 8 bytes no truncation happens: the result is the weighted sum and lies below 2^(8n) |
| SpiC.HexRoundTrip | src/AVR_SPI_with_interrupts.c:281-289 | packing what `SPI_transmitHex(…, n, v)` emits gives v mod 2^(8n) for n ≤ 8 |
| SpiC.HexPayloadExample | src/AVR_SPI_with_interrupts.c:313-314 | numBytes 2 and 0x1234 emit 0x12 then 0x34 |
| SpiC.TransmitUint8 | src/AVR_SPI_with_interrupts.c:201-215 | the log gains SS start level, `data`, 0x0D, SS end level; the port ends at the end level |
| SpiC.TransmitString | src/AVR_SPI_with_interrupts.c:226-245 | the log gains SS start level, the bytes before the first NUL, 0x0D, SS end level |
| SpiC.ReceiveUint8 | src/AVR_SPI_with_interrupts.c:256-271 | exactly one dummy 0xFF is shifted out between the two SS writes, and the byte clocked in is returned |
| SpiC.StringReadBack | src/AVR_SPI_with_interrupts.c:86-161 | the bytes a guarded string transmission shifts out (src/AVR_SPI_with_interrupts.c:226-245), fed to the slave from start-up, are read back by `SPI_readAll` as the same C string |
| SpiC.TransmitHex | src/AVR_SPI_with_interrupts.c:303-321 | the log gains SS start level, `(hexNumber >> 8i) & 0xFF` for i = numBytes-1 down to 0, 0x0D, SS end level |
| SpiCpp.AfterIsr | src/AVR_SPI_with_interrupts.cpp:86-95 | one ISR firing stores b at the cursor and changes no other buffer element and no `SPI_data`; the flag is raised exactly by 0x0D, which rewinds the cursor, and any other byte advances it by one |
| SpiCpp.AfterReadAll | src/AVR_SPI_with_interrupts.cpp:115-142 | returns the flag; with the flag down nothing changes; both arrays keep their length, the flag ends down and the cursor is untouched |
| SpiCpp.ReadAllFrame | src/AVR_SPI_with_interrupts.cpp:117-136 | with k the first terminator and m = `strlen(SPI_data)` kept in a uint8_t: `SPI_data[0..k)` becomes `SPI_buffer[0..k)`, `SPI_data` is zero on [k, m) and unchanged above, and all of `SPI_buffer` is 0 |
| SpiCpp.Feed | src/AVR_SPI_with_interrupts.cpp:86-95 | a run of ISR firings never resizes the buffer, never touches `SPI_data`, and moves the cursor at most one place per byte |
| SpiCpp.FeedPayload | src/AVR_SPI_with_interrupts.cpp:88-90 | non-terminator bytes land one after another at the post-incremented cursor; the flag is unchanged |
| SpiCpp.FrameMessage | src/AVR_SPI_with_interrupts.cpp:86-95 | a message followed by 0x0D, fed from idle, lands at the front of `SPI_buffer`; the flag goes up and the cursor is back at 0 |
| SpiCpp.ReadFramed | src/AVR_SPI_with_interrupts.cpp:115-142 | `SPI_readAll` right after such a frame, with zero-padded `SPI_data`, returns true, leaves exactly the message followed by zeros and clears all of `SPI_buffer` |
| SpiCpp.ReadAllKeepsLastNul | src/AVR_SPI_with_interrupts.cpp:115-142 | the copy never reaches the last byte of `SPI_data`, so a NUL there survives every `SPI_readAll` and the next `strlen` stays in bounds |
| SpiCpp.ReadAllPadded | src/AVR_SPI_with_interrupts.cpp:102-133 | if `SPI_data` is zero from its `strlen` on and the payload has no NUL, a true `SPI_readAll` leaves the new message followed by zeros, so the invariant holds again, and every entry of `SPI_buffer` is 0 |
| SpiCpp.FrameThenRead | src/AVR_SPI_with_interrupts.cpp:86-142 | framing a NUL-free message then `SPI_readAll` returns true once, with exactly the message (zero-padded) in `SPI_data` and a cleared buffer; a second call returns false |
| SpiCpp.ToggleScenario | src/AVR_SPI_with_interrupts.cpp:86-142 | 'T','O','G','G','L','E',0x0D from start-up leaves the C string "TOGGLE" in `SPI_data` |
| SpiCpp.Slave.constructor | src/AVR_SPI_with_interrupts.cpp:80-83 | both arrays start as 51 zero bytes, with the cursor at 0 and the flag down |
| SpiCpp.Slave.Isr | src/AVR_SPI_with_interrupts.cpp:86-95 | the byte is stored at the cursor, which is post-incremented; 0x0D raises the flag and rewinds the cursor, any other byte keeps the flag |
| SpiCpp.Slave.ReadAll | src/AVR_SPI_with_interrupts.cpp:115-142 | with the flag down: returns false and changes nothing; with it up: returns true, `SPI_data[0..k)` equals the old `SPI_buffer[0..k)`, all 51 entries of `SPI_buffer` are 0, the flag is down, and the whole new state is `AfterReadAll` of the old one |
| SpiCpp.Clear | src/AVR_SPI_with_interrupts.cpp:132-133 | the clearing loop of `SPI_readAll`: every element of the array becomes 0 |
| SpiCpp.FlushBuffer | src/AVR_SPI_with_interrupts.cpp:102-108 | exactly the elements before the first NUL (`strlen` kept in a `uint8_t`) become 0, and the rest keep their values |
| SpiCpp.HexArrayToHex | src/AVR_SPI_with_interrupts.cpp:262-271 | the loop returns the signed-`char` fold over the first `strlen(array) mod 256` bytes, and for arrays of at most 256 bytes over the whole C string |
| SpiCpp.HexArrayToHexAscii | src/AVR_SPI_with_interrupts.cpp:262-271 | for a C string of bytes 1..0x7F the result is the big-endian fold modulo 2^64, the value `hexArrayToUint64_t` gives |
| SpiCpp.SignExtensionClobbers | src/AVR_SPI_with_interrupts.cpp:268 | [0x12, 0x84] reads back as 0xFFFFFFFFFFFFFF84, not 0x1284 |
| SpiCpp.ZeroByteTruncates | src/AVR_SPI_with_interrupts.cpp:264 | the payload `SPI_transmitHex(…, 2, 0x1200)` emits, [0x12, 0x00], reads back as 0x12 |
| SpiCpp.TransmitChar | src/AVR_SPI_with_interrupts.cpp:182-196 | the log gains SS start level, `c`, 0x0D, SS end level; the port ends at the end level |
| SpiCpp.TransmitString | src/AVR_SPI_with_interrupts.cpp:207-226 | the log gains SS start level, the bytes before the first NUL, 0x0D, SS end level |
| SpiCpp.ReceiveChar | src/AVR_SPI_with_interrupts.cpp:237-252 | exactly one dummy 0xFF is shifted out between the two SS writes, and the byte clocked in is returned |
| SpiCpp.StringReadBack | src/AVR_SPI_with_interrupts.cpp:86-142 | the bytes a guarded string transmission shifts out (src/AVR_SPI_with_interrupts.cpp:207-226), fed to the slave from start-up, are read back by `SPI_readAll` as the same C string |
| SpiCpp.TransmitHex | src/AVR_SPI_with_interrupts.cpp:286-304 | the log gains SS start level, the numBytes low bytes of `hexNumber` most significant first, 0x0D, SS end level |

The constants come from `include/AVR_SPI_char_defines.h:13-14` (0x0D and
51) and `include/AVR_SPI_with_interrupts.h:53-54` (the polarity selectors).

## Left out

- `SPI_init` (both files) is left out. It is one-shot register configuration of `SPCR`, `SPSR` and `DDRx`, and its meaning lies in the device datasheet.
- The SPIF busy-wait loops and raw `SPDR` access are left out. This covers `SPI_masterPut*`, `SPI_put*`, `SPI_read*` and `SPI_masterRead*`. Each transfer is one atomic step: a write appends a byte to the log, and a read returns a byte given as the parameter `incoming`. A peer that never completes a transfer, which hangs the source, is not modelled.
- Interrupt preemption and `volatile` are not modelled. ISR firings happen only between whole foreground calls (`Feed` and `Slave.Isr` between calls of `ReadAll`). `SPI_readAll` has no critical section in the source, and none is added.
- SpiC.Slave.Isr and SpiCpp.Slave.Isr require the cursor to be inside the buffer. The source has no bound check, and the model does not invent a capping policy for overlong messages.
- SpiC.Slave.ReadAll and SpiCpp.Slave.ReadAll require what keeps the source's loops in bounds:
  - a terminator in `SPI_buffer` when the flag is up;
  - `receivedBytes` ≤ 51 (.c). The modelled ISR can exceed this: two unread frames of 30 payload bytes each leave `receivedBytes` at 60. From that state the source's `flushBuffer(SPI_data, receivedBytes)` (src/AVR_SPI_with_interrupts.c:139) and the clearing of `SPI_buffer` (src/AVR_SPI_with_interrupts.c:150-151) write past both 51-byte arrays. The model does not describe that memory overrun;
  - a NUL in `SPI_data` (.cpp).
- SpiC.TransmitHex and SpiCpp.TransmitHex require numBytes ≤ 8, as the source documentation demands; a shift by 64 bits or more is not modelled.
- All transmit and receive methods require an SS pin number below 8; `1 << n` for larger n is not modelled.
- `dataIndex` is `uint8_t`, `receivedBytes` is `size_t`, and the loop counters are `int` or `size_t` (16-bit on AVR). Within the driver's own calls, `dataIndex` and the loop counters stay below 256: the globals are 51 bytes long and `numBytes` is at most 8. SpiC.FlushBuffer and SpiC.HexArrayToUint64 take any `size` up to the array length; their `size_t` counters run up to `size` and cannot wrap before `size` itself does. `receivedBytes` is an unbounded integer in the model: it grows by one per payload byte across frames that `SPI_readAll` has not consumed, its 16-bit wrap-around on AVR is not modelled, and SpiC.Slave.ReadAll requires it to be at most 51.
- The framing property is stated for messages that contain no 0x0D. A payload byte equal to the terminator ends the message early; that is a protocol limitation, and `FeedPayload` / `FrameMessage` say nothing about such inputs.
- SpiC.Strcmp: C `strcmp` fixes only the sign of its result. The model returns the difference of the first differing bytes, as avr-libc's `strcmp` does. StrcmpOrder states zero-ness and sign against a lexicographic order, and its antisymmetry clause `Strcmp(a, b) == -Strcmp(b, a)` is about that value, not only its sign.
- The .c ISR stores the terminator in `SPI_buffer` as well as the payload bytes. The model follows the code; a reading in which only non-terminator bytes are stored does not match the source.
- `include/AVR_SPI_pin_defines.h` (per-device pin numbers) is not part of this model. Pins are parameters.
- The example sketches are not part of this model; only their command scenario ("TOGGLE") is stated as a lemma.

## Findings

| source | as written | input that shows it | evidently intended | confidence | as-written member | corrected member |
|---|---|---|---|---|---|---|
| src/AVR_SPI_with_interrupts.c:139 | `flushBuffer(SPI_data, receivedBytes)` clears only `receivedBytes` bytes of `SPI_data`; after a single frame that is the new message's length, so the tail of an earlier, longer message survives | "TOGGLED" then "TOGGLE": `SPI_data` still holds "TOGGLED" and `SPI_strcmp(SPI_data, "TOGGLE") != 0` | clear all of `SPI_data` (or at least the previous message) before copying, so `SPI_data` holds exactly the new message | high; not executed | SpiC.StaleTail | SpiC.FixedReadAllDelivers |
| src/AVR_SPI_with_interrupts.cpp:268 | `(combinedHex << 8)` OR `array[i]` with `array[i]` a signed `char`: a byte ≥ 0x80 is sign-extended to 64 bits and overwrites every earlier byte | [0x12, 0x84] gives 0xFFFFFFFFFFFFFF84 | read each byte as unsigned and get 0x1284, as the .c variant does with `uint8_t` | high (avr-gcc `char` is signed by default); not executed | SpiCpp.SignExtensionClobbers | SpiC.HexRoundTrip |
| src/AVR_SPI_with_interrupts.cpp:264 | the number of bytes is `strlen(array)`, so a 0x00 payload byte ends the number | `SPI_transmitHex(…, 2, 0x1200)` emits [0x12, 0x00], which reads back as 0x12 | pack the number of bytes actually received, as the .c variant does with an explicit size | high; not executed | SpiCpp.ZeroByteTruncates | SpiC.HexArrayToUint64 |

In each row, the corrected behaviour is what the .c variant's pack routine
(`SpiC.HexArrayToUint64`, with `SpiC.HexRoundTrip`) or the full-flush
definition (`SpiC.AfterReadAllFixed`) does. The `Slave` classes model the
code as written.
