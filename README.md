# Message dispatch over fixed-layout byte packets

The program under study, `test.c`, handles small binary packets. Each packet
starts with a common 4-byte header: `id` (byte 0), `type` (byte 1) and `len`
(bytes 2-3, a little-endian uint16). The payload follows at offset 4.
`dispatch` switches on the type byte. Type `0x34` (`MSG_DISPLAY`) goes to
`display_message`, which copies the `len` payload bytes into a fresh
`len + 1` byte buffer that it means to NUL-terminate (see Findings), and
prints it. Type `0x80` (`MSG_MOTOR`) goes to
`update_motor`, which views the packet as `motor_msg_type`: two 32-bit words
at offsets 4 and 8. `dispatch` answers 1 for both known types, whatever the
handler answered, and 0 for any other type. `main` walks a null-terminated
table of test packets, counts the packets `dispatch` answers 0 for, and
returns that count.

The model has four modules:

- `Bytes` (`bytes.dfy`): `uint8`/`uint16`/`uint32`, little-endian decoding
  and encoding, and their round-trip lemmas.
- `MessageFormat` (`message_format.dfy`): the header and motor layouts,
  `ParseHeader`, `Payload`, `ReadMotor`, their encoders, and `Readable`. The C
  code casts a raw buffer to a struct. Here every field is a bounds-checked
  read from a `seq<uint8>`. `ParseHeader` and `ReadMotor` report
  `TooShort`/`LengthOutOfBounds` as results. `Readable` is the precondition of
  `Dispatch`: it says exactly which reads the C code makes. That is the
  header, plus the declared payload for a display packet, plus the 12 bytes
  of `motor_msg_type` for a motor packet.
- `Dispatcher` (`dispatcher.dfy`): the `switch` as the pure functions
  `Classify`/`DispatchCode`, and the `Dispatch` method that calls the
  handlers. `DisplayMessage` is a method that fills a freshly allocated
  `array<uint8>`. The `memcpy` is a simultaneous `forall` assignment. The
  flag `allocSucceeds` stands for whether `malloc` succeeded. `UpdateMotor`
  is a pure read of the two words.
- `TestDriver` (`test_driver.dfy`): the shipped test vectors, the tally loop
  of `main` as the method `RunTests` (specified by the functions `Live` and
  `Failures`), and `RunShippedTests`, which is `main` over the shipped table.

The model follows the code where it differs from a defensive, typed-error
decoder of the same format:

- A typed-error decoder would reject a short buffer, a length out of
  bounds, a motor payload whose `len` is not 8, and an unknown type carrying
  its tag. The code checks none of the first three. It rejects an unknown
  type only by answering 0; the tag goes to the `ERROR` log, not into the
  result. It returns 1 for every display or motor packet. The model keeps the
  code's answers. The reads the code makes without checking become the
  precondition `Readable`. The header checks exist as the error results of
  `ParseHeader`. No member rejects a motor packet whose `len` is not 8,
  because the code reads both words whatever `len` says.
- The motor test vector's bytes `00 00 80 3F` and `00 00 00 BF` are the
  words 0x3F800000 and 0xBF000000. Read as IEEE-754 singles the motor words
  are 1.0 and -0.5. (-1.0 would be 0xBF800000, the bytes `00 00 80 BF`.)
  `MotorVectorLayout` states the raw words.
- The doc comment of `main` says it returns 0 on success and 1 on failure.
  The code returns the number of failed packets, and so does the model.

## Model

| member | source | states |
|---|---|---|
| `Bytes.LeUint16` | test.c:58-66 | the value of `len` has low byte `lo` (remainder by 256) and high byte `hi` (quotient by 256): little-endian |
| `Bytes.Uint16Le` | test.c:58-66 | the 2-byte encoding of any uint16 decodes back to it |
| `Bytes.Uint16LeOfLeUint16` | test.c:58-66 | re-encoding a decoded `len` gives the original two bytes |
| `Bytes.LeUint32` | test.c:71-77 | a 4-byte motor word splits into its little-endian low half (bytes 0-1) and high half (bytes 2-3) |
| `Bytes.LeUint32OfUint32Le` | test.c:71-77 | decoding the 4-byte little-endian encoding of any 32-bit word gives that word |
| `Bytes.Uint32LeOfLeUint32` | test.c:71-77 | re-encoding a decoded 32-bit word gives back exactly the 4 bytes read |
| `MessageFormat.ParseHeader` | test.c:58-68 | fails with TooShort exactly when the buffer is under 4 bytes, and with LengthOutOfBounds exactly when `4 + len` exceeds it; otherwise `id == buf[0]`, `type == buf[1]`, `len == buf[2] + 256*buf[3]`, and the payload fits |
| `MessageFormat.Payload` | test.c:63-68 | the payload read from offset 4 (`data`) is exactly `len` bytes long |
| `MessageFormat.HeaderRoundTrip` | test.c:63-68 | an encoded header followed by `len` bytes parses back to that header and that payload |
| `MessageFormat.HeaderFraming` | test.c:63-68 | every buffer whose header parses is its 4 header bytes, then its `len` payload bytes, then whatever trails them |
| `MessageFormat.ReadMotor` | test.c:71-77 | fails exactly when the buffer is shorter than `motor_msg_type` (12 bytes); otherwise `forward_back` is the little-endian word in bytes 4-7 and `left_right` the one in bytes 8-11 |
| `MessageFormat.ReadableReadsInBounds` | test.c:168-237 | on every buffer `Readable` admits, the reads `dispatch` makes are all inside the buffer: the header always (`message_show` and the switch), the declared payload for a display packet (the `memcpy`), and both motor words for a motor packet (the `motor_msg_type` view) |
| `MessageFormat.MotorRoundTrip` | test.c:71-77 | an encoded motor message (type 0x80, len 8) parses to its header and reads back to exactly its two words |
| `Dispatcher.Classify` | test.c:171-184 | the switch sends type 0x34 to display, 0x80 to motor, and every other type to the default branch, keeping the tag |
| `Dispatcher.DispatchCode` | test.c:171-186 | `dispatch` answers 0 exactly when the type is neither 0x34 nor 0x80, and 1 exactly when it is one of them |
| `Dispatcher.Dispatch` | test.c:166-187 | the result depends only on the type byte: 1 for both known types whatever the handler and the allocation do, 0 exactly for unknown types |
| `Dispatcher.DisplayText` | test.c:205-212 | the display buffer holds `len + 1` bytes: the `len` payload bytes `buf[4..4+len]`, then a 0 at index `len` |
| `Dispatcher.DisplayMessage` | test.c:200-218 | returns 0 and no buffer when allocation fails; otherwise returns 1 and a fresh array equal to `DisplayText` (terminator at `len`, corrected); the input is a value and is not changed |
| `Dispatcher.CString` | test.c:212-214 | the bytes `%s` prints are a 0-free prefix of the buffer that stops at its first 0 byte (or runs to its end when it has none) |
| `Dispatcher.CStringOfTerminated` | test.c:212-214 | a terminated byte string prints as a prefix of itself, and prints whole exactly when it has no 0 byte |
| `Dispatcher.DisplayShowsPayload` | test.c:211-214 | the displayed text is the payload cut at its first 0 byte: never beyond the payload, the whole payload exactly when it has no 0 byte, and otherwise ending right before a 0 |
| `Dispatcher.UpdateMotor` | test.c:230-239 | `update_motor` always answers 1, and the words it logs are those read at byte offsets 4 and 8 |
| `Dispatcher.StoreByte` | test.c:212 | a one-byte store succeeds exactly when the index is inside the buffer, keeps the length, writes the byte at the index and leaves every other byte unchanged |
| `Dispatcher.DisplayTextAsWritten` | test.c:205-212 | the buffer as written (allocate `len + 1`, copy `len`, store 0 at `len + 1`) never exists: for every display message the store falls outside the allocation |
| `TestDriver.Live` | test.c:97-102 | the table entries visited before the null sentinel: the sentinel sits right after them, and each is the entry at its index |
| `TestDriver.Failures` | test.c:125-136 | the number of packets `dispatch` answers 0 for never exceeds the number of packets |
| `TestDriver.FailuresStep` | test.c:130-135 | one more packet adds one failure exactly when `dispatch` answers 0 for it |
| `TestDriver.NoFailuresIffAllKnown` | test.c:125-146 | a run has zero failures exactly when every packet has type 0x34 or 0x80 |
| `TestDriver.RunTests` | test.c:125-146 | the loop stops at the first null entry, `total_tests` is the number of packets before it, `total_fail` counts the packets answered 0, and `total_pass + total_fail == total_tests` |
| `TestDriver.RunShippedTests` | test.c:121-147 | over the shipped table, `main` returns 0 |
| `TestDriver.ShippedVectors` | test.c:92-102 | the shipped table has two packets before its null entry, and both are readable and pass |
| `TestDriver.InvalidVectorRejected` | test.c:95-100 | with the commented-out packet of type 0x22 restored, the run has exactly one failure |
| `TestDriver.MotorVectorLayout` | test.c:93-94 | the motor vector is exactly 12 bytes, declares len 8, and carries the words 0x3F800000 and 0xBF000000 |
| `TestDriver.DisplayVectorLayout` | test.c:92 | the display vector declares len 5, carries "Hello", and displays all of it |
| `TestDriver.MalformedHeaders` | test.c:63-68 | a declared length of 0x7FFF with no payload, and a 2-byte buffer, are refused by the header checks; the invalid vector's declared length also overruns its buffer, yet `dispatch` may read it, because the default branch reads only the header |
| `TestDriver.DisplayVectorAsWritten` | test.c:212 | on the shipped display vector the allocation is 6 bytes and the as-written terminator store is out of bounds |

## Left out

- Logging: `printf`, the `DEBUG`/`ERROR` macros and `message_show` only produce output and never change control flow. `CString` captures how much of the display buffer `%s` would print, but the printing itself is not modelled.
- Floating point: the motor words are raw 32-bit patterns, not interpreted as `float`.
- `malloc`/`free`: allocation is the flag `allocSucceeds` (per packet, `allocOutcomes` in `RunTests`). `free` has no counterpart. Like `malloc`, `new uint8[len + 1]` leaves the contents unspecified. The corrected code writes every byte, so no contract depends on them.
- The `ASSERT` macros become preconditions: `msg->type == MSG_DISPLAY` on `DisplayMessage`, `msg->type == MSG_MOTOR` on `UpdateMotor`. `msg->len <= MAX_MESSAGE_SIZE` always holds for a uint16 and is dropped. The null-pointer asserts have no counterpart, because a `seq` cannot be null.
- Pointer casts from raw buffers to structs: these are bounds-checked reads from a byte sequence. The reads the code makes unchecked are the precondition `Readable`. The model cannot express what the C code does on a shorter buffer, because that behaviour is undefined.
- The POSIX and endianness `#error` guards: little-endian is built into `LeUint16`/`LeUint32`.
- `main`'s arguments and its "Begin tests" banner are not modelled. `int` counters are unbounded here. They never exceed the number of table entries, so C `int` overflow is not modelled.
- `RunTests` takes the table as a parameter instead of reading the global `test_data`. `RunShippedTests` passes it the global.

## Findings

| source | as written | input that shows it | evidently intended | confidence | as-written member | corrected member |
|---|---|---|---|---|---|---|
| test.c:212 | `text[msg->len + 1] = 0` stores one byte past the `msg->len + 1` byte allocation of line 205, and leaves `text[len]` uninitialised | `display_packet` (len 5): 6 bytes are allocated and the store goes to index 6 | terminate at index `len`, the last byte of the allocation | not executed | `Dispatcher.DisplayTextAsWritten` | `Dispatcher.DisplayMessage` |
