# Fuzz-input cursor of the Kafka fuzz client

The Kafka fuzz client (`examples/kafka_fuzz_client.c`) drives a Kafka client library
with bytes taken from an input file. Its own logic is a small byte cursor. The file is
loaded once into the global buffer `fuzz_file_string` of `fuzz_file_length` bytes. The
global position `fuzz_file_index` starts at 0. On top of that sit four operations:

- `read_byte` returns the next byte and advances. Once the input is exhausted it returns 0
  and the position stays where it is.
- `read_int` combines four successive bytes with 32-bit unsigned shifts and ORs.
- `read_string(n)` returns a fresh `n + 1` byte buffer. It holds `n` successive bytes
  (0 past the end of the input) and then a NUL terminator.
- `is_printable(buf, size)` tells whether the first `size` bytes of a buffer are all printable.

The project has two modules:

- `Cursor` (`cursor.dfy`) holds a value-level reference model of the cursor:
  - `NextByte`, the byte a read at a position yields;
  - `Step`, one `read_byte` as a transition;
  - `ReadN`, `n` successive reads;
  - `IntAsWritten`, the `read_int` combination;
  - `Serve` and `Session`, one request and then any sequence of requests.

  The same module holds the class `FuzzStream`. Its fields are the buffer (`data`) and
  the position (`index`). Its methods `ReadByte`, `ReadInt`, `ReadString` and
  `ReadLengthPrefixed` change only `index`, and their postconditions are stated in terms
  of the reference model.
- `Printable` (`printable.dfy`) models `is_printable` as a loop with an early return.

Bytes are `bv8` and the `read_int` result is `bv32`, so the bit-level semantics of the
shifts are exact. Where the source stores a byte in a `char`, the model keeps its 8-bit
pattern.

What is proved:

- `read_byte` returns 0 and stays put at or past the end. Before the end it returns the
  byte at the position and advances by one. Only the position changes.
- The k-th of `n` successive reads yields the byte at `start + k`, or 0 past the end. The
  position advances by `min(n, remaining)`.
- `read_int` returns `(b1 << 24) | (b2 << 8) | b3`, where `b0..b3` are the four bytes read.
  The first byte is shifted out of the 32-bit word and never affects the result. The
  other three bytes can be recovered from it.
- `read_string(n)` gives `n + 1` bytes. The first `n` are the successive reads and the
  last is 0.
- Any sequence of byte, int and string requests moves the position forward only. It moves
  exactly by the number of bytes requested, capped by what is left. So a cursor that starts
  within the input never passes its end.
- `is_printable` returns 1 exactly when every byte in `buf[0..size)` is in the C-locale
  printable range 0x20..0x7E, and 0 otherwise. For size 0 it returns 1.

## Model

| member | source | states |
|---|---|---|
| `Cursor.ReadN` | examples/kafka_fuzz_client.c:84-87 | `n` successive reads yield exactly `n` bytes |
| `Cursor.ReadNSpec` | examples/kafka_fuzz_client.c:50-58 | the k-th of `n` successive `read_byte` results is the byte at `start + k` (0 once past the end); the position ends at `start + min(n, remaining)` |
| `Cursor.IntAsWritten` | examples/kafka_fuzz_client.c:62-73 | the shift/OR sequence of `read_int` in 32-bit unsigned arithmetic equals `b1 << 24` OR `b2 << 8` OR `b3`; bits 16..23 of the result are always 0 |
| `Cursor.ReadIntIgnoresFirstByte` | examples/kafka_fuzz_client.c:62-64 | changing the first byte `read_int` reads never changes its result |
| `Cursor.ReadIntKeepsLastThreeBytes` | examples/kafka_fuzz_client.c:65-73 | the second, third and fourth bytes read are recovered from bits 24..31, 8..15 and 0..7 of the result |
| `Cursor.ServeSpec` | examples/kafka_fuzz_client.c:50-89 | a byte, int or string request yields the byte at the position, the `read_int` value of the next four bytes, or `n` bytes followed by a NUL; the position advances by `min(width, remaining)` |
| `Cursor.Session` | examples/kafka_fuzz_client.c:50-89 | a sequence of requests served in order yields one value per request |
| `Cursor.SessionPosition` | examples/kafka_fuzz_client.c:45-57 | across any sequence of reads the position never decreases; it ends at `start + min(bytes requested, remaining)`; starting within the input it never exceeds the input length |
| `Cursor.SessionValues` | examples/kafka_fuzz_client.c:50-89 | the i-th value of a session is what the i-th request yields from where the earlier requests left the position |
| `Cursor.FuzzStream.constructor` | examples/kafka_fuzz_client.c:45-47 | after loading, the buffer holds the input file and the position is 0 |
| `Cursor.FuzzStream.ReadByte` | examples/kafka_fuzz_client.c:50-58 | at or past the end: returns 0, position unchanged; before the end: returns the byte at the position, position + 1; the buffer never changes |
| `Cursor.FuzzStream.ReadInt` | examples/kafka_fuzz_client.c:60-74 | returns the `read_int` combination of the next four read results and advances by `min(4, remaining)`; the buffer never changes |
| `Cursor.FuzzStream.ReadString` | examples/kafka_fuzz_client.c:76-90 | a fresh buffer of `n + 1` bytes holding the next `n` read results (0 past the end) and a final 0; the position advances by `min(n, remaining)`; the input buffer never changes |
| `Cursor.FuzzStream.ReadLengthPrefixed` | examples/kafka_fuzz_client.c:505 | `read_string(read_byte())`: a buffer of `b + 1` bytes, where `b` is the next byte; it holds the `b` bytes after that one (0 past the end) and a final 0; the position advances by `min(1 + b, remaining)` |
| `Printable.IsPrintable` | examples/kafka_fuzz_client.c:315-323 | returns 1 exactly when every byte of `buf[0..size)` is printable (so 1 for size 0), otherwise 0 |

## Left out

- `read_fuzz_file` (file I/O through `fopen`, `fseek`, `ftell` and `fread`): its effect is the
  `FuzzStream` constructor, a buffer holding the input and position 0. Its failure exits are
  not modelled, and neither is a short `fread` or an `ftell` error.
- `Cursor.FuzzStream.Valid`: the input is taken to be shorter than 2^32 bytes. The position is an
  `unsigned int`; for a longer input its increment would wrap, and that case is not modelled.
- `Cursor.FuzzStream.ReadString`: requires `n < 2^32 - 1`, since `read_length + 1` wraps for the
  largest `unsigned int`. Every call site passes a single byte (at most 255). A failed
  `malloc` followed by `exit(0)` is not modelled: allocation always succeeds.
- `Printable.IsPrint`: "printable" is the C-locale range 0x20..0x7E. The source passes a
  possibly signed `char` to `isprint`, which is undefined for negative values. Bytes of 0x80
  and above are taken to be not printable. Other locales are not modelled.
- `test_producer`, `test_consumer` and `dr_msg_cb`: thin wrappers over the Kafka client
  library, whose code is not part of this model. They involve the network, background
  threads and callbacks.
- The `read_byte() < 150 ? X : read_byte()` arguments of the produce call in `test_producer`.
  C leaves the evaluation order of function arguments unspecified, so the order in which
  those bytes are consumed is not defined.
- The `stop`/`run` signal handling (signals and a `volatile` flag) and the wiring of `main`.
- All `printf`/`fprintf` output, including the debug prints inside `read_int`.
