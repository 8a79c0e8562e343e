# UART transmit framer and test-log scorer

This project models the two pieces of sequential logic in a software modem
exercise repository, and proves properties of those models.

- `uart.dfy`, module `Uart`: the transmit half of a UART (`UartTx`). The
  transmitter keeps a FIFO of line samples. `PutByte` frames a byte as
  asynchronous serial 8-N-1: a start bit 0, then eight data bits, least
  significant first, then a stop bit 1. Each bit is held for
  `samplesPerSymbol` identical samples. `GetSamples` drains the FIFO into a
  caller's buffer in place. Once the FIFO is empty it writes the idle level 1.
  The class keeps the FIFO as a `seq<Byte>` field that its methods reassign
  (the source uses a `VecDeque<u8>`). `samplesPerSymbol` is a `const` field,
  so it cannot change after construction. The transmitter's specification is
  a set of functions. `Frame` gives the samples a byte becomes and `Drained`
  gives what successive pops write. Lemmas state the bit layout by index, the
  0/1 invariant, that a frame can be read back (`Unframe`), and that two
  consecutive drains equal one longer drain.
- `grade.dfy`, module `Grade`: the grading script. It echoes every log line.
  It matches each line against `^test (.*?) \.\.\. (ok|FAILED)`. When the
  captured name is in the fixed table of twelve tests, it records the test's
  points on `ok` and 0 on `FAILED`. The script ends with one summary of the
  results. `Match` models the regular expression the way Python's `re.match`
  evaluates it: the match is anchored, the name capture is lazy (shortest
  first), `ok` is tried before `FAILED`, and `.` does not match a newline.
  `MatchIsShortest` proves that this search returns exactly the match with the
  shortest name. `Results` folds the lines into the results map, and `Run` is
  the script's loop.

Modelling choices:
- Rust's `byte & 1` and `byte >>= 1` act on an unsigned `u8`. On a value in
  `0..256` they equal `byte % 2` and `byte / 2`, and the model writes them
  that way. `Shifted(b, k)` is `b` after `k` such shifts.
- The regular-expression wildcard `.` does not match `\n`. Lines read from
  standard input keep their newline, so a name can never run past the end of
  its line. `NoNewline` states this.
- Scores are `real` (0.5 and 1.0). The script prints its table's `1` as an
  integer and `0.5` as a float. The model keeps only the numeric value.
- Output is a sequence of `OutputLine`s: one `Echo` per input line, then one
  `Summary` holding the results map.

## Model

| member | source | states |
|---|---|---|
| Uart.UartTx.constructor | src/uart.rs:31-36 | the FIFO starts empty and holds only 0/1 samples; `samplesPerSymbol` is the argument and, being `const`, never changes |
| Uart.UartTx.PutBit | src/uart.rs:38-42 | called with a 0/1 bit on a 0/1 queue, appends `samplesPerSymbol` copies of the bit, leaves the queued samples in place and keeps the 0/1 invariant |
| Uart.UartTx.PutByte | src/uart.rs:44-51 | the new queue is the old queue followed by `Frame(byte)`; the 0/1 invariant is kept |
| Uart.UartTx.GetSamples | src/uart.rs:53-57 | the buffer becomes `Drained(old queue, length)` and the queue loses its first `min(length, size)` samples; the buffer holds only 0/1 |
| Uart.SendMessage | tests/test.rs:76-83 | on a transmitter with an empty queue, draining `idle` samples gives idle 1s; queuing a message byte by byte and draining exactly its length then gives its frames in order, and the queue is empty again |
| Uart.SendMessages | tests/test.rs:61-83 | one transmitter reused for many rounds: every round produces its idle padding of 1s followed by exactly the frames of its own message |
| Uart.Repeat | src/uart.rs:39-41 | `n` copies of a sample: exactly `n` samples, each equal to it |
| Uart.Shifted | src/uart.rs:48 | `k` in-place shifts `byte >>= 1` leave `byte / 2^k` |
| Uart.DataBits | src/uart.rs:46-49 | the eight data bits take up exactly `8 * sps` samples |
| Uart.Frame | src/uart.rs:44-51 | a frame is exactly `10 * sps` samples |
| Uart.Frames | src/uart.rs:44-51 | a message of `n` bytes is exactly `10 * sps * n` samples |
| Uart.FramesPrefix | src/uart.rs:44-51 | queuing one more byte appends that byte's frame to the frames before it |
| Uart.DataBitsAt | src/uart.rs:46-49 | sample `k*sps + j` of the data part is data bit `k` |
| Uart.FrameStartBit | src/uart.rs:45 | the first `sps` samples of a frame are 0, the start bit |
| Uart.FrameStopBit | src/uart.rs:50 | the last `sps` samples of a frame are 1, the stop bit |
| Uart.FrameDataBit | src/uart.rs:46-49 | samples `[(k+1)*sps, (k+2)*sps)` of a frame hold `(byte >> k) & 1`, so the data goes out least significant bit first |
| Uart.Bit | src/uart.rs:47-48 | the bit sent on iteration `k` is `(byte / 2^k) % 2`, that is `(byte >> k) & 1`, and it is 0 or 1 |
| Uart.DataBitsBinary | src/uart.rs:46-49 | the data part of a frame holds only 0 and 1 |
| Uart.FrameBinary | src/uart.rs:38-51 | every sample of a frame is 0 or 1 |
| Uart.FramesBinary | src/uart.rs:44-51 | every sample of a message's frames is 0 or 1 |
| Uart.ShiftedBound | src/uart.rs:46-48 | after `k` shifts a byte is below `2^(8-k)`, so eight shifts leave 0 |
| Uart.DataValueOfFrame | src/uart.rs:46-49 | reading data bits `k..8` of a frame back, least significant first, gives the byte shifted `k` times |
| Uart.UnframeFrame | src/uart.rs:44-51 | reading a frame back gives the byte that was framed, for any `sps > 0` |
| Uart.FrameInjective | src/uart.rs:44-51 | different bytes have different frames when `sps > 0` |
| Uart.Front | src/uart.rs:55 | `pop_front().unwrap_or(1)`: the front sample of a non-empty queue, the idle level 1 of an empty one, and 0 or 1 when the queue is |
| Uart.Rest | src/uart.rs:55 | after `n` pops the queue keeps its samples from position `n` on, in order, and is empty once `n` reaches its length |
| Uart.Drained | src/uart.rs:54-56 | `n` pops write exactly `n` samples |
| Uart.DrainedLayout | src/uart.rs:53-57 | position `i` of a drained buffer holds queued sample `i` while the queue lasts and the idle level 1 after that |
| Uart.RestRest | src/uart.rs:54-55 | popping `a` samples and then `b` leaves the queue that popping `a + b` leaves |
| Uart.DrainedSplit | src/uart.rs:53-57 | draining `a + b` samples writes what draining `a` and then `b` writes, and leaves the same queue |
| Uart.DrainedIdle | src/uart.rs:53-57 | draining an empty queue writes only 1s |
| Uart.DrainedAll | src/uart.rs:53-57 | draining exactly the queue's length writes the queue in FIFO order |
| Uart.DrainedBinary | src/uart.rs:53-57 | draining a queue of 0/1 samples writes only 0/1 samples |
| Grade.TokenAt | grade.py:21 | a result token is found exactly when ` ... ok` or ` ... FAILED` starts at the position |
| Grade.Search | grade.py:21 | the lazy capture: a name it returns starts at position 5, is a slice of the line, and is no shorter than the point the search started from |
| Grade.Match | grade.py:21-23 | a match it returns has the form `test <name> ... <token>` with no newline in the name; it returns none only when no name and token give that form |
| Grade.SearchSound | grade.py:21 | what the lazy search returns really matches the pattern and is no shorter than the start of the search |
| Grade.SearchComplete | grade.py:21 | if some name matches, the lazy search finds a match whose name is no longer than that one |
| Grade.MatchesAsUnique | grade.py:21 | two matches whose names have the same length are the same match |
| Grade.MatchIsShortest | grade.py:21 | `Match` returns a name and token exactly when the line starts with `test <name> ... <token>` and no shorter name gives such a start |
| Grade.MatchPlain | grade.py:21 | a name without spaces or newlines followed by ` ... ok` or ` ... FAILED` is captured whole, whatever follows the token |
| Grade.MatchSomeIff | grade.py:21-22 | a line matches exactly when it has the form `test <name> ... ok` or `test <name> ... FAILED` followed by anything |
| Grade.Award | grade.py:25 | the value recorded for a known test lies between 0 and its points in the fixed table, and equals its points exactly when the result is `ok` |
| Grade.Record | grade.py:21-25 | one line keeps the results well formed, and changes or adds no entry other than the test it names |
| Grade.Results | grade.py:24-25 | every recorded name is in the fixed score table and its value lies between 0 and the table's points |
| Grade.ResultsLastWins | grade.py:23-25 | the last line naming a known test decides its value: its points on `ok`, 0 on `FAILED` |
| Grade.ResultsUnnamed | grade.py:21-24 | a test that no line names is not in the results |
| Grade.ResultsIgnore | grade.py:21-24 | removing a line that does not match, or that names an unknown test, from anywhere in the log leaves the results unchanged |
| Grade.ResultsEmpty | grade.py:18 | empty input gives empty results |
| Grade.MatchPassLine | grade.py:21 | `test v21_sync_48000 ... ok` captures the name `v21_sync_48000` and `ok` |
| Grade.MatchFailLine | grade.py:21 | `test uart_trivial_48000 ... FAILED` captures the name `uart_trivial_48000` and `FAILED` |
| Grade.MatchOtherLine | grade.py:21-22 | `random text` does not match |
| Grade.ResultsOfThree | grade.py:19-25 | a passing known test, then a failing known test, then a line that does not match give the map `{v21_sync_48000: 1, uart_trivial_48000: 0}` |
| Grade.ResultsExample | grade.py:19-26 | the example log gives `{v21_sync_48000: 1, uart_trivial_48000: 0}` |
| Grade.Run | grade.py:18-26 | the output echoes every input line unchanged and in order, then ends with exactly one summary, and that summary is `Results(lines)` |

## Left out

- `UartRx` (src/uart.rs:4-23) is a stub that sends the constant byte 65 on a channel. It has no receive logic to model. `Unframe` is a reference reader of a frame, used only to prove that framing loses no information. It is not a model of the receiver.
- src/v21.rs: the V.21 FSK modulator uses floating-point phase accumulation and `sin`, and its demodulator is empty. Floating point is out of scope.
- src/main.rs: command-line parsing, audio-device discovery, stream callbacks and the mutex around the transmitter are left out. This is I/O and concurrency. It also requires the sample rate to be a multiple of the baud rate (src/main.rs:82-88), which is how `samplesPerSymbol` is chosen. The model takes any `samplesPerSymbol`.
- src/serial_linux.rs and src/serial_windows.rs: pseudo-terminal and Win32 serial I/O (OS calls, threads) are left out.
- tests/test.rs: the randomised noisy channel is floating point and random numbers. Only the framing it relies on is modelled (`SendMessage`, `SendMessages`).
- Uart.UartTx.GetSamples: the source also drains into a sub-slice of a larger buffer. The model takes a whole `array`, which is the same operation on that slice.
- grade.py I/O: reading standard input, Python's newline translation, and the exact `json.dumps` text of the summary are left out; the summary is a map, so the key order of the printed object (the order in which tests were first recorded) is not kept. Input is a sequence of lines and the summary is the results map itself.
