# gonl in Dafny

A model of the core of the Go package `gonl` (karrick/gonl), a set of
small byte-stream transformers built around the newline byte `\n`, with
proofs of what each of them promises.

- **BatchLineWriter** (`BatchLine`, batch_line_writer.dfy) is an
  io.WriteCloser that buffers its input in a sliding buffer `buf[off:len(buf)]`.
  It caches the index of the last newline of that live region. Once the live
  region reaches the flush threshold and holds a newline, it hands the sink
  everything up to and including that newline in one Write call. It keeps
  exact accounts when the sink takes only part of the bytes or fails.
  `ReadFrom` pulls chunks from an io.Reader into the same buffer.
- **PerLineWriter** (`PerLine`, per_line_writer.dfy) makes one sink Write
  call per completed line. The rest stays buffered until `Close`.
- **LineTerminatedReader** (`LineTerminated`, line_terminated_reader.dfy)
  makes the stream it reads end in a newline. It adds one at io.EOF when the
  source's last byte was not a newline. When the caller's buffer is full, it
  defers the extra newline, and the saved error, to the next call.
- **NewlineCounter** (`NewlineCounter`, newline_counter.dfy) counts the
  lines of a stream and gives the same answer whether or not the final line
  is terminated.
- **OneNewline** (`OneNewline`, one_newline.dfy) makes a string end in
  exactly one newline.

`BatchLineExample` (batch_line_example.dfy) works the ReadFrom test of
batchLineWriter_test.go through the model.

Two supporting modules:

- `Bytes` (bytes.dfy) holds bytes, the newline byte, Go's
  `bytes.IndexByte` and `bytes.LastIndexByte`, and the built-in `copy`.
- `Io` (io.dfy) models the collaborators:
  - a `Sink` for an io.WriteCloser. Its ghost fields record every Write
    call, every reply and the accepted bytes. It answers according to a
    `WritePolicy`: take everything, take at most `max` bytes and report
    io.ErrShortWrite, fail, or report a negative count.
  - a `Reader` for an io.Reader, scripted as a sequence of
    `(chunk, error)` steps.
  - `IsEOF` for `errors.Is(err, io.EOF)`.

Each writer and the reader is a class. Its fields are the Go struct's:
- a Go slice is an `array<byte>` together with a length field, and a
  zero-length array stands for the nil slice;
- `off` and `indexOfFinalNewline` are integer fields;
- `savedErr` and `wasFinalByteNewline` keep their names.

Loops are `while` loops with invariants. Each method is proved against
specification functions:
- `Request`, `Flushed`, `Sent` and `Due` for BatchLineWriter;
- `Split` and `Rest` for PerLineWriter;
- `Io.Answers` and `Io.Taken`, the replies and the accepted bytes of a
  sink after a sequence of Write calls, for both writers;
- `Terminate` and `Delivered` for LineTerminatedReader;
- `LineCount` for NewlineCounter;
- `WithOneNewline` for OneNewline.

The promised properties are then proved about those functions.

Some behaviour follows the code and is worth knowing:

- After a flush error that reached the newly written bytes (`nw >= leno`),
  the code calls `bufferReset` and returns `nw - leno`
  (batchLineWriter.go:189-192). The whole buffer is dropped, so the bytes
  of p that the sink did not take are dropped too (`BatchLine.Flushed`).
- A negative count from the sink leaves the buffer as it was and reports
  "invalid write result" (`InvalidWrite`).
- `indexOfFinalNewline -= off` in `bufferGrow` also runs when the index
  is already -1, so "no newline" is any negative index (`BatchLine.Tracks`).
- When `PerLineWriter.Write` meets a sink error, it returns `len(p)` with
  the error. The failed line and everything after it stay buffered
  (`PerLine.Drained`).
- After LineTerminatedReader has returned io.EOF together with an added
  newline, `wasFinalByteNewline` is still false. A further Read of the
  exhausted source appends another newline. The model follows the code:
  its contract constrains what the caller receives up to the first error.

## Model

| member | source | states |
|---|---|---|
| Bytes.LastIndexByte | batchLineWriter.go:289-291 | bytes.LastIndexByte answers -1 or an index of s that holds c |
| Bytes.LastIndexByteIsLast | batchLineWriter.go:208-212 | no c lies after the index LastIndexByte finds |
| Bytes.LastIndexByteFinds | batchLineWriter.go:289 | LastIndexByte finds an index exactly when c occurs in s |
| Bytes.LastIndexByteUnique | batchLineWriter.go:208-212 | the last c (or -1 when there is none) is the only answer meeting LastIndexByte's contract |
| Bytes.LastIndexByteAppend | batchLineWriter.go:289-291 | the last c of a + b lies in b when b has one, else it is the last c of a |
| Bytes.IndexByte | perLineWriter.go:150 | bytes.IndexByte answers -1 or an index of s that holds c |
| Bytes.IndexByteFirst | perLineWriter.go:162 | no c comes before the index IndexByte finds, and none at all when it answers -1 |
| Bytes.IndexByteAppend | perLineWriter.go:148-150 | the first c of a + b is a's first c when a has one, else b's shifted by len(a) |
| Bytes.CountAppend | newlineCounter.go:19-36 | the newlines of a + b are those of a plus those of b |
| Bytes.CountNone | newlineCounter.go:26-28 | a slice without c counts zero occurrences |
| Bytes.CopyInto | batchLineWriter.go:287 | copy(dst[at:], src) puts src at dst[at..at+len(src)] and leaves every other byte unchanged |
| Bytes.SlideDown | batchLineWriter.go:107 | copy(buf, buf[off:]) moves the live bytes to the front of the same array |
| Io.Respond | writers_test.go:46-58 | a sink's reply keeps the io.Writer contract (0 <= nw <= len, a short count carries an error), except the policy that answers a negative count; the accept-all policy takes every byte |
| Io.Sink.constructor | batchLineWriter_test.go:16-24 | a sink with a given write policy and close error, with empty histories |
| Io.Sink.Write | buffer_test.go:16-19 | the reply is Respond's; the call, the reply and the accepted bytes are recorded |
| Io.Sink.Close | batchLineWriter_test.go:16-24 | Close returns the sink's close error, counts the call and changes nothing else |
| Io.FullChunk | buffer_test.go:29-31 | handing out a whole chunk leaves the rest of the script, with the same bytes and final error |
| Io.PartialChunk | buffer_test.go:29-31 | handing out the first k bytes of a chunk leaves a script whose bytes are the rest, with the same final error |
| Io.Reader.constructor | lineTerminatedReader_test.go:16-18 | a reader over a script of (chunk, error) steps, with nothing delivered yet |
| Io.Reader.Read | buffer_test.go:21-32 | an empty buffer reads (0, nil); an exhausted source reads (0, io.EOF); otherwise the answer hands over the start of the source's bytes, and the bytes with the error still to come account for the rest; a script without negative counts never answers one and stays so |
| Io.AnswersAppend | buffer_test.go:16-19 | the replies to two runs of Write calls are those of the first, then those of the second |
| Io.TakenAppend | buffer_test.go:16-19 | the bytes a sink takes from two runs of Write calls are those of the first, then those of the second |
| Io.AnswersAt | buffer_test.go:16-19 | the reply to each Write call is the policy's answer to that call's length |
| Io.AnswersPointwise | buffer_test.go:16-19 | a sequence of replies is the sink's answers to a sequence of calls iff it has one reply per call and each is the policy's answer to that call |
| Io.Reader.Serve | buffer_test.go:29-31 | a chunk is handed out as far as the buffer has room, and its error only with its last byte; a script without negative counts stays so |
| NewlineCounter.NewlineCounter | newlineCounter.go:13-54 | the count is LineCount of all bytes the reader yields; io.EOF, wrapped or not, becomes nil, and any other error is returned |
| NewlineCounter.Tally | newlineCounter.go:21-23 | a chunk read adds its newlines to the count, and its last byte becomes the stream's last byte |
| NewlineCounter.Consumed | newlineCounter.go:19-44 | after each read, the bytes counted followed by the reader's remaining bytes are the whole stream; at an error, the bytes counted are the whole stream |
| NewlineCounter.Adjusted | newlineCounter.go:46-53 | the final adjustment (add one for an unterminated final line, subtract one for a single-byte stream that is a newline) yields LineCount |
| NewlineCounter.CountNewlines | newlineCounter.go:24-36 | the inner IndexByte loop counts every newline of the chunk exactly once |
| NewlineCounter.CountStep | newlineCounter.go:26-35 | each newline found adds one to the count of the bytes searched so far |
| NewlineCounter.CountRest | newlineCounter.go:26-28 | when IndexByte finds nothing more, the chunk's count is that of the part already searched |
| NewlineCounter.EmptyStreams | newlineCounter.go:48-53 | the empty stream and the stream "\n" both count 0 |
| NewlineCounter.TerminatedSameAsUnterminated | newlineCounter.go:9-12 | terminating an unterminated final line does not change the count |
| NewlineCounter.CountOfLines | newlineCounter.go:24-36 | a concatenation of newline-terminated lines holds one newline per line |
| NewlineCounter.LinesCounted | newlineCounter_test.go:10-25 | terminated lines, optionally followed by an unterminated tail, count one per line ("\n" excepted), so the count does not depend on the final newline |
| NewlineCounter.Terminated | newlineCounter.go:48-53 | a stream ending in a newline, other than "\n", counts exactly its newlines |
| OneNewline.TrimTrailingNewlines | oneNewline.go:21-28 | a prefix of s that does not end in a newline, followed in s only by newlines |
| OneNewline.TrimmedAt | oneNewline.go:21-27 | the prefix before the backward scan's stopping point is s without its trailing newlines |
| OneNewline.OneNewline | oneNewline.go:10-33 | the backward scan with its early returns yields WithOneNewline(s) |
| OneNewline.EmptyBecomesNewline | oneNewline.go:12-14 | "" becomes "\n" |
| OneNewline.OnlyNewlines | oneNewline.go:30-32 | a string made only of newlines becomes its first byte, "\n" |
| OneNewline.Unterminated | oneNewline.go:26 | a string not ending in a newline gains one |
| OneNewline.CutBack | oneNewline.go:23-24 | a run of trailing newlines after another byte is cut back to one, and the result is a prefix of s |
| OneNewline.Shape | oneNewline.go:3-9 | the result ends in a newline, and either is "\n" or its second-to-last byte is not a newline |
| OneNewline.KeepsInterior | oneNewline_test.go:47-51 | the result without its final newline is s without its trailing newlines, a prefix of s |
| OneNewline.Idempotent | oneNewline.go:21-32 | normalising twice is the same as normalising once |
| OneNewline.ExampleEmbedded | oneNewline_test.go:48 | "abc\n\ndef\n\n" becomes "abc\n\ndef\n" |
| BatchLine.RequestSpec | batchLineWriter.go:297-305 | a flush is due exactly when the live region has reached the threshold and holds a newline; it hands over a newline-terminated prefix and leaves no newline behind |
| BatchLine.TracksAppend | batchLineWriter.go:289-291 | appending p moves the cached index to p's last newline when p has one, and keeps it otherwise |
| BatchLine.TracksNone | batchLineWriter.go:297 | while the index is maintained, `indexOfFinalNewline < off` holds exactly when the live region has no newline |
| BatchLine.FlushConserves | batchLineWriter.go:179-214 | for a sink that keeps the io.Writer contract, the bytes taken, then those kept, then the bytes of p reported as not taken, are the old buffer followed by p; the count lies in [0, len(p)] and the error is nil iff the sink's is |
| BatchLine.CleanFlushConserves | batchLineWriter.go:183-186 | a flush that reports no error handed the sink the whole request and kept the rest, so nothing is lost |
| BatchLine.CleanFlushSettles | batchLineWriter.go:183-186 | after a successful flush no newline remains buffered, so no further flush is due |
| BatchLine.FlushAtThreshold | batchLineWriter.go:297 | a live region exactly as long as the threshold already triggers a flush when it holds a newline (the test is `>=`) |
| BatchLine.DrawAccounts | readerFrom.go:17-22 | each chunk read extends the bytes drawn, and the reader's remaining script still accounts for the rest and the final error |
| BatchLine.RoundAccounts | readerFrom.go:12-53 | a clean round of ReadFrom keeps every byte drawn accounted for and leaves nothing due; a failed one ends with exactly one failing reply whose error is reported |
| BatchLine.UnflushedAccounts | readerFrom.go:31 | when no flush is due, the sink sees nothing and the bytes stay buffered |
| BatchLine.SentLines | batchLineWriter.go:297-305 | the flush logic makes at most one call, makes one iff the live region has reached the threshold and holds a newline, and hands over a newline-terminated prefix of it |
| BatchLine.OneCall | batchLineWriter.go:179 | one Write call is answered by the policy, and the sink takes what the reply accepts |
| BatchLine.CleanTakesAll | batchLineWriter.go:183-186 | a sink that answered every call cleanly took every byte handed to it, in order |
| BatchLine.AcceptAllClean | buffer_test.go:16-19 | a sink that takes every byte answers every call cleanly |
| BatchLine.ConcatLines | batchLineWriter.go:22-27 | newline-terminated calls, one after the other, end in a newline |
| BatchLine.TailStaysBuffered | batchLineWriter.go:22-27 | when a stream is lines ending in a newline followed by an unterminated tail that reaches the threshold, and the sink was handed only newline-terminated calls with no flush due on the rest, the sink was handed exactly the lines and the tail stays buffered |
| BatchLine.FlushAccounts | readerFrom.go:31-37 | one flush during ReadFrom: clean, it loses nothing and leaves nothing due; failing, it reports at most the chunk's bytes and its error, and the sink never holds more than it was handed |
| BatchLine.NewBatchLineWriter | batchLineWriter.go:67-76 | construction fails with an error iff the threshold is <= 0; otherwise the buffer is empty, off = 0 and the cached index is -1 |
| BatchLine.BatchLineWriter.constructor | batchLineWriter.go:71-75 | an empty writer with the given sink and threshold, off = 0 and index -1 |
| BatchLine.BatchLineWriter.BufferGrowInline | batchLineWriter.go:125-133 | reslices by n exactly when the capacity allows, returning the old length; otherwise nothing changes |
| BatchLine.BatchLineWriter.BufferReset | batchLineWriter.go:142-146 | empties the buffer, keeps the array, and sets the index to -1 |
| BatchLine.BatchLineWriter.BufferGrow | batchLineWriter.go:82-100 | returns r with len(buf) = r + n and buf[off:r] the old live region, and the cached index still marks its last newline |
| BatchLine.BatchLineWriter.Relocate | batchLineWriter.go:101-119 | the slide or reallocation leaves off = 0, keeps the live bytes at the front, and shifts the index by the old off |
| BatchLine.BatchLineWriter.Flush | batchLineWriter.go:175-215 | one sink Write of buf[off:idx+1]; the count, the error and the new live region are Flushed of the sink's reply; without an error the sink's bytes plus the live region are unchanged in total |
| BatchLine.BatchLineWriter.Settle | batchLineWriter.go:180-214 | the four outcomes of flush (negative count, success, nw >= leno, nw < leno) as Flushed states them |
| BatchLine.BatchLineWriter.Retain | batchLineWriter.go:199-214 | after a short write that did not reach the new bytes, the live region is the old bytes not taken, and the index is found again by a scan |
| BatchLine.BatchLineWriter.Append | batchLineWriter.go:279-291 | the live region becomes the old one followed by p, and the cached index is maintained |
| BatchLine.BatchLineWriter.Store | batchLineWriter.go:287-291 | p is copied right after the live region and the index moves to p's last newline |
| BatchLine.BatchLineWriter.Mark | batchLineWriter.go:289-291 | index update after an append: it marks the last newline of the new live region |
| BatchLine.BatchLineWriter.Write | batchLineWriter.go:278-306 | no flush due: returns (len(p), nil), appends p and leaves the sink untouched; flush due: exactly one sink Write of the request, with the outcome Flushed; an error-free Write loses no byte and hands none over twice |
| BatchLine.BatchLineWriter.Close | batchLineWriter.go:154-171 | writes the live region iff non-empty, always closes the sink, prefers the write error to the close error, resets the buffer and clears wc; without an error, a sink that reports no negative count holds all buffered bytes |
| BatchLine.BatchLineWriter.ReadFrom | readerFrom.go:9-54 | the sink's new Write calls are newline-terminated, its replies are its policy's answers to them and it holds what those replies accept; without a failed flush, every reply is clean, the sink took every byte handed to it, every byte read is written or buffered, and the count is the bytes read; the call then ends either with "invalid read result" and the rest of the source unread, or after the whole source with no flush due and a nil error at io.EOF or the source's other error, and a reader that never answers a negative count always takes the second way; a failed flush is the last call, on all bytes not handed over before, and the call returns the bytes read before that round plus flush's count and flush's error, with flush's live region left |
| BatchLine.CleanStep | readerFrom.go:13-52 | a round without a failed flush extends the ledger of calls, replies and bytes, keeps every byte drawn written or buffered, and at a read error leaves no flush due |
| BatchLine.FailedStep | readerFrom.go:31-36 | a round whose flush fails ends the ledger with exactly one failing reply, and its count is the bytes read before plus flush's count |
| BatchLine.CallsAppend | readerFrom.go:31-33 | one round's calls, replies and accepted bytes extend those of the rounds before |
| BatchLine.BatchLineWriter.Round | readerFrom.go:13-37 | one loop round: the read follows the reader's script and, unless its count is negative, is appended to the live region; the sink then gets exactly the calls `Sent` prescribes for the new live region, answers them by its policy, and the count, error and live region left are `Due`'s; a reader that never answers a negative count keeps that property |
| BatchLine.BatchLineWriter.Fill | readerFrom.go:13-22 | grows room after the live region and reads into it; the live region grows by exactly the bytes read |
| BatchLine.BatchLineWriter.FlushIfDue | readerFrom.go:31-37 | the sink gets exactly the calls `Sent` prescribes for the live region (SentLines: one, ending in a newline, iff the threshold is reached and a newline is buffered), with its policy's replies, and the count, error and live region left are `Due`'s |
| BatchLineExample.ScriptYields | batchLineWriter_test.go:109-115 | the test reader's five steps yield the 34 bytes "line 1\n" … "line 5" and then io.EOF, with no negative count |
| BatchLineExample.ReadFromLines | batchLineWriter_test.go:108-134 | through a threshold-5 writer into a sink that takes everything, ReadFrom returns (34, nil) with the sink holding "line 1\n" … "line 4\n", and Close returns nil with "line 5" added |
| BatchLine.BatchLineWriter.ReadChunk | readerFrom.go:17-29 | reads into buf[m:cap(buf)], keeps the live bytes, and moves the index to the chunk's last newline |
| PerLine.SplitStep | perLineWriter.go:161-166 | one loop round cuts the line ending at the next newline off the front, and the next search starts right after it |
| PerLine.SplitConserves | perLineWriter.go:157-167 | the lines handed over followed by the rest are exactly the live region |
| PerLine.SplitLines | perLineWriter.go:145-150 | when no newline precedes the search start, each line ends in its only newline and the rest holds none |
| PerLine.NoNewline | perLineWriter.go:148-153 | no newline before m and none found after it means none in the whole live region |
| PerLine.FirstLine | perLineWriter.go:150-155 | the first line found ends in its only newline |
| PerLine.SplitNone | perLineWriter.go:150-153 | no line is produced exactly when p has no newline, and then everything stays buffered |
| PerLine.CleanTaken | perLineWriter.go:157-161 | a sink that answers every line without an error takes exactly those lines |
| PerLine.AcceptAllIsClean | buffer_test.go:16-19 | an accept-all sink answers every line without an error |
| PerLine.CleanWriteConserves | perLineWriter.go:136-168 | with an error-free sink, the sink's bytes followed by the live region stay the history of all bytes written |
| PerLine.DrainedLines | perLineWriter.go:12-14 | with no newline buffered before, every sink call is one newline-terminated line, and a clean Write leaves no newline buffered |
| PerLine.DrainedConserves | perLineWriter.go:157-167 | a Write that handed over all lines without an error loses no byte |
| PerLine.RecordLine | perLineWriter.go:158 | one sink Write extends the record of calls, replies and taken bytes by the line |
| PerLine.Failed | perLineWriter.go:158-159 | a sink error stops the loop: that line and everything after it stay buffered and the error is returned |
| PerLine.Finished | perLineWriter.go:162-165 | when no newline is left, every line went out cleanly and the rest stays buffered |
| PerLine.PerLineWriter.constructor | perLineWriter.go:35-37 | an empty writer in front of wc |
| PerLine.PerLineWriter.BufferGrowInline | perLineWriter.go:85-93 | reslices by n exactly when the capacity allows, returning the old length |
| PerLine.PerLineWriter.BufferReset | perLineWriter.go:102-105 | empties the buffer and keeps the array |
| PerLine.PerLineWriter.BufferGrow | perLineWriter.go:43-61 | returns r with len(buf) = r + n and buf[off:r] the old live region |
| PerLine.PerLineWriter.Relocate | perLineWriter.go:62-79 | the slide or reallocation leaves off = 0 and the live bytes at the front |
| PerLine.PerLineWriter.Append | perLineWriter.go:140-144 | the live region becomes the old one followed by p, with p at buf[m:len(buf)] |
| PerLine.PerLineWriter.Write | perLineWriter.go:136-168 | returns len(p) in every outcome; no newline in p: no sink call and p stays buffered; otherwise one sink call per line until the first error (Drained); each call is one line, and an error-free Write leaves no newline and loses no byte |
| PerLine.PerLineWriter.Drain | perLineWriter.go:157-167 | the loop hands lines over one by one and stops at the first error or when no newline is left (Drained) |
| PerLine.PerLineWriter.Round | perLineWriter.go:157-167 | one round: deliver a line, then stop on an error or set up the next search |
| PerLine.PerLineWriter.Resume | perLineWriter.go:161-166 | off advances past the line taken, and the next newline is searched for after it |
| PerLine.PerLineWriter.Deliver | perLineWriter.go:158-160 | one sink Write of buf[off:index], recorded, with its error returned |
| PerLine.PerLineWriter.Close | perLineWriter.go:110-130 | writes the rest iff it is non-empty, always closes WC, prefers the write error, leaves WC and buf nil and off = 0; without an error, a sink that reports no negative count holds all buffered bytes |
| LineTerminated.TerminateProperties | lineTerminatedReader.go:8-9 | the stream read ends in a newline, starts with the source's bytes, and has at most one byte added, none when the source ends in a newline |
| LineTerminated.EmptySourceYieldsNewline | lineTerminatedReader_test.go:91-99 | an empty source yields "\n" |
| LineTerminated.TerminateIdempotent | lineTerminatedReader.go:46-47 | a stream that already ends in a newline gains nothing more: terminating twice is terminating once |
| LineTerminated.LineTerminatedReader.constructor | lineTerminatedReader.go:10-14 | LineTerminatedReader{R: r}: no error saved, no byte seen |
| LineTerminated.LineTerminatedReader.Read | lineTerminatedReader.go:16-61 | the source's bytes and final error recorded at construction never change; 0 <= n <= len(p) (or the source's -1); a saved error is answered with (0, nil) for an empty p, else with p[0] = '\n' and the exact saved error; otherwise the source's answer passes through, gains '\n' at p[n] at io.EOF after a final byte that is not a newline, or defers the newline and the error when p is full; the first error returned completes the source's bytes, terminated when that error is io.EOF |
| LineTerminated.LineTerminatedReader.Answer | lineTerminatedReader.go:22-38 | the saved-error path |
| LineTerminated.LineTerminatedReader.Pass | lineTerminatedReader.go:40-60 | the pass-through path with the added or deferred newline |
| LineTerminated.LineTerminatedReader.Fetch | lineTerminatedReader.go:40-44 | reads from R, and wasFinalByteNewline changes only when n > 0 |
| LineTerminated.LineTerminatedReader.Settle | lineTerminatedReader.go:46-60 | data and errors pass through unless errors.Is(err, io.EOF) after a final byte that is not a newline; then the newline is added when p has room, and deferred otherwise |
| LineTerminated.Received | lineTerminatedReader.go:40 | each read of R keeps the bytes seen plus those still to come equal to the source |

## Left out

- I/O, concurrency and the Go runtime. Sinks and readers are the `Io`
  models: a `Sink` answers according to one of four fixed policies, and a
  `Reader` follows its script. The writers' contracts use only what
  `Io.Respond` and `Io.Answered` promise.
- The `maxInt` overflow panic in both `bufferGrow`s
  (batchLineWriter.go:108-109, perLineWriter.go:69-70). Integers are
  unbounded and the overflow branch is omitted. The growth sizes
  (`2*c+n`, the 64-byte first buffer) are modelled.
- NewlineCounter.NewlineCounter: does not model overflow of Go's `int`
  counters; the count is unbounded.
- Slice aliasing: the sink receives a copy of `buf[off:index]`. A Go sink
  that kept the slice could see the bytes change later.
- `debug(...)` calls (debug_development.go): they are no-ops here.
- error.go is not part of this model; the core does not use its error
  wrappers.
- The duplicate `ReadFrom` at batchLineWriter.go:228-273 is the same code
  as readerFrom.go and is modelled once, from readerFrom.go.
- perLineWriter_test.go:86-105 calls a `PerLineWriter.ReadFrom` that is
  not part of the code modelled.
- The tests' `testReader` definition is not part of this model.
  `Io.Reader` follows the scripted behaviour described in its tests and
  `testBuffer.Read`.
- BatchLine.BatchLineWriter.Close and PerLine.PerLineWriter.Close: require
  a sink (`wc != nil`). In Go, Close after Close dereferences nil.
- BatchLine.BatchLineWriter.Write: requires a sink when a flush is due
  (`wc` nil would be dereferenced). PerLine.PerLineWriter.Write likewise
  requires a sink when `p` holds a newline.
- PerLine.PerLineWriter.Write: states the one-line-per-call and
  no-newline-left properties only for error-free histories, when no
  newline was buffered before the call. After a sink error the failed line
  stays buffered and the next Write starts its search at the new bytes.
- The exact text of Go error messages: "invalid write result",
  "invalid read result" and NewBatchLineWriter's configuration error are
  constructors of `Io.Error`.
