# persistence, modelled in Dafny

A model of the Go package `github.com/go-epaxos/persistence`. The package stores
serializable records one after another in a file, and it has two on-disk
formats:

- **file/file.go, the seekable log.** Each record is a frame: a head, the
  marshalled body, and a tail. The head and the tail each hold the body's
  length as a little-endian `uint32`. `Write` appends a frame at the cursor and
  `Read` reads one. `Seek(offset, whence)` moves the cursor by whole records. It
  walks frame by frame: forward it reads the head, and backward it reads the
  tail of the previous frame. `Truncate` cuts the file at the cursor.
- **store.go, the plain store.** Each frame is a head followed by the body. A
  store only appends and reads in order.
- **persistence.go, the façade.** It forwards `Read`, `Write`, `Seek` and
  `Truncate` to the log. Its `ReadAll(addr)` checks that `addr` is a pointer to
  a slice of serializable records, then reads records until `io.EOF`. The
  store's `ReadAll` does the same.

The model is layered as follows:

| module | file | contents |
|---|---|---|
| `Bytes` | `bytes.dfy` | Bytes and the `uint32` length word, with its round trip |
| `Codec` | `codec.dfy` | Errors, and the record codec as a value |
| `Stream` | `stream.dfy` | `class Stream`: one byte stream and its cursor, standing for `os.File` and its `bufio` wrapper |
| `Frame` | `frame.dfy` | Frames and logs as functions on bytes; reading and writing one record; reading all records |
| `Seek` | `seek.dfy` | Record-wise seeking as functions |
| `Reflect` | `reflect.dfy` | What `ReadAll` does with its `addr` argument |
| `File`, `Store`, `Persistence` | `file.dfy`, `store.dfy`, `persistence.dfy` | Classes whose methods make the source's calls, step by step |
| `Scenarios` | `scenarios.dfy` | The repository's tests as client methods, each proving what its test compares |

Some conventions run through the whole model:

- Each class method is proved against the function that specifies it, and the
  properties are proved about those functions.
- The codec (`Marshal`/`Unmarshal`) is a parameter. Its round trip
  (`Unmarshal(Marshal(v)) == v`) is the hypothesis `RoundTrips`.
- Integer widths are explicit:
  - `Size(len(bytes))` and the sums `size + 4` / `size + 8` wrap modulo 2^32.
  - `Seek`'s `offset` is an `int64`. Negating `MinInt64` leaves it negative, so
    the loop takes no step.
- `unsafe.Sizeof(size)` is 4.

## Model

| member | source | states |
|---|---|---|
| Bytes.ToSize | file/file.go:45 | The `Size(len(bytes))` conversion gives a value below 2^32, and it keeps a length that already fits |
| Bytes.EncodeU32 | file/file.go:45 | The length word written with `binary.LittleEndian` is 4 bytes |
| Bytes.DecodeU32 | file/file.go:64 | The length read from 4 bytes is below 2^32 |
| Bytes.DecodeEncodeLE | file/file.go:45 | Little-endian decoding inverts encoding, for every value that fits the width |
| Bytes.EncodeDecodeLE | file/file.go:64 | Every byte string is the little-endian encoding of its decoded value |
| Bytes.DecodeEncode | file/file.go:45-64 | Reading the head written for a length below 2^32 gives back that length |
| Bytes.EncodeDecode | store.go:31-42 | Every 4-byte head is the encoding of the length it is read as |
| Bytes.EncodeInjective | store.go:31 | Different lengths below 2^32 are written as different heads |
| Codec.Encoded | persistence.go:9-12 | Marshalling records one by one gives one body per record, in order, each the `Marshal` result |
| Codec.EncodedUnique | persistence.go:9-12 | Any bodies that agree with `Marshal` record by record are exactly those bodies |
| Stream.ReadFullAt | file/file.go:69 | `io.ReadFull`: success exactly when `n` bytes remain (or `n` is 0), giving those bytes and moving past them; `io.EOF` exactly when no byte remains, with the cursor unchanged; otherwise `io.ErrUnexpectedEOF` with the rest consumed |
| Stream.WriteAt | file/file.go:49 | A write at the cursor leaves the stream as long as before, or as long as needed to hold the bytes |
| Stream.WriteAtBytes | file/file.go:49 | A write at the cursor: bytes before it are kept (a hole past the end reads as zeros), the written bytes are in place, and the bytes after them are kept |
| Stream.WriteAtConcat | file/file.go:45-53 | Writing head, body and tail one after another is the same as writing their concatenation at once |
| Stream.Resize | file/file.go:169 | Truncating to `size` keeps the first `size` bytes, and extends with zeros past the end |
| Stream.SeekTarget | file/file.go:91 | The OS seek from the start, the cursor or the end succeeds exactly when the target is not negative, and lands on it; any other whence fails |
| Stream.Stream.ReadFull | file/file.go:69 | Reads at the cursor as `ReadFullAt` says; the bytes are unchanged |
| Stream.Stream.Write | file/file.go:49 | Writes at the cursor as `WriteAt` says, and moves the cursor past the bytes |
| Stream.Stream.Seek | file/file.go:91 | Moves the cursor as `SeekTarget` says, and leaves it where it was on error |
| Stream.Stream.Truncate | file/file.go:169 | Resizes the stream; the cursor stays |
| Frame.FrameOf | file/file.go:45-53 | A frame is the body plus 8 bytes (head and tail), or plus 4 bytes for the store |
| Frame.Log | file/file.go:40-58 | A log is its frames end to end from byte 0, with no header; it is empty exactly when it holds no record |
| Frame.Boundary | file/file.go:82-115 | Record `k` starts at least `k` frame overheads into the log (each frame adds 8 bytes, or 4 for the store) |
| Frame.LogConcat | file/file.go:40-58 | The log of two record sequences is the two logs one after the other |
| Frame.BoundaryIsLength | file/file.go:82-115 | Record `k` starts at the byte length of the first `k` frames |
| Frame.ReadFrameAsWritten | file/file.go:61-76 | The frame read as written fails only with `io.EOF` or `io.ErrUnexpectedEOF` |
| Frame.ReadFrameAt | file/file.go:61-76 | The intended frame read: `io.EOF` exactly at the end of the stream, with the cursor unchanged; any other failure is `io.ErrUnexpectedEOF`; a success consumes the whole frame, inside the stream |
| Frame.ReadFrameAsWrittenOnLog | file/file.go:61-76 | At every record boundary of a whole log, and at its end, the frame read as written and the corrected read give the same result |
| Frame.ReadFrameCorrected | file/file.go:69-75 | The intended read differs from the read as written only where the latter reports `io.EOF` inside the stream; there it reports `io.ErrUnexpectedEOF` with the same cursor |
| Frame.ReadFrameAtOk | file/file.go:64-73 | A frame reads successfully exactly when the head and the bytes it announces (plus the tail) are present; the body is those bytes |
| Frame.ReadRecordAt | file/file.go:61-78 | Reading a record: frame errors are returned as they are; otherwise `Unmarshal` of the body, with the cursor past the frame |
| Frame.WriteRecordAt | file/file.go:40-58 | A `Marshal` error writes nothing; otherwise the frame is written at the cursor, the cursor moves past it, bytes before it are kept (zeros in a hole), and bytes after it are kept |
| Frame.ReadFrameOfBytes | file/file.go:73 | A frame reads back its body whatever its tail holds: the tail is never compared with the head |
| Frame.ReadFrameOfFrame | file/file.go:40-78 | Reading the frame that `Write` produced gives the body back and moves past the frame |
| Frame.ReadFrameAtBoundary | file/file.go:61-78 | In a log followed by any bytes, the frame read at record `k` is body `k`, and the read stops at record `k + 1` |
| Frame.ReadFrameAtEnd | file/file.go:64-66 | At the end of a whole log, a read reports `io.EOF` and leaves the cursor there |
| Frame.WriteFrameAtBoundary | file/file.go:40-58 | Writing at record `k` of a log keeps records `0..k-1`, puts the new frame after them, and keeps what follows its end |
| Frame.AppendRecord | file/file.go:40-58 | Writing a frame at the end of a log appends one record to it |
| Frame.AppendWrittenRecord | file/file.go:40-58 | `Write` at the end of a log succeeds, and the stream is the log with one more record |
| Frame.RewriteSameLength | file/file.go:40-58 | Rewriting record `k` with a body of the same length replaces exactly that record |
| Frame.ReadAllFrom | persistence.go:70-79 | The `ReadAll` loop never returns `io.EOF` as an error; started at or past the end of the stream it reads nothing and succeeds; it never moves the cursor back |
| Frame.ReadAllFromError | persistence.go:70-76 | Along a chain of successful reads, a read error other than `io.EOF` is what the loop returns, with the cursor where that read left it, and the records read before it are dropped |
| Frame.ReadAllAlong | persistence.go:70-79 | Along a chain of successful reads that ends in `io.EOF`, `ReadAll` yields the records of the chain, in order |
| Frame.ReadRecordAtBoundary | file/file.go:61-78 | With a round-tripping codec, the record read at record `k` of a written log is record `k` |
| Frame.LogReadsAlong | persistence.go:70-79 | In a written log, each record reads as itself and the end reads as `io.EOF` |
| Frame.ReadAllOfLog | persistence.go:70-81 | `ReadAll` of a written log, from record `k`, gives records `k..` in order and stops at the end |
| Frame.TornFrameReadsAsEof | file/file.go:69-75 | A stream holding only a head announcing 5 bytes reads as `io.EOF` as written, and as `io.ErrUnexpectedEOF` as intended |
| Seek.SeekOneAt | file/file.go:82-115 | One step: a direction other than 1 or -1 fails; backward from before byte 4 fails (a negative seek); forward at the end reports `io.EOF`; a forward success read a whole head; a backward success moved back |
| Seek.SeekStepsAt | file/file.go:149-154 | The counting loop: with a direction other than 1 or -1 the first step fails in place; walking forward never moves the cursor back, and `n` successful forward steps move it at least `4n` bytes; walking backward never moves it forward |
| Seek.StepsOf | file/file.go:144-148 | The direction is -1 for a negative offset and 1 otherwise, and direction times count is the offset; for `MinInt64` the count is 0 |
| Seek.SeekAt | file/file.go:124-161 | An invalid whence fails before anything moves |
| Seek.StepOverFrame | file/file.go:96-113 | A forward step over a frame moves exactly past it |
| Seek.StepBackOverFrame | file/file.go:89-113 | A backward step from the end of a frame moves exactly to its start |
| Seek.StepForward | file/file.go:96-113 | In a log followed by any bytes, a forward step moves from record `k` to record `k + 1` |
| Seek.StepBackward | file/file.go:89-113 | In a log followed by any bytes, a backward step moves from record `k + 1` to record `k` |
| Seek.WalkForward | file/file.go:149-154 | `c` forward steps from record `k` land on record `k + c`, or report `io.EOF` at the end of the log |
| Seek.WalkBackward | file/file.go:149-154 | `c` backward steps from record `k` land on record `k - c`, or fail with a negative seek at byte 0 |
| Seek.StepsForward | file/file.go:149-154 | The same for a log written by `Write`, followed by any bytes when the walk stays inside the log |
| Seek.StepsBackward | file/file.go:149-154 | The same backward for a log written by `Write`, followed by any bytes |
| Seek.StepsFrom | file/file.go:144-154 | From record `a`, `offset` record steps land on record `a + offset`; they fail with a negative seek below record 0 and with `io.EOF` past the last record |
| Seek.SeekLands | file/file.go:124-161 | `Seek(offset, whence)` on a written log lands on record `offset + anchor` when it exists; otherwise it fails as `StepsFrom` says |
| Seek.SeekMinInt64 | file/file.go:144-148 | `Seek(MinInt64, whence)` takes no step, because the negated offset stays negative |
| Seek.TruncateAtBoundary | file/file.go:164-171 | Truncating a log at record `k` leaves exactly the first `k` records |
| File.File.Write | file/file.go:40-58 | Writes the record as `WriteRecordAt` says (head, body, tail at the cursor) |
| File.File.Read | file/file.go:61-78 | Reads the record as `ReadRecordAt` says, which is the corrected frame read; the file is unchanged |
| File.File.SeekOne | file/file.go:82-115 | One record step, as `SeekOneAt` says; the file is unchanged |
| File.File.Seek | file/file.go:124-161 | Anchors, then steps record by record, stopping at the first failing step, as `SeekAt` says; the file is unchanged |
| File.File.Truncate | file/file.go:164-178 | Cuts the file at the cursor, which stays; the OS error is not modelled, so it returns no error |
| Reflect.CheckTarget | store.go:58-77 | Never panics; accepts exactly a pointer to a slice of `T` or `*T` for a serializable `T`, and records whether the slice holds pointers |
| Reflect.PersistenceCheckAsWritten | persistence.go:44-69 | As written, no argument is ever accepted |
| Reflect.PersistenceCheckPanics | persistence.go:69 | As written, the checks reject what the intended checks reject, with the same error, and panic on everything they accept |
| Reflect.TestTargetPanics | persistence.go:69 | The tests' argument (`&dst` with `dst []*T`) is accepted as intended and panics as written |
| Reflect.ReadAllInto | persistence.go:43-82 | A rejected argument reads nothing and returns its error |
| Store.Store.Write | store.go:26-37 | Writes the record as `WriteRecordAt` with head and body says |
| Store.Store.Read | store.go:40-52 | Reads the record as `ReadRecordAt` with head and body says, which is the corrected frame read; the stream is unchanged |
| Store.Store.ReadAll | store.go:57-92 | Checks the argument, then reads with the corrected `Read` until `io.EOF`, as `ReadAllInto` says; the stream is unchanged |
| Persistence.Persistence.Read | persistence.go:31-33 | Forwards to the log's `Read` |
| Persistence.Persistence.Write | persistence.go:36-38 | Forwards to the log's `Write` |
| Persistence.Persistence.Seek | persistence.go:89-91 | Forwards to the log's `Seek` |
| Persistence.Persistence.Truncate | persistence.go:94-96 | Forwards to the log's `Truncate` |
| Persistence.Persistence.ReadAll | persistence.go:43-82 | Checks the argument, then reads with the corrected `Read` until `io.EOF`, as `ReadAllInto` says; the file is unchanged |
| Scenarios.AppendEncoded | file/file_test.go:52-57 | Writing the next record at the end of the log of the first `i` records gives the log of the first `i + 1` |
| Scenarios.SeekToEdge | file/file_test.go:93-110 | `Seek(0, 0)` and `Seek(0, 2)` succeed and land on byte 0 and on the end |
| Scenarios.ReadAllOfWholeLog | file/file_test.go:64-69 | `ReadAll(&dst)` from the start of a written log gives every record written |
| Scenarios.SeekBackAndRead | file/file_test.go:92-106 | `Seek(0, 2)` and then `Seek(-i-1, 1)` succeed, and the record read there is record `n-1-i` |
| Scenarios.SeekForwardAndRead | file/file_test.go:109-123 | `Seek(0, 0)` and then `Seek(i, 1)` succeed, and the record read there is record `i` |
| Scenarios.FileWriteAndRead | file/file_test.go:15-38 | A record written, then read after reopening, is the same record |
| Scenarios.StoreWriteAndRead | store_test.go:12-35 | The same with the store |
| Scenarios.Append | file/file_test.go:52-57 | One `Write` at the end extends the log by that record |
| Scenarios.WriteFrom | file/file_test.go:52-57 | Writing the remaining records one by one leaves the log of all of them |
| Scenarios.WriteAll | file/file_test.go:52-57 | Writing records one by one into an empty file leaves their log |
| Scenarios.FileWriteAndReadAll | file/file_test.go:43-70 | Records written one by one are all read back by `ReadAll`, in order, after reopening |
| Scenarios.StoreAppend | store_test.go:46-51 | One store `Write` at the end extends the store's log by that record |
| Scenarios.StoreWriteAndReadAll | store_test.go:37-64 | The same with the store, including the empty case |
| Scenarios.ReadFromEnd | file/file_test.go:92-105 | One backward probe reads record `n-1-i` |
| Scenarios.ReadBackward | file/file_test.go:92-106 | Every backward probe reads the expected record |
| Scenarios.ReadFromStart | file/file_test.go:109-122 | One forward probe reads record `i` |
| Scenarios.ReadForward | file/file_test.go:109-123 | Every forward probe reads the expected record |
| Scenarios.SeekAndRead | file/file_test.go:74-124 | After writing `n` records, both probing loops read the expected records |
| Scenarios.SeekPastLog | file/file_test.go:150-157 | Seeking to the start, then one step per record of a log followed by any bytes, lands at the end of the log |
| Scenarios.WriteAfterLog | file/file_test.go:158-160 | Writing at the end of a log followed by any bytes extends the log and overwrites the first bytes after it |
| Scenarios.RewriteRecord | file/file_test.go:149-160 | Seeking to record `i` and writing there extends the rewritten prefix by one record |
| Scenarios.RewriteAll | file/file_test.go:148-161 | Rewriting every record in order leaves the log of the new records, followed by leftover bytes |
| Scenarios.ReadNext | file/file_test.go:169-173 | The next read returns the next new record and moves to the record after it |
| Scenarios.ReadRecords | file/file_test.go:164-174 | Reading from the start returns every new record, even with leftover bytes after the log |
| Scenarios.SeekAndWrite | file/file_test.go:129-175 | Rewriting every record, whatever the old and new body lengths, then reading from the start gives the new records |
| Scenarios.SeekAndCut | file/file_test.go:200-208 | `Seek(k, 0)` from the end of the log lands on record `k`, and `Truncate` there leaves the first `k` records with the cursor at their end |
| Scenarios.TruncateAndWrite | file/file_test.go:180-228 | Truncating at record `k` and writing the new records from `k` on, then reading all, gives the old records before `k` followed by the new ones |

## Left out

- Buffering. One stream with one cursor stands for `os.File` and its `bufio.ReadWriter`. Read-ahead in the `bufio.Reader` is not modelled: a relative `Seek` or a `Write` right after a `Read` would start from the OS offset, which can be past the logical cursor. The model starts from the logical cursor. No test does this.
- Rebuilding the `bufio.ReadWriter` in `Seek` (file/file.go:156-158) and `Truncate` (file/file.go:173-175) has no counterpart. In particular, a `Seek` that fails part-way returns without the rebuild.
- Write and flush errors. Disk writes, `Flush`, `binary.Write` and the OS seeks to byte 0 or to the end do not fail in the model. `Store.Write` also drops the body write's error (store.go:35), which changes nothing here.
- Read-side I/O errors. A read fails only by reaching the end of the stream (`io.EOF`, `io.ErrUnexpectedEOF`); an error from the disk itself is not modelled.
- File.File.Truncate: always returns no error, because the error of `os.File.Truncate` (file/file.go:169-171) is not modelled; `Stream.Stream.Truncate` likewise never fails.
- File.File.Read: follows the corrected frame read (`Frame.ReadFrameAt`), not file/file.go:69-75 as written. On a frame cut off right after its head or right after its body it returns `io.ErrUnexpectedEOF` where the source returns `io.EOF`. The two reads agree at every record boundary of a whole log (`Frame.ReadFrameAsWrittenOnLog`). See "## Findings".
- Store.Store.Read: follows the corrected frame read, not store.go:47-49 as written. On a head with no body it returns `io.ErrUnexpectedEOF` where the source returns `io.EOF`.
- Store.Store.ReadAll: reads with the corrected `Read`. On a stream ending in a head with no body it returns `io.ErrUnexpectedEOF`, where store.go:81-83 ends cleanly with the records before that head.
- Persistence.Persistence.ReadAll: reads with the corrected `Read` and builds the slice from the slice type. On a file ending in a frame cut off right after its head or its body it returns `io.ErrUnexpectedEOF`, where persistence.go:71-73 would end cleanly. For every accepted argument the source panics first at persistence.go:69.
- Stream.WriteAt: its own contract states only the new length. The contents are stated by `Stream.WriteAtBytes`, which keeps that function cheap for the solver.
- Seek.SeekOneAt: a success states only bounds on the new position, not the exact target. The step adds `size + 4` (or subtracts `size + 8`) modulo 2^32, which is cheaper to state through `Seek.StepOverFrame` and `Seek.StepBackOverFrame` on frames that `Write` produced.
- Seek.SeekAt: its own contract states only the invalid-whence case. Its results on written logs are `Seek.StepsFrom` and `Seek.SeekLands`.
- Reflect.ReadAllInto: its own contract states only the rejected case. Its results on written logs are `Frame.ReadAllOfLog` and `Scenarios.ReadAllOfWholeLog`.
- Reflection. Go types are reduced to pointer, slice and named types whose pointer is or is not `Serializable`. Some cases are outside the model: a nil `addr`, interface values, named slice or map types with methods, and arrays and channels. The result slice is returned instead of being stored through `addr` (persistence.go:80, store.go:90).
- `ReadAll` into a slice of `T` (not `*T`) panics at the first `reflect.Append`. This is modelled as the error `Panicked`, with the cursor after that record.
- The `Persistent` interface (persistence.go:14-19) is represented by its one implementation, the seekable log. No other implementation is modelled.
- The tests' random lengths and sample records become universally quantified inputs. `compareObj` becomes equality of records, and closing and reopening a file becomes a fresh stream over the same bytes.
- Bodies of 2^32 - 8 bytes or more are excluded by the lemmas' preconditions (`Fits`, `Encodable`). The functions still model the wrap-around of such lengths.
- Concurrency is not modelled: the source has no locking.

## Findings

| source | as written | input that shows it | evidently intended | confidence | as-written member | corrected member |
|---|---|---|---|---|---|---|
| file/file.go:69-75 | The body is read with `io.ReadFull` and the tail with `binary.Read`. Both return `io.EOF` when they find no byte at all, and `Read` passes that on. `ReadAll` takes `io.EOF` as a clean end (persistence.go:72), so a frame cut off after its head or body is dropped silently. | A file holding only a head that announces 5 bytes (`05 00 00 00`) reads as `io.EOF` | `io.EOF` only when the read starts at the end of the file; `io.ErrUnexpectedEOF` for a frame cut off anywhere after its first byte | medium, not executed | Frame.ReadFrameAsWritten, Frame.TornFrameReadsAsEof | Frame.ReadFrameAt, Frame.ReadFrameCorrected, File.File.Read, Persistence.Persistence.ReadAll |
| store.go:47-49 | The same for the store: a body missing entirely after its head reads as `io.EOF`, and `ReadAll` (store.go:82) stops as at a clean end | A stream holding only the head `05 00 00 00` | `io.ErrUnexpectedEOF` | medium, not executed | Frame.ReadFrameAsWritten, Frame.TornFrameReadsAsEof | Frame.ReadFrameAt, Frame.ReadFrameCorrected, Store.Store.Read, Store.Store.ReadAll |
| persistence.go:69 | `reflect.MakeSlice(t.Elem(), 0, 0)` is called when `t` has already become the record type `T`. `Elem` of a struct type panics, and a `MakeSlice` of a non-slice type would panic too. | `ReadAll(&dst)` with `dst []*T`, as in file/file_test.go:65-66 | Make the slice from the slice type, as store.go:67 does | high, not executed | Reflect.PersistenceCheckAsWritten, Reflect.PersistenceCheckPanics | Reflect.CheckTarget, Persistence.Persistence.ReadAll |
