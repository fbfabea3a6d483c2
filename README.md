# theta-webcam: the frame demuxer and the latest-frame buffer

theta-webcam turns the live-preview stream of a RICOH THETA camera into a local webcam.
It has two byte-handling cores, and this project models them:

- **The demuxer** (`server.NextImage`, module `Stream`).
  - It reads the camera's MJPEG stream two bytes at a time into a fixed buffer `buf`.
  - On a chunk equal to the JPEG Start-Of-Image marker `FF D8`, it starts capturing into the reused field `s.data`.
  - It returns `s.data` on the first chunk equal to the End-Of-Image marker `FF D9` after that.
- **The ingest goroutine and the HTTP readers** (module `Webcam`).
  - The ingest goroutine copies every frame into the shared buffer `jpegBuf`.
  - `/jpeg` serves that buffer as one `image/jpeg` body.
  - `/mjpeg` serves it repeatedly, as parts of a `multipart/x-mixed-replace` response.
  - Each part has `Content-Type: image/jpeg` and a `Content-Length` rendered with `fmt.Sprint`. Module `Decimal` models that rendering and the parse that reads it back.

## How the model is built

- **The upstream reader** is a finite sequence of reads (`Chunk`).
  - Each read either wrote `n <= 2` bytes to the front of `buf` (`Got`) or returned an error (`Fail`).
  - A short read leaves the rest of `buf` as it was.
  - When the sequence runs out, the call is `Blocked`: the program would still be waiting in `Read`.
- **`Stream.Server`** is a class with three members.
  - The reads, and the position of the next read.
  - The field `data`, which stands for `s.data`.
  - Its method `NextImage` is the imperative loop of the source. It is proved equal to the recursive reference `Stream.Run`.
- **`Webcam.Cache`** is a class whose field `buf` stands for `jpegBuf`.
  - `Publish` is the publish step.
  - `ServeJpeg` and `NextPart` build what the two handlers write.
- **The lock and the goroutines** are replaced by sequential steps.
  - A `/mjpeg` connection runs over a sequence of events: the producer publishes a frame, or the handler pulls a part.
  - `Webcam.ServeMjpeg` is proved equal to the function `Webcam.Session`. `Webcam.SessionStops` and `Webcam.SessionPartAt` say which buffer each delivered part carries: the buffer as the publishes before its pull left it.

The model follows the code where its behaviour differs from what an idealised demuxer or cache would do. Lemmas state each of these behaviours:

- **A second `FF D8` while capturing** is appended like any other chunk. It does not restart the frame.
- **`FF D9` at an odd offset is missed**, because markers match only on two-byte alignment. The second frame of the eleven-byte stream `FF D8 'A' 'B' FF D9 FF D8 'C' FF D9` is lost this way: its `FF D9` starts at offset 9.
- **A one-byte read** appends both bytes of `buf`, one of them left over from the previous read. When the new byte is `FF` and the stale byte is `D9`, that chunk reads as an End-Of-Image marker and ends the frame, although no `D9` followed the `FF` in the stream.
- **A shorter frame** overwrites only the front of `jpegBuf`. The tail of the longer, older frame stays and is served.
- **Before the first frame**, `/jpeg` and `/mjpeg` send an empty body with `Content-Length: 0`; they do not report an error.

## Model

| member | source | states |
|---|---|---|
| Stream.Server.NextImage | stream/stream.go:91-115 | the loop returns what the reference `Run` returns from the idle state for the remaining reads, consumes exactly the reads it uses, and leaves `s.data` as `Run` does; a returned frame is `s.data` itself |
| Stream.Server.constructor | stream/stream.go:55-58 | a new server has consumed no reads and has an empty `s.data` |
| Stream.Begin | stream/stream.go:92-93 | every call starts idle, with `s.data` as the previous call left it |
| Stream.Step | stream/stream.go:103-113 | one iteration after a non-empty read: `buf` is the filled buffer; while idle, a non-start chunk is discarded and a start chunk begins a capture holding just `FF D8`; while capturing, the chunk is appended and the frame ends exactly when the chunk is `FF D9`; a capture always holds a start chunk followed by whole chunks |
| Stream.Demux | stream/stream.go:91-115 | one `NextImage` call from the idle state: it uses no more reads than are given, and a returned frame is the final `s.data`, starts with `FF D8`, ends with `FF D9` and has even length |
| Stream.Fill | stream/stream.go:92-95 | a read of n bytes overwrites exactly the first n bytes of `buf` and keeps the rest |
| Stream.Run | stream/stream.go:94-114 | a call consumes at least one read when one is available, never more than are given, and all of them when it blocks; on a frame it returns the state's `s.data`, now idle |
| Stream.RunAppend | stream/stream.go:94-114 | running over `a + b` is running over `a` and then, if still waiting, over `b` from the state `a` left |
| Stream.ReadErrorEmitsNoFrame | stream/stream.go:95-98 | a read error, in either state and after any prefix of reads, returns that error and no frame |
| Stream.FailedOnlyOnReadError | stream/stream.go:95-98 | a failed call ends on a read that returned exactly that error, and every earlier read delivered data |
| Stream.EmptyReadIsSkipped | stream/stream.go:99-101 | a read of zero bytes changes neither the state nor `buf`, and only counts as a read |
| Stream.ImageIsFramed | stream/stream.go:103-113 | from a capturing state, any returned frame starts with `FF D8`, ends with `FF D9`, holds at least four bytes and has even length |
| Stream.IdleIgnoresData | stream/stream.go:103-106 | while idle, `s.data` is never read: idle states that differ only there give the same outcome after the same reads |
| Stream.DemuxIgnoresOldData | stream/stream.go:93-112 | what a call returns, and how many reads it takes, does not depend on the frame an earlier call left in `s.data` |
| Stream.ShortReadAppendsStaleByte | stream/stream.go:95-113 | a one-byte read of x while capturing appends x and the stale second byte of `buf`, and ends the frame exactly when x is `FF` and the stale byte is `D9` |
| Stream.StaleByteForgesEnd | stream/stream.go:95-113 | after the chunk `41 D9`, a one-byte read of `FF` returns the frame with `FF D9` appended |
| Stream.FirstFrom | stream/stream.go:103-110 | the index, at or after a position, of the next chunk equal to a marker, or the end of the reads when there is none |
| Stream.FirstFromIsFirst | stream/stream.go:103-110 | no chunk between that position and the index found equals the marker |
| Stream.FirstFrame | stream/stream.go:103-113 | declarative reference over full reads: the frame, the number of reads, and that the frame is twice the number of chunks from the start marker through the end marker |
| Stream.CaptureFull | stream/stream.go:107-113 | over full reads while capturing, the frame ends at the first `FF D9` chunk and holds every chunk up to it |
| Stream.IdleFull | stream/stream.go:103-106 | over full reads while idle, every chunk before the first `FF D8` chunk is discarded, `FF D9` included |
| Stream.DemuxFullReads | stream/stream.go:91-115 | over full two-byte reads, `NextImage` returns exactly the chunks from the first `FF D8` chunk through the first `FF D9` chunk after it, and nothing when there is no such pair |
| Stream.SecondStartDoesNotRestart | stream/stream.go:103-108 | `FF D8`, x, `FF D8`, `FF D9` gives one frame that holds both start markers |
| Stream.StraddlingEndIsMissed | stream/stream.go:103-110 | the bytes `FF D8 41 FF D9 00` contain both markers but give no frame |
| Stream.ElevenByteStream | stream/stream.go:95-113 | `FF D8 'A' 'B' FF D9 FF D8 'C' FF D9` then EOF: the first call returns the first frame after three reads; the second call misses the `FF D9` at offset 9 and fails with EOF |
| Decimal.Digit | main.go:88 | the digit character of a value below ten |
| Decimal.Format | main.go:88 | `fmt.Sprint` of a length: a non-empty string of decimal digits without a leading zero, one digit exactly when the value is below ten |
| Decimal.Parse | main.go:88 | a header value is read back as a number exactly when it is a non-empty string of digits |
| Decimal.ParseFormat | main.go:88 | the rendered length reads back as the same number |
| Decimal.ValueFormat | main.go:88 | the digits of the rendered length denote that length |
| Decimal.FormatInjective | main.go:88 | two lengths render to the same string exactly when they are equal |
| Webcam.Published | main.go:50-55 | after a publish, the buffer is `max(old length, len(data))` long and starts with `data`; when the frame is no longer than the buffer, the old tail stays |
| Webcam.PublishAll | main.go:44-55 | after publishing frames in order, the buffer is at least as long as before and its front is the last frame |
| Webcam.Cache.constructor | main.go:39 | `jpegBuf` starts empty |
| Webcam.Cache.Publish | main.go:49-56 | the publish step leaves `Published(old buffer, data)`: the length never decreases and the front is the new frame |
| Webcam.Cache.ServeJpeg | main.go:61-65 | `/jpeg` writes the whole buffer with `Content-Type: image/jpeg` |
| Webcam.Cache.NextPart | main.go:79-93 | a `/mjpeg` part is the part built from the buffer's current contents |
| Webcam.MjpegPart | main.go:80-93 | a part's body is exactly the copied bytes; its header has exactly `Content-Type: image/jpeg` and a `Content-Length` that parses back to the body length |
| Webcam.MjpegHeader | main.go:73-75 | the response is `multipart/x-mixed-replace` with the writer's boundary, and `Connection: close` |
| Webcam.Session | main.go:78-97 | over any interleaving of publishes and pulls, every delivered part is well formed, and there are no more parts than steps |
| Webcam.ServeMjpeg | main.go:71-97 | the handler sets the multipart response header with the writer's boundary and `Connection: close`; its loop delivers exactly the parts `Session` gives, one per pull before the first failed `CreatePart`, the part of each pull being the buffer as the publishes before it left it; the buffer ends as those publishes leave it |
| Webcam.Stop | main.go:89-92 | the index of the first pull whose `CreatePart` fails: no earlier pull fails |
| Webcam.PublishAllCons | main.go:44-55 | publishing a first frame and then the rest is publishing them all in order |
| Webcam.After | main.go:50-55 | a pull leaves the buffer as it was; a publish applies the publish step |
| Webcam.PrefixCons | main.go:78-97 | the pulls and publishes of a prefix of a connection's events are those of its first event followed by those of the rest |
| Webcam.SessionCons | main.go:78-97 | one iteration of the `/mjpeg` loop: a delivered part is built from the buffer before the rest of the connection |
| Webcam.SessionStops | main.go:78-97 | a connection delivers one part per pull before the first failed `CreatePart`, and the buffer ends as the publishes before it leave it |
| Webcam.SessionPartAt | main.go:79-93 | the part of each pull before the stop is the buffer as the publishes before that pull left it, placed after the parts of the earlier pulls |
| Webcam.SessionCountsPulls | main.go:78-97 | while no `CreatePart` fails, a connection delivers exactly one part per pull |
| Webcam.Ingest | main.go:43-58 | the ingest loop uses no more reads than are given, and it ends only on a failed or blocked call |
| Webcam.IngestLoop | main.go:43-58 | the goroutine publishes, in order, the frames the successive `NextImage` calls return; it ends on the first failed or blocked call with the reads and `s.data` that `Ingest` gives |
| Webcam.IngestStep | main.go:44-55 | one iteration of the ingest loop: a frame is followed by the rest of the ingestion, and any other outcome ends it |
| Webcam.IngestedFramesAreFramed | main.go:45-55 | every frame the ingest loop publishes starts with `FF D8` and ends with `FF D9` |
| Webcam.IngestedCacheBeginsWithFrame | main.go:50-64 | once a frame is published, the served buffer's front equals the last frame, a complete JPEG from `FF D8` to `FF D9`, and the buffer is as long as every frame published |
| Webcam.PublishedIsFrameIff | main.go:50-55 | after a publish, the buffer equals the frame exactly when the frame is at least as long as the old buffer |
| Webcam.LatestWinsOnlyIfNotShorter | main.go:50-55 | after publishing F1 and then F2, the buffer is exactly F2 only when F2 is at least as long as F1 and as the buffer before |
| Webcam.ShrinkLeavesStaleTail | main.go:53-55 | a six-byte frame followed by a four-byte frame leaves `FF D8 FF D9 FF D9`, not the four-byte frame |
| Webcam.PublishAllShape | main.go:50-55 | after any publishes, the buffer is as long as the old buffer and every frame, its length is one of those lengths, and its front is the last frame |
| Webcam.EmptyCacheServesEmptyBody | main.go:39-88 | before any publish, a part has an empty body and `Content-Length: 0` |

## Left out

- Session negotiation is not modelled: `newStream`, `Command`, `CommandResponse` and `SetSessionID` are HTTP POSTs and JSON marshalling.
- `NewLiveStream` is not modelled beyond the starting state: it makes a network call, and only the empty `s.data` matters.
- The `sync.RWMutex` and the producer goroutine are replaced by sequential steps and an explicit event sequence: their point is concurrency. A pull copies a consistent snapshot of the buffer, which is what the lock guarantees.
- HTTP registration, `ListenAndServe`, response flushing and the multipart boundary generation are not modelled: they are library I/O. `MjpegHeader` takes the boundary as a parameter.
- The `MIMEHeader` and multipart framing on the wire are reduced to a map from header names to values.
- The `http.Error` branch of `/jpeg` after a failed write is not modelled: it is network I/O.
- The error from `buf.Write` in `/mjpeg` is not modelled, because writing to a `bytes.Buffer` does not fail. The error from `mw.Write` is ignored by the source, so it is not modelled either.
- Saving to a file with `f.Write`, flag parsing, `log.Fatal` and `log.Printf` are not modelled: they are I/O and process control. The fatal error ends the ingest loop, which `IngestLoop` returns.
- The HTML landing page is not modelled: it is static output.
- Stream.Server.NextImage: returns the frame as a value equal to `s.data`, so the aliasing between the returned slice and `s.data` is not modelled. Neither is the 60000-byte capacity: Dafny sequences have no capacity.
- Stream.Fill: assumes a reader writes only the first `n` bytes of `buf`. The `io.Reader` contract lets it scribble beyond `n`.
- Stream.Run: the upstream stream is a finite sequence of reads. An exhausted input gives `Blocked` instead of a call that waits forever.
- Stream.DemuxFullReads: relates `NextImage` to the declarative reference only for streams of full two-byte reads. Short reads are covered by `Run` itself and by `ShortReadAppendsStaleByte` and `ElevenByteStream`.
