# Moving frames between threads and the network, verified

A Dafny 4.11 model of the parts of this repository that are real algorithms or protocols: the
incremental HTTP request parser and its buffer, the frame hand-offs between threads, the Kalman
covariance prediction, the codecs and framings, the PTX scan with its definition file, and a few
bounded in-place algorithms. `dafny verify dfyconfig.toml` checks all of it.

Each subject has a specification on values (functions, or a transition system for a protocol), the
code's own loops and objects as methods and classes proved against it, and lemmas that say what the
specification is worth.

| file | subject |
|---|---|
| `Text`, `CStrings`, `Decimal` | C string operations and decimal text the other modules share |
| `HttpRequest`, `HttpChunking`, `HttpLines`, `HttpRoundTrip` | what the request parser computes; independence from how reads cut the input; which lines it accepts; reading back written requests |
| `HttpBuffer`, `HttpClient`, `HttpServer` | the growing buffer, the in-place staged parser over it, the event loop for one connection |
| `BusyToken` | `is_busy` between capture, worker and user interface (demo-01) |
| `DeviceStream` | ownership of device frames between capture, worker and main loop (ai-demo) |
| `DoubleBuffer` | publishing frames through two swapped cells (io-input) |
| `FrameRefs` | reference-counted frames and the slot of a Motion-JPEG channel |
| `Matrices`, `Kalman` | matrix algebra over the reals, and covariance prediction on 8 x 8 buffers |
| `Base64`, `Crypto`, `Multipart` | encoders, padding around a stream cipher, the multipart stream |
| `AutoBuffer`, `TextWrap`, `LaunchGrid` | byte queue, UTF-8 line wrapping, launch-grid arithmetic |
| `PtxScan`, `FunctionTable`, `DefFile`, `CudaModule` | finding kernels in PTX, the kernel table, its definition file |

Conventions. Protocols are transition systems whose steps are the actions between two scheduling
points; a run is any sequence of enabled steps, and main results hold for every run. Text bytes are
`char`, image bytes and codec bytes are integers below 256. Assertions of the C code are taken as
enabled, and a failed one is an outcome of the model, like a refused input. Where the C code would
access memory outside its object, the model has an outcome for that too; where a caller's obligation is
kept as a precondition instead, the last section says so.

Where the code and its intention part, the code is modelled, and the table names a lemma with an
input that fails and a lemma with the exact condition:

- the header parser looks at the byte before a line feed that is the first byte of the buffer
  (`HttpChunking.SafeUnderEverySplit`);
- a push after a partial write ignores the read position (`HttpBuffer.QueueOrderExactlyAtStartZero`);
- whether a connection stays open after its request depends on how the bytes were read
  (`HttpServer.OpenExactly`);
- a first frame that cannot be copied, and any frame that cannot be parsed or is too small, ends the program
  (`BusyToken.AbortsExactly`); a worker between its test of `quit` and its wait misses the broadcast and is
  never joined (`BusyToken.ShutdownCompletesExactly`);
- stopping a stream is safe only when capture has ended for good and the worker is waiting
  (`DeviceStream.StopAlwaysReturnsExactly`);
- frames the copy rejects still swap the double buffer, and metadata of older frames can stay
  (`DoubleBuffer.LatestValidSurvivesExactly`, `DoubleBuffer.LatestValidMetadata`);
- the padding is called PKCS#7 in a comment but is a marker byte, zeros and a count, and only count
  and marker are checked on the way back (`Crypto.PaddedExactly`);
- a kernel without parameters is lost, takes the list of the next one for its own, or aborts the scan
  (`PtxScan.FindsDeclaredExactly`, `PtxScan.SwallowedKernel`);
- block counts and block sizes beyond an int, and unusual kernel names (`LaunchGrid.NarrowingHarmless`,
  `DefFile.SaveThenLoad`); kernel handles of the first module after loading a second (`CudaModule.LoadAgain`);
- the prediction tags its row-major covariance as column-major: with assertions every call aborts at its first
  matrix product, and without them the covariance becomes A'AP + Q, which under a constant-velocity model is
  asymmetric after the first step (`Kalman.Track.Predict`, `Kalman.FirstPredictionCovarianceExactly`,
  `Kalman.FirstPredictionRightExactly`, `Kalman.ConstantVelocityBreaksSymmetry`).
  The laws of covariance hold for the prediction as the code's own comment states it
  (`Kalman.TrackKeepsCovariance`), which is what a row-major tag gives (`Kalman.Track.PredictRowMajor`);
- base64 decoding indexes its table with a negative number for bytes above 127 (`Base64.DecodeInto`).

## Model

| member | source | states |
|---|---|---|
| `HttpRequest.CanonicalExactly` | motion-jpeg/http-client.c:57-65 | A word is stored as one of the six methods if and only if it is spelled with its capitals or the small letters 32 above them |
| `HttpRequest.ProtocolExactly` | motion-jpeg/http-client.c:68-69 | A protocol is supported if and only if it is HTTP, in any case, and /1.0 or /1.1 |
| `HttpRequest.RunLeavesNoLine` | motion-jpeg/http-client.c:127-154 | When the one-shot parser stops without a final answer, no complete line is left unread |
| `HttpChunking.RunResumes` | motion-jpeg/http-client.c:127-187 | The parser may stop after any prefix and go on from the phase and tail it left, with the result of never having stopped |
| `HttpChunking.FeedAllSettled` | motion-jpeg/http-client.c:178-186 | Every waiting state a client can reach has no complete line unread |
| `HttpChunking.ChunkingIndependence` | motion-jpeg/http-client.c:37-187 | For every input, NUL bytes included, and every split into reads: the outcome is that of one read of the whole (refused, waiting with the same tail, or dispatched with the same method, path, protocol and ordered headers), unless some read made the code look at the byte before its buffer |
| `HttpChunking.UndefinedNeedsBareLineFeed` | motion-jpeg/http-client.c:99-110 | Such a read needs an input whose header block ends in a line feed that directly follows a line feed |
| `HttpChunking.SafeUnderEverySplit` | motion-jpeg/http-client.c:99-110 | Exact condition: no split of an input is undefined if and only if its header block does not end in a lone line feed |
| `HttpChunking.NoDoubledIsSafe` | motion-jpeg/http-client.c:99-110 | Inputs without two line feeds in a row are safe under every split |
| `HttpChunking.CrlfChunkingIndependence` | motion-jpeg/http-client.c:37-187 | For input in which every line feed follows a carriage return, every split agrees with one read |
| `HttpChunking.BareLineFeedCounterexample` | motion-jpeg/http-client.c:99-110 | Concrete input that fails: one read dispatches the request, the same bytes in two reads make the code read before its buffer |
| `HttpRoundTrip.MethodLineExactly` | motion-jpeg/http-client.c:47-72 | A line of three or more words is accepted exactly when, letter by letter, the first is one of the six methods, the second starts with a slash and the third is a supported protocol; then the method in capitals and the other two are stored, whatever spaces surround them and whatever follows |
| `HttpRoundTrip.AcceptedLineSplits` | motion-jpeg/http-client.c:47-72 | No other line is accepted: every accepted one has three words |
| `HttpRoundTrip.MethodLineParses` | motion-jpeg/http-client.c:37-75 | A request line written with single spaces is read back with its method, path and protocol |
| `HttpRoundTrip.HeaderLineParses` | motion-jpeg/http-client.c:113-120 | A header written as key, colon, value is read back as that key and value |
| `HttpLines.HeaderLineExactly` | motion-jpeg/http-client.c:113-119 | A header line of the accepted shape gives its key and its value: what stands behind the key and one colon or blank, up to a line end |
| `HttpLines.HeaderAcceptedExactly` | motion-jpeg/http-client.c:113-119 | Exact condition: a header line is accepted if and only if it has that shape, so with a key and something behind it |
| `HttpLines.RequestTextExactly` | motion-jpeg/http-client.c:37-187 | Exact condition: a request of whole lines, ended by line feeds with or without carriage returns, is dispatched with its headers in order if and only if its first line and every header line are accepted, and refused otherwise |
| `HttpRoundTrip.WriteThenParse` | motion-jpeg/http-client.c:37-187 | Whatever bytes follow what a client writes for a request, parsing dispatches exactly that request with its headers in order and leaves the bytes that follow unread |
| `HttpRoundTrip.WriteThenParseAnySplit` | motion-jpeg/http-client.c:37-219 | The same for every way of cutting the written bytes into reads |
| `HttpBuffer.RoundUp` | motion-jpeg/http-server.c:71-73 | Sizes are rounded up to the next multiple of one mebibyte; zero and -1 to one mebibyte |
| `HttpBuffer.QueueOrderExactlyAtStartZero` | motion-jpeg/http-server.c:84-97 | The push copies to the logical length and ignores the read position, so it keeps queue order for all data if and only if the read position is 0 |
| `HttpBuffer.PushAppends` | motion-jpeg/http-server.c:94-95 | With the read position at 0 a push appends to the unread bytes and puts no line feed behind them |
| `HttpBuffer.MovedStaysQuiet` | motion-jpeg/http-client.c:180-185 | Moving the tail to the front leaves no line feed behind the logical end |
| `HttpBuffer.Buffer.Resize` | motion-jpeg/http-server.c:69-82 | The allocation never shrinks, old bytes stay, new bytes are NUL |
| `HttpBuffer.Buffer.PushData` | motion-jpeg/http-server.c:84-97 | The new memory is the old memory with the bytes copied at the logical length, and room for a terminator remains |
| `HttpBuffer.Buffer.MoveToFront` | motion-jpeg/http-client.c:180-185 | The in-place move: unread bytes first, a NUL, the rest of the memory unchanged |
| `HttpClient.Client.FindNewline` | motion-jpeg/http-client.c:40-41 | The unbounded strchr stays inside the allocation, and finds a newline exactly when the unread bytes hold a complete line, never one beyond the logical end |
| `HttpClient.Client.StrTok` | motion-jpeg/http-client.c:48-54 | The tokenizer over the terminated line returns the token and rest of the string specification, and writes nothing but NUL bytes behind the token |
| `HttpClient.Client.EndLine` | motion-jpeg/http-client.c:43-44 | Ending a line in place yields the line without its line end and touches at most the two bytes of the line end |
| `HttpClient.Client.ParseMethod` | motion-jpeg/http-client.c:37-75 | The in-place request line parser takes the step of the one-shot parser, or reports an incomplete line without writing |
| `HttpClient.Client.NextHeaderLine` | motion-jpeg/http-client.c:100-121 | One turn of the header loop takes the step of the one-shot parser, and reads before the buffer only for a line feed in its first byte |
| `HttpClient.Client.ParseHeaders` | motion-jpeg/http-client.c:88-124 | The header loop consumes exactly the lines the one-shot parser consumes and keeps the buffer safe to scan |
| `HttpClient.Client.Compact` | motion-jpeg/http-client.c:178-186 | The unread tail becomes the whole contents, and when it holds no complete line the whole allocation is safe to scan again |
| `HttpClient.AnswerMeans` | motion-jpeg/motion-jpeg-server.c:173-211 | GET is answered with a header behind which a viewer reads exactly the frames sent, every other method with a 405 and nothing pushed, and without a callback with status 200 and a text |
| `HttpClient.Client.OnHttpRequest` | motion-jpeg/motion-jpeg-server.c:184-215 | The request is handed over once and answered in that way; only GET keeps the connection |
| `HttpClient.Client.ParseRequest` | motion-jpeg/http-client.c:127-187 | The in-place staged parse refines one step of the stateless parser: same outcome, same request, same tail, same return code, and a completed request is answered by its method, or by the default response without a handler |
| `HttpClient.Client.Receive` | motion-jpeg/http-client.c:197-215 | Any number of reads append their bytes in order across growth and keep the buffer safe to scan |
| `HttpClient.Client.OnRead` | motion-jpeg/http-client.c:189-219 | Any readiness event with any list of reads refines one stateless read event; failed reads and clients already served return -1 and dispatch nothing; without a byte on a fresh client the parser scans a null pointer |
| `HttpClient.Client.OnReadable` | motion-jpeg/http-server.c:303-313 | Every read on an open client takes the read step of the specified connection: the client is removed when its read returns -1, so also by any read after its request was served |
| `HttpClient.Client.OnWrite` | motion-jpeg/http-client.c:255-269 | A failed write closes the client, and so does one that leaves nothing to write unless the client is sent a stream |
| `HttpClient.Client.OnEvent` | motion-jpeg/http-server.c:293-323 | Every event on an open client takes the step of the specified connection: read half, then write half, and removal on a hang-up |
| `HttpServer.ServeEvents` | motion-jpeg/http-server.c:276-323 | Serving any sequence of events, reads, writes and hang-ups, failed and empty ones and events after a dispatch included, ends in the specified connection; a GET has been given the head of a readable stream, another method a 405, and a request without a callback a readable 200 |
| `HttpServer.Watch` | motion-jpeg/motion-jpeg-server.c:184-215 | For every event sequence that dispatches a GET and every interleaving of publishing with the viewer thread, the bytes from the first one on read back as the frames that were newest when looked at; other requests start no viewer |
| `HttpServer.FailureCloses` | motion-jpeg/http-server.c:297-313 | A failed read or a hang-up closes the connection with what was requested so far, whatever follows |
| `HttpServer.FirstEventExactly` | motion-jpeg/http-client.c:189-219 | A first read without a byte scans a null pointer; one with bytes is parsed, and a refusal closes the connection |
| `HttpServer.RequestDependsOnBytes` | motion-jpeg/http-server.c:276-323 | With CR LF line ends the request handed over depends on the bytes alone, not on the events they came in |
| `HttpServer.OpenExactly` | motion-jpeg/http-server.c:293-323 | Exact condition: once a request has been handed over, the connection is open if and only if it may be served and every event after the one that completed it is a write that does not fail, and leaves bytes or serves a stream |
| `HttpServer.BytesBehindRequest` | motion-jpeg/http-client.c:133 | Concrete family that shows the difference: for every GET request and all bytes behind it, one read leaves the connection open and two reads close it |
| `BusyToken.RunInv` | demo/demo-01.c:120-310 | The invariant of mutex, token, frame and records holds in every interleaving of capture callback, worker, user-interface callback and shutdown |
| `BusyToken.BusyExactlyWhenToken` | demo/demo-01.c:120-133 | In every interleaving before shutdown there is at most one token, and is_busy is set exactly when there is one |
| `BusyToken.FrameStableDuringRequest` | demo/demo-01.c:287-306 | While ai_request reads the shared frame without the lock, no step of any thread changes it, also during shutdown |
| `BusyToken.RequestsReadWholeFrames` | demo/demo-01.c:252-310 | The i-th request read one whole frame, the last picture copied up to the i-th accepted frame; what is displayed is what was requested, in order; no signal is lost before shutdown |
| `BusyToken.AbortsExactly` | demo/demo-01.c:258-259 | Exact condition: a run whose hand-offs are over has ended the program if and only if the first accepted frame could not be copied, one could not be parsed, or one is too small to draw |
| `BusyToken.GoodShows` | utils/input-frame.c:224-254 | Frames are free of those exactly when, after each of them, the shared frame holds a picture of a known type that is large enough |
| `BusyToken.BadFirstFrameAborts` | demo/demo-01.c:509 | Every such frame, arriving first, has a run that ends the program |
| `BusyToken.NextStepAdvances` | demo/demo-01.c:120-310 | While a hand-off is in progress some step is enabled and either brings it closer to its end or ends the program |
| `BusyToken.HandOffCompletes` | demo/demo-01.c:454-479 | From every reachable state the threads can finish without another frame, and then every accepted frame has been displayed, or the program has ended |
| `BusyToken.ShutdownCompletesExactly` | demo/demo-01.c:361-377 | Exact condition: when quit has been set, joining the worker is sure to be able to return in every continuation if and only if the worker is not between its test of quit and its wait |
| `BusyToken.HungForever` | demo/demo-01.c:363-377 | A worker that missed the broadcast is never joined, whatever the threads do |
| `BusyToken.ShutdownHangs` | demo/demo-01.c:287-306 | A concrete run to that state from every initial state: the program is closed as the worker finishes its first request |
| `DeviceStream.RunInv` | ai-demo/device/video_stream.c:41-71 | The invariant of mutex, phase, order, references and queued records holds in every interleaving |
| `DeviceStream.RefPreserved` | ai-demo/device/video_stream.c:372-385 | Every step keeps each reference count equal to the number of holders and frees a frame exactly when that number reaches zero |
| `DeviceStream.ProcessedExactlyOnce` | ai-demo/device/video_stream.c:41-71 | Accepted frames are processed once each in order; while the stream runs, the next is only published when the worker is done with all before it, and no signal is lost |
| `DeviceStream.FreedExactlyWhenUnheld` | ai-demo/device/video_stream.c:248-289 | In every reachable state a frame has been freed exactly when no holder is left, and never twice, whichever of worker and main loop releases it last |
| `DeviceStream.LiveWhileUsed` | ai-demo/device/app.c:97-135 | Nobody touches a freed frame, and the worker draws on a frame only while it is its sole holder |
| `DeviceStream.ShownAsQueued` | ai-demo/device/app.c:97-135 | The image handed to the channel is the one the worker queued |
| `DeviceStream.PassedExactly` | ai-demo/device/video_stream.c:263-277 | In every run the frames shown, then those queued, then the one being queued are exactly the processed frames whose request succeeded, each once and in order, with the image drawn for them or else the captured one |
| `DeviceStream.WorkerKeepsMutex` | ai-demo/device/video_stream.c:248-289 | A worker told to stop while it holds cond_mutex exits without releasing it |
| `DeviceStream.StopCanReturnExactly` | ai-demo/device/video_stream.c:353-370 | When the stream is told to stop, some run lets device_stream_free wake and join the worker if and only if the worker does not hold cond_mutex |
| `DeviceStream.StopAlwaysReturnsExactly` | ai-demo/device/video_stream.c:292-370 | Exact condition: in every run it has returned, the worker joined, or still can, if and only if the worker is waiting, the source has ended for good with no restart queued, and no frame is on its way |
| `DeviceStream.StopUnsafeWhileCapturing` | ai-demo/device/video_stream.c:292-370 | While the source plays or a restart of it is queued, no state is safe to stop in |
| `DeviceStream.StopUnsafeAfterEnd` | ai-demo/device/video_stream.c:292-307 | Nor is the state right after the end of the stream, which is followed by a restart |
| `DeviceStream.StopWhileProcessingHangs` | ai-demo/device/video_stream.c:353-370 | Concrete run that fails: stopping the stream while its first frame is processed, after which the stop never returns |
| `DoubleBuffer.RunInv` | src/io-input.c:78-115 | The invariant of lock, cells, copies and finished gets holds in every interleaving of one writer and any number of readers |
| `DoubleBuffer.GetsAreAtomic` | src/io-input.c:78-115 | Each get returns what one uninterrupted get returns after some number of complete sets, never a mixture, and that number never falls from one get to the next |
| `DoubleBuffer.GetSeesLatest` | src/io-input.c:102-115 | A get that finishes sees every set that has swapped before it |
| `DoubleBuffer.LatestValidFrame` | src/io-input.c:78-115 | After a valid frame with metadata a get returns its image, its metadata and the number the buffer gave it |
| `DoubleBuffer.MetadataOfCells` | src/io-input.c:82-97 | Each cell holds metadata exactly when some valid frame published an even number of publications earlier brought any |
| `DoubleBuffer.LatestValidMetadata` | src/io-input.c:82-108 | For any valid frame the image is its own; the metadata is its own exactly when it brings some, or neither the target nor any valid frame an even number of publications earlier brought any |
| `DoubleBuffer.OlderMetadataStays` | src/io-input.c:82-108 | Concrete input that fails: a third frame without metadata comes out with the metadata of the first |
| `DoubleBuffer.NumberStep` | src/io-input.c:85-91 | A publication lowers the number exactly when the caller supplies a positive smaller one |
| `DoubleBuffer.NumberCounts` | src/io-input.c:85-91 | The number counts on from the last positive one supplied, or from zero |
| `DoubleBuffer.NumbersMonotone` | src/io-input.c:85-92 | With supplied numbers zero, negative or not below the current one, numbers never fall over a history |
| `DoubleBuffer.ReturnedNumbersNeverDecrease` | src/io-input.c:85-114 | Under that condition the numbers returned to readers never decrease over any run |
| `DoubleBuffer.RejectedFramesSwap` | src/io-input.c:82-97 | Frames the copy rejects still swap the cells; where each cell ends up after any number of them |
| `DoubleBuffer.OriginsRight` | src/io-input.c:82-97 | For any history each readable cell holds the image of the published frame it is traced to |
| `DoubleBuffer.NothingToSee` | src/io-input.c:102-115 | Before any valid frame a get leaves the frame of the reader alone, and before any publication its number too |
| `DoubleBuffer.RejectedFramesMove` | src/io-input.c:82-97 | Where the traced frames are after any number of rejected ones |
| `DoubleBuffer.LatestValidSurvivesExactly` | src/io-input.c:82-108 | Exact condition: after rejected frames a get still returns the latest valid one if and only if their number is even and none at an odd position was unparsable; otherwise it returns an older one or none |
| `DoubleBuffer.RefusedFrameShowsOlder` | src/io-input.c:82-97 | Concrete input that fails: a refused frame after two valid ones makes readers go back to the first, under a higher number |
| `FrameRefs.VideoFrame.AddRef` | utils/video_source_common.c:224-230 | A dead frame is not revived; a live one gains one reference |
| `FrameRefs.VideoFrame.Unref` | utils/video_source_common.c:214-223 | The frame is freed exactly when the last reference goes |
| `FrameRefs.Channel.NewFrame` | utils/video_source_common.c:190-213 | A new frame has one reference, held by its publisher, and conservation is kept |
| `FrameRefs.Channel.UpdateFrame` | motion-jpeg/motion-jpeg-server.c:99-120 | Publishing keeps every count equal to publisher, slot and outstanding gets; the replaced frame is freed exactly when nobody else holds it; frames without data change nothing |
| `FrameRefs.Channel.GetFrame` | motion-jpeg/motion-jpeg-server.c:122-130 | A get hands out the live frame in the slot and adds one outstanding get |
| `FrameRefs.Channel.UnrefFrame` | motion-jpeg/motion-jpeg-server.c:131-137 | Returning a frame frees it exactly when neither slot, publisher nor another get holds it |
| `FrameRefs.Channel.Release` | utils/video_source_common.c:214-223 | The publisher letting go frees the frame exactly when slot and gets do not hold it |
| `FrameRefs.Channel.Close` | motion-jpeg/motion-jpeg-server.c:73-83 | Closing the channel frees the frame in the slot exactly when nobody else holds it |
| `Matrices.SumSwap` | deepsort-clib/include/matrix_f.h:35-48 | Double sums may be exchanged, the fact the matrix laws rest on |
| `Matrices.Adjoint` | deepsort-clib/include/matrix_f.h:35-48 | A matrix moves across an inner product as its transpose |
| `Matrices.ProductAssociates` | deepsort-clib/include/matrix_f.h:35-48 | The matrix product is associative |
| `Matrices.QuadSandwich` | deepsort-clib/src/kalman-filter.c:121-127 | The quadratic form of A P A' at x is that of P at A'x |
| `Kalman.DeviationsExactly` | deepsort-clib/src/kalman-filter.c:77-107 | The diagonal a track starts with and every prediction adds, number by number: the squares of 2 position height and of 10 velocity height, 1e-4 and 1e-10 |
| `Kalman.DiagonalIsCovariance` | deepsort-clib/src/kalman-filter.c:77-91 | Every diagonal of squared deviations is symmetric and positive semidefinite |
| `Kalman.PropagateKeeps` | deepsort-clib/src/kalman-filter.c:119-128 | The prediction the code sets out to compute, A P A' + Q, is symmetric and positive semidefinite when P and Q are, for every A |
| `Kalman.TrackKeepsCovariance` | deepsort-clib/src/kalman-filter.c:69-128 | From any initialised track every number of such predictions, with any motion matrices, weights and means, keeps the covariance symmetric and positive semidefinite |
| `Kalman.SlippedSymmetricExactly` | deepsort-clib/src/kalman-filter.c:138-148 | What two products leave whose second runs in column order, A'AP + Q, is symmetric if and only if A'A commutes with P |
| `Kalman.FirstPredictionCovarianceExactly` | deepsort-clib/src/kalman-filter.c:138-148 | For a fresh track it is a covariance, or only symmetric, if and only if any two columns of A are orthogonal or belong to entries of equal deviation |
| `Kalman.FirstPredictionRightExactly` | deepsort-clib/src/kalman-filter.c:138-148 | For a fresh track with non-zero deviations and an upper triangular A, as constant-velocity matrices are, it is the intended prediction if and only if A is diagonal |
| `Kalman.ConstantVelocityBreaksSymmetry` | deepsort-clib/src/kalman-filter.c:138-148 | With a constant-velocity motion matrix and any non-zero time step, weights and height, the first prediction is asymmetric |
| `Kalman.Sgemm` | deepsort-clib/src/matrix_f.c:114-118 | The product C = alpha op(A) op(B) + beta C over buffers of one storage order |
| `Kalman.MultiplyAdd` | deepsort-clib/src/matrix_f.c:78-120 | With assertions mixed orders are refused and nothing is written; without them the order of C is used for all three |
| `Kalman.ProductsCompute` | deepsort-clib/src/kalman-filter.c:145-148 | The two products leave A P A' + Q when the covariance is tagged row-major, and A'AP + Q when it is tagged column-major |
| `Kalman.Track.Initialize` | deepsort-clib/src/kalman-filter.c:69-93 | The buffer holds, entry by entry, those squares of the measured height and zeros, the mean holds the measurement, and the buffer is a covariance |
| `Kalman.Track.PredictTagged` | deepsort-clib/src/kalman-filter.c:95-150 | With either tag: whether an assertion fails, and otherwise the covariance buffer by the tag, with the deviations of the height before the step, which DeviationsExactly gives as numbers |
| `Kalman.Track.Predict` | deepsort-clib/src/kalman-filter.c:95-150 | With assertions every prediction aborts at its first matrix product and leaves the covariance as it was; without them the covariance becomes A'AP plus those squares of the height before the step, entry by entry |
| `Base64.AlphabetExactly` | utils/base64.c:38-48 | The digits in ASCII codes, for both alphabets (tables 1 and 2 of RFC 4648) |
| `Base64.IndexExactly` | utils/base64.c:48-65 | The index finds exactly the digits, and DEL as a second slash |
| `Base64.BlockIsNumber` | utils/base64.c:68-75 | Four digits, read as a number, are the three bytes they stand for |
| `Base64.PartialIsNumber` | utils/base64.c:77-91 | Two or three last digits are one or two bytes with zero bits behind them |
| `Base64.EncodedLength` | utils/base64.c:97-128 | The encoded length is 4 * ceil(n / 3) and fits the allocation with its terminator |
| `Base64.DecodeEncode` | utils/base64.c:92-205 | Decoding undoes encoding for every non-empty byte string (section 4 of RFC 4648) |
| `Base64.DigitsReencode` | utils/base64.c:131-200 | Re-encoding decoded digits gives them back exactly when they are canonical (section 3.5 of RFC 4648) |
| `Base64.EncodeDecode` | utils/base64.c:92-205 | Every canonical padded string is accepted, and an accepted string is given back by encoding its decoding if and only if it is canonical |
| `Base64.AcceptedExactly` | utils/base64.c:131-200 | Exact condition: digits are accepted if and only if each has an index and their number does not leave one over four |
| `Base64.StripExactly` | utils/base64.c:167-169 | At most two padding characters come off the end |
| `Base64.UrlEncodingIsMappedEncoding` | utils/base64.c:241-299 | The URL form is the base64 form with two digits mapped and the padding removed, for every input (section 5 of RFC 4648) |
| `Base64.EncodeInto` | utils/base64.c:92-129 | The block loop and tail write exactly the encoding and its terminator inside the room the query reports |
| `Base64.PaddedTail` | utils/base64.c:77-91 | The last one or two bytes become a whole group of four |
| `Base64.UrlEncodeInto` | utils/base64.c:262-299 | The same for the URL form |
| `Base64.OutsideExactly` | utils/base64.c:131-160 | Exact condition: the table is read outside if and only if a character above 127 is looked up, and which characters are |
| `Base64.AsciiStaysInside` | utils/base64.c:131-160 | ASCII text never makes decoding index its table outside |
| `Base64.DecodeInto` | utils/base64.c:162-205 | The loop writes exactly the decoded bytes inside the room the query reports, returns -1 exactly for rejected strings, and indexes its table outside exactly when a byte above 127 is looked up |
| `Crypto.PaddedLengthIsLeast` | utils/crypto.c:180-197 | The padded length is the least multiple of 16 with room for marker and count |
| `Crypto.KeyedTwice` | utils/crypto.c:173-234 | Two passes over the same stretch of keystream cancel |
| `Crypto.PadExactly` | utils/crypto.c:180-197 | A padded message byte by byte: the message, 0x80, zeros, and the number of bytes added |
| `Crypto.UnpaddedExactly` | utils/crypto.c:180-197 | Without padding the message is followed by one to sixteen zeros |
| `Crypto.RefusedExactly` | utils/crypto.c:236-247 | Exact condition: a text is refused if and only if its count is 18 or more or its place does not hold 0x80, and read out of bounds if and only if a legal count exceeds it |
| `Crypto.UnpadPad` | utils/crypto.c:187-247 | Removing the padding of a padded message gives the message |
| `Crypto.PaddedExactly` | utils/crypto.c:238-248 | Exactly the texts with a count of 2 to 17, the marker and zeros between are paddings of what decrypt2 returns; it accepts others too |
| `Crypto.UnpaddedTextAccepted` | utils/crypto.c:238-248 | Concrete input: sixteen zero bytes, which no message is padded to, are returned whole |
| `Crypto.MessageRoundTrip` | utils/crypto.c:146-252 | decrypt2 undoes encrypt2 for every byte string at equal keystream positions |
| `Crypto.SessionRoundTrip` | utils/crypto.c:146-252 | Any list of messages encrypted one after the other and decrypted one after the other comes back, with one reset on each side |
| `Crypto.EncryptedFits` | utils/crypto.c:152-163 | The output never exceeds the allocation, and the length query is exact when the last block holds 0 or 15 bytes |
| `Crypto.MessageSplits` | utils/crypto.c:166-197 | Whole blocks followed by the padded tail are the padded message |
| `Crypto.TwoCallsAreOne` | utils/crypto.c:172-200 | The two cipher calls give what one call on the padded message gives |
| `Crypto.Aes256Gcm.FillTail` | utils/crypto.c:180-197 | The paddings array holds the left-over bytes, the marker, zeros and the count, over one block or two |
| `Crypto.Aes256Gcm.EncryptInto` | utils/crypto.c:166-204 | The pointer walk writes the encrypted padded message, returns its length, leaves the rest of the buffer and advances the position by that length |
| `Crypto.Aes256Gcm.Encrypt` | utils/crypto.c:146-206 | The same into the caller's buffer or a new one of the queried size |
| `Crypto.Aes256Gcm.DecryptedSize` | utils/crypto.c:209-225 | The length query reports the room for the padded text and aborts on partial blocks |
| `Crypto.Aes256Gcm.Decrypt` | utils/crypto.c:209-252 | Every outcome: partial blocks and bad counts abort, an empty input does nothing, a count beyond the text reads before the buffer, anything else is returned with a zero byte behind it |
| `Crypto.RoundTrip` | utils/crypto.c:121-252 | With padding on and both ends reset, any byte string comes back through both calls, terminated |
| `Decimal.ShowDigits` | motion-jpeg/motion-jpeg-client.c:108-117 | Decimal text: the last digit stands for the units, the digits before it for the rest, and no zero stands in front |
| `Decimal.ParseShowInt` | motion-jpeg/motion-jpeg-client.c:108-117 | Numbers printed with %ld are read back |
| `Decimal.ParseShowIntWide` | motion-jpeg/motion-jpeg-client.c:113-117 | Numbers printed with %.3ld are read back, negative ones too |
| `Multipart.HeaderText` | motion-jpeg/motion-jpeg-client.c:107-117 | The header of a part, field names and order included |
| `Multipart.ResponseText` | motion-jpeg/motion-jpeg-server.c:173-182 | The response header byte for byte |
| `Multipart.CDivision` | motion-jpeg/motion-jpeg-client.c:117 | Seconds and milliseconds are truncated toward zero and never differ in sign |
| `Multipart.StampRoundTrip` | motion-jpeg/motion-jpeg-client.c:113-117 | Seconds and milliseconds printed from a tick count, with C division for negative counts, give the count back |
| `Multipart.HeaderFits` | motion-jpeg/motion-jpeg-client.c:107-118 | The header is shorter than its 1024-byte buffer for all 64-bit values, so it is never cut |
| `Multipart.PartReads` | motion-jpeg/motion-jpeg-client.c:107-120 | A part is read back whole by its Content-Length, whatever bytes, boundary text included, the image holds |
| `Multipart.PartsRead` | motion-jpeg/motion-jpeg-client.c:107-120 | The bytes pushed for any sequence of frames parse back to exactly that sequence |
| `Multipart.ReadFieldsIs` | motion-jpeg/motion-jpeg-client.c:107-118 | Written header fields and their blank line are read back as they are |
| `Multipart.ResponseReads` | motion-jpeg/motion-jpeg-server.c:173-207 | A viewer that takes the boundary from the response header reads exactly the frames sent behind it |
| `Multipart.SentIncreasing` | motion-jpeg/motion-jpeg-client.c:100-105 | The frame numbers sent are strictly increasing |
| `Multipart.SentExactlyWhenNewest` | motion-jpeg/motion-jpeg-client.c:100-105 | A polled frame is sent exactly when its number exceeds all polled before it, so nothing newer is skipped |
| `Multipart.Viewer.Take` | motion-jpeg/motion-jpeg-client.c:95-99 | The first half of a round takes one reference to the live frame in the slot, or finds none |
| `Multipart.Viewer.Send` | motion-jpeg/motion-jpeg-client.c:100-124 | The second half, after whatever happened in between, sends the frame held if it is newer and returns the reference in every branch |
| `Multipart.Broadcast` | motion-jpeg/motion-jpeg-client.c:70-125 | Publishing in any interleaving with the steps of a viewer thread, also between its get and its unref: the pushed bytes, response header first, read back as the frames that were newest when looked at, numbers increasing, and exactly the frames in the slot and in the viewer's hands are alive |
| `Multipart.BroadcastAndClose` | motion-jpeg/motion-jpeg-server.c:73-83 | When the viewer has ended its round and the channel is freed, no frame is left alive |
| `AutoBuffer.RoundUp` | utils/auto-buffer.c:56 | Capacities are multiples of 65536 |
| `AutoBuffer.Conserved` | utils/auto-buffer.c:64-98 | For any sequence of pushes, peeks and in-range pops, popped bytes followed by pending bytes are the pushed bytes |
| `AutoBuffer.PushedExactly` | utils/auto-buffer.c:64-76 | The bytes pushed are those of the pushes, in order |
| `AutoBuffer.LastPopEmpties` | utils/auto-buffer.c:77-98 | A last pop that asks for no positive count, or for more than there is, leaves nothing pending and has popped everything pushed |
| `AutoBuffer.AutoBuffer.Resize` | utils/auto-buffer.c:53-63 | The capacity grows to the rounded size or stays, and the bytes stay |
| `AutoBuffer.AutoBuffer.PushData` | utils/auto-buffer.c:64-76 | A push appends, returns the pending count, terminates the data and grows exactly when needed; null or empty data are refused |
| `AutoBuffer.AutoBuffer.PeekData` | utils/auto-buffer.c:77-86 | A peek copies as many bytes as asked for if there are that many, otherwise all, and changes nothing else; without a destination it reports the room needed |
| `AutoBuffer.AutoBuffer.PopData` | utils/auto-buffer.c:87-98 | A pop of 1 up to all pending bytes takes that many, any other count all of them; what is copied out followed by what is left is what was there |
| `AutoBuffer.AutoBuffer.SkipData` | utils/auto-buffer.c:87-98 | Without a destination the cursor moves unchecked, even to before the buffer: forward it drops bytes, backward it brings bytes back, beyond the end the assertion fails |
| `AutoBuffer.Drive` | utils/auto-buffer.c:33-98 | Any such sequence on a new buffer hands out the specified bytes and holds the specified rest, together the bytes of the pushes |
| `TextWrap.DrawnExactly` | demo/demo-02.c:637-656 | A text is drawn to its end exactly when every sequence has an admissible lead byte and ends within the text |
| `TextWrap.WrapIsLayout` | demo/demo-02.c:637-684 | The loop, with part of a line in its buffer, draws the paragraph layout of that part and the rest |
| `TextWrap.LayoutKeeps` | demo/demo-02.c:637-684 | The layout is the text without its newlines, on lines of at most the width |
| `TextWrap.LineExactly` | demo/demo-02.c:637-684 | Each line of a text without newlines: the next full width of it, and the last one the rest |
| `TextWrap.LineBeforeNewline` | demo/demo-02.c:659-684 | The same in front of a newline, behind which the layout starts afresh; a full last line is followed by an empty one |
| `TextWrap.WellFormedText` | demo/demo-02.c:625-687 | For all well-formed UTF-8 (section 3 of RFC 3629) the lines are whole code points, at most chars_per_line (at least one) each, and together the text without newlines |
| `TextWrap.SequenceIsLeadingOnes` | demo/demo-02.c:639-652 | A sequence has as many bytes as its lead byte has leading one bits, one at least, and five fail |
| `TextWrap.CountBytes` | demo/demo-02.c:639-652 | The shift loop counts the bytes of a sequence and stops at five |
| `TextWrap.DrawText` | demo/demo-02.c:625-687 | The loop over the fixed buffer of 321 bytes writes inside it, terminates, and draws what the specification says |
| `LaunchGrid.Covers` | tools/cuda-api.c:634-647 | Every element gets a thread, and one row (or, in one dimension, one block) less would not do |
| `LaunchGrid.OneRow` | tools/cuda-api.c:636-644 | Up to 65535 blocks there is one row of as many as are needed, and only then |
| `LaunchGrid.NearlySquare` | tools/cuda-api.c:639-643 | In two dimensions there are no more rows than columns, and no smaller square covers |
| `LaunchGrid.WithinLimits` | tools/cuda-api.c:639-644 | Both dimensions are at most 65535 if and only if the block count is at most 65535 squared |
| `LaunchGrid.NarrowingHarmless` | tools/cuda-api.c:636-645 | Exact condition: grid and block computed in size_t and int are the intended ones if and only if the sum of count and block size does not wrap and block count and block size fit an int |
| `LaunchGrid.NarrowingLosesBlocks` | tools/cuda-api.c:636-644 | Concrete input that fails: 2^32 blocks are launched as none |
| `LaunchGrid.NarrowingLosesThreads` | tools/cuda-api.c:645 | Concrete input that fails: a block of 2^32 threads is launched with none |
| `LaunchGrid.LaunchCovers` | tools/cuda-api.c:620-645 | Under that condition what is launched covers the elements, is minimal and within the limits |
| `LaunchGrid.CudaFunction.SetBlocks` | tools/cuda-api.c:634-647 | The fields get that grid and block for all 64-bit arguments; a block size of zero divides by zero |
| `CStrings.TrimmedEdges` | tools/cuda-api.c:43-60 | Blank, tab, carriage return and line feed are trimmed at both ends, and nothing else |
| `CStrings.Trim` | tools/cuda-api.c:44-60 | The macro returns the text without edge blanks, and shows what the original pointer sees when its result is dropped |
| `PtxScan.CommentCutOff` | tools/cuda-api.c:1320-1322 | A comment behind a line is cut off and nothing else |
| `PtxScan.HeaderGivesName` | tools/cuda-api.c:1331-1352 | The declaration line of a kernel gives exactly its name |
| `PtxScan.BodyScans` | tools/cuda-api.c:1359-1369 | Lines without a closing parenthesis are counted by their parameters, whatever else they hold, blank lines included |
| `PtxScan.ScanHands` | tools/cuda-api.c:1308-1372 | What the scan hands over for the lines of any listing: kernels closed on a line of their own, kernels closed on their declaration line and what those take in, and whatever lies between |
| `PtxScan.FindsDeclaredExactly` | tools/cuda-api.c:1308-1372 | Exact condition: the scan reaches the end with the declared kernels, names and parameter counts in order, if and only if each kernel closed on a line of its own has parameters, on lines of their own, and lines that declare nothing make up for each closed on its declaration line |
| `PtxScan.FindsOwnLinesExactly` | tools/cuda-api.c:1308-1372 | When parameters stand on lines of their own: if and only if no kernel is closed on its declaration line and each has a line with a parameter |
| `PtxScan.ClosedTakesNext` | tools/cuda-api.c:1331-1352 | For every kernel closed on its declaration line: the kernel behind it is counted into it and lost |
| `PtxScan.SwallowedKernel` | tools/cuda-api.c:1331-1369 | Concrete input that fails: foo without parameters on one line, then bar with one, is found as foo with one |
| `PtxScan.LastKernelLost` | tools/cuda-api.c:1331-1352 | Such a kernel at the end of a listing is lost without a failed assertion |
| `PtxScan.NoParametersAborts` | tools/cuda-api.c:1360-1364 | Every kernel without a parameter line that is closed on a line of its own aborts the scan |
| `PtxScan.AssertionsExactly` | tools/cuda-api.c:1313-1364 | Exact condition: a line fails an assertion if and only if it has 4096 characters or more, declares a name of 200 or more, or closes a list without a parameter |
| `PtxScan.ListingTextScans` | tools/cuda-api.c:919-942 | The same for the text of the listing, cut at its line feeds, under the same exact condition |
| `PtxScan.Description.Parse` | tools/cuda-api.c:1308-1372 | The staged parser updates its fields as the specification says, failed assertions included |
| `FunctionTable.InsertionOrder` | tools/cuda-api.c:1192-1207 | After any sequence of additions the names stand in the order of their first addition |
| `FunctionTable.LastAdditionWins` | tools/cuda-api.c:1195-1201 | Every entry is the last description added under its name |
| `FunctionTable.InsertDistinct` | tools/cuda-api.c:1168-1207 | Distinct names are appended in order |
| `CudaModule.AddAllInserts` | tools/cuda-api.c:1168-1212 | Without a loaded module and with room for all, any additions are those list operations |
| `CudaModule.Module.AddFunction` | tools/cuda-api.c:1168-1212 | The array and the name index agree afterwards, names stay distinct, a known name is updated in place and keeps its kernel handle, a new one gets a handle of the loaded module, a missing kernel is refused, a full table aborts |
| `CudaModule.Module.FindFunction` | tools/cuda-api.c:1220-1222 | The index finds exactly the slot of a name |
| `CudaModule.Module.GetFunction` | tools/cuda-api.c:1213-1240 | Null names, unknown names and kernels the module lacks give a null pointer, a known name without a loaded module fails the assertion, a null handle is fetched and one once taken stays |
| `CudaModule.TakeLine` | tools/cuda-api.c:930-931 | The unbounded line feed search stays inside the listing, takes one line and leaves the rest unread bytes as they were |
| `CudaModule.Module.AddKernelData` | tools/cuda-api.c:919-942 | The in-place line loop adds exactly the kernels the scan finds, and fails exactly when the scan or an addition does |
| `CudaModule.ListingFillsModule` | tools/cuda-api.c:919-942 | A listing fills an empty module with what its scan finds, which are the declared kernels under the same exact condition: each name where first found, with the parameters last found |
| `DefFile.LoadsExactly` | tools/cuda-api.c:1460-1493 | A definition file loads into an empty module if and only if every line can be read, the kernels exist and no name repeats; then the module holds its entries in order |
| `DefFile.EntryReadsExactly` | tools/cuda-api.c:1464-1489 | Any line with a name, an @ and a count, blanks around either and a comment behind, is read as them, and stops the load if the count is not positive |
| `DefFile.OtherLinesExactly` | tools/cuda-api.c:1464-1479 | A line without an @ stops the load; a comment, or nothing, is skipped |
| `DefFile.CommentLinesDoNotMatter` | tools/cuda-api.c:1464-1467 | Comment lines may stand anywhere in a file, a blank line nowhere |
| `DefFile.AtoiExactly` | tools/cuda-api.c:1484 | atoi: blanks, a sign, digits, and whatever comes behind them |
| `DefFile.LongLineIsCut` | tools/cuda-api.c:1462 | A longer line is read in pieces of 4094 characters |
| `DefFile.EntryLineReads` | tools/cuda-api.c:1464-1489 | A written line is read back if and only if the name has no @, no # and no blank at its ends and the count is positive |
| `DefFile.HashInNameIsLost` | tools/cuda-api.c:1464-1467 | Concrete input that fails: a kernel named a#b with one parameter is not restored |
| `DefFile.SaveThenLoad` | tools/cuda-api.c:1415-1493 | Saving a table and loading the file restores the same ordered list if and only if that holds for all its entries |
| `CudaModule.Module.SaveDefinitions` | tools/cuda-api.c:1415-1419 | The loop writes exactly one line for each kernel in order |
| `CudaModule.Module.LoadDefinitions` | tools/cuda-api.c:1460-1496 | The loop over bounded line reads ends with the specified table, or stops where the specification does; entries it adds get handles of the module just loaded, older ones keep theirs |
| `CudaModule.LoadAgain` | tools/cuda-api.c:1181-1203 | Loading a second module leaves every known kernel with its handle of the first |
| `CudaModule.SaveAndRestore` | tools/cuda-api.c:1388-1496 | A module written out and loaded into a new one is the same list, under the same exact condition |

## Left out

- GTK, cairo, GStreamer, libsoup, curl, json-c, CUDA, TensorFlow, libjpeg, gnutls, dlopen, epoll and sockets: foreign calls, present as inputs, steps or opaque payloads. Allocation is taken to succeed.
- Spurious condition-variable wakeups, and signals before the first wait: neither worker loop checks a predicate again, so `BusyToken` and `DeviceStream` assume the worker is waiting when capture starts and that waits end by a signal or broadcast only.
- HttpClient.Client.OnHttpRequest: the viewer thread it starts is the subject of `Multipart`; what a push after a partial write does to the order of the output is that of `HttpBuffer`.
- The rest of the HTTP server: accepting, the loop over write(2), whose result is an input of `HttpClient.Client.OnWrite`, idle-client collection (which removes by loop index rather than by the recorded one) and request bodies.
- BusyToken.RequestsReadWholeFrames: detection results travelling with the frame and the is_dirty flag, which nothing reads, are not modelled; a request on a picture is taken to return, whatever the server answers. demo-02 and demo-03 repeat the same protocol.
- DeviceStream.StopAlwaysReturnsExactly: one capture thread is assumed.
- DoubleBuffer.GetsAreAtomic: one writer; querying the number without the lock, and sizes and types of images, are not modelled.
- Kalman.Track.Predict: the in-place mean product, whose source and destination are one buffer, is a parameter; cblas itself is modelled by its documented product; floats are reals. Projection to measurement space and the unfinished update are left out.
- Base64.DecodeInto: char is taken as signed. Lengths of -1 (measure the string) are left to the caller. Decoding of the URL form is left out: its index table has no entry for the underscore.
- Crypto.Aes256Gcm.Encrypt: the cipher is an exclusive-or with a keystream read at a running position; authentication tags are not used by the code and not modelled. Source and destination are different arrays. Key derivation is left out.
- Multipart.Broadcast: the channel is already found and the thread not told to quit. The stream is that of pushed bytes, not of what reaches the socket; no line break precedes the following delimiters, so only the reading by Content-Length is claimed.
- AutoBuffer.AutoBuffer.PopData: the destination has room for the bytes granted, which the code does not check; likewise for peeks and for the buffers given to the encoders and the cipher.
- AutoBuffer.AutoBuffer.SkipData: the seek macro, which does not compile as written, is left out.
- TextWrap.DrawText: what is drawn once a cut-off sequence has been read past the end of the text, measuring and painting.
- LaunchGrid.CudaFunction.SetBlocks: the square root is the exact integer one.
- PtxScan.FindsDeclaredExactly: a declared kernel is a visible entry whose name and last opening parenthesis stand on one line.
- CudaModule.Module.AddKernelData: the listing is followed by a NUL in memory, which the file loader provides.
- CudaModule.Module.AddFunction: launch settings of an entry.
- CudaModule.Module.LoadDefinitions: reading the module binary; a name of 200 characters or more, which fills its field without a terminator; counts beyond an int.
- Plugin registry, class counters, channel lookup, image flips, rectangles, configuration loading and CORS headers: plumbing that would add easy members only.
