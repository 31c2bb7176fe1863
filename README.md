# QR reader frame ingestion, in Dafny

This project models the frame-ingestion loop of the QRCodeReader Android app. The loop exists in three copies, and each copy is modelled as written:

- `app/src/main/kotlin/com/locatible/qrcodereader/MainActivity.kt` (module `KtActivity`). Its `processVideo` reconnects while the processor runs. It clears the recognition session after a valid frame whose counter satisfies `i and 0xfff == 0xfff`. At end of stream it clears the session and shows Done.
- `app/src/main/java/com/locatible/qrcodereader/MainActivity.kt` (module `JavaKtActivity`). It allocates the frame buffer when the processor is made. It clears the session at the top of each pass when `cycle and 0xfff == 0`. It shows Done after each connection that no exception ends, and Stopped when the outer loop returns. The view model also has `reset`.
- `app/src/main/java/com/locatible/qrcodereader/MainActivity.java` (module `JavaActivity`). It opens one fixed locator and feeds every frame that has a payload to the engine, through a local array. It never reconnects, never clears and publishes nothing.

`getLayout` and `openVideo` are the same in all three files, so module `Media` holds them once. `Media` also holds:
- the frame and its payload;
- the buffer growth rule;
- the `and 0xfff` mask on a 32-bit counter that can wrap around;
- the log of calls into the decoder and the engine.

Module `Session` holds the state the two Kotlin loops share, with the invariant both of them keep.

The decoder and the recognition engine are foreign code, so they are parameters. Each is a function of the whole log of calls made so far into either of them, the session clears included (`decoder: seq<Call> -> Connection`, `engine: seq<Call> -> Reply`). A grabbed stream is a finite sequence of frames, followed by a null frame. The processor's `running` flag is a field, read once per loop condition. Another thread's `stop()` is modelled by a countdown: the number of reads after which the flag is seen down.

Each Kotlin `VideoProcessor` is a class. Its imperative `ProcessVideo` is proved equal to a recursive function of the processor's state (`Process`). The properties are proved as lemmas about that function:
- processFrame is called once per frame with a payload, in order, and never for a skipped one;
- the buffer covers every submitted frame and never shrinks;
- the view model shows the latest recognized code;
- the exact number of session clears;
- the status left behind.

The Java `processVideo` is a method over a local array. It is proved equal to the function `Run`, and `RunFeeds` spells out what `Run` does.

## Model

| member | source | states |
|---|---|---|
| `Media.GetLayout` | app/src/main/kotlin/com/locatible/qrcodereader/MainActivity.kt:196-204 | the switch is total: it yields UNKNOWN exactly for codes other than GRAY8, RGB24, BGR24, RGBA and ARGB. The switch is the same at java/.../MainActivity.kt:209-217 and MainActivity.java:137-151 |
| `Media.FormatsOf` | app/src/main/java/com/locatible/qrcodereader/MainActivity.java:137-151 | every known layout is reached from at least one pixel format |
| `Media.GetLayoutInverse` | app/src/main/java/com/locatible/qrcodereader/MainActivity.kt:209-217 | a known layout is produced exactly for the formats listed for it: GRAY8 gives GRAY_8U, RGB24 and BGR24 give RGB_8U, RGBA gives RGBA_8U, ARGB gives ARGB_8U |
| `Media.SharedLayout` | app/src/main/kotlin/com/locatible/qrcodereader/MainActivity.kt:199 | two different formats share a known layout only if they are RGB24 and BGR24 |
| `Media.OpenVideo` | app/src/main/kotlin/com/locatible/qrcodereader/MainActivity.kt:178-188 | the locator is kept. The rtsp-url grabber is used iff the locator starts with "rtsp:". The input-stream grabber is used iff it does not but starts with "http". A path is used otherwise. The same router is at java/.../MainActivity.kt:191-201 and MainActivity.java:117-127 |
| `Media.OpenVideoSchemes` | app/src/main/java/com/locatible/qrcodereader/MainActivity.java:117-127 | "https…" and "http…" go through a network connection, "rtsp:…" is handed to the decoder as a locator |
| `Media.Payload` | app/src/main/kotlin/com/locatible/qrcodereader/MainActivity.kt:207-217 | a frame is skipped exactly when its image array is null or empty or plane 0 has no bytes. Otherwise the payload is plane 0, and it is not empty |
| `Media.Accepted` | app/src/main/java/com/locatible/qrcodereader/MainActivity.java:79-89 | the accepted payloads are no more than the frames, and none of them is empty |
| `Media.AcceptedAppend` | app/src/main/java/com/locatible/qrcodereader/MainActivity.java:71-89 | the payloads accepted from a stream are those of its first part, followed by those of the rest |
| `Media.AcceptedFrom` | app/src/main/kotlin/com/locatible/qrcodereader/MainActivity.kt:141-142 | the payloads accepted from a stretch of the stream are those of its first frame, if it has one, followed by those of the rest |
| `Media.Describe` | app/src/main/kotlin/com/locatible/qrcodereader/MainActivity.kt:190-194 | the description takes the stream's width, height and mapped layout, and keeps its memory size |
| `Media.CopyIn` | app/src/main/kotlin/com/locatible/qrcodereader/MainActivity.kt:219-223 | the buffer starts with the payload. It is twice the payload's size when the payload did not fit. Otherwise its length and its bytes past the payload are unchanged. It never shrinks |
| `Media.CapacityCovers` | app/src/main/kotlin/com/locatible/qrcodereader/MainActivity.kt:219-221 | after any run of accepted sizes, the capacity is at least the starting one and at least every size in the run |
| `Media.CapacityMonotone` | app/src/main/java/com/locatible/qrcodereader/MainActivity.kt:232-234 | capacity after a prefix of a run is at most the capacity after the whole run |
| `Media.CapacityStep` | app/src/main/java/com/locatible/qrcodereader/MainActivity.java:91-93 | each accepted size either fits and keeps the capacity, or does not fit and sets it to exactly twice the size |
| `Media.Masked` | app/src/main/kotlin/com/locatible/qrcodereader/MainActivity.kt:153-154 | `counter and 0xfff` taken on the 32-bit two's-complement value of an unbounded count is the count modulo 4096, wrap-around included |
| `Media.LowBitsIsMod` | app/src/main/java/com/locatible/qrcodereader/MainActivity.kt:163 | the count with whole periods of 4096 taken off is the count modulo 4096 |
| `Media.MaskCounter` | app/src/main/java/com/locatible/qrcodereader/MainActivity.kt:113 | the mask the loops compute equals both the 32-bit masked value and the count modulo 4096 |
| `Session.Poll` | app/src/main/java/com/locatible/qrcodereader/MainActivity.kt:161 | a read of `running` sees true iff the flag is up and the stop has not landed yet. It leaves everything else unchanged and uses up one read |
| `Session.Accept` | app/src/main/kotlin/com/locatible/qrcodereader/MainActivity.kt:141-150 | a frame without a payload changes nothing. Otherwise exactly one submission is logged, carrying the payload's size as memory size and the buffer after the copy, and the engine's exception is reported as a crash |
| `Session.AcceptKeepsInv` | app/src/main/java/com/locatible/qrcodereader/MainActivity.kt:169-178 | accepting a frame keeps the buffer covering every submission. It keeps the code shown as the last one the engine reported, set only when the list was non-empty. The submission holds the payload in its first bytes |
| `KtActivity.ClearDueIsMask` | app/src/main/kotlin/com/locatible/qrcodereader/MainActivity.kt:153-154 | the clear test `ClearDue` holds exactly when the source's `i and 0xfff == 0xfff` does on the 32-bit counter (`Masked` of it is 0xfff), that is when the count is 4095 modulo 4096 |
| `Session.AcceptDescribes` | app/src/main/kotlin/com/locatible/qrcodereader/MainActivity.kt:141-142 | accepting a frame changes only the description's memory size, so the submission it logs carries the width, height and layout the description was set up with |
| `Session.LogKeepsDescribed` | app/src/main/kotlin/com/locatible/qrcodereader/MainActivity.kt:152-156 | a clear or an open logs no submission and leaves every logged description as it was |
| `KtActivity.Iterate` | app/src/main/kotlin/com/locatible/qrcodereader/MainActivity.kt:133-159 | one pass never reports a stop and only extends the log. The counter goes up by one for every grabbed frame, skipped ones included, and stays put when the pass leaves the loop. An exception comes only from a grabbed frame |
| `KtActivity.Inner` | app/src/main/kotlin/com/locatible/qrcodereader/MainActivity.kt:131-160 | the inner loop only extends the log and advances the counter, and never runs past the end of the stream. A stop exit has the flag down, and an exception exit stops at a grabbed frame |
| `KtActivity.Connect` | app/src/main/kotlin/com/locatible/qrcodereader/MainActivity.kt:125-161 | a connection never gives the other thread's stop more time, and only extends the log |
| `KtActivity.Process` | app/src/main/kotlin/com/locatible/qrcodereader/MainActivity.kt:124-162 | a normal return happens only once `running` was seen false. A run only extends the log |
| `KtActivity.ProcessVideoFrom` | app/src/main/kotlin/com/locatible/qrcodereader/MainActivity.kt:120-124 | processVideo, from its fresh `ByteArray(0)` and the outer loop, returns normally only once `running` was seen false, and only extends the log |
| `KtActivity.IterateKeepsInv` | app/src/main/kotlin/com/locatible/qrcodereader/MainActivity.kt:133-159 | one pass keeps the buffer covering every submission and the shown code current, and only grows the log and the buffer |
| `KtActivity.InnerKeepsInv` | app/src/main/kotlin/com/locatible/qrcodereader/MainActivity.kt:131-160 | the inner loop keeps the same invariant |
| `KtActivity.ConnectKeepsInv` | app/src/main/kotlin/com/locatible/qrcodereader/MainActivity.kt:125-161 | a connection keeps the same invariant |
| `KtActivity.ProcessKeepsInv` | app/src/main/kotlin/com/locatible/qrcodereader/MainActivity.kt:124-162 | a whole run keeps the same invariant |
| `KtActivity.ProcessVideoKeepsInv` | app/src/main/kotlin/com/locatible/qrcodereader/MainActivity.kt:120-163 | starting from `ByteArray(0)`, the buffer at the end covers every frame submitted in the run, and the code shown is the latest one the engine reported |
| `KtActivity.IterateClears` | app/src/main/kotlin/com/locatible/qrcodereader/MainActivity.kt:135-156 | one pass clears once at end of stream, once after a valid frame whose counter has its twelve low bits set, and otherwise not. The end-of-stream exit happens exactly when the frames run out |
| `KtActivity.InnerClears` | app/src/main/kotlin/com/locatible/qrcodereader/MainActivity.kt:131-160 | the clears in one connection number the valid frames whose counter has its twelve low bits set, plus one when the stream ended |
| `KtActivity.AllValidClears` | app/src/main/kotlin/com/locatible/qrcodereader/MainActivity.kt:152-156 | with every frame valid, the first n frames clear n / 4096 times, at counters 4095, 8191, and so on |
| `KtActivity.IterateSubmits` | app/src/main/kotlin/com/locatible/qrcodereader/MainActivity.kt:133-150 | one pass calls processFrame once with the grabbed frame's payload when it has one, and not at all for a skipped frame or at end of stream |
| `KtActivity.InnerSubmits` | app/src/main/kotlin/com/locatible/qrcodereader/MainActivity.kt:131-160 | within one connection, processFrame is called once for every frame with a payload and never for a skipped one, in stream order and with that frame's payload. The frames run from the connection's counter up to where the loop stopped, plus the frame whose submission threw |
| `KtActivity.IterateDescribes` | app/src/main/kotlin/com/locatible/qrcodereader/MainActivity.kt:133-159 | one pass keeps the processor's description set up from the stream, and the frame it submits carries that description's width, height and layout |
| `KtActivity.InnerDescribes` | app/src/main/kotlin/com/locatible/qrcodereader/MainActivity.kt:131-160 | the inner loop keeps every submission of the connection described by the stream |
| `KtActivity.ConnectDescribes` | app/src/main/kotlin/com/locatible/qrcodereader/MainActivity.kt:128-142 | after a successful open, every frame the connection hands to processFrame carries the width, height and mapped layout of the opened stream: the description is set once per connection and reused for every frame |
| `KtActivity.IterateStatus` | app/src/main/kotlin/com/locatible/qrcodereader/MainActivity.kt:135-139 | one pass shows Done, right after a clear, exactly when it leaves at the end of the stream. Otherwise it leaves the status alone |
| `KtActivity.InnerStatus` | app/src/main/kotlin/com/locatible/qrcodereader/MainActivity.kt:135-139 | the inner loop shows Done exactly when the stream ends, right after a clear. Otherwise it leaves the status alone |
| `KtActivity.ConnectStatus` | app/src/main/kotlin/com/locatible/qrcodereader/MainActivity.kt:125-139 | a failed open leaves the status it found and ends the run. After a successful open the status is Streaming or Done. Done comes only from a connection that no exception ended, and an exception leaves Streaming |
| `KtActivity.ProcessStatus` | app/src/main/kotlin/com/locatible/qrcodereader/MainActivity.kt:120-163 | this copy never shows Stopped: a run leaves the status it found, Streaming or Done |
| `KtActivity.ViewModel.constructor` | app/src/main/kotlin/com/locatible/qrcodereader/MainActivity.kt:52-74 | the URL and licence are the stored ones. The status and code are empty, not running, and no processor |
| `KtActivity.ViewModel.Toggle` | app/src/main/kotlin/com/locatible/qrcodereader/MainActivity.kt:76-92 | when running: flag down, Stopping, the processor told to stop and the handle dropped. Otherwise: flag up, Starting, and a fresh running processor. The URL, licence and code are untouched. The old processor's calls, buffer, description, stop countdown and view model are untouched, and so is its flag when a new processor is started |
| `KtActivity.VideoProcessor.constructor` | app/src/main/kotlin/com/locatible/qrcodereader/MainActivity.kt:103-105 | a new processor is running, with a new description and no calls made |
| `KtActivity.VideoProcessor.Stop` | app/src/main/kotlin/com/locatible/qrcodereader/MainActivity.kt:116-118 | stop only lowers the flag |
| `KtActivity.VideoProcessor.PollRunning` | app/src/main/kotlin/com/locatible/qrcodereader/MainActivity.kt:132 | a read of `running` is `Session.Poll` on the processor's state |
| `KtActivity.VideoProcessor.UpdateFrame` | app/src/main/kotlin/com/locatible/qrcodereader/MainActivity.kt:206-227 | true iff the frame has a payload. On false, the array, its contents and the description are unchanged. On true, the array holds `CopyIn` of the payload, the memory size is the payload's size, and the same array is kept iff the payload fit |
| `KtActivity.VideoProcessor.Feed` | app/src/main/kotlin/com/locatible/qrcodereader/MainActivity.kt:141-150 | updateFrame, processFrame and the publication of the last new code are `Session.Accept` on the processor's state |
| `KtActivity.VideoProcessor.Step` | app/src/main/kotlin/com/locatible/qrcodereader/MainActivity.kt:133-159 | one pass of the loop body is `Iterate` on the processor's state |
| `KtActivity.VideoProcessor.Stream` | app/src/main/kotlin/com/locatible/qrcodereader/MainActivity.kt:131-160 | the inner loop, with its counter reset to 0, is `Inner` on the processor's state |
| `KtActivity.VideoProcessor.OpenAndStream` | app/src/main/kotlin/com/locatible/qrcodereader/MainActivity.kt:125-161 | one `use` block over the configured URL is `Connect` on the processor's state |
| `KtActivity.VideoProcessor.ProcessVideo` | app/src/main/kotlin/com/locatible/qrcodereader/MainActivity.kt:120-163 | processVideo, from a new empty buffer, is `ProcessVideoFrom` on the processor's state |
| `KtActivity.VideoProcessor.Run` | app/src/main/kotlin/com/locatible/qrcodereader/MainActivity.kt:107-114 | run() with a stop landing after the given reads ends in the state `ProcessVideoFrom` gives, whether or not an exception was caught |
| `JavaKtActivity.ClearDueIsMask` | app/src/main/java/com/locatible/qrcodereader/MainActivity.kt:163 | the clear test `ClearDue` holds exactly when the source's `cycle and 0xfff == 0` does on the 32-bit counter (`Masked` of it is 0), that is when the count is a multiple of 4096 |
| `JavaKtActivity.Iterate` | app/src/main/java/com/locatible/qrcodereader/MainActivity.kt:162-181 | one pass never reports a stop, keeps the status and only extends the log. The counter goes up by one on every non-null frame and stays put when the pass leaves the loop. An exception comes only from a grabbed frame |
| `JavaKtActivity.Inner` | app/src/main/java/com/locatible/qrcodereader/MainActivity.kt:159-182 | the inner loop keeps the status, only extends the log and advances the counter. A stop exit has the flag down, and an exception exit stops at a grabbed frame |
| `JavaKtActivity.Connect` | app/src/main/java/com/locatible/qrcodereader/MainActivity.kt:153-185 | a connection never gives the other thread's stop more time |
| `JavaKtActivity.Process` | app/src/main/java/com/locatible/qrcodereader/MainActivity.kt:151-189 | a normal return happens only once `running` was seen false |
| `JavaKtActivity.IterateKeepsInv` | app/src/main/java/com/locatible/qrcodereader/MainActivity.kt:162-181 | one pass keeps the buffer covering every submission and the shown code current, and only grows the log and the buffer |
| `JavaKtActivity.InnerKeepsInv` | app/src/main/java/com/locatible/qrcodereader/MainActivity.kt:159-182 | the inner loop keeps the same invariant |
| `JavaKtActivity.ConnectKeepsInv` | app/src/main/java/com/locatible/qrcodereader/MainActivity.kt:153-185 | a connection keeps the same invariant |
| `JavaKtActivity.ProcessKeepsInv` | app/src/main/java/com/locatible/qrcodereader/MainActivity.kt:151-189 | a whole run keeps the same invariant |
| `JavaKtActivity.IterateClears` | app/src/main/java/com/locatible/qrcodereader/MainActivity.kt:162-167 | one pass clears exactly when its counter's twelve low bits are zero, before grabbing and whether or not a frame follows. The end-of-stream exit happens exactly when the frames run out |
| `JavaKtActivity.InnerClears` | app/src/main/java/com/locatible/qrcodereader/MainActivity.kt:159-182 | the clears in one connection number the counters, among the passes begun, whose twelve low bits are zero. A pass that ends the loop on a null frame or an exception counts; a stop comes before a pass and does not |
| `JavaKtActivity.ChecksClosedForm` | app/src/main/java/com/locatible/qrcodereader/MainActivity.kt:159-165 | the first n passes of a connection clear ceil(n / 4096) times, at counters 0, 4096, 8192, and so on |
| `JavaKtActivity.IterateSubmits` | app/src/main/java/com/locatible/qrcodereader/MainActivity.kt:162-179 | one pass calls processFrame once with the grabbed frame's payload when it has one. It does not call it for a skipped frame or at end of stream, and the clear before the grab submits nothing |
| `JavaKtActivity.InnerSubmits` | app/src/main/java/com/locatible/qrcodereader/MainActivity.kt:159-182 | within one connection, processFrame is called once for every frame with a payload and never for a skipped one, in stream order and with that frame's payload. The frames run from the connection's counter up to where the loop stopped, plus the frame whose submission threw |
| `JavaKtActivity.IterateDescribes` | app/src/main/java/com/locatible/qrcodereader/MainActivity.kt:162-181 | one pass keeps the processor's description set up from the stream, and the frame it submits carries that description's width, height and layout |
| `JavaKtActivity.InnerDescribes` | app/src/main/java/com/locatible/qrcodereader/MainActivity.kt:159-182 | the inner loop keeps every submission of the connection described by the stream |
| `JavaKtActivity.ConnectDescribes` | app/src/main/java/com/locatible/qrcodereader/MainActivity.kt:157-170 | after a successful open, every frame the connection hands to processFrame carries the width, height and mapped layout of the opened stream: the description is set once per connection and reused for every frame |
| `JavaKtActivity.ConnectStatus` | app/src/main/java/com/locatible/qrcodereader/MainActivity.kt:153-185 | a failed open leaves the status it found and ends the run. After a successful open, a connection that no exception ends shows Done, whether the stream ended or a stop was seen, and one that an exception ends shows Streaming |
| `JavaKtActivity.ProcessStatus` | app/src/main/java/com/locatible/qrcodereader/MainActivity.kt:151-189 | a normal return shows Stopped with the flag down. An exception skips Stopped and leaves the status it found, Streaming or Done |
| `JavaKtActivity.ViewModel.constructor` | app/src/main/java/com/locatible/qrcodereader/MainActivity.kt:43-84 | the URL and licence are the stored ones, and the defaults are kept for reset. The status and code are empty, not running, and no processor |
| `JavaKtActivity.ViewModel.Reset` | app/src/main/java/com/locatible/qrcodereader/MainActivity.kt:86-89 | the URL and licence become their defaults, and nothing else may change |
| `JavaKtActivity.ViewModel.Toggle` | app/src/main/java/com/locatible/qrcodereader/MainActivity.kt:91-107 | when running: flag down, Stopping, the processor told to stop and the handle dropped. Otherwise: flag up, Starting, and a fresh running processor with an empty buffer. The URL, licence and code are untouched. The old processor's calls, buffer, description, stop countdown and view model are untouched, and so is its flag when a new processor is started |
| `JavaKtActivity.VideoProcessor.constructor` | app/src/main/java/com/locatible/qrcodereader/MainActivity.kt:119-136 | the init block allocates a fresh empty buffer. The processor is running, with a new description and no calls made |
| `JavaKtActivity.VideoProcessor.Stop` | app/src/main/java/com/locatible/qrcodereader/MainActivity.kt:147-149 | stop only lowers the flag |
| `JavaKtActivity.VideoProcessor.PollRunning` | app/src/main/java/com/locatible/qrcodereader/MainActivity.kt:152 | a read of `running` is `Session.Poll` on the processor's state |
| `JavaKtActivity.VideoProcessor.UpdateFrame` | app/src/main/java/com/locatible/qrcodereader/MainActivity.kt:219-240 | true iff the frame has a payload. On false, the array, its contents and the description are unchanged. On true, the array holds `CopyIn` of the payload, the memory size is the payload's size, and the same array is kept iff the payload fit |
| `JavaKtActivity.VideoProcessor.Feed` | app/src/main/java/com/locatible/qrcodereader/MainActivity.kt:169-179 | updateFrame, processFrame and the publication of the last new code are `Session.Accept` on the processor's state |
| `JavaKtActivity.VideoProcessor.Step` | app/src/main/java/com/locatible/qrcodereader/MainActivity.kt:162-181 | one pass of the loop body is `Iterate` on the processor's state |
| `JavaKtActivity.VideoProcessor.Stream` | app/src/main/java/com/locatible/qrcodereader/MainActivity.kt:159-182 | the inner loop, with its counter reset to 0, is `Inner` on the processor's state |
| `JavaKtActivity.VideoProcessor.OpenAndStream` | app/src/main/java/com/locatible/qrcodereader/MainActivity.kt:153-185 | one `use` block over the configured URL, ending with Done, is `Connect` on the processor's state |
| `JavaKtActivity.VideoProcessor.ProcessVideo` | app/src/main/java/com/locatible/qrcodereader/MainActivity.kt:151-189 | processVideo is `Process` on the processor's state |
| `JavaKtActivity.VideoProcessor.Run` | app/src/main/java/com/locatible/qrcodereader/MainActivity.kt:138-145 | run() with a stop landing after the given reads ends in the state `Process` gives, whether or not an exception was caught |
| `JavaActivity.CreateImageDescription` | app/src/main/java/com/locatible/qrcodereader/MainActivity.java:129-135 | a new description with the stream's width, height and mapped layout, and no memory size yet |
| `JavaActivity.DescribeAsCreated` | app/src/main/java/com/locatible/qrcodereader/MainActivity.java:129-135 | building a new description agrees with setting up an existing one apart from the memory size, and equals it iff that size is 0 |
| `JavaActivity.AcceptedPrefix` | app/src/main/java/com/locatible/qrcodereader/MainActivity.java:71-89 | the payloads accepted from a prefix of the stream are a prefix of those accepted from all of it |
| `JavaActivity.AcceptedNext` | app/src/main/java/com/locatible/qrcodereader/MainActivity.java:72-89 | grabbing one more frame adds its payload, if it has one, to those accepted |
| `JavaActivity.Filled` | app/src/main/java/com/locatible/qrcodereader/MainActivity.java:91-95 | after each payload in turn was copied in, the array starts with the last payload |
| `JavaActivity.FilledCapacity` | app/src/main/java/com/locatible/qrcodereader/MainActivity.java:69 | the array's length after a run of payloads, from `new byte[0]`, follows the growth rule |
| `JavaActivity.FilledCovers` | app/src/main/java/com/locatible/qrcodereader/MainActivity.java:91-93 | the array never shrinks along the run and is always at least as long as every payload seen |
| `JavaActivity.NoSessionClear` | app/src/main/java/com/locatible/qrcodereader/MainActivity.java:58-105 | a log without clear calls counts no clears |
| `JavaActivity.AnsweredAt` | app/src/main/java/com/locatible/qrcodereader/MainActivity.java:98 | every submission before the last returned normally |
| `JavaActivity.FedLength` | app/src/main/java/com/locatible/qrcodereader/MainActivity.java:63-98 | the log is the open followed by exactly one call per payload fed |
| `JavaActivity.FedAt` | app/src/main/java/com/locatible/qrcodereader/MainActivity.java:95-98 | the k-th submission carries the k-th payload's size as memory size, and the array as it stood after that payload was copied in |
| `JavaActivity.CopyPayload` | app/src/main/java/com/locatible/qrcodereader/MainActivity.java:91-95 | the array holds `CopyIn` of the payload. It is the same array iff the payload fit, and otherwise a fresh one, with the old one untouched |
| `JavaActivity.Loop` | app/src/main/java/com/locatible/qrcodereader/MainActivity.java:71-103 | the loop only extends the log |
| `JavaActivity.Run` | app/src/main/java/com/locatible/qrcodereader/MainActivity.java:58-105 | the log always starts with the one open of the fixed locator, and a normal return needs a successful open |
| `JavaActivity.LoopEnd` | app/src/main/java/com/locatible/qrcodereader/MainActivity.java:72-77 | a null frame ends the loop normally, with every accepted payload fed and answered |
| `JavaActivity.LoopSkip` | app/src/main/java/com/locatible/qrcodereader/MainActivity.java:79-89 | a frame without a payload is skipped and processFrame is not called |
| `JavaActivity.LoopSubmit` | app/src/main/java/com/locatible/qrcodereader/MainActivity.java:91-98 | a frame with a payload is copied into `[0, size)`, its size recorded and processFrame called exactly once. When processFrame returns, the loop goes on from the next frame |
| `JavaActivity.LoopThrow` | app/src/main/java/com/locatible/qrcodereader/MainActivity.java:98 | an exception from processFrame ends the loop, with that submission the last call |
| `JavaActivity.FinishThrow` | app/src/main/java/com/locatible/qrcodereader/MainActivity.java:63-104 | a log that fed a prefix of the payloads and whose last submission threw is a finished run |
| `JavaActivity.LoopFeeds` | app/src/main/java/com/locatible/qrcodereader/MainActivity.java:71-103 | from any state of the loop, it feeds the accepted payloads in order. It returns exactly when all were fed and answered, and throws only on the engine's exception |
| `JavaActivity.RunFeeds` | app/src/main/java/com/locatible/qrcodereader/MainActivity.java:58-105 | the open comes first, and a failed open ends the run with nothing else. Otherwise the single connection feeds the payloads as `LoopFeeds` says, and every submission before the last returned normally. There is no reconnect and no session clear |
| `JavaActivity.ProcessVideo` | app/src/main/java/com/locatible/qrcodereader/MainActivity.java:58-105 | the for(;;) loop over the local array makes the calls and ends as `Run` says |

## Left out

- Threading. Threads are not created; `Thread.start` and the unsynchronised shared flag are left out. Another thread's `stop()` is a countdown of reads of `running` after which the flag is down.
- The Android activity, data binding and preferences: `onCreate`, `init`, `ObservableField`, `notifyPropertyChanged` and the preference writes. Stored values are constructor parameters, and status strings are an enumeration whose initial empty string is `Idle`.
- The recognition engine's internals: `createScanner`, the duplicate filter, the licence key and `startNewFrameSequence`. `processFrame` and `newlyRecognizedCodes` are one reply from a function of the call log. `clear` is a logged call.
- FFmpeg decoding: `FFmpegFrameGrabber`, `setOption`, `start`, `grabImage` and `URL.openConnection`. A failing open or start is the decoder's `OpenFailed`. A stream is a finite sequence of frames followed by a null frame. An endless live stream is modelled by a sequence longer than the stop countdown, so the stop lands before the frames run out.
- The pixel-format constants take libavutil's values; only their being distinct is used.
- `println`, `printStackTrace` and the resource release of `use` and try-with-resources have no state to model. An exception is the outcome `Threw`.
- Exceptions thrown by the grabber after opening, by `clear`, or by the cast of plane 0 (see `Media.Payload` below) are not modelled; in the model only the engine's `processFrame` throws after the open.
- KtActivity.VideoProcessor.constructor: allocates an empty buffer, where the Kotlin processor leaves `frameData` null until `processVideo` sets it to `ByteArray(0)`. `ProcessVideo` still allocates its own empty buffer first.
- KtActivity.ViewModel.Toggle: the new processor's thread is not started; `Run` is the thread's body.
- JavaKtActivity.ViewModel.Toggle: the new processor's thread is not started; `Run` is the thread's body.
- Media.CopyIn: the grown buffer is exactly twice the payload. In the source `size * 2` is a 32-bit Int product, so a payload of 2^30 bytes or more makes it negative. The allocation then throws, and the exception ends the run like an engine exception, with no submission. Payloads that large are not modelled.
- KtActivity.VideoProcessor.UpdateFrame: allocates `2 * size` bytes without the 32-bit overflow of `ByteArray(size * 2)` for payloads of 2^30 bytes or more, as for `Media.CopyIn`.
- JavaKtActivity.VideoProcessor.UpdateFrame: allocates `2 * size` bytes without the 32-bit overflow of `ByteArray(size * 2)` for payloads of 2^30 bytes or more, as for `Media.CopyIn`.
- JavaActivity.CopyPayload: allocates `2 * size` bytes without the 32-bit overflow of `new byte[size * 2]` for payloads of 2^30 bytes or more, as for `Media.CopyIn`.
- Media.Payload: a frame's image planes are taken to be non-null byte buffers, which is what the grabber gives in its default image mode. All three copies cast plane 0 to `ByteBuffer`; a null or differently typed plane 0 makes that cast throw, and the exception would end the run. That path is not modelled.
