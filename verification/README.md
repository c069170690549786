# udp_image_bitmap screen-streaming core, in Dafny

This project models the sequential core of udp_image_bitmap, a Tauri desktop application. The application captures the screen, encodes each frame as a JPEG, and multicasts it over UDP in 8192-byte chunks. A client reassembles the chunks and shows the frames. The model covers the following parts:

- **Transport.** The sender's chunking, 12-byte big-endian framing, abort-on-first-failure send loop and frame-id policy are in `Sender`. The receiver's per-datagram step is in `Receiver`: header parse, stale-entry eviction, slot fill, completion, JPEG marker check and entry removal. Lemmas in `Transport` connect the two sides: round trip, order independence, no partial frames, indifference to other frames' traffic, and what a duplicate arriving after completion does.
- **Frame pacer.** `Pacer` covers the millisecond rate gate and the adaptive FPS controller with its slow-frame counter.
- **Capture paths.** `Capture` models the following parts of screen_capture.rs:
  - the bounded WouldBlock retry;
  - the size and stride checks and the stride-aware BGRA→RGBA conversion;
  - the alpha strip of `encode_rgba_to_jpeg`;
  - the channel swap of `capture_screen_with_quality`;
  - the DXGI/scrap back-end state machine of `capture_screen`.

  `Dxgi` models `capture_frame`: its component checks, acquire classification and row-pitch conversion. `Pixels` holds the pixel kernels that both capture paths share.
- **Cursor overlay.** `Cursor` models the crosshair drawing with saturating `usize` arithmetic and its bounds guard. It also models the visibility and `i32`→`usize` offset logic of `draw_cursor_on_frame`.
- **Encoder factory.** `Encoder` models the factory, JPEG fallbacks, setters, the alpha strip of `JpegEncoder::encode`, and `auto_detect_encoder` (hw_encoder.rs).

`Bytes` holds the shared vocabulary: bytes, `u32` with wrap-around, big-endian encoding and flattening of chunk sequences.

The model uses values rather than mutable state:
- A frame buffer is a `seq<byte>`.
- The receiver's `HashMap` is a `map<u32, Entry>`.
- The statics of `capture_screen` are a `Backend` record threaded through calls.
- Clock readings are explicit millisecond parameters.
- Foreign results are parameters, such as a socket send failing, `Capturer::frame`, a Direct3D call or `GetCursorInfo`.

An operation that ends in the image library is modelled up to the image it hands over (`JpegRequest`, `JpegFrame`). The library's `ImageBuffer::from_raw` is modelled by its size rule: the buffer must hold at least `channels * width * height` samples, with the dimensions cast to `u32` (`Pixels.FromRawFits`).

## Model

| member | source | states |
|---|---|---|
| Bytes.WrappingInc | src-tauri/src/udp_server.rs:58 | `wrapping_add(1)` on a u32: successor below 2^32 - 1, zero at 2^32 - 1 |
| Bytes.WrappingIncsIsMod | src-tauri/src/udp_server.rs:38-58 | n wrapping increments of v give (v + n) mod 2^32 |
| Bytes.DecodeEncodeBE32 | src-tauri/src/udp_client.rs:64-66 | decoding the big-endian bytes the sender writes gives back the u32 |
| Bytes.EncodeDecodeBE32 | src-tauri/src/udp_server.rs:96-98 | encoding a decoded 4-byte header field gives back the same 4 bytes |
| Bytes.FlattenLength | src-tauri/src/udp_client.rs:106 | the concatenation of the slots is as long as the slots together |
| Sender.Chunks | src-tauri/src/udp_server.rs:92-94 | `chunks(8192)` yields ceil(len/8192) chunks, each 1..8192 long, all but the last exactly 8192 |
| Sender.ChunksFlatten | src-tauri/src/udp_server.rs:94 | the chunks concatenated in order are the payload |
| Sender.ChunkContents | src-tauri/src/udp_server.rs:94 | chunk i is the payload slice from i*8192 to the next boundary or the end |
| Sender.Packet | src-tauri/src/udp_server.rs:95-99 | a datagram is 12 + chunk bytes long, carries the chunk from byte 12, and its three header fields decode to frame id, index and count (index and count below 2^32) |
| Sender.Packets | src-tauri/src/udp_server.rs:91-99 | exactly total_chunks datagrams, datagram i framing chunk i with index i |
| Sender.PacketPayloadsRoundTrip | src-tauri/src/udp_server.rs:94-99 | the payloads (bytes 12..) of the datagrams in index order reproduce the input |
| Sender.FirstFailure | src-tauri/src/udp_server.rs:101-102 | the first failing index of a range, or its end if none fails |
| Sender.SendChunked | src-tauri/src/udp_server.rs:91-111 | the wire gets a prefix of the datagrams; Ok iff no chunk's send fails; on Err the prefix stops just before the first failing chunk |
| Sender.EmptyPayloadSendsNothing | src-tauri/src/udp_server.rs:92-94 | an empty payload sends no datagram and returns Ok |
| Sender.StreamCycle | src-tauri/src/udp_server.rs:39-62 | a loop iteration sends nothing without a payload, otherwise what `send_chunked` sends, every datagram stamped with the current frame id |
| Sender.FrameIdPolicy | src-tauri/src/udp_server.rs:40-62 | the frame id advances by one (wrapping) exactly when a payload reached the sender, whatever the send outcome; only a recompress failure skips the sleep |
| Sender.FrameIdCountsAttempts | src-tauri/src/udp_server.rs:38-62 | after any run the id is the start id advanced once per payload handed to the sender |
| Sender.FrameIdFromZero | src-tauri/src/udp_server.rs:38 | starting from 0, the id is the number of payloads sent modulo 2^32 |
| Receiver.Parse | src-tauri/src/udp_client.rs:59-67 | datagrams under 12 bytes are rejected; otherwise the three header fields are the big-endian readings of bytes 0-3, 4-7, 8-11 and the payload is bytes 12.. |
| Receiver.Evict | src-tauri/src/udp_client.rs:72-80 | an entry is kept iff it is younger than 1000 ms at `now`, and kept unchanged |
| Receiver.EntryFor | src-tauri/src/udp_client.rs:87-92 | an existing entry keeps its slots (the new count is ignored); a new one gets `total_chunks` empty slots; the stamp becomes `now` |
| Receiver.Step | src-tauri/src/udp_client.rs:58-135 | short datagrams change nothing; after an accepted one every entry is fresh, other frames' entries survive iff fresh and unchanged, and only a valid JPEG whose entry is gone is emitted |
| Receiver.StepBadIndex | src-tauri/src/udp_client.rs:87-100 | an out-of-range index leaves the slots as they were, still creates or refreshes the entry, emits nothing |
| Receiver.StepPartial | src-tauri/src/udp_client.rs:95-105 | an in-range chunk that leaves a slot empty is stored, the entry is stamped with `now`, nothing is emitted |
| Receiver.StepCompletes | src-tauri/src/udp_client.rs:103-126 | the chunk filling the last empty slot removes the entry whether valid or not; the slots' concatenation is emitted iff it passes the JPEG check, and is as long as the slots together |
| Receiver.StaleEntryDiscarded | src-tauri/src/udp_client.rs:72-92 | an entry at least 1000 ms old is gone after any accepted datagram, unless the datagram restarts that frame with fresh empty slots |
| Receiver.DuplicateChunkIdempotent | src-tauri/src/udp_client.rs:95-105 | re-delivering a chunk already in place to an incomplete frame changes only the stamp and emits nothing |
| Receiver.ZeroChunkFrameNeverCompletes | src-tauri/src/udp_client.rs:87-100 | a new frame announcing zero chunks gets an empty entry that nothing fills |
| Transport.ParsePacket | src-tauri/src/udp_client.rs:64-67 | the receiver parses a sender datagram into the sender's frame id, index, count and chunk |
| Transport.PacketsFramed | src-tauri/src/udp_server.rs:91-99 | the sender's datagrams carry non-empty chunks that concatenate back to the payload |
| Transport.FullHoldsIsChunks | src-tauri/src/udp_client.rs:103-106 | slots holding every delivered chunk, once every index is seen, are the chunks and are complete |
| Transport.MissingNotComplete | src-tauri/src/udp_client.rs:103 | while some index is undelivered the slots are not complete |
| Transport.DeliverChunk | src-tauri/src/udp_client.rs:87-126 | one delivery completes the frame exactly when it supplies the last missing index, then removes the entry and emits the payload iff valid; otherwise it records the chunk |
| Transport.FeedCompletes | src-tauri/src/udp_client.rs:58-135 | a prompt run of deliveries that covers every index only at its last delivery emits the payload once (iff valid) and leaves no entry |
| Transport.ReassemblyRoundTrip | src-tauri/src/udp_client.rs:58-135 | from a table without the frame, a prompt run of the sender's datagrams in any order (duplicates allowed) that supplies the last missing chunk at its final delivery emits exactly the original payload once, iff it is a valid JPEG, and leaves no entry |
| Transport.FeedIncomplete | src-tauri/src/udp_client.rs:95-105 | while an index is missing nothing is emitted and the entry holds exactly the chunks delivered |
| Transport.IncompleteNeverEmitted | src-tauri/src/udp_client.rs:103-126 | a frame with a chunk that never arrives is never emitted and its entry remains |
| Transport.FeedAppend | src-tauri/src/udp_client.rs:58-135 | feeding two runs one after the other emits the first run's frames, then the second's, and ends in the second's table |
| Transport.LateDeliveriesStartOver | src-tauri/src/udp_client.rs:87-126 | after the completing delivery the frame has no entry, so later deliveries of its datagrams behave as the start of a new frame with the same id |
| Transport.LateDuplicateReemits | src-tauri/src/udp_client.rs:87-126 | a valid one-chunk frame whose datagram arrives twice is emitted twice |
| Transport.LoneChunkOpensEntry | src-tauri/src/udp_client.rs:87-126 | a lone datagram of a frame of several chunks that has no entry opens one and emits nothing |
| Transport.LateDuplicateLeavesEntry | src-tauri/src/udp_client.rs:87-126 | in a frame of several chunks a duplicate arriving after completion emits nothing more and leaves an entry for the frame id |
| Transport.ForeignArrivalsKeepEntry | src-tauri/src/udp_client.rs:74-89 | datagrams that are too short or of other frames, arriving while the frame's entry is fresh, leave that entry exactly as it was |
| Transport.ForeignArrivalsKeepReady | src-tauri/src/udp_client.rs:74-89 | a frame ready for its next delivery stays ready across such foreign arrivals, so interleaved traffic does not disturb reassembly |
| Transport.ArrivalOrderIrrelevant | src-tauri/src/udp_client.rs:103-106 | two delivery orders that both complete the frame at their last delivery emit the same frames |
| Pacer.Spf | src-tauri/src/frame_pacer.rs:25-27 | the frame time is the whole milliseconds per frame: spf*fps <= 1000 < (spf+1)*fps |
| Pacer.ShouldCapture | src-tauri/src/frame_pacer.rs:30-41 | true iff the elapsed time reaches spf; on true the last time becomes `now` and the count grows by one; on false nothing changes |
| Pacer.Reset | src-tauri/src/frame_pacer.rs:69-73 | the count returns to zero and both clocks restart, the target is kept |
| Pacer.SetFps | src-tauri/src/frame_pacer.rs:76-78 | the target is stored unclamped, nothing else changes |
| Pacer.SecondCallDeclines | src-tauri/src/frame_pacer.rs:30-41 | right after a capture, a second call at the same instant declines when a frame lasts at least 1 ms |
| Pacer.NewPacerWaitsOneFrame | src-tauri/src/frame_pacer.rs:15-22 | a new pacer captures only once a whole frame time has passed since its creation |
| Pacer.FastTargetAlwaysCaptures | src-tauri/src/frame_pacer.rs:25-41 | above 1000 FPS the frame time is 0 ms and the gate is always open |
| Pacer.NewAdaptive | src-tauri/src/frame_pacer.rs:96-104 | the default FPS is taken as given (not clamped), bounds stored, counter zero |
| Pacer.AdjustForPacketLoss | src-tauri/src/frame_pacer.rs:115-137 | high loss sets max(0.8t, min), low loss min(1.1t, max), the band in between changes nothing; bounds and counter kept |
| Pacer.AdjustForSlowFrame | src-tauri/src/frame_pacer.rs:140-160 | a frame over twice the frame time counts as slow; the fifth in a row sets max(0.9t, min) and resets the count; a normal frame resets it |
| Pacer.LossDirection | src-tauri/src/frame_pacer.rs:115-136 | high loss never raises a clamped target and low loss never lowers it |
| Pacer.AdjustmentsKeepClamp | src-tauri/src/frame_pacer.rs:115-160 | both adjustments keep min <= target <= max |
| Pacer.SlowCounterBounded | src-tauri/src/frame_pacer.rs:140-160 | after any slow-frame adjustment the counter is below 5 |
| Pacer.HighLossFromThirty | src-tauri/src/frame_pacer.rs:193-198 | with bounds 10..60, high loss takes 30 FPS to 24 |
| Pacer.LowLossStuckBelowTen | src-tauri/src/frame_pacer.rs:126-136 | below 10 FPS the 1.1 step truncates back, so low loss cannot raise the target |
| Pacer.Apply | src-tauri/src/frame_pacer.rs:115-160 | one observation keeps a clamped target clamped, keeps the bounds, and leaves the slow counter below 5 |
| Pacer.RunKeepsClamp | src-tauri/src/frame_pacer.rs:115-160 | over any run from a clamped state with a positive minimum the target stays clamped and positive, bounds fixed, counter below 5 |
| Pacer.ZeroMinimumReachesZero | src-tauri/src/frame_pacer.rs:116-125 | with a zero minimum, high loss can take the target to 0, where the frame time is undefined |
| Pixels.StripAlpha | src-tauri/src/screen_capture.rs:171-176 | dropping every fourth byte of the whole pixels leaves 3*floor(len/4) bytes |
| Pixels.StripAlphaPixel | src-tauri/src/screen_capture.rs:172-176 | RGB byte c of pixel i is RGBA byte c of pixel i |
| Pixels.SwapChannels | src-tauri/src/screen_capture.rs:228-234 | the BGRA→RGBA swap of the whole pixels has 4*floor(len/4) bytes |
| Pixels.SwapChannelsPixel | src-tauri/src/screen_capture.rs:229-234 | swapped byte c of pixel i is source byte 2,1,0,3 of pixel i |
| Pixels.SwapChannelsInvolution | src-tauri/src/screen_capture.rs:229-234 | swapping twice gives back the whole pixels of the input |
| Pixels.RowLength | src-tauri/src/screen_capture.rs:128-136 | a row emits at most 4w bytes, exactly 4w when it lies inside the buffer |
| Pixels.StridedBounded | src-tauri/src/dxgi_capture.rs:183-197 | the strided conversion never emits more than 4wh bytes |
| Pixels.PushRow | src-tauri/src/screen_capture.rs:128-136 | the inner loop appends exactly the row's guarded pixels |
| Pixels.ConvertStrided | src-tauri/src/screen_capture.rs:125-137 | the nested loops produce the row-by-row guarded conversion |
| Pixels.StridedFullLength | src-tauri/src/screen_capture.rs:125-137 | when every row fits in the buffer the output has exactly 4wh bytes |
| Pixels.StridedPixel | src-tauri/src/screen_capture.rs:128-134 | output byte c of pixel (x, y) is buffer byte y*stride + 4x + (2,1,0,3)[c] |
| Pixels.StrideCovers | src-tauri/src/dxgi_capture.rs:185-189 | with stride >= 4w and h*stride <= len, every pixel's guard holds |
| Pixels.StridedWholePixels | src-tauri/src/dxgi_capture.rs:189-195 | the strided conversion emits whole pixels only |
| Pixels.FromRawFitsExact | src-tauri/src/screen_capture.rs:140-141 | a buffer of exactly channels*w*h samples satisfies the `from_raw` size rule |
| Capture.FirstUnblocked | src-tauri/src/screen_capture.rs:85-103 | the index of the first capture call that does not block: every earlier call blocks, and the limit of 30 is reached only if all 30 block |
| Capture.CaptureWithRetry | src-tauri/src/screen_capture.rs:85-103 | at most 30 calls; a frame is returned at once, any other error at once; the timeout comes after exactly 30 consecutive WouldBlocks and only then; the loop stops at the first call that does not block |
| Capture.StrideCheckRedundant | src-tauri/src/screen_capture.rs:107-122 | with h > 0, len/h >= 4w iff len >= 4wh: the stride check repeats the size check |
| Capture.ScrapConvert | src-tauri/src/screen_capture.rs:105-141 | rejected as too small iff len < 4wh; h = 0 divides by zero; otherwise accepted with exactly 4wh bytes, never by the stride check or `from_raw` |
| Capture.ScrapCovered | src-tauri/src/screen_capture.rs:115-137 | after the size check, every pixel's guard holds at stride len/h |
| Capture.ScrapPixel | src-tauri/src/screen_capture.rs:126-134 | output pixel (x, y) is [b[o+2], b[o+1], b[o], b[o+3]] with o = y*(len/h) + 4x |
| Capture.CaptureScreenScrap | src-tauri/src/screen_capture.rs:84-150 | timeout iff 30 WouldBlocks; the first frame that does not block is the one used: the result is Ok iff that frame holds at least 4wh bytes and h > 0, and its samples are that frame converted; a frame error, a short buffer and h = 0 give FrameFailed, BufferTooSmall and a panic, each iff; an accepted frame is a 4wh-byte RGBA image at quality 50, scaled iff wider than 1280; the stride and `from_raw` errors never occur |
| Capture.EncodeRgbaToJpeg | src-tauri/src/screen_capture.rs:169-188 | the RGB image is the alpha-stripped input, 3*floor(len/4) bytes, and is accepted iff it satisfies the `from_raw` size rule |
| Capture.EncodeFullFrame | src-tauri/src/screen_capture.rs:171-179 | an exact 4wh-byte RGBA frame is always accepted, giving 3wh samples |
| Capture.EncodePixel | src-tauri/src/screen_capture.rs:172-176 | RGB byte c of pixel i is RGBA byte c of pixel i |
| Capture.WithQualityConvert | src-tauri/src/screen_capture.rs:227-244 | the swapped image has 4*floor(len/4) bytes at the caller's quality, swaps back to the input's whole pixels, and is accepted iff it satisfies the `from_raw` size rule |
| Capture.WithQualityPixel | src-tauri/src/screen_capture.rs:229-234 | swapped byte c of pixel i is buffer byte 2,1,0,3 of pixel i |
| Capture.AfterInit | src-tauri/src/screen_capture.rs:24-40 | the first call installs a created capturer when DXGI is available, and marks DXGI tried either way; later calls change nothing |
| Capture.CaptureScreen | src-tauri/src/screen_capture.rs:20-69 | on the Windows `dxgi` build: init only on the first call; WouldBlock from an installed capturer is passed through and the capturer kept; any other DXGI error removes it and falls back to scrap; a DXGI frame from an installed capturer is always served by DXGI, encoded at the capturer's size, and the capturer stays; on any other error the statics are the initialised ones with the capturer removed |
| Capture.CaptureScreenOnBuild | src-tauri/src/screen_capture.rs:10-69 | builds without Windows and the `dxgi` feature serve every call by scrap and keep no statics; the Windows `dxgi` build takes the DXGI path |
| Capture.InitAtMostOnce | src-tauri/src/screen_capture.rs:24-40 | over any run of the Windows `dxgi` build DXGI initialisation is attempted at most once, exactly once from the initial statics |
| Capture.ScrapIsPermanent | src-tauri/src/screen_capture.rs:58-68 | once DXGI is tried and removed, every later call is served by scrap |
| Capture.DxgiUnavailableMeansScrap | src-tauri/src/screen_capture.rs:25-38 | when DXGI is unavailable at the first call, every call is served by scrap |
| Capture.CaptureScreenReachable | src-tauri/src/screen_capture.rs:24-40 | no capturer is ever installed before DXGI has been tried |
| Capture.DxgiFrameEncodes | src-tauri/src/screen_capture.rs:46-52 | a full DXGI frame always passes `from_raw` in `encode_rgba_to_jpeg` |
| Dxgi.ClassifyAcquire | src-tauri/src/dxgi_capture.rs:127-142 | success continues; WAIT_TIMEOUT is "WouldBlock", ACCESS_LOST its own error, anything else a generic error |
| Dxgi.CaptureFrame | src-tauri/src/dxgi_capture.rs:108-204 | missing components fail in order before any acquire; "WouldBlock" iff a timeout; a frame iff every call succeeds; at most 4wh bytes in whole pixels, exactly 4wh when the pitch is at least 4w |
| Dxgi.PitchCovers | src-tauri/src/dxgi_capture.rs:177-197 | with row pitch >= 4w every pixel's guard holds and 4wh bytes are emitted |
| Dxgi.FramePixel | src-tauri/src/dxgi_capture.rs:185-195 | output pixel (x, y) is the swapped mapped pixel at y*pitch + 4x |
| Cursor.SatAdd | src-tauri/src/cursor_capture.rs:151 | `usize::saturating_add` |
| Cursor.SatSub | src-tauri/src/cursor_capture.rs:151 | `usize::saturating_sub` |
| Cursor.LineSpanRange | src-tauri/src/cursor_capture.rs:150-151 | away from the top of usize, a line through c covers c-5 ..= c+4, clipped at 0 |
| Cursor.PaintPixelSpec | src-tauri/src/cursor_capture.rs:153-156 | one guarded write touches exactly the 4 bytes of its pixel, when they are inside the frame |
| Cursor.PaintAllSpec | src-tauri/src/cursor_capture.rs:150-169 | a run of writes paints exactly the bytes of visited in-frame pixels with their colour channel, keeps all other bytes and the length |
| Cursor.Crosshair | src-tauri/src/cursor_capture.rs:138-170 | the length is kept; a byte is red's channel iff its pixel was visited and lies wholly inside the frame, otherwise unchanged |
| Cursor.DrawCrosshair | src-tauri/src/cursor_capture.rs:146-169 | the two loops compute the crosshair |
| Cursor.PixelNumberUnique | src-tauri/src/cursor_capture.rs:153 | y*width + x determines (x, y) when x < width |
| Cursor.OnCrossVisited | src-tauri/src/cursor_capture.rs:150-169 | every in-frame pixel on the cross is visited by a loop |
| Cursor.VisitedOnCross | src-tauri/src/cursor_capture.rs:150-169 | every pixel a loop visits is on the cross: row y within the horizontal span, or column x within the vertical span |
| Cursor.CrosshairPixel | src-tauri/src/cursor_capture.rs:138-170 | byte c of an in-frame pixel is red's channel c iff the pixel is on the cross, else unchanged |
| Cursor.WrapSub | src-tauri/src/cursor_capture.rs:130-131 | the i32 subtraction: exact without overflow, congruent mod 2^32 otherwise |
| Cursor.AsUsize | src-tauri/src/cursor_capture.rs:130-131 | `as usize` on an i32 sign-extends: a negative v becomes 2^64 + v |
| Cursor.DrawCursorOnFrame | src-tauri/src/cursor_capture.rs:115-135 | no cursor or a hidden one leaves the frame as it was; otherwise the crosshair at the cursor position relative to the display |
| Cursor.DrawCursor | src-tauri/src/cursor_capture.rs:186-208 | off Windows the frame is unchanged; on Windows it is `draw_cursor_on_frame` |
| Cursor.OffscreenCursorDrawsNothing | src-tauri/src/cursor_capture.rs:130-169 | a cursor left of or above the display origin leaves the frame unchanged |
| Encoder.Kind | src-tauri/src/hw_encoder.rs:82-84 | JPEG reports Software, the hardware encoder HardwareH264, nothing reports H265 |
| Encoder.H264New | src-tauri/src/hw_encoder.rs:109-126 | fails iff hardware is unavailable, otherwise keeps size, bitrate and fps |
| Encoder.CreateEncoder | src-tauri/src/hw_encoder.rs:180-221 | always Ok; the hardware encoder iff an H264 request on a hwcodec build with hardware available; otherwise JPEG with the requested quality and size |
| Encoder.AlwaysJpeg | src-tauri/src/hw_encoder.rs:128-146 | with the probe as written (always false), every request gets JPEG |
| Encoder.Encode | src-tauri/src/hw_encoder.rs:47-64 | JPEG hands over the alpha-stripped input (3*floor(len/4) bytes) iff it satisfies the `from_raw` size rule; the hardware encoder always fails |
| Encoder.EncodeFullFrame | src-tauri/src/hw_encoder.rs:49-64 | an exact 4wh-byte frame is always accepted, giving 3wh samples |
| Encoder.EncodePixel | src-tauri/src/hw_encoder.rs:50-54 | RGB byte c of pixel i is RGBA byte c of pixel i |
| Encoder.EncodeAgreesWithCapture | src-tauri/src/hw_encoder.rs:47-64 | the JPEG encoder accepts the same frames as `encode_rgba_to_jpeg` and produces the same samples |
| Encoder.SetBitrate | src-tauri/src/hw_encoder.rs:86-89 | JPEG ignores it; the hardware encoder stores it, keeping everything else |
| Encoder.SetFps | src-tauri/src/hw_encoder.rs:91-94 | JPEG ignores it; the hardware encoder stores it, keeping everything else |
| Encoder.SettersCommute | src-tauri/src/hw_encoder.rs:166-176 | the last bitrate set wins, and the two setters are independent |
| Encoder.SettersIdempotent | src-tauri/src/hw_encoder.rs:166-176 | setting the current values changes nothing |
| Encoder.AutoDetect | src-tauri/src/hw_encoder.rs:224-249 | echoes size and fps; hardware H264 at CRF 23 iff hwcodec and available, else Software, bitrate 0, quality 70 |
| Encoder.DetectThenCreate | src-tauri/src/hw_encoder.rs:180-249 | creating from the detected configuration gives the hardware encoder iff detected, else JPEG at quality 70 with the requested size |

## Left out

- Receiver.EntryFor: a new entry's slot vector has `total_chunks` elements taken straight from the datagram header, and the source allocates it without a bound (src-tauri/src/udp_client.rs:87-89); a datagram announcing about 2^32 chunks requests on the order of 100 GB and the process aborts when the allocation fails. The model's sequence has no memory limit and does not model the abort.
- Sockets, binding, multicast and read timeouts are not modelled. Send failures are a set of failing chunk indices, and arrivals are a sequence of datagrams with their times.
- Threads, `tokio::spawn`, the running flags, the mutexes and all sleeps (the 10 ms capture retries, the 100 ms frame sleep, the 100 µs inter-chunk pause) are not modelled. One loop iteration is one pure step.
- The Tauri `emit` and base64 encoding are not modelled; an emitted frame is its raw bytes.
- The image library's JPEG encoding, decoding, `recompress_jpeg`, Lanczos resizing, `to_rgb8` and the f32 scale factor are not modelled. The recompression outcome is a parameter.
- `FramePacer::actual_fps`, `sleep_until_next` and `calculate_bitrate` use floats or sleeps and are not modelled. The hardware bitrate is a parameter of `Encoder.AutoDetect`.
- Pacer.AdjustForPacketLoss: the f32 factors 0.8 and 1.1 are the integer steps `t*8/10` and `t*11/10`. The loss rate is classified as High (> 0.1), Low (< 0.05) or Mid rather than compared in f32.
- Pacer.AdjustForSlowFrame: the f32 factor 0.9 is the integer step `t*9/10`. It also requires a positive target rate; at 0 the source divides by zero and panics (frame_pacer.rs:141).
- Pacer.Spf: requires a positive target rate. At 0 the source divides by zero and panics (frame_pacer.rs:26).
- Pacer.ShouldCapture: requires a positive target rate, for the same division (frame_pacer.rs:26).
- Transport.ReassemblyRoundTrip: promises a single emission only for runs that end at the completing delivery. A duplicate arriving later finds no entry and is taken as the first datagram of a new frame. A one-chunk frame is then emitted again (`Transport.LateDuplicateReemits`); a larger frame leaves an entry that waits to go stale (`Transport.LateDuplicateLeavesEntry`).
- Win32, DXGI, D3D11 and COM calls are not modelled. Their outcomes are the `Dxgi.Driver` record, and `GetCursorInfo` is replaced by its result.
- Dxgi.CaptureFrame: requires that the mapped data hold `row_pitch * height` bytes. The source assumes this unchecked in `slice::from_raw_parts`.
- `DxgiCapturer::new`, `is_dxgi_available` and `create_dxgi_capturer` are parameters of `Capture.CallEnv`. `Capture.CaptureScreen` and `Capture.Run` model the Windows build with the `dxgi` feature, the only one with the statics and the DXGI block. Other builds call `capture_screen_scrap` directly (screen_capture.rs:68), which `Capture.CaptureScreenOnBuild` states. The non-Windows stubs at dxgi_capture.rs:230-246 are never reached from `capture_screen` and are not modelled.
- The unbounded WouldBlock loop of `capture_screen_with_quality` is not modelled: `Capture.WithQualityConvert` starts from the buffer it returns.
- Capture.ScrapConvert: `width * height * 4` is taken without `usize` overflow.
- Cursor.Crosshair: the pixel index `(y * width + px) * 4` is taken without `usize` overflow. It agrees with the source whenever `4 * width * height < 2^64`.
- Cursor.WrapSub: models a release build, where the `i32` subtraction wraps. A debug build panics on overflow instead.
- `ImageBuffer::from_raw` is modelled by its documented size rule: a buffer at least `channels * width * height` long. It is not modelled as an exact-length test. Larger buffers are accepted. On the screen_capture.rs paths, `to_rgb8` then re-packs exactly `width * height` pixels. `JpegEncoder::encode` (hw_encoder.rs:72-77) passes the whole buffer, surplus included, to the JPEG codec; what the codec does with it is outside the model.
- windows_capture.rs and lib.rs are not part of this model. The former is all stubs; the latter is Tauri command glue.
- `get_displays` and the display and capturer creation errors of the scrap paths are not part of this model.
- The test comment at frame_pacer.rs:179-180 says the first `should_capture` is immediately true. The code sets `last_frame_time` to the creation time, so the model follows the code (`Pacer.NewPacerWaitsOneFrame`).
- The application has no partial-frame salvage, chunk re-sending, failure-count stop or minimum-payload skip. The model has none of them either.
