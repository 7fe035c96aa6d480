# lib_camera packet handler, statistics engine and capture gate in Dafny

This project models three sequential components of the lib_camera image pipeline and proves properties of them:

- The **MIPI packet handler** (`camera/src/packet_handler.c`). Each received packet is dispatched on its data type: frame start, frame end, an expected-format pixel line, or anything else.
  - It keeps the frame and line bookkeeping in `ph_state`.
  - It fills the active slot `out_dex` of the two-slot output row buffer and never writes the inactive slot `1 - out_dex`. The slot last sent to the statistics thread is not always the inactive one (see the note on the output slot after frame end below).
  - It sends a row pointer, or the NULL end-of-frame sentinel, to the statistics thread.
  - It feeds the user capture gate.
  - Its raw twin copies each line verbatim into a flat buffer.
- The **statistics engine** (`camera/src/statistics.c`). It accumulates per-channel histograms from strided samples of every row. At the sentinel it computes the weighted sum, the max and min and the percentile of each histogram.
- The **user capture gate** (`camera/src/user_api.c`). A consumer buffer is latched at frame start, receives every output row while latched, and is signalled and released at frame end.

The modules follow the source:

| module | file | models |
|---|---|---|
| `CameraTypes` | `camera_types.dfy` | shared types and helpers: `int8`, `byte`, rows, `Option`, 2^n, 32-bit `++`, division facts |
| `UserApi` | `user_api.dfy` | class `CaptureGate` (`user_image`, `image_raw_ptr`, completion signals) |
| `PacketSpec` | `packet_spec.dfy` | the handler's bookkeeping as a pure transition (`Handle`, `HandleRaw`, `Run`); the lemmas about runs of packets; the `pkt_idx` mask |
| `PacketHandling` | `packet_handler.dfy` | class `PacketHandler` (`ph_state`, `out_dex`, `output_buff`, the words sent); `HandlePacket` and `HandlePacketRaw` are proved to follow `Handle` and `HandleRaw` of `PacketSpec`, and `BeginFrame` follows `StartFrame`; the other methods state their own effects on the slots, the words sent and the gate |
| `Histogram` | `histogram.dfy` | specification functions for bins, samples, prefix sums, the percentile and the simple-statistics folds, with their lemmas |
| `Statistics` | `statistics.dfy` | `update_histogram` on an array; class `ChannelStats` with `compute_simple_stats` and `find_percentile` loops; one frame of `statistics_thread` |

Modelling choices:

- **Filters.** The horizontal and vertical filters are not modelled. A packet carries a `FilterOutput`: the channel rows the filters write into the active slot, and the vertical filter's "row ready" answer.
- **Channels.** The words sent on `c_out_row` are appended to a log (`sent`).
- **Request poll.** The non-blocking poll of the request channel is an `Option` parameter.
- **Completion.** Completion words sent to the consumer are counted (`signals`).
- **Counters.** The C `unsigned` counters of `ph_state` wrap modulo 2^32 (`Inc32`).
- **Raw line number.** The raw line number is truncated to 16 bits, as the `(uint16_t)` cast does.
- **Percentile threshold.** `find_percentile` takes its threshold as an integer. Its result, unassigned when no bin crosses the threshold, is `None`.

Two properties of the code are worth stating outright:

- **Max and min.** `compute_simple_stats` takes the max and min of the bin counts and the incoming field values. It does not take them over pixel values. Starting from the zeroed stats of a frame, the min therefore stays 0.
- **Output slot after frame end.** The comment at `camera/src/packet_handler.c:240-241` describes the two slots as the one the decimator is filling and the one the statistics thread is using. But `out_dex` is flipped at every frame end, even when the drain yields no row. After such a frame end, the slot being filled is the slot last sent, which the statistics thread may still be using (`PacketSpec.SlotReusedAfterUndrainedFrameEnd`). Within a frame, consecutive rows always use opposite slots (`PacketSpec.InFrameSlots`).

## Model

| member | source | states |
|---|---|---|
| `CameraTypes.Inc32` | camera/src/packet_handler.c:269 | `++` on a 32-bit unsigned counter: the result is below 2^32, one more than the input except that 2^32 - 1 wraps to 0 |
| `CameraTypes.ZeroRow` | camera/src/packet_handler.c:244 | a static output row starts as CH channel rows of W zeros |
| `UserApi.CaptureGate.Init` | camera/src/user_api.c:12-24 | `camera_api_init` leaves no request active and no signal sent; the raw pointer holds its static initial NULL |
| `UserApi.CaptureGate.RequestUpdate` | camera/src/user_api.c:26-39 | with a request active, row `rowIndex` of every channel plane becomes the given row and every other element keeps its value; with none active, nothing changes (the method modifies only the latched buffer) |
| `UserApi.CaptureGate.RequestBegin` | camera/src/user_api.c:41-55 | a buffer found by the poll is latched; when the poll finds none, the active reference is unchanged |
| `UserApi.CaptureGate.RequestComplete` | camera/src/user_api.c:67-73 | signals exactly once if and only if a request was active, and leaves none active, so a second call is a no-op |
| `UserApi.CaptureGate.AttachRawBuffer` | camera/src/user_api.c:82 | the raw pointer is set to the consumer's buffer |
| `UserApi.CaptureGate.RequestUpdateRaw` | camera/src/user_api.c:88-93 | exactly the `lineWidthBytes` bytes at offset `lineNumber * lineWidthBytes` take the line's bytes; the rest of the raw buffer is untouched |
| `UserApi.CaptureGate.RequestCompleteRaw` | camera/src/user_api.c:95-97 | signals unconditionally, with no active-request check |
| `PacketSpec.Handle` | camera/src/packet_handler.c:229-295 | one packet keeps the counters 32-bit and `out_dex` in {0, 1}, and sends at most two words |
| `PacketSpec.HandleRaw` | camera/src/packet_handler.c:298-343 | the raw dispatch keeps the frame and line counters 32-bit |
| `PacketSpec.HandleSends` | camera/src/packet_handler.c:274-287 | a packet sends a row pointer to the active slot exactly when a row is emitted (odd-parity line with a ready filter, or a frame end whose drain yields a row), followed by the sentinel on a frame end; `out_line_number` advances exactly on emission; `out_dex` flips on emission and on every frame end |
| `PacketSpec.EvenLinesNeverEmit` | camera/src/packet_handler.c:99-155 | an even-parity (RG) line never sends a row, whatever the filter answers |
| `PacketSpec.LineCounted` | camera/src/packet_handler.c:279-288 | each expected-format line in a frame advances `in_line_number` by exactly one (mod 2^32), emitted or not, and leaves the frame number and wait flag alone |
| `PacketSpec.UnknownIsNoOp` | camera/src/packet_handler.c:290-293 | an unknown packet changes no state and sends nothing, in both modes |
| `PacketSpec.ModesAgree` | camera/src/packet_handler.c:321-325 | both modes treat a frame start alike (wait flag cleared, line numbers 0, frame number plus one), and agree on everything but the output line number for every packet |
| `PacketSpec.RunAppend` | camera/src/packet_handler.c:370-386 | processing packets one after another composes: running `a + b` is running `a`, then `b` from where `a` ended, with the sent words concatenated |
| `PacketSpec.IgnoredUntilFrameStart` | camera/src/packet_handler.c:254-255 | while waiting for a frame start, any run of non-frame-start packets leaves the state unchanged and sends nothing |
| `PacketSpec.RawIgnoredUntilFrameStart` | camera/src/packet_handler.c:310-311 | the same for the raw handler |
| `PacketSpec.InFrameSlots` | camera/src/packet_handler.c:282-285 | within a frame, every word sent is a row pointer, the first uses the current `out_dex`, consecutive rows use opposite slots, and `out_dex` ends on the slot the last row did not use |
| `PacketSpec.InFrameCounters` | camera/src/packet_handler.c:279-288 | within a frame, `in_line_number` grows by the number of lines received and `out_line_number` by the number of rows sent, which is at most the number of lines |
| `PacketSpec.Alternating` | camera/src/packet_handler.c:284 | n row pointers starting at slot d, consecutive ones in opposite slots |
| `PacketSpec.LinePair` | camera/src/packet_handler.c:279-288 | from an even line, an even and an odd line with a ready filter send one row from the active slot, advance the line numbers by 2 and 1, and flip `out_dex` |
| `PacketSpec.LinesRows` | camera/src/packet_handler.c:99-155 | starting on an even line, 2n lines with a ready filter send n rows from alternating slots; the line numbers advance by 2n and n |
| `PacketSpec.DecimatedFrame` | camera/src/packet_handler.c:263-295 | a frame start, 2n ready lines and an undrained frame end send n rows from alternating slots and then the sentinel, ending with `in_line_number` 2n and `out_line_number` n |
| `PacketSpec.SlotReusedAfterUndrainedFrameEnd` | camera/src/packet_handler.c:274-277 | a row sent from slot d followed by a frame end with nothing to drain leaves slot d as the slot being filled |
| `PacketSpec.AndMaskBelow` | camera/src/packet_handler.c:371 | masking with 2^k - 1 keeps every value below 2^k unchanged |
| `PacketSpec.AndMaskFull` | camera/src/packet_handler.c:371 | masking 2^k with 2^k - 1 gives 0 |
| `PacketSpec.NextIndexMask` | camera/src/packet_handler.c:371 | for an index below 2^k, the masked increment is the index plus one, or 0 exactly when that reaches 2^k |
| `PacketSpec.NextPacketIndex` | camera/src/packet_handler.c:371 | the next packet-buffer index is always below the pool size: `idx + 1`, wrapping to 0 exactly at 2^k |
| `PacketHandling.FilteredChannels` | camera/src/packet_handler.c:104-147 | the filters write red and green on an even line, blue on an odd line, all three at the drain; these are distinct channels |
| `PacketHandling.Filtered` | camera/src/packet_handler.c:104-147 | after the filters run, each written channel holds the filter's row and every other channel keeps its content |
| `PacketHandling.PacketHandler.Init` | camera/src/packet_handler.c:23-33 | the handler starts waiting for a frame start with all counters 0, `out_dex` 0, zeroed output slots, nothing sent and no request active |
| `PacketHandling.PacketHandler.HandleNoExpectedLines` | camera/src/packet_handler.c:201-208 | reports an overrun exactly when `in_line_number` reaches the sensor height, and changes no state |
| `PacketHandling.PacketHandler.HandlePixelData` | camera/src/packet_handler.c:91-156 | writes the filters' channels into the active slot only, and reports a new row exactly on an odd line with a ready filter |
| `PacketHandling.PacketHandler.OnNewOutputRow` | camera/src/packet_handler.c:159-171 | sends the active slot, copies it into row `out_line_number` of an active request (the rest of the image untouched), and advances `out_line_number` |
| `PacketHandling.PacketHandler.HandleFrameStart` | camera/src/packet_handler.c:54-68 | latches a polled request, otherwise keeps the active one |
| `PacketHandling.PacketHandler.HandleFrameEnd` | camera/src/packet_handler.c:175-198 | the drain writes the active slot; a drained row is sent and copied to the request; then the sentinel is sent, the request completed and released; no other element of the user image and no other gate field changes |
| `PacketHandling.PacketHandler.BeginFrame` | camera/src/packet_handler.c:265-272 | the frame-start case: the state becomes `StartFrame` of the old one with `out_dex` kept, and a polled request is latched |
| `PacketHandling.PacketHandler.EndFrame` | camera/src/packet_handler.c:274-277 | the frame-end case: the drain writes the old active slot, the other slot is untouched, an optional drained row and then the sentinel are sent, the request is completed, and `out_dex` flips; the rest of the user image and the raw pointer are kept |
| `PacketHandling.PacketHandler.HandleExpectedLine` | camera/src/packet_handler.c:279-288 | the expected-format case: `in_line_number` advances by one; exactly on an odd line with a ready filter a row is sent from the active slot and copied to the request, `out_line_number` advances and `out_dex` flips; the other slot, and every other element of the user image, are untouched |
| `PacketHandling.PacketHandler.HandlePacket` | camera/src/packet_handler.c:229-295 | the new bookkeeping and the words sent are exactly `Handle`'s; the inactive slot `1 - out_dex` is never written (after a frame end with no drained row, this is not the slot last sent; see the note on the output slot above); the active slot holds the filter output; the gate latches at frame start, receives each emitted row and nothing else in the user image changes, and is signalled and released at frame end; the raw pointer is kept |
| `PacketHandling.PacketHandler.HandlePacketRaw` | camera/src/packet_handler.c:298-343 | the bookkeeping is exactly `HandleRaw`'s; an accepted line is copied to line `in_line_number mod 2^16` of the raw buffer, with nothing else in it changed; a frame end signals once |
| `PacketHandling.PacketBufferIndices` | camera/src/packet_handler.c:363-376 | over n iterations the main loop hands out buffers 0, 1, ..., 2^k - 1, 0, ... in cyclic order, every index in range |
| `Histogram.BinOf` | camera/src/statistics.c:28-30 | every int8 value lands in a bin below 2^(8-q), the bin whose range of 2^q biased values contains it |
| `Histogram.SampleBinsSize` | camera/src/statistics.c:27 | a row of width W contributes exactly ceil(W / step) samples |
| `Histogram.TotalAdd` | camera/src/statistics.c:31 | adding one count per sample grows the histogram's total by the number of samples |
| `Histogram.PrefixMonotone` | camera/src/statistics.c:97-103 | running totals never decrease |
| `Histogram.CrossingUnique` | camera/src/statistics.c:101 | at most one bin satisfies `total < threshold <= new_total` |
| `Histogram.Percentile` | camera/src/statistics.c:92-106 | defined exactly when 0 < threshold <= total; then a multiple of 2^q that fits the `uint8_t` result |
| `Histogram.PercentileIsLeast` | camera/src/statistics.c:99-105 | the percentile is `k << q` for the crossing bin k, and no earlier prefix reaches the threshold |
| `Histogram.PercentileMonotone` | camera/src/statistics.c:94-105 | a larger threshold never yields a smaller percentile |
| `Histogram.LastCrossingFound` | camera/src/statistics.c:99-104 | after k bins the loop's result is assigned exactly when one of them crossed, and then it is that bin scaled |
| `Histogram.ScanFindsPercentile` | camera/src/statistics.c:95-104 | visiting every bin with no early exit and keeping the last crossing yields exactly the percentile |
| `Histogram.MaxUpToIsMax` | camera/src/statistics.c:78 | the running max is at least the start value and every bin count seen, and equals one of them |
| `Histogram.MinUpToIsMin` | camera/src/statistics.c:79 | the running min is at most the start value and every bin count seen, and equals one of them |
| `Histogram.ZeroedSimpleStats` | camera/src/statistics.c:75-84 | from zeroed stats the shifted min is 0, the shifted max is at least the min and at least every shifted bin count |
| `Statistics.UpdateHistogram` | camera/src/statistics.c:23-33 | each bin grows by the number of samples at positions 0, step, 2*step, ... that land in it; bins no sample hits are unchanged; the total grows by exactly ceil(W / step) |
| `Statistics.ChannelStats.Zeroed` | camera/src/statistics.c:116 | a new frame's channel stats: all bins and fields zero |
| `Statistics.ChannelStats.ComputeSimpleStats` | camera/src/statistics.c:72-86 | the weighted sum grows by the sum of bin * index, max and min become the running max and min over the bin counts, shifted left by q |
| `Statistics.ChannelStats.FindPercentile` | camera/src/statistics.c:92-106 | the stored result is the histogram's percentile (None when no bin crosses) |
| `Statistics.HistogramRow` | camera/src/statistics.c:129-134 | every channel's histogram grows by that channel row's samples |
| `Statistics.FinishFrame` | camera/src/statistics.c:138-142 | every channel ends with min 0, max and weighted sum of its histogram and its percentile, and the bins are untouched |
| `Statistics.NewGlobalStats` | camera/src/statistics.c:116 | a frame starts with three distinct fresh channel stats whose bins and fields are all zero |
| `Statistics.ReceiveRows` | camera/src/statistics.c:119-134 | rows are received until the sentinel or the end of the stream; from empty bins, every channel's bins then hold exactly the samples of the rows received |
| `Statistics.CollectFrame` | camera/src/statistics.c:115-142 | rows are histogrammed until the sentinel; the bins then hold exactly the samples of the frame's rows, and after the sentinel every channel's statistics are those of its histogram |

## Left out

- The filter arithmetic is not part of this model. That covers `pixel_hfilter`, `pixel_hfilter_update_scale`, `image_vfilter_frame_init`, `image_vfilter_process_row` and `image_vfilter_drain`, which are not in the repository files modelled. Their effect on the output slot is an input (`FilterOutput`).
- Floating-point work is left out:
  - `compute_skewness` and its z-score table;
  - the `mean` scaling by `histogram_norm_factor`;
  - the conversion of `fraction` to `threshold`;
  - the `isp_params` channel gains.
- The exposure and white-balance calls after each frame (`AE_*`, `AWB_*`, the sensor write) and the `printf` output are left out. They are foreign or floating-point.
- Channel I/O and threads are left out. Sends are appended to a log and polls are parameters. The infinite loops become finite runs (`Run`, `PacketBufferIndices`, `CollectFrame` over a finite stream). The consumer-side blocking calls are reduced to their hand-overs. For `camera_capture_image`, the buffer the handler's poll finds is the `request` parameter of `HandleFrameStart` and `HandlePacket`. For `camera_capture_image_raw`, it is the raw buffer pointer (`AttachRawBuffer`).
- The `assert(0)` of the `ASSERT_ON_TOO_MANY_LINES` build is left out. The model is the production build, where an overrun is not acted upon.
- Decoding the data type from a MIPI header is left out. A packet carries its data type directly.
- There is no single method for the main loop of `handle_packet` over a stream of packets. Each packet's preconditions depend on the state reached, so `PacketHandler.HandlePacket` is proved per packet against `Handle`, and runs are reasoned about with `Run`.
- `PacketHandling.PacketHandler.HandlePacket`: it requires a row sent to an active request to fall inside the image (`out_line_number < H`). The source does not check this; a later row would be written past the user's buffer.
- `PacketHandling.PacketHandler.HandlePacketRaw`: it requires a raw buffer and a line that fits in it. The source checks neither. After an overrun, a line is copied past the end of the raw buffer.
- `PacketSpec.InFrameCounters`: it assumes the line counters do not wrap within the run. A single step does model the wrap (`LineCounted`).
- `Statistics.UpdateHistogram`: the bins are unbounded naturals. The 32-bit wrap of an `unsigned` bin is not modelled; a frame has far fewer samples than 2^32.
- `Statistics.ChannelStats.ComputeSimpleStats`: the width of the `max` and `min` fields is declared in `statistics.h`, which is not part of this model. The model keeps them unbounded. It captures no truncation in the assignments of bin counts to them (`camera/src/statistics.c:78-79`) or in the shifts (`camera/src/statistics.c:83-84`). Nor does it model the floating-point `mean` field.
- `Histogram.Percentile`: the threshold is an integer parameter. Its derivation from the floating-point `fraction` is not modelled.
