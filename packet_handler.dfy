/**
 * The packet handler thread: the `ph_state` fields, the static `out_dex` and
 * the two-slot `output_buff` updated in place, packet by packet, in both the
 * decimating and the raw mode.  Every packet is proved to move the state
 * exactly as the transition `PacketSpec.Handle` (or `HandleRaw`) says.
 */
module PacketHandling {
  import opened CameraTypes
  import opened UserApi
  import opened PacketSpec

  /** `mipi_packet_t`: the data type from the header and the payload bytes. */
  datatype Packet = Packet(dataType: DataType, payload: seq<byte>)

  /**
   * What the horizontal and vertical filters (external to this model) leave
   * behind for one packet: the channel rows they write into the active output
   * slot, in the order the handler calls them, and whether the last vertical
   * filter call (blue, or the blue drain) reported a finished row.
   */
  datatype FilterOutput = FilterOutput(planes: seq<seq<int8>>, ready: bool)

  /**
   * The channels the filters write for a packet: red then green on an even
   * (RG) line, blue on an odd (GB) line, all three when draining at frame end.
   */
  function FilteredChannels(dt: DataType, inLine: nat): (cs: seq<nat>)
    ensures forall i :: 0 <= i < |cs| ==> cs[i] < ChannelCount
    ensures forall i, j :: 0 <= i < j < |cs| ==> cs[i] != cs[j]
  {
    match dt
    case ExpectedFormat => if inLine % 2 == 0 then [Red, Green] else [Blue]
    case FrameEnd => [Red, Green, Blue]
    case _ => []
  }

  /** The filter output has one row of the image width per channel written. */
  predicate FilterFits(f: FilterOutput, dt: DataType, inLine: nat, width: nat) {
    && |f.planes| == |FilteredChannels(dt, inLine)|
    && forall i :: 0 <= i < |f.planes| ==> |f.planes[i]| == width
  }

  /**
   * The active slot after the filters ran: the written channels hold the
   * filter's rows, the other channels keep what they held.
   */
  function Filtered(row: Row, dt: DataType, inLine: nat, planes: seq<seq<int8>>): (r: Row)
    requires |row| == ChannelCount && |planes| == |FilteredChannels(dt, inLine)|
    ensures |r| == ChannelCount
    ensures forall i :: 0 <= i < |planes| ==> r[FilteredChannels(dt, inLine)[i]] == planes[i]
    ensures forall c :: 0 <= c < ChannelCount && c !in FilteredChannels(dt, inLine) ==> r[c] == row[c]
  {
    match dt
    case ExpectedFormat =>
      if inLine % 2 == 0 then row[Red := planes[0]][Green := planes[1]] else row[Blue := planes[0]]
    case FrameEnd => [planes[0], planes[1], planes[2]]
    case _ => row
  }

  class PacketHandler {
    /** The `ph_state` fields. */
    var waitForFrameStart: bool
    var frameNumber: nat
    var inLineNumber: nat
    var outLineNumber: nat
    /** The static `out_dex`: the slot of `outputBuff` being filled. */
    var outDex: nat
    /** `output_buff[2][CH][W]`: the row being filled and the row handed to the statistics thread. */
    const outputBuff: array<Row>
    /** The words sent so far on `c_out_row`, oldest first. */
    var sent: seq<Word>
    /** The user capture gate the handler feeds. */
    const gate: CaptureGate
    /** SENSOR_RAW_IMAGE_HEIGHT_PIXELS */
    const sensorHeight: nat

    /** The bookkeeping as a value of the transition system. */
    function State(): Handler
      reads this
    {
      Handler(PhState(waitForFrameStart, frameNumber, inLineNumber, outLineNumber), outDex)
    }

    ghost predicate Valid()
      reads this, outputBuff, gate
    {
      && WellFormed(State())
      && outputBuff.Length == 2
      && gate.Valid()
      && RowOfWidth(outputBuff[0], gate.width) && RowOfWidth(outputBuff[1], gate.width)
    }

    /**
     * Start-up of `mipi_packet_handler`: `ph_state` at its static initial
     * value (waiting for a frame start), `out_dex` 0, zeroed output buffers,
     * nothing sent, and `camera_api_init` leaving no request active.
     */
    constructor Init(width: nat, height: nat, lineWidthBytes: nat, sensorHeight: nat)
      ensures Valid() && State() == Start && sent == []
      ensures fresh(outputBuff) && outputBuff[0] == ZeroRow(width) && outputBuff[1] == ZeroRow(width)
      ensures fresh(gate) && gate.width == width && gate.height == height && gate.lineWidthBytes == lineWidthBytes
      ensures gate.userImage == null && gate.rawImage == null && gate.signals == 0
      ensures this.sensorHeight == sensorHeight
    {
      waitForFrameStart, frameNumber, inLineNumber, outLineNumber := true, 0, 0, 0;
      outDex := 0;
      outputBuff := new Row[2](_ => ZeroRow(width));
      sent := [];
      gate := new CaptureGate.Init(width, height, lineWidthBytes);
      this.sensorHeight := sensorHeight;
    }

    /**
     * `handle_no_expected_lines`: the C function returns nothing; the flag
     * `overrun` stands for the test that the `ASSERT_ON_TOO_MANY_LINES` build
     * asserts against (a line at or beyond the sensor's height).  Outside that
     * build nothing is done about it; the absent `modifies` clause states
     * that it changes no state at all, and its callers ignore the flag.
     */
    method HandleNoExpectedLines() returns (overrun: bool)
      ensures overrun <==> inLineNumber >= sensorHeight
    {
      overrun := inLineNumber >= sensorHeight;
    }

    /**
     * `handle_pixel_data`: the filters write the active slot (red and green on
     * an even line, blue on an odd one); only an odd line can report a new
     * row, and it does when the blue vertical filter has one.  The inactive
     * slot `1 - out_dex` is untouched.
     */
    method HandlePixelData(filter: FilterOutput) returns (newRow: bool)
      requires Valid() && FilterFits(filter, ExpectedFormat, inLineNumber, gate.width)
      modifies outputBuff
      ensures Valid()
      ensures newRow <==> inLineNumber % 2 == 1 && filter.ready
      ensures outputBuff[outDex] == Filtered(old(outputBuff[outDex]), ExpectedFormat, inLineNumber, filter.planes)
      ensures outputBuff[1 - outDex] == old(outputBuff[1 - outDex])
    {
      var pattern := inLineNumber % 2;
      if pattern == 0 {
        // RGRG...: red, then green
        outputBuff[outDex] := outputBuff[outDex][Red := filter.planes[0]];
        outputBuff[outDex] := outputBuff[outDex][Green := filter.planes[1]];
        newRow := false;
      } else {
        // GBGB...: blue, the last channel out of the vertical filter
        outputBuff[outDex] := outputBuff[outDex][Blue := filter.planes[0]];
        newRow := filter.ready;
      }
    }

    /**
     * `on_new_output_row`: the active slot is sent to the statistics thread,
     * copied into row `out_line_number` of the user's image if a request is
     * active, and `out_line_number` advances.
     */
    method OnNewOutputRow()
      requires Valid()
      requires gate.userImage != null ==> outLineNumber < gate.height
      modifies this`sent, this`outLineNumber, gate.userImage
      ensures Valid()
      ensures sent == old(sent) + [RowPointer(outDex)]
      ensures outLineNumber == Inc32(old(outLineNumber))
      ensures gate.userImage != null ==>
        forall k, r, x :: 0 <= k < ChannelCount && 0 <= r < gate.height && 0 <= x < gate.width ==>
          gate.userImage[k, r, x] == if r == old(outLineNumber) then outputBuff[outDex][k][x]
                                     else old(gate.userImage[k, r, x])
    {
      sent := sent + [RowPointer(outDex)];
      gate.RequestUpdate(outputBuff[outDex], outLineNumber);
      outLineNumber := Inc32(outLineNumber);
    }

    /**
     * `handle_frame_start` for the bookkeeping: the filter state is reset
     * (external) and the request channel is polled; `request` is what the poll
     * found.
     */
    method HandleFrameStart(request: Option<array3<int8>>)
      requires Valid() && (request.Some? ==> gate.Fits(request.value))
      modifies gate`userImage
      ensures Valid()
      ensures gate.userImage == if request.Some? then request.value else old(gate.userImage)
    {
      gate.RequestBegin(request);
    }

    /**
     * `handle_frame_end`: the drain writes every channel of the active slot;
     * if it yields a last row, that row is sent; then the sentinel is sent and
     * the request, if any, is completed.
     */
    method HandleFrameEnd(filter: FilterOutput)
      requires Valid() && FilterFits(filter, FrameEnd, inLineNumber, gate.width)
      requires filter.ready && gate.userImage != null ==> outLineNumber < gate.height
      modifies this`sent, this`outLineNumber, outputBuff, gate`userImage, gate`signals, gate.userImage
      ensures Valid()
      ensures outputBuff[outDex] == Filtered(old(outputBuff[outDex]), FrameEnd, inLineNumber, filter.planes)
      ensures outputBuff[1 - outDex] == old(outputBuff[1 - outDex])
      ensures sent == old(sent) + (if filter.ready then [RowPointer(outDex)] else []) + [Sentinel]
      ensures outLineNumber == if filter.ready then Inc32(old(outLineNumber)) else old(outLineNumber)
      ensures gate.userImage == null
      ensures gate.signals == old(gate.signals) + (if old(gate.userImage) != null then 1 else 0)
      ensures filter.ready && old(gate.userImage) != null ==>
        forall k, x :: 0 <= k < ChannelCount && 0 <= x < gate.width ==>
          old(gate.userImage)[k, old(outLineNumber), x] == outputBuff[outDex][k][x]
      ensures old(gate.userImage) != null ==>
        forall k, r, x :: (0 <= k < ChannelCount && 0 <= r < gate.height && 0 <= x < gate.width &&
            !(filter.ready && r == old(outLineNumber))) ==>
          old(gate.userImage)[k, r, x] == old(gate.userImage[k, r, x])
    {
      outputBuff[outDex] := [filter.planes[Red], filter.planes[Green], filter.planes[Blue]];
      if filter.ready {
        OnNewOutputRow();
      }
      sent := sent + [Sentinel];
      gate.RequestComplete();
    }

    /**
     * The frame-start case of `handle_packet`: waiting ends, both line
     * counters restart at 0, the frame number advances, and the request
     * channel is polled.
     */
    method BeginFrame(request: Option<array3<int8>>)
      requires Valid() && (request.Some? ==> gate.Fits(request.value))
      modifies this`waitForFrameStart, this`inLineNumber, this`outLineNumber, this`frameNumber, gate`userImage
      ensures Valid()
      ensures State() == Handler(StartFrame(old(State()).ph), old(outDex))
      ensures gate.userImage == if request.Some? then request.value else old(gate.userImage)
    {
      waitForFrameStart := false;
      inLineNumber := 0;
      outLineNumber := 0;
      frameNumber := Inc32(frameNumber);
      HandleFrameStart(request);
    }

    /**
     * The frame-end case of `handle_packet`: `handle_frame_end` on the active
     * slot, after which the other slot becomes the active one.
     */
    method EndFrame(filter: FilterOutput)
      requires Valid() && FilterFits(filter, FrameEnd, inLineNumber, gate.width)
      requires filter.ready && gate.userImage != null ==> outLineNumber < gate.height
      modifies this`sent, this`outLineNumber, this`outDex, outputBuff, gate`userImage, gate`signals, gate.userImage
      ensures Valid()
      ensures outDex == 1 - old(outDex)
      ensures outputBuff[old(outDex)] == Filtered(old(outputBuff[outDex]), FrameEnd, inLineNumber, filter.planes)
      ensures outputBuff[outDex] == old(outputBuff[1 - outDex])
      ensures sent == old(sent) + (if filter.ready then [RowPointer(old(outDex))] else []) + [Sentinel]
      ensures outLineNumber == if filter.ready then Inc32(old(outLineNumber)) else old(outLineNumber)
      ensures gate.userImage == null
      ensures gate.signals == old(gate.signals) + (if old(gate.userImage) != null then 1 else 0)
      ensures filter.ready && old(gate.userImage) != null ==>
        forall k, x :: 0 <= k < ChannelCount && 0 <= x < gate.width ==>
          old(gate.userImage)[k, old(outLineNumber), x] == outputBuff[old(outDex)][k][x]
      ensures old(gate.userImage) != null ==>
        forall k, r, x :: (0 <= k < ChannelCount && 0 <= r < gate.height && 0 <= x < gate.width &&
            !(filter.ready && r == old(outLineNumber))) ==>
          old(gate.userImage)[k, r, x] == old(gate.userImage[k, r, x])
    {
      HandleFrameEnd(filter);
      outDex := 1 - outDex;
    }

    /**
     * The expected-format case of `handle_packet`: the pixel data goes into
     * the active slot; when that completes a row, the row is sent and the
     * other slot becomes the active one; the input line count advances.
     */
    method HandleExpectedLine(filter: FilterOutput)
      requires Valid() && FilterFits(filter, ExpectedFormat, inLineNumber, gate.width)
      requires inLineNumber % 2 == 1 && filter.ready && gate.userImage != null ==> outLineNumber < gate.height
      modifies this`sent, this`outLineNumber, this`outDex, this`inLineNumber, outputBuff, gate.userImage
      ensures Valid()
      ensures inLineNumber == Inc32(old(inLineNumber))
      ensures var emit := old(inLineNumber) % 2 == 1 && filter.ready;
        && outDex == (if emit then 1 - old(outDex) else old(outDex))
        && sent == old(sent) + (if emit then [RowPointer(old(outDex))] else [])
        && outLineNumber == (if emit then Inc32(old(outLineNumber)) else old(outLineNumber))
      ensures outputBuff[1 - old(outDex)] == old(outputBuff[1 - outDex])
      ensures outputBuff[old(outDex)] == Filtered(old(outputBuff[outDex]), ExpectedFormat, old(inLineNumber), filter.planes)
      ensures old(inLineNumber) % 2 == 1 && filter.ready && gate.userImage != null ==>
        forall k, x :: 0 <= k < ChannelCount && 0 <= x < gate.width ==>
          gate.userImage[k, old(outLineNumber), x] == outputBuff[old(outDex)][k][x]
      ensures gate.userImage != null ==>
        forall k, r, x :: (0 <= k < ChannelCount && 0 <= r < gate.height && 0 <= x < gate.width &&
            !(old(inLineNumber) % 2 == 1 && filter.ready && r == old(outLineNumber))) ==>
          gate.userImage[k, r, x] == old(gate.userImage[k, r, x])
    {
      var overrun := HandleNoExpectedLines();
      var newRow := HandlePixelData(filter);
      if newRow {
        OnNewOutputRow();
        outDex := 1 - outDex;
      }
      inLineNumber := Inc32(inLineNumber);
    }

    /**
     * `handle_packet`: a packet while waiting for a frame start is dropped;
     * otherwise it is dispatched on its data type.  The bookkeeping and the
     * words sent follow `Handle`; the inactive slot `1 - out_dex` is never
     * written (after a frame end with no drained row it is not the slot last
     * sent, see `SlotReusedAfterUndrainedFrameEnd`); the gate latches a request at frame start,
     * receives every row sent, and is completed at frame end.
     */
    method HandlePacket(pkt: Packet, filter: FilterOutput, request: Option<array3<int8>>)
      requires Valid()
      requires FilterFits(filter, pkt.dataType, inLineNumber, gate.width)
      requires request.Some? ==> gate.Fits(request.value)
      requires EmitsRow(State().ph, pkt.dataType, filter.ready) && gate.userImage != null ==> outLineNumber < gate.height
      modifies this, outputBuff, gate`userImage, gate`signals, gate.userImage
      ensures Valid()
      ensures State() == Handle(old(State()), pkt.dataType, filter.ready).next
      ensures sent == old(sent) + Handle(old(State()), pkt.dataType, filter.ready).sent
      ensures outputBuff[1 - old(outDex)] == old(outputBuff[1 - outDex])
      ensures outputBuff[old(outDex)] ==
        if Ignored(old(State()).ph, pkt.dataType) then old(outputBuff[outDex])
        else Filtered(old(outputBuff[outDex]), pkt.dataType, old(inLineNumber), filter.planes)
      ensures gate.userImage ==
        if Ignored(old(State()).ph, pkt.dataType) then old(gate.userImage)
        else if pkt.dataType == FrameStart && request.Some? then request.value
        else if pkt.dataType == FrameEnd then null
        else old(gate.userImage)
      ensures gate.signals == old(gate.signals) +
        (if pkt.dataType == FrameEnd && !Ignored(old(State()).ph, pkt.dataType) && old(gate.userImage) != null then 1 else 0)
      ensures EmitsRow(old(State()).ph, pkt.dataType, filter.ready) && old(gate.userImage) != null ==>
        forall k, x :: 0 <= k < ChannelCount && 0 <= x < gate.width ==>
          old(gate.userImage)[k, old(outLineNumber), x] == outputBuff[old(outDex)][k][x]
      ensures old(gate.userImage) != null ==>
        forall k, r, x :: (0 <= k < ChannelCount && 0 <= r < gate.height && 0 <= x < gate.width &&
            !(EmitsRow(old(State()).ph, pkt.dataType, filter.ready) && r == old(outLineNumber))) ==>
          old(gate.userImage)[k, r, x] == old(gate.userImage[k, r, x])
      ensures gate.rawImage == old(gate.rawImage)
    {
      if waitForFrameStart && pkt.dataType != FrameStart {
        return;
      }
      match pkt.dataType
      case FrameStart =>
        BeginFrame(request);
      case FrameEnd =>
        EndFrame(filter);
      case ExpectedFormat =>
        HandleExpectedLine(filter);
      case Unknown =>
        // handle_unknown_packet does nothing
    }

    /**
     * `handle_packet_raw`: the same dispatch, where an expected-format line is
     * copied verbatim to line `(uint16_t) in_line_number` of the raw buffer
     * and a frame end signals completion.  `out_dex`, the output slots and the
     * row channel are not involved.
     */
    method HandlePacketRaw(pkt: Packet)
      requires Valid()
      requires pkt.dataType == ExpectedFormat && !waitForFrameStart ==>
        && gate.rawImage != null && gate.lineWidthBytes <= |pkt.payload|
        && (inLineNumber % U16 + 1) * gate.lineWidthBytes <= gate.rawImage.Length
      modifies this`waitForFrameStart, this`frameNumber, this`inLineNumber, this`outLineNumber
      modifies gate`signals, gate.rawImage
      ensures Valid()
      ensures State().ph == HandleRaw(old(State()).ph, pkt.dataType)
      ensures gate.signals == old(gate.signals) +
        (if pkt.dataType == FrameEnd && !Ignored(old(State()).ph, pkt.dataType) then 1 else 0)
      ensures gate.rawImage != null ==>
        var line := old(inLineNumber) % U16;
        var copied := pkt.dataType == ExpectedFormat && !Ignored(old(State()).ph, pkt.dataType);
        forall i :: 0 <= i < gate.rawImage.Length ==>
          gate.rawImage[i] ==
            if copied && line * gate.lineWidthBytes <= i < (line + 1) * gate.lineWidthBytes
            then pkt.payload[i - line * gate.lineWidthBytes]
            else old(gate.rawImage[i])
    {
      if waitForFrameStart && pkt.dataType != FrameStart {
        return;
      }
      match pkt.dataType
      case FrameStart =>
        waitForFrameStart := false;
        inLineNumber := 0;
        outLineNumber := 0;
        frameNumber := Inc32(frameNumber);
      case FrameEnd =>
        gate.RequestCompleteRaw();
      case ExpectedFormat =>
        var overrun := HandleNoExpectedLines();
        gate.RequestUpdateRaw(inLineNumber % U16, pkt.payload);
        inLineNumber := Inc32(inLineNumber);
      case Unknown =>
    }
  }

  /**
   * The packet-buffer hand-out of `mipi_packet_handler` over its first n
   * iterations with a pool of 2^k buffers: buffer 0 first, then each
   * iteration the next index `(pkt_idx + 1) & (2^k - 1)`.  The buffers are
   * handed out in cyclic order, every index in range.
   */
  method PacketBufferIndices(k: nat, n: nat) returns (handed: seq<nat>)
    requires Pow2(k) < U32
    ensures |handed| == n + 1
    ensures forall i :: 0 <= i <= n ==> handed[i] == i % Pow2(k) && handed[i] < Pow2(k)
  {
    var pktIdx := 0;
    handed := [pktIdx];
    var iter := 0;
    while iter < n
      invariant 0 <= iter <= n && |handed| == iter + 1
      invariant forall i :: 0 <= i <= iter ==> handed[i] == i % Pow2(k)
      invariant pktIdx == iter % Pow2(k)
    {
      ModNext(iter, Pow2(k));
      pktIdx := NextPacketIndex(pktIdx, k);
      handed := handed + [pktIdx];
      iter := iter + 1;
    }
  }

  /** Stepping a counter modulo p: (i + 1) mod p is (i mod p) + 1, or 0 when that reaches p. */
  lemma ModNext(i: nat, p: nat)
    requires 0 < p
    ensures (i + 1) % p == if i % p + 1 == p then 0 else i % p + 1
  {
    var x, r := i / p, i % p;
    assert i == x * p + r;
    if r + 1 < p {
      DivUnique(i + 1, p, x, r + 1);
    } else {
      assert i + 1 == (x + 1) * p + 0;
      DivUnique(i + 1, p, x + 1, 0);
    }
  }
}
