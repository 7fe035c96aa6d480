/**
 * The user capture gate: a consumer offers a buffer, the packet handler latches
 * it at frame start, copies every output row into it while it is latched, and
 * signals completion at frame end.  Raw mode copies whole sensor lines into a
 * flat byte buffer instead.
 */
module UserApi {
  import opened CameraTypes

  /** MIPI_LINE_WIDTH_BYTES is a compile-time constant; the raw copy takes a 16-bit line number. */
  const U16: nat := 0x1_0000

  class CaptureGate {
    /** Geometry of the decimated image (W, H) and of a raw line (MIPI_LINE_WIDTH_BYTES). */
    const width: nat
    const height: nat
    const lineWidthBytes: nat

    /** `user_image`: the latched consumer buffer, null when no request is active. */
    var userImage: array3?<int8>
    /** `image_raw_ptr`: the consumer's flat raw buffer, null until one is handed over. */
    var rawImage: array?<byte>
    /** Number of completion words sent to the consumer on `c_user_api`. */
    var signals: nat

    /** A buffer has the shape of the consumer's `int8_t image_buff[CH][H][W]`. */
    predicate Fits(img: array3<int8>) {
      img.Length0 == ChannelCount && img.Length1 == height && img.Length2 == width
    }

    ghost predicate Valid()
      reads this
    {
      userImage != null ==> Fits(userImage)
    }

    /** `camera_api_init`: no request is active. */
    constructor Init(width: nat, height: nat, lineWidthBytes: nat)
      ensures Valid()
      ensures this.width == width && this.height == height && this.lineWidthBytes == lineWidthBytes
      ensures userImage == null && rawImage == null && signals == 0
    {
      this.width := width;
      this.height := height;
      this.lineWidthBytes := lineWidthBytes;
      userImage := null;
      rawImage := null;
      signals := 0;
    }

    /**
     * `camera_api_request_begin`: a non-blocking poll of the request channel.
     * `request` is what the poll found: a consumer buffer, or nothing.
     */
    method RequestBegin(request: Option<array3<int8>>)
      requires Valid()
      requires request.Some? ==> Fits(request.value)
      modifies this`userImage
      ensures Valid()
      ensures userImage == if request.Some? then request.value else old(userImage)
    {
      match request
      case Some(img) =>
        userImage := img;
      case None =>
    }

    /**
     * `camera_api_request_update`: while a request is active, copy each channel
     * row of `imageRow` to row `rowIndex` of that channel's plane; every other
     * element of the buffer keeps its value.  With no request active nothing
     * changes.
     */
    method RequestUpdate(imageRow: Row, rowIndex: nat)
      requires Valid() && RowOfWidth(imageRow, width)
      requires userImage != null ==> rowIndex < height
      modifies userImage
      ensures userImage != null ==>
        forall k, r, x :: 0 <= k < ChannelCount && 0 <= r < height && 0 <= x < width ==>
          userImage[k, r, x] == if r == rowIndex then imageRow[k][x] else old(userImage[k, r, x])
    {
      if userImage != null {
        var img := userImage;
        for k := 0 to ChannelCount
          invariant forall c, r, x :: 0 <= c < ChannelCount && 0 <= r < height && 0 <= x < width ==>
            img[c, r, x] == if r == rowIndex && c < k then imageRow[c][x] else old(img[c, r, x])
        {
          // c_memcpy of one channel row
          for x := 0 to width
            invariant forall c, r, y :: 0 <= c < ChannelCount && 0 <= r < height && 0 <= y < width ==>
              img[c, r, y] == if r == rowIndex && (c < k || (c == k && y < x)) then imageRow[c][y] else old(img[c, r, y])
          {
            img[k, rowIndex, x] := imageRow[k][x];
          }
        }
      }
    }

    /**
     * `camera_api_request_complete`: if a request is active, signal the consumer
     * once and clear it; otherwise do nothing.
     */
    method RequestComplete()
      modifies this`userImage, this`signals
      ensures Valid()
      ensures signals == old(signals) + (if old(userImage) != null then 1 else 0)
      ensures userImage == null
    {
      if userImage != null {
        signals := signals + 1;
        userImage := null;
      }
    }

    /** The pointer hand-over in `camera_capture_image_raw`: the consumer's raw buffer. */
    method AttachRawBuffer(buffer: array<byte>)
      modifies this`rawImage
      ensures rawImage == buffer
    {
      rawImage := buffer;
    }

    /**
     * `camera_api_request_update_raw`: copy exactly `lineWidthBytes` bytes of
     * the line to offset `lineNumber * lineWidthBytes`; the rest of the raw
     * buffer is untouched.
     */
    method RequestUpdateRaw(lineNumber: nat, line: seq<byte>)
      requires lineNumber < U16
      requires rawImage != null && lineWidthBytes <= |line|
      requires (lineNumber + 1) * lineWidthBytes <= rawImage.Length
      modifies rawImage
      ensures forall i :: 0 <= i < rawImage.Length ==>
        rawImage[i] == if lineNumber * lineWidthBytes <= i < (lineNumber + 1) * lineWidthBytes
                       then line[i - lineNumber * lineWidthBytes]
                       else old(rawImage[i])
    {
      var pos := lineNumber * lineWidthBytes;
      assert pos + lineWidthBytes == (lineNumber + 1) * lineWidthBytes;
      var buf := rawImage;
      for i := 0 to lineWidthBytes
        invariant forall j :: 0 <= j < buf.Length ==>
          buf[j] == if pos <= j < pos + i then line[j - pos] else old(buf[j])
      {
        buf[pos + i] := line[i];
      }
    }

    /** `camera_api_request_complete_raw`: signals unconditionally. */
    method RequestCompleteRaw()
      modifies this`signals
      ensures signals == old(signals) + 1
    {
      signals := signals + 1;
    }
  }
}
