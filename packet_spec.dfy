/**
 * The bookkeeping of the MIPI packet handler as a pure transition system.
 * One packet moves the handler state (`ph_state` plus the output slot index
 * `out_dex`) and yields the words sent on the row channel to the statistics
 * thread.  The filters are abstract: all the transition needs from them is the
 * vertical filter's "a decimated row is ready" answer.
 */
module PacketSpec {
  import opened CameraTypes

  /** The data type in a packet header, as `handle_packet` dispatches on it. */
  datatype DataType = FrameStart | FrameEnd | ExpectedFormat | Unknown

  /** `ph_state`: all four fields are C `unsigned`. */
  datatype PhState = PhState(waitForFrameStart: bool, frameNumber: nat, inLineNumber: nat, outLineNumber: nat)

  /** `ph_state` together with the static `out_dex` of `handle_packet`. */
  datatype Handler = Handler(ph: PhState, outDex: nat)

  /**
   * A word sent on `c_out_row`: the address of output slot `slot`, or NULL,
   * the end-of-frame sentinel.
   */
  datatype Word = RowPointer(slot: nat) | Sentinel

  datatype Outcome = Outcome(next: Handler, sent: seq<Word>)

  /** One packet as the bookkeeping sees it: its data type and the filter's row-ready answer. */
  datatype Input = Input(dataType: DataType, ready: bool)

  /** The initial value of `ph_state`, with `out_dex` = 0. */
  const Start: Handler := Handler(PhState(true, 0, 0, 0), 0)

  /** The counters are 32-bit and `out_dex` is a slot of the two-slot buffer. */
  predicate WellFormed(h: Handler) {
    && h.ph.frameNumber < U32 && h.ph.inLineNumber < U32 && h.ph.outLineNumber < U32
    && h.outDex <= 1
  }

  /** The packet is dropped: the handler is still waiting for a frame start. */
  predicate Ignored(ph: PhState, dt: DataType) {
    ph.waitForFrameStart && dt != FrameStart
  }

  /** Frame start bookkeeping, shared by both modes: a new frame, line numbers back to 0. */
  function StartFrame(ph: PhState): PhState
    requires ph.frameNumber < U32
  {
    PhState(false, Inc32(ph.frameNumber), 0, 0)
  }

  /**
   * Whether this packet makes the handler send a row: an expected-format line
   * of odd Bayer parity (GB, the blue channel) for which the vertical filter
   * has a row ready, or a frame end whose drain yields a last row.
   */
  predicate EmitsRow(ph: PhState, dt: DataType, ready: bool) {
    && !Ignored(ph, dt)
    && ((dt == ExpectedFormat && ph.inLineNumber % 2 == 1 && ready) || (dt == FrameEnd && ready))
  }

  /** `handle_packet`: the new state and the words sent to the statistics thread. */
  function Handle(h: Handler, dt: DataType, ready: bool): (o: Outcome)
    requires WellFormed(h)
    ensures WellFormed(o.next)
    ensures |o.sent| <= 2
  {
    var ph := h.ph;
    if Ignored(ph, dt) then Outcome(h, [])
    else match dt
      case FrameStart =>
        Outcome(Handler(StartFrame(ph), h.outDex), [])
      case FrameEnd =>
        var drained := if ready then [RowPointer(h.outDex)] else [];
        var out := if ready then Inc32(ph.outLineNumber) else ph.outLineNumber;
        Outcome(Handler(ph.(outLineNumber := out), 1 - h.outDex), drained + [Sentinel])
      case ExpectedFormat =>
        var emit := ph.inLineNumber % 2 == 1 && ready;
        var out := if emit then Inc32(ph.outLineNumber) else ph.outLineNumber;
        var ph' := ph.(inLineNumber := Inc32(ph.inLineNumber), outLineNumber := out);
        Outcome(Handler(ph', if emit then 1 - h.outDex else h.outDex),
                if emit then [RowPointer(h.outDex)] else [])
      case Unknown =>
        Outcome(h, [])
  }

  /** `handle_packet_raw`: the same dispatch with no filtering, no slots and no row channel. */
  function HandleRaw(ph: PhState, dt: DataType): (r: PhState)
    requires ph.frameNumber < U32 && ph.inLineNumber < U32
    ensures r.frameNumber < U32 && r.inLineNumber < U32
  {
    if Ignored(ph, dt) then ph
    else match dt
      case FrameStart => StartFrame(ph)
      case ExpectedFormat => ph.(inLineNumber := Inc32(ph.inLineNumber))
      case _ => ph
  }

  /** The packet handler thread's main loop over a sequence of packets. */
  function Run(h: Handler, inputs: seq<Input>): (o: Outcome)
    requires WellFormed(h)
    ensures WellFormed(o.next)
    decreases |inputs|
  {
    if inputs == [] then Outcome(h, [])
    else
      var first := Handle(h, inputs[0].dataType, inputs[0].ready);
      var rest := Run(first.next, inputs[1..]);
      Outcome(rest.next, first.sent + rest.sent)
  }

  /** The raw handler thread's main loop. */
  function RunRaw(ph: PhState, dts: seq<DataType>): (r: PhState)
    requires ph.frameNumber < U32 && ph.inLineNumber < U32
    ensures r.frameNumber < U32 && r.inLineNumber < U32
    decreases |dts|
  {
    if dts == [] then ph else RunRaw(HandleRaw(ph, dts[0]), dts[1..])
  }

  // ----- one packet -----

  /**
   * A handled packet sends exactly the rows EmitsRow announces, followed by
   * the sentinel on a frame end; each row sent advances `out_line_number`
   * by one and flips `out_dex`, and nothing else sends or moves them, except
   * that a frame end flips `out_dex` whether or not a row was drained (and a
   * frame start resets the output line number).
   */
  lemma HandleSends(h: Handler, dt: DataType, ready: bool)
    requires WellFormed(h)
    ensures var o := Handle(h, dt, ready);
      && o.sent == (if EmitsRow(h.ph, dt, ready) then [RowPointer(h.outDex)] else [])
                   + (if dt == FrameEnd && !Ignored(h.ph, dt) then [Sentinel] else [])
      && (dt != FrameStart ==> o.next.ph.outLineNumber == if EmitsRow(h.ph, dt, ready) then Inc32(h.ph.outLineNumber) else h.ph.outLineNumber)
      && o.next.outDex == (if EmitsRow(h.ph, dt, ready) || (dt == FrameEnd && !Ignored(h.ph, dt))
                           then 1 - h.outDex else h.outDex)
  {
    match dt
    case FrameStart =>
    case FrameEnd =>
    case ExpectedFormat =>
    case Unknown =>
  }

  /** Lines of even Bayer parity (RG) never send a row, whatever the filter says. */
  lemma EvenLinesNeverEmit(h: Handler, ready: bool)
    requires WellFormed(h) && h.ph.inLineNumber % 2 == 0
    ensures Handle(h, ExpectedFormat, ready).sent == []
  {
  }

  /**
   * Each expected-format line advances `in_line_number` by exactly one,
   * emitted or not, and leaves the frame number and the wait flag alone.
   */
  lemma LineCounted(h: Handler, ready: bool)
    requires WellFormed(h) && !h.ph.waitForFrameStart
    ensures var n := Handle(h, ExpectedFormat, ready).next.ph;
      && n.inLineNumber == Inc32(h.ph.inLineNumber)
      && n.frameNumber == h.ph.frameNumber && !n.waitForFrameStart
  {
  }

  /** Unknown packets, in or out of a frame, change nothing and send nothing. */
  lemma UnknownIsNoOp(h: Handler, ready: bool)
    requires WellFormed(h)
    ensures Handle(h, Unknown, ready) == Outcome(h, [])
    ensures HandleRaw(h.ph, Unknown) == h.ph
  {
  }

  /**
   * Both modes treat a frame start alike: the wait flag clears, both line
   * numbers return to 0 and the frame number goes up by one (mod 2^32).
   * The raw twin agrees with the decimating handler on everything but the
   * output line number on every packet.
   */
  lemma ModesAgree(h: Handler, dt: DataType, ready: bool)
    requires WellFormed(h)
    ensures var n := Handle(h, dt, ready).next.ph;
      && n.(outLineNumber := 0) == HandleRaw(h.ph, dt).(outLineNumber := 0)
      && (dt == FrameStart ==> n == HandleRaw(h.ph, dt) == PhState(false, Inc32(h.ph.frameNumber), 0, 0))
  {
  }

  // ----- runs of packets -----

  /** Running two packet sequences one after the other is running their concatenation. */
  lemma {:induction false} RunAppend(h: Handler, a: seq<Input>, b: seq<Input>)
    requires WellFormed(h)
    ensures var first := Run(h, a); var second := Run(first.next, b);
      Run(h, a + b) == Outcome(second.next, first.sent + second.sent)
    decreases |a|
  {
    if a == [] {
      assert a + b == b;
    } else {
      var o1 := Handle(h, a[0].dataType, a[0].ready);
      assert (a + b)[1..] == a[1..] + b;
      RunAppend(o1.next, a[1..], b);
    }
  }

  /**
   * Until a frame start arrives, every packet is dropped: the state is
   * unchanged and nothing is sent, in both modes.
   */
  lemma {:induction false} IgnoredUntilFrameStart(h: Handler, inputs: seq<Input>)
    requires WellFormed(h) && h.ph.waitForFrameStart
    requires forall i :: 0 <= i < |inputs| ==> inputs[i].dataType != FrameStart
    ensures Run(h, inputs) == Outcome(h, [])
    decreases |inputs|
  {
    if inputs != [] {
      IgnoredUntilFrameStart(h, inputs[1..]);
    }
  }

  lemma {:induction false} RawIgnoredUntilFrameStart(ph: PhState, dts: seq<DataType>)
    requires ph.frameNumber < U32 && ph.inLineNumber < U32 && ph.waitForFrameStart
    requires forall i :: 0 <= i < |dts| ==> dts[i] != FrameStart
    ensures RunRaw(ph, dts) == ph
    decreases |dts|
  {
    if dts != [] {
      RawIgnoredUntilFrameStart(ph, dts[1..]);
    }
  }

  /** Inside a frame: no frame start or frame end among the packets. */
  predicate InFrame(inputs: seq<Input>) {
    forall i :: 0 <= i < |inputs| ==> inputs[i].dataType != FrameStart && inputs[i].dataType != FrameEnd
  }

  /** The number of expected-format lines among the packets. */
  function LineCount(inputs: seq<Input>): (n: nat)
    ensures n <= |inputs|
    decreases |inputs|
  {
    if inputs == [] then 0
    else (if inputs[0].dataType == ExpectedFormat then 1 else 0) + LineCount(inputs[1..])
  }

  /**
   * The double-buffer discipline: `ws` are row pointers only, the first uses
   * slot `d`, consecutive ones use opposite slots, and `e` is the slot the
   * last one did not use (`d` itself when none was sent).
   */
  ghost predicate Alternates(ws: seq<Word>, d: nat, e: nat)
  {
    && (forall i :: 0 <= i < |ws| ==> ws[i].RowPointer?)
    && (forall i :: 0 < i < |ws| ==> ws[i].slot == 1 - ws[i - 1].slot)
    && (|ws| == 0 ==> e == d)
    && (|ws| > 0 ==> ws[0].slot == d && e == 1 - ws[|ws| - 1].slot)
  }

  /** Sending a row from slot d in front of an alternation that starts at 1 - d keeps it one. */
  lemma AlternatesCons(d: nat, ws: seq<Word>, e: nat)
    requires d <= 1 && Alternates(ws, 1 - d, e)
    ensures Alternates([RowPointer(d)] + ws, d, e)
  {
    var all := [RowPointer(d)] + ws;
    forall i | 0 < i < |all|
      ensures all[i].slot == 1 - all[i - 1].slot
    {
      assert all[i] == ws[i - 1];
      if i > 1 {
        assert all[i - 1] == ws[i - 2];
      }
    }
  }

  /**
   * The double-buffer discipline within a frame: the words sent alternate
   * from the current `out_dex`, and `out_dex` ends on the slot the last row
   * did not use.
   */
  lemma {:induction false} InFrameSlots(h: Handler, inputs: seq<Input>)
    requires WellFormed(h) && !h.ph.waitForFrameStart && InFrame(inputs)
    ensures var o := Run(h, inputs); Alternates(o.sent, h.outDex, o.next.outDex)
    decreases |inputs|
  {
    if inputs != [] {
      var x := inputs[0];
      HandleSends(h, x.dataType, x.ready);
      var first := Handle(h, x.dataType, x.ready);
      InFrameSlots(first.next, inputs[1..]);
      var rest := Run(first.next, inputs[1..]);
      if first.sent != [] {
        assert first.sent == [RowPointer(h.outDex)] && first.next.outDex == 1 - h.outDex;
        AlternatesCons(h.outDex, rest.sent, rest.next.outDex);
      } else {
        assert first.sent + rest.sent == rest.sent;
      }
    }
  }

  /**
   * Within a frame, `in_line_number` counts the lines received and
   * `out_line_number` the rows sent, at most one per line; the frame number
   * and the wait flag stay put.  The counters are assumed not to wrap within
   * the run.
   */
  lemma {:induction false} InFrameCounters(h: Handler, inputs: seq<Input>)
    requires WellFormed(h) && !h.ph.waitForFrameStart && InFrame(inputs)
    requires h.ph.inLineNumber + |inputs| < U32 && h.ph.outLineNumber + |inputs| < U32
    ensures var o := Run(h, inputs);
      && |o.sent| <= LineCount(inputs)
      && o.next.ph == h.ph.(inLineNumber := h.ph.inLineNumber + LineCount(inputs),
                            outLineNumber := h.ph.outLineNumber + |o.sent|)
    decreases |inputs|
  {
    if inputs != [] {
      var x := inputs[0];
      HandleSends(h, x.dataType, x.ready);
      var first := Handle(h, x.dataType, x.ready);
      InFrameCounters(first.next, inputs[1..]);
      assert LineCount(inputs) == (if x.dataType == ExpectedFormat then 1 else 0) + LineCount(inputs[1..]);
    }
  }

  /** n rows sent from alternating slots, starting with slot d. */
  function Alternating(d: nat, n: nat): (words: seq<Word>)
    requires d <= 1
    ensures |words| == n
    ensures forall i :: 0 <= i < n ==> words[i].RowPointer? && words[i].slot <= 1
    ensures n > 0 ==> words[0] == RowPointer(d)
    ensures forall i :: 0 < i < n ==> words[i].slot == 1 - words[i - 1].slot
    decreases n
  {
    if n == 0 then [] else [RowPointer(d)] + Alternating(1 - d, n - 1)
  }

  /** `2 * n` consecutive pixel lines for which the vertical filter always has a row. */
  function Lines(n: nat): (lines: seq<Input>)
    ensures |lines| == 2 * n && InFrame(lines)
  {
    seq(2 * n, _ => Input(ExpectedFormat, true))
  }

  /**
   * One line pair from an even (RG) line: the odd (GB) line completes a row,
   * which is sent from the current slot, and the other slot becomes current.
   */
  lemma LinePair(h: Handler)
    requires WellFormed(h) && !h.ph.waitForFrameStart && h.ph.inLineNumber % 2 == 0
    requires h.ph.inLineNumber + 2 < U32 && h.ph.outLineNumber + 1 < U32
    ensures Run(h, Lines(1)) == Outcome(
      Handler(h.ph.(inLineNumber := h.ph.inLineNumber + 2, outLineNumber := h.ph.outLineNumber + 1), 1 - h.outDex),
      [RowPointer(h.outDex)])
  {
    var line := Input(ExpectedFormat, true);
    var even := Handle(h, ExpectedFormat, true);
    var odd := Handle(even.next, ExpectedFormat, true);
    assert Lines(1) == [line, line];
    assert Run(even.next, [line]) == Outcome(odd.next, odd.sent) by {
      assert [line][1..] == [];
    }
    assert [line, line][1..] == [line];
  }

  /**
   * From an even (RG) line, each pair of lines sends one row, from
   * alternating slots; the line numbers advance by 2n and n, and `out_dex`
   * is left on the slot the next row will use.
   */
  lemma {:induction false} LinesRows(h: Handler, n: nat)
    requires WellFormed(h) && !h.ph.waitForFrameStart && h.ph.inLineNumber % 2 == 0
    requires h.ph.inLineNumber + 2 * n < U32 && h.ph.outLineNumber + n < U32
    ensures var o := Run(h, Lines(n));
      && o.sent == Alternating(h.outDex, n)
      && o.next.ph == h.ph.(inLineNumber := h.ph.inLineNumber + 2 * n, outLineNumber := h.ph.outLineNumber + n)
      && o.next.outDex == Alternating(h.outDex, n + 1)[n].slot
    decreases n
  {
    if n > 0 {
      LinePair(h);
      var pair := Run(h, Lines(1));
      LinesRows(pair.next, n - 1);
      assert Lines(n) == Lines(1) + Lines(n - 1);
      RunAppend(h, Lines(1), Lines(n - 1));
      assert Alternating(h.outDex, n + 1)[n] == Alternating(1 - h.outDex, n)[n - 1];
    }
  }

  /**
   * A whole frame with a filter that yields a row on every line pair: after
   * the frame start, 2n lines send n rows alternating between the slots, and
   * the frame end (with nothing left to drain) sends the sentinel.  At the end
   * `in_line_number` is 2n and `out_line_number` n.
   */
  lemma DecimatedFrame(h: Handler, n: nat)
    requires WellFormed(h) && 2 * n < U32
    ensures var o := Run(h, [Input(FrameStart, false)] + Lines(n) + [Input(FrameEnd, false)]);
      && o.sent == Alternating(h.outDex, n) + [Sentinel]
      && o.next.ph == PhState(false, Inc32(h.ph.frameNumber), 2 * n, n)
  {
    var start := Handle(h, FrameStart, false).next;
    LinesRows(start, n);
    RunAppend(h, [Input(FrameStart, false)], Lines(n));
    RunAppend(h, [Input(FrameStart, false)] + Lines(n), [Input(FrameEnd, false)]);
  }

  /**
   * The frame end flips `out_dex` even when the drain yields no row.  So
   * after a row is sent from slot d and the frame ends with nothing to
   * drain, the slot being filled is d again, the slot last sent, rather
   * than the other one.
   */
  lemma SlotReusedAfterUndrainedFrameEnd(h: Handler)
    requires WellFormed(h) && !h.ph.waitForFrameStart && h.ph.inLineNumber % 2 == 1
    ensures var o := Run(h, [Input(ExpectedFormat, true), Input(FrameEnd, false)]);
      && o.sent == [RowPointer(h.outDex), Sentinel]
      && o.next.outDex == h.outDex
  {
    var line, end := Input(ExpectedFormat, true), Input(FrameEnd, false);
    assert [line, end][1..] == [end];
    assert [end][1..] == [];
  }

  // ----- the packet buffer index -----

  /** `&` on unsigned integers, bit by bit from the least significant bit. */
  function BitAnd(a: nat, b: nat): nat
    decreases a
  {
    if a == 0 || b == 0 then 0
    else 2 * BitAnd(a / 2, b / 2) + (if a % 2 == 1 && b % 2 == 1 then 1 else 0)
  }

  /** With an odd mask the lowest bit of `a` survives, and the rest is masked by m / 2. */
  lemma AndOddMask(a: nat, m: nat)
    requires 0 < a && m % 2 == 1
    ensures BitAnd(a, m) == 2 * BitAnd(a / 2, m / 2) + a % 2
  {
  }

  /** Masking with 2^k - 1 keeps every value below 2^k as it is. */
  lemma {:induction false} AndMaskBelow(x: nat, k: nat)
    requires x < Pow2(k)
    ensures BitAnd(x, Pow2(k) - 1) == x
    decreases k
  {
    if x > 0 {
      assert k > 0;
      var p := Pow2(k - 1);
      assert Pow2(k) == 2 * p;
      var m := 2 * p - 1;
      assert m % 2 == 1 && m / 2 == p - 1;
      assert x / 2 < p;
      AndOddMask(x, m);
      AndMaskBelow(x / 2, k - 1);
    }
  }

  /** Masking 2^k itself with 2^k - 1 clears it. */
  lemma {:induction false} AndMaskFull(k: nat)
    ensures BitAnd(Pow2(k), Pow2(k) - 1) == 0
    decreases k
  {
    if k > 0 {
      var p := Pow2(k - 1);
      assert Pow2(k) == 2 * p && Pow2(k) / 2 == p && Pow2(k) % 2 == 0;
      AndOddMask(Pow2(k), 2 * p - 1);
      AndMaskFull(k - 1);
    }
  }

  /**
   * `pkt_idx = (pkt_idx + 1) & (MIPI_PKT_BUFFER_COUNT - 1)` with a buffer
   * count of 2^k: the next slot of the pool, wrapping to 0 after the last.
   */
  function NextPacketIndex(idx: nat, k: nat): (r: nat)
    requires idx < Pow2(k) < U32
    ensures r < Pow2(k)
    ensures r == if idx + 1 == Pow2(k) then 0 else idx + 1
  {
    NextIndexMask(idx, k);
    BitAnd(idx + 1, Pow2(k) - 1)
  }

  /** The masked increment wraps to 0 exactly when it reaches the buffer count. */
  lemma NextIndexMask(idx: nat, k: nat)
    requires idx < Pow2(k)
    ensures BitAnd(idx + 1, Pow2(k) - 1) == if idx + 1 == Pow2(k) then 0 else idx + 1
  {
    if idx + 1 == Pow2(k) {
      AndMaskFull(k);
    } else {
      AndMaskBelow(idx + 1, k);
    }
  }
}
