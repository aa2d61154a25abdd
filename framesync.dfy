/**
 * Count-based frame synchronisation (framegrabber/src/frame_sync.rs).
 *
 * The engine takes the grabber's stream one 12-byte chunk at a time. It first
 * waits for an idle HWORD or a FirstHeader, then collects a frame: header
 * HWORDs until 110 of them (checking that header indices count up modulo 16),
 * then as many pixel HWORDs as the frame's first header announces. A complete
 * frame's bytes are handed back and the engine waits for the next FirstHeader.
 *
 * `Step` states one call of `process_hword` on a snapshot of the engine;
 * `FrameSyncEngine.ProcessHWord` is the engine itself and is proved to move
 * its fields as `Step` says. The lemmas about `Step` are what the engine
 * promises.
 */
module FrameSync {
  import opened Wrappers
  import opened Protocol
  import opened HWords

  /** The idle HWORD the grabber sends between frames (control code 111). */
  const IDLE_HWORD_PATTERN: Bytes12 :=
    [0xFD, 0x3C, 0x4B, 0x5A, 0x69, 0x78, 0x87, 0x96, 0xA5, 0xB4, 0xC3, 0xB2]

  // ---------------------------------------------------------------------------
  // States and frame modes
  // ---------------------------------------------------------------------------

  /** `FrameSyncState`. */
  datatype SyncState =
    | WaitingForSync
    | WaitingForFrame
    | CollectingHeader(count: nat, lastIndex: Option<nat>)
    | CollectingPixels(headerCount: nat, pixelCount: nat, expectedPixels: nat)
    | FrameComplete

  /** `FrameMode`: the scan mode announced by a frame's first header. */
  datatype FrameMode = OnePointScan | FivePointScan | Imaging(expectedPixels: nat) | Unknown
  {
    /** `expected_pixel_count`: 1, 5, the announced count, or 1 by default. */
    function ExpectedPixelCount(): nat
    {
      match this
      case OnePointScan => 1
      case FivePointScan => 5
      case Imaging(n) => n
      case Unknown => 1
    }

    /** `total_hword_count`: the header HWORDs and the expected pixels. */
    function TotalHWordCount(): nat
    {
      HEADER_HWORDS_PER_FRAME + ExpectedPixelCount()
    }
  }

  /**
   * `FrameMode::detect`: a total of 111 HWORDs is a one-point scan, 115 a
   * five-point scan, otherwise more than five pixels is imaging.
   */
  function Detect(headerCount: nat, pixelCount: nat): (m: FrameMode)
    ensures m == OnePointScan <==> headerCount + pixelCount == 111
    ensures m == FivePointScan <==> headerCount + pixelCount == 115
    ensures m.Imaging? <==> headerCount + pixelCount != 111 && headerCount + pixelCount != 115 && pixelCount > 5
    ensures m.Imaging? ==> m.expectedPixels == pixelCount
  {
    var total := headerCount + pixelCount;
    if total == 111 then OnePointScan
    else if total == 115 then FivePointScan
    else if pixelCount > 5 then Imaging(pixelCount)
    else Unknown
  }

  /** The mode `process_hword` sets at a frame start for an announced pixel count. */
  function ModeFor(expected: nat): (m: FrameMode)
    ensures m.ExpectedPixelCount() == expected
    ensures m.Imaging? <==> expected != 1 && expected != 5
  {
    if expected == 1 then OnePointScan
    else if expected == 5 then FivePointScan
    else Imaging(expected)
  }

  /** The totals the mode comments give: 111 HWORDs for one point, 115 for five, 110 + n for imaging. */
  lemma ModeTotals(n: nat)
    ensures OnePointScan.TotalHWordCount() == 111 && FivePointScan.TotalHWordCount() == 115
    ensures ModeFor(n).TotalHWordCount() == HEADER_HWORDS_PER_FRAME + n
  {
  }

  /**
   * A full header of 110 HWORDs with the announced pixel count is detected as
   * the mode set at the frame start, except for two to four pixels, which
   * `detect` calls Unknown.
   */
  lemma DetectAgreesWithStart(n: nat)
    requires n >= 1
    ensures n == 1 || n == 5 || n > 5 <==> Detect(HEADER_HWORDS_PER_FRAME, n) == ModeFor(n)
    ensures 2 <= n <= 4 ==> Detect(HEADER_HWORDS_PER_FRAME, n) == Unknown
  {
  }

  // ---------------------------------------------------------------------------
  // Helpers on HWORDs
  // ---------------------------------------------------------------------------

  /** `is_idle_hword`: a chunk with control code 111 that equals the idle pattern. */
  function IsIdleHWord(chunk: Bytes12): (r: bool)
    ensures r <==> chunk == IDLE_HWORD_PATTERN
  {
    var controlBits := (chunk[0] >> 5) & 0x07;
    if controlBits != 7 then false else chunk == IDLE_HWORD_PATTERN
  }

  /** The idle pattern is an Idle HWORD, so it is never taken for a frame start. */
  lemma IdlePatternIsIdle()
    ensures Decode(IDLE_HWORD_PATTERN).controlBits == Idle
    ensures !IsFrameStart(Decode(IDLE_HWORD_PATTERN).controlBits)
  {
  }

  /** `extract_header_index`: data bits 87..84 of a header HWORD. */
  function ExtractHeaderIndex(h: HWord): (r: Option<nat>)
    ensures r.Some? <==> IsHeader(h.controlBits)
    ensures r.Some? ==> r.value < 16
  {
    if !IsHeader(h.controlBits) then None
    else
      var index := (DataAsU128(h) >> 84) & 0x0F;
      Some(index as nat)
  }

  /** The header index is the high nibble of the record's second byte. */
  lemma HeaderIndexOfBytes(chunk: Bytes12)
    requires IsHeader(Decode(chunk).controlBits)
    ensures ExtractHeaderIndex(Decode(chunk)) == Some((chunk[1] >> 4) as nat)
  {
    var h := Decode(chunk);
    HighNibble(h.data[0], h.data[1], h.data[2], h.data[3], h.data[4], h.data[5], h.data[6],
               h.data[7], h.data[8], h.data[9], h.data[10], h.remainingBits);
  }

  /** Bits 87..84 of a data field are the high nibble of its eleventh byte. */
  lemma HighNibble(d0: bv8, d1: bv8, d2: bv8, d3: bv8, d4: bv8, d5: bv8,
                   d6: bv8, d7: bv8, d8: bv8, d9: bv8, d10: bv8, r: bv8)
    ensures (DataPack(d0, d1, d2, d3, d4, d5, d6, d7, d8, d9, d10, r) >> 84) & 0x0F == (d10 >> 4) as bv128
  {
  }

  /**
   * `extract_num_pixels`: for a FirstHeader, data bits 47..32 (register 2,
   * NUM_PIXELS_RW), with 0 read as 1.
   */
  function ExtractNumPixels(h: HWord): (r: Option<nat>)
    ensures r.Some? <==> IsFrameStart(h.controlBits)
    ensures r.Some? ==> 1 <= r.value
  {
    if !IsFrameStart(h.controlBits) then None
    else
      var numPixels := Bits47To32(DataAsU128(h));
      if numPixels > 0 then Some(numPixels) else Some(1)
  }

  /** Bits 47..32 of a data field, as a number. */
  function Bits47To32(data: bv128): nat
  {
    ((data >> 32) & 0xFFFF) as nat
  }

  /** NUM_PIXELS_RW is the big-endian value of the record's bytes 6 and 7, with 0 read as 1. */
  lemma NumPixelsOfBytes(chunk: Bytes12)
    requires IsFrameStart(Decode(chunk).controlBits)
    ensures var raw := (chunk[6] as nat) * 256 + chunk[7] as nat;
      ExtractNumPixels(Decode(chunk)) == Some(if raw == 0 then 1 else raw)
  {
    var h := Decode(chunk);
    assert h.data[5] == chunk[6] && h.data[4] == chunk[7];
    NumPixelsOfData(h);
  }

  /** NUM_PIXELS_RW is data bytes 5 and 4 as a 16-bit number, with 0 read as 1. */
  lemma NumPixelsOfData(h: HWord)
    requires IsFrameStart(h.controlBits)
    ensures var raw := (h.data[5] as nat) * 256 + h.data[4] as nat;
      ExtractNumPixels(h) == Some(if raw == 0 then 1 else raw)
    ensures ExtractNumPixels(h).value <= 0xFFFF
  {
    RegisterValue(h);
    var n := Bits47To32(DataAsU128(h));
    assert ExtractNumPixels(h) == if n > 0 then Some(n) else Some(1);
  }

  /** Register 2 of an HWORD, as a number, from its data bytes 5 and 4. */
  lemma RegisterValue(h: HWord)
    ensures Bits47To32(DataAsU128(h)) == (h.data[5] as nat) * 256 + h.data[4] as nat
  {
    RegisterTwoBytes(h);
    FieldValue(DataAsU128(h), h.data[5], h.data[4]);
  }

  /** A 16-bit field at bit 32 made of two bytes is worth `256 * hi + lo`. */
  lemma FieldValue(w: bv128, hi: bv8, lo: bv8)
    requires (w >> 32) & 0xFFFF == ((hi as bv128) << 8) | (lo as bv128)
    ensures Bits47To32(w) == (hi as nat) * 256 + lo as nat
  {
    Bytes16(hi, lo);
  }

  /** Bits 47..32 of an HWORD's data are its data bytes 5 and 4. */
  lemma RegisterTwoBytes(h: HWord)
    ensures (DataAsU128(h) >> 32) & 0xFFFF == ((h.data[5] as bv128) << 8) | (h.data[4] as bv128)
  {
    FifthDataByte(h.data[0], h.data[1], h.data[2], h.data[3], h.data[4], h.data[5], h.data[6],
                  h.data[7], h.data[8], h.data[9], h.data[10], h.remainingBits);
    SixthDataByte(h.data[0], h.data[1], h.data[2], h.data[3], h.data[4], h.data[5], h.data[6],
                  h.data[7], h.data[8], h.data[9], h.data[10], h.remainingBits);
    Low16(DataAsU128(h));
  }

  /** Bits 39..32 of a data field are its fifth byte. */
  lemma FifthDataByte(d0: bv8, d1: bv8, d2: bv8, d3: bv8, d4: bv8, d5: bv8,
                      d6: bv8, d7: bv8, d8: bv8, d9: bv8, d10: bv8, r: bv8)
    ensures (DataPack(d0, d1, d2, d3, d4, d5, d6, d7, d8, d9, d10, r) >> 32) & 0xFF == d4 as bv128
  {
  }

  /** Bits 47..40 of a data field are its sixth byte. */
  lemma SixthDataByte(d0: bv8, d1: bv8, d2: bv8, d3: bv8, d4: bv8, d5: bv8,
                      d6: bv8, d7: bv8, d8: bv8, d9: bv8, d10: bv8, r: bv8)
    ensures (DataPack(d0, d1, d2, d3, d4, d5, d6, d7, d8, d9, d10, r) >> 40) & 0xFF == d5 as bv128
  {
  }

  /** The low sixteen bits of `w >> 32` are its bytes at 40 and 32. */
  lemma Low16(w: bv128)
    ensures (w >> 32) & 0xFFFF == (((w >> 40) & 0xFF) << 8) | ((w >> 32) & 0xFF)
  {
  }

  /** Two bytes side by side are worth `256 * hi + lo`. */
  lemma Bytes16(hi: bv8, lo: bv8)
    ensures ((((hi as bv128) << 8) | (lo as bv128)) as nat) == (hi as nat) * 256 + lo as nat
  {
  }

  // ---------------------------------------------------------------------------
  // One step, on a snapshot of the engine
  // ---------------------------------------------------------------------------

  /** The fields of `FrameSyncEngine`. */
  datatype Engine = Engine(state: SyncState, buffer: seq<bv8>, mode: FrameMode,
                           framesCompleted: nat, syncErrors: nat, headerIndexErrors: nat)

  /** The engine after one `process_hword`, and the frame it returns, if any. */
  datatype Processed = Processed(engine: Engine, frame: Option<seq<bv8>>)

  /** `FrameSyncEngine::new`. */
  const INITIAL: Engine := Engine(WaitingForSync, [], Unknown, 0, 0, 0)

  /** The state after a header HWORD while `count` headers have been collected. */
  function AfterHeader(count: nat, index: Option<nat>, mode: FrameMode): SyncState
  {
    if count + 1 >= HEADER_HWORDS_PER_FRAME
    then CollectingPixels(count + 1, 0, mode.ExpectedPixelCount())
    else CollectingHeader(count + 1, index)
  }

  /** `process_hword` on a snapshot of the engine. */
  function Step(e: Engine, chunk: Bytes12): Processed
  {
    match e.state
    case WaitingForSync =>
      if IsIdleHWord(chunk) then Processed(e.(state := WaitingForFrame), None)
      else if IsFrameStart(Decode(chunk).controlBits) then WhileWaitingForFrame(e, chunk, Decode(chunk))
      else Processed(e, None)
    case WaitingForFrame => WhileWaitingForFrame(e, chunk, Decode(chunk))
    case CollectingHeader(count, lastIndex) => WhileCollectingHeader(e, count, lastIndex, chunk, Decode(chunk))
    case CollectingPixels(headerCount, pixelCount, expectedPixels) =>
      WhileCollectingPixels(e, headerCount, pixelCount, expectedPixels, chunk, Decode(chunk))
    case FrameComplete => Processed(e, None)
  }

  /** `process_hword` in WaitingForFrame: a FirstHeader starts a frame. */
  function WhileWaitingForFrame(e: Engine, chunk: Bytes12, h: HWord): Processed
  {
    if IsFrameStart(h.controlBits) then
      var expected := match ExtractNumPixels(h) case Some(n) => n case None => 1;
      Processed(e.(state := CollectingHeader(1, Some(0)), buffer := chunk, mode := ModeFor(expected)), None)
    else Processed(e, None)
  }

  /** `process_hword` in CollectingHeader. */
  function WhileCollectingHeader(e: Engine, count: nat, lastIndex: Option<nat>, chunk: Bytes12, h: HWord): Processed
  {
    if IsHeader(h.controlBits) then
      // a header always has an index, so the source's branch for a missing one is dead
      match ExtractHeaderIndex(h)
      case Some(index) =>
        var mismatch := lastIndex.Some? && index != (lastIndex.value + 1) % 16
                        && count < HEADER_HWORDS_PER_FRAME;
        var errors := if mismatch then e.headerIndexErrors + 1 else e.headerIndexErrors;
        Processed(e.(state := AfterHeader(count, Some(index), e.mode), buffer := e.buffer + chunk,
                     headerIndexErrors := errors), None)
    else if IsPixel(h.controlBits) then
      Processed(e.(state := CollectingPixels(count, 1, e.mode.ExpectedPixelCount()),
                   buffer := e.buffer + chunk), None)
    else Processed(e, None)
  }

  /** `process_hword` in CollectingPixels. */
  function WhileCollectingPixels(e: Engine, headerCount: nat, pixelCount: nat, expectedPixels: nat,
                                 chunk: Bytes12, h: HWord): Processed
  {
    if IsPixel(h.controlBits) then
      if pixelCount + 1 >= expectedPixels then
        Processed(e.(state := WaitingForFrame, buffer := e.buffer + chunk,
                     framesCompleted := e.framesCompleted + 1), Some(e.buffer + chunk))
      else
        Processed(e.(state := CollectingPixels(headerCount, pixelCount + 1, expectedPixels),
                     buffer := e.buffer + chunk), None)
    else if IsFrameStart(h.controlBits) then
      Processed(e.(state := CollectingHeader(1, Some(0)), buffer := chunk,
                   syncErrors := e.syncErrors + 1), None)
    else Processed(e, None)
  }

  // ---------------------------------------------------------------------------
  // What a step promises
  // ---------------------------------------------------------------------------

  /** The buffer starts with a FirstHeader record. */
  predicate StartsFrame(buffer: seq<bv8>)
  {
    |buffer| >= 12 && IsFrameStart(Decode(buffer[..12]).controlBits)
  }

  /**
   * What holds of the engine between calls: it is never in FrameComplete,
   * the mode expects 1 to 65535 pixels, and while a frame is being collected
   * the buffer holds its HWORDs so far, starting with the FirstHeader.
   */
  predicate Inv(e: Engine)
  {
    && 1 <= e.mode.ExpectedPixelCount() <= 0xFFFF
    && match e.state
       case WaitingForSync => true
       case WaitingForFrame => true
       case CollectingHeader(count, lastIndex) =>
         && 1 <= count < HEADER_HWORDS_PER_FRAME
         && |e.buffer| == 12 * count && StartsFrame(e.buffer)
         && lastIndex.Some? && lastIndex.value < 16
       case CollectingPixels(headerCount, pixelCount, expectedPixels) =>
         && 1 <= headerCount <= HEADER_HWORDS_PER_FRAME
         && expectedPixels == e.mode.ExpectedPixelCount()
         && pixelCount <= expectedPixels
         && |e.buffer| == 12 * (headerCount + pixelCount) && StartsFrame(e.buffer)
       case FrameComplete => false
  }

  /** A new engine satisfies the invariant. */
  lemma InitialInv()
    ensures Inv(INITIAL)
  {
  }

  /** Appending a record keeps a FirstHeader at the front. */
  lemma StartsFrameAppend(buffer: seq<bv8>, chunk: Bytes12)
    requires StartsFrame(buffer)
    ensures StartsFrame(buffer + chunk)
  {
    assert (buffer + chunk)[..12] == buffer[..12];
  }

  /** The frame a FirstHeader starts: its bytes, the one-HWORD state and the announced mode. */
  lemma FrameStart(e: Engine, chunk: Bytes12)
    requires e.state == WaitingForFrame && IsFrameStart(Decode(chunk).controlBits)
    ensures var raw := (chunk[6] as nat) * 256 + chunk[7] as nat;
      var n := if raw == 0 then 1 else raw;
      Step(e, chunk) == Processed(e.(state := CollectingHeader(1, Some(0)), buffer := chunk, mode := ModeFor(n)), None)
    ensures Step(e, chunk).engine.mode.ExpectedPixelCount() <= 0xFFFF
    ensures Inv(Step(e, chunk).engine)
  {
    NumPixelsOfBytes(chunk);
    NumPixelsOfData(Decode(chunk));
    assert chunk[..12] == chunk;
  }

  /**
   * In WaitingForSync an idle record moves to WaitingForFrame, a FirstHeader
   * does that and then starts a frame, and anything else changes nothing.
   */
  lemma WaitingForSyncStep(e: Engine, chunk: Bytes12)
    requires e.state == WaitingForSync
    ensures IsIdleHWord(chunk) ==> Step(e, chunk) == Processed(e.(state := WaitingForFrame), None)
    ensures IsFrameStart(Decode(chunk).controlBits) ==>
      Step(e, chunk) == Step(e.(state := WaitingForFrame), chunk) && Step(e, chunk).engine.state == CollectingHeader(1, Some(0))
    ensures !IsIdleHWord(chunk) && !IsFrameStart(Decode(chunk).controlBits) ==> Step(e, chunk) == Processed(e, None)
  {
    if IsIdleHWord(chunk) {
      IdlePatternIsIdle();
    }
  }

  /** In WaitingForFrame anything but a FirstHeader changes nothing. */
  lemma WaitingForFrameStep(e: Engine, chunk: Bytes12)
    requires e.state == WaitingForFrame && !IsFrameStart(Decode(chunk).controlBits)
    ensures Step(e, chunk) == Processed(e, None)
  {
  }

  /**
   * In CollectingHeader, a header record (a FirstHeader included) is appended
   * and counted, and its index is checked against the last one; when it is the
   * 110th the engine moves to CollectingPixels with no pixels. A pixel record
   * is appended and moves there early with one pixel. Anything else changes
   * nothing.
   */
  lemma CollectingHeaderStep(e: Engine, chunk: Bytes12)
    requires Inv(e) && e.state.CollectingHeader?
    ensures var count := e.state.count;
      var h := Decode(chunk);
      var r := Step(e, chunk).engine;
      && Step(e, chunk).frame == None
      && (IsHeader(h.controlBits) ==>
           && r.buffer == e.buffer + chunk
           && r.state == (if count + 1 >= HEADER_HWORDS_PER_FRAME
                          then CollectingPixels(count + 1, 0, e.mode.ExpectedPixelCount())
                          else CollectingHeader(count + 1, Some((chunk[1] >> 4) as nat)))
           && r.headerIndexErrors == e.headerIndexErrors +
                (if (chunk[1] >> 4) as nat != (e.state.lastIndex.value + 1) % 16 then 1 else 0)
           && r == e.(state := r.state, buffer := r.buffer, headerIndexErrors := r.headerIndexErrors))
      && (IsPixel(h.controlBits) ==>
           r == e.(state := CollectingPixels(count, 1, e.mode.ExpectedPixelCount()), buffer := e.buffer + chunk))
      && (!IsHeader(h.controlBits) && !IsPixel(h.controlBits) ==> r == e)
  {
    if IsHeader(Decode(chunk).controlBits) {
      HeaderIndexOfBytes(chunk);
    }
  }

  /**
   * In CollectingPixels, a pixel record is appended; it completes the frame
   * when the expected count is reached, and the engine then hands back the
   * buffer and waits for the next frame. A FirstHeader abandons the frame,
   * counts a sync error and starts a new one with the same mode. Anything else
   * changes nothing.
   */
  lemma CollectingPixelsStep(e: Engine, chunk: Bytes12)
    requires e.state.CollectingPixels?
    ensures var p := e.state.pixelCount;
      var h := Decode(chunk);
      var r := Step(e, chunk);
      && (IsPixel(h.controlBits) && p + 1 >= e.state.expectedPixels ==>
           r == Processed(e.(state := WaitingForFrame, buffer := e.buffer + chunk,
                             framesCompleted := e.framesCompleted + 1), Some(e.buffer + chunk)))
      && (IsPixel(h.controlBits) && p + 1 < e.state.expectedPixels ==>
           r == Processed(e.(state := e.state.(pixelCount := p + 1), buffer := e.buffer + chunk), None))
      && (IsFrameStart(h.controlBits) ==>
           r == Processed(e.(state := CollectingHeader(1, Some(0)), buffer := chunk,
                             syncErrors := e.syncErrors + 1), None))
      && (!IsPixel(h.controlBits) && !IsFrameStart(h.controlBits) ==> r == Processed(e, None))
  {
  }

  /** Every step keeps the invariant. */
  lemma StepInv(e: Engine, chunk: Bytes12)
    requires Inv(e)
    ensures Inv(Step(e, chunk).engine)
  {
    var h := Decode(chunk);
    match e.state {
      case WaitingForSync =>
        WaitingForSyncStep(e, chunk);
        if IsFrameStart(h.controlBits) {
          FrameStart(e.(state := WaitingForFrame), chunk);
        }
      case WaitingForFrame =>
        if IsFrameStart(h.controlBits) {
          FrameStart(e, chunk);
        }
      case CollectingHeader(count, lastIndex) =>
        CollectingHeaderStep(e, chunk);
        if IsHeader(h.controlBits) || IsPixel(h.controlBits) {
          StartsFrameAppend(e.buffer, chunk);
        }
      case CollectingPixels(headerCount, pixelCount, expectedPixels) =>
        CollectingPixelsStep(e, chunk);
        if IsPixel(h.controlBits) {
          StartsFrameAppend(e.buffer, chunk);
        } else if IsFrameStart(h.controlBits) {
          assert chunk[..12] == chunk;
        }
    }
  }

  /**
   * A frame is handed back exactly when a pixel record reaches the expected
   * count. It holds the header HWORDs, the pixels so far and this one, it
   * starts with the FirstHeader and ends with this record, one more frame is
   * counted and the engine waits for the next frame.
   */
  lemma StepFrame(e: Engine, chunk: Bytes12)
    requires Inv(e)
    ensures var r := Step(e, chunk);
      r.frame.Some? <==>
        e.state.CollectingPixels? && IsPixel(Decode(chunk).controlBits)
        && e.state.pixelCount + 1 >= e.state.expectedPixels
    ensures var r := Step(e, chunk);
      r.frame.Some? ==>
        && |r.frame.value| == 12 * (e.state.headerCount + e.state.pixelCount + 1)
        && StartsFrame(r.frame.value)
        && r.frame.value[|r.frame.value| - 12..] == chunk
        && r.engine.framesCompleted == e.framesCompleted + 1
        && r.engine.state == WaitingForFrame
  {
    var h := Decode(chunk);
    match e.state {
      case WaitingForSync =>
        WaitingForSyncStep(e, chunk);
      case WaitingForFrame =>
      case CollectingHeader(_, _) =>
        CollectingHeaderStep(e, chunk);
      case CollectingPixels(_, _, _) =>
        CollectingPixelsStep(e, chunk);
        if IsPixel(h.controlBits) {
          StartsFrameAppend(e.buffer, chunk);
          assert (e.buffer + chunk)[|e.buffer|..] == chunk;
        }
    }
  }

  /**
   * No counter ever goes down; frames completed rise by one exactly when a
   * frame is handed back, sync errors by one exactly when a FirstHeader
   * abandons a frame being collected, and header index errors by at most one.
   */
  lemma StepCounters(e: Engine, chunk: Bytes12)
    requires Inv(e)
    ensures var r := Step(e, chunk).engine;
      && r.framesCompleted == e.framesCompleted + (if Step(e, chunk).frame.Some? then 1 else 0)
      && r.syncErrors == e.syncErrors +
           (if e.state.CollectingPixels? && IsFrameStart(Decode(chunk).controlBits) then 1 else 0)
      && e.headerIndexErrors <= r.headerIndexErrors <= e.headerIndexErrors + 1
  {
    StepFrame(e, chunk);
    match e.state {
      case WaitingForSync =>
        WaitingForSyncStep(e, chunk);
      case WaitingForFrame =>
      case CollectingHeader(_, _) =>
        CollectingHeaderStep(e, chunk);
      case CollectingPixels(_, _, _) =>
        CollectingPixelsStep(e, chunk);
    }
  }

  // ---------------------------------------------------------------------------
  // Runs of steps
  // ---------------------------------------------------------------------------

  /** The engine after a run of `process_hword` calls, and the frames they hand back. */
  datatype Ran = Ran(engine: Engine, frames: seq<seq<bv8>>)

  /** Feed the chunks to the engine in order. */
  function Run(e: Engine, chunks: seq<Bytes12>): Ran
    decreases |chunks|
  {
    if chunks == [] then Ran(e, [])
    else
      var first := Step(e, chunks[0]);
      var rest := Run(first.engine, chunks[1..]);
      Ran(rest.engine, (if first.frame.Some? then [first.frame.value] else []) + rest.frames)
  }

  /**
   * Along any run the invariant holds, so the engine never reaches
   * FrameComplete, and none of the three counters goes down.
   */
  lemma {:induction false} RunInv(e: Engine, chunks: seq<Bytes12>)
    requires Inv(e)
    ensures var r := Run(e, chunks).engine;
      && Inv(r) && r.state != FrameComplete
      && e.framesCompleted <= r.framesCompleted
      && e.syncErrors <= r.syncErrors
      && e.headerIndexErrors <= r.headerIndexErrors
    decreases |chunks|
  {
    if chunks != [] {
      StepInv(e, chunks[0]);
      StepCounters(e, chunks[0]);
      RunInv(Step(e, chunks[0]).engine, chunks[1..]);
    }
  }

  /** Every frame handed back along a run is counted. */
  lemma {:induction false} RunCountsFrames(e: Engine, chunks: seq<Bytes12>)
    requires Inv(e)
    ensures Run(e, chunks).engine.framesCompleted == e.framesCompleted + |Run(e, chunks).frames|
    decreases |chunks|
  {
    if chunks != [] {
      StepInv(e, chunks[0]);
      StepCounters(e, chunks[0]);
      RunCountsFrames(Step(e, chunks[0]).engine, chunks[1..]);
    }
  }

  /**
   * While a header is being collected, header records are appended one after
   * the other and counted; the 110th moves the engine to CollectingPixels
   * with no pixels. No frame is handed back and the mode does not change.
   */
  lemma {:induction false} HeaderRun(e: Engine, chunks: seq<Bytes12>)
    requires Inv(e) && e.state.CollectingHeader?
    requires e.state.count + |chunks| <= HEADER_HWORDS_PER_FRAME
    requires forall k :: 0 <= k < |chunks| ==> IsHeader(Decode(chunks[k]).controlBits)
    ensures var r := Run(e, chunks);
      && r.frames == []
      && r.engine.mode == e.mode
      && |r.engine.buffer| == |e.buffer| + 12 * |chunks|
      && (e.state.count + |chunks| < HEADER_HWORDS_PER_FRAME ==>
            r.engine.state.CollectingHeader? && r.engine.state.count == e.state.count + |chunks|)
      && (e.state.count + |chunks| == HEADER_HWORDS_PER_FRAME ==>
            r.engine.state == CollectingPixels(HEADER_HWORDS_PER_FRAME, 0, e.mode.ExpectedPixelCount()))
    decreases |chunks|
  {
    if chunks != [] {
      CollectingHeaderStep(e, chunks[0]);
      StepInv(e, chunks[0]);
      var next := Step(e, chunks[0]).engine;
      if e.state.count + 1 < HEADER_HWORDS_PER_FRAME {
        assert forall k :: 0 <= k < |chunks[1..]| ==> chunks[1..][k] == chunks[k + 1];
        HeaderRun(next, chunks[1..]);
      } else {
        assert chunks[1..] == [];
      }
    }
  }

  /**
   * A one-point frame: a FirstHeader announcing one pixel (or none, which
   * reads as one), 109 more header records and a pixel give back one frame of
   * 111 HWORDs, and the engine waits for the next frame.
   */
  lemma OnePointFrame(e: Engine, first: Bytes12, headers: seq<Bytes12>, pixel: Bytes12)
    requires Inv(e) && e.state == WaitingForFrame
    requires IsFrameStart(Decode(first).controlBits) && first[6] == 0 && first[7] <= 1
    requires |headers| == HEADER_HWORDS_PER_FRAME - 1
    requires forall k :: 0 <= k < |headers| ==> IsHeader(Decode(headers[k]).controlBits)
    requires IsPixel(Decode(pixel).controlBits)
    ensures var r := Run(e, [first] + headers + [pixel]);
      && |r.frames| == 1 && |r.frames[0]| == 12 * OnePointScan.TotalHWordCount()
      && StartsFrame(r.frames[0])
      && r.engine.state == WaitingForFrame
  {
    OnePointHeader(e, first, headers);
    var collected := Run(e, [first] + headers).engine;
    StepFrame(collected, pixel);
    RunAppend(e, [first] + headers, pixel);
  }

  /** The header part of a one-point frame: 110 header records, then no pixels yet. */
  lemma OnePointHeader(e: Engine, first: Bytes12, headers: seq<Bytes12>)
    requires Inv(e) && e.state == WaitingForFrame
    requires IsFrameStart(Decode(first).controlBits) && first[6] == 0 && first[7] <= 1
    requires |headers| == HEADER_HWORDS_PER_FRAME - 1
    requires forall k :: 0 <= k < |headers| ==> IsHeader(Decode(headers[k]).controlBits)
    ensures var r := Run(e, [first] + headers);
      && r.frames == [] && Inv(r.engine)
      && r.engine.state == CollectingPixels(HEADER_HWORDS_PER_FRAME, 0, 1)
  {
    FrameStart(e, first);
    var started := Step(e, first).engine;
    assert started.mode == OnePointScan;
    HeaderRun(started, headers);
    RunInv(started, headers);
    RunCons(e, first, headers);
  }

  /** A run that starts with one chunk. */
  lemma RunCons(e: Engine, first: Bytes12, rest: seq<Bytes12>)
    ensures var s := Step(e, first);
      var r := Run(s.engine, rest);
      Run(e, [first] + rest) == Ran(r.engine, (if s.frame.Some? then [s.frame.value] else []) + r.frames)
  {
    assert ([first] + rest)[0] == first && ([first] + rest)[1..] == rest;
  }

  /** A run followed by one more chunk. */
  lemma {:induction false} RunAppend(e: Engine, chunks: seq<Bytes12>, last: Bytes12)
    ensures var r := Run(e, chunks);
      var s := Step(r.engine, last);
      Run(e, chunks + [last]) == Ran(s.engine, r.frames + (if s.frame.Some? then [s.frame.value] else []))
    decreases |chunks|
  {
    if chunks == [] {
      assert chunks + [last] == [last];
    } else {
      assert (chunks + [last])[0] == chunks[0];
      assert (chunks + [last])[1..] == chunks[1..] + [last];
      RunAppend(Step(e, chunks[0]).engine, chunks[1..], last);
    }
  }

  // ---------------------------------------------------------------------------
  // The engine
  // ---------------------------------------------------------------------------

  /** `FrameSyncEngine`. */
  class FrameSyncEngine {
    var state: SyncState
    var frameBuffer: seq<bv8>
    var currentMode: FrameMode
    var framesCompleted: nat
    var syncErrors: nat
    var headerIndexErrors: nat

    /** The engine's fields as a value. */
    function Snapshot(): Engine
      reads this
    {
      Engine(state, frameBuffer, currentMode, framesCompleted, syncErrors, headerIndexErrors)
    }

    /** `FrameSyncEngine::new`: waiting for sync, empty buffer, mode unknown, counters zero. */
    constructor ()
      ensures Snapshot() == INITIAL
      ensures State() == WaitingForSync && Stats() == (0, 0, 0) && CurrentBuffer() == []
    {
      state := WaitingForSync;
      frameBuffer := [];
      currentMode := Unknown;
      framesCompleted := 0;
      syncErrors := 0;
      headerIndexErrors := 0;
    }

    /** `FrameSyncEngine::stats`: frames completed, sync errors, header index errors. */
    function Stats(): (nat, nat, nat)
      reads this
    {
      (framesCompleted, syncErrors, headerIndexErrors)
    }

    /** `FrameSyncEngine::state`. */
    function State(): SyncState
      reads this
    {
      state
    }

    /**
     * `FrameSyncEngine::current_buffer`: while a frame is being collected, the
     * bytes of its HWORDs so far, starting with its FirstHeader.
     */
    function CurrentBuffer(): (b: seq<bv8>)
      reads this
      ensures Inv(Snapshot()) && state.CollectingHeader? ==> |b| == 12 * state.count && StartsFrame(b)
      ensures Inv(Snapshot()) && state.CollectingPixels? ==>
        |b| == 12 * (state.headerCount + state.pixelCount) && StartsFrame(b)
    {
      frameBuffer
    }

    /**
     * `FrameSyncEngine::process_hword`: take one chunk, maybe hand back a
     * frame. The engine moves as `Step` says, so it keeps the invariant.
     */
    method ProcessHWord(chunk: Bytes12) returns (frame: Option<seq<bv8>>)
      modifies this
      ensures Snapshot() == Step(old(Snapshot()), chunk).engine
      ensures frame == Step(old(Snapshot()), chunk).frame
      ensures Inv(old(Snapshot())) ==> Inv(Snapshot())
      decreases if state.WaitingForSync? then 1 else 0
    {
      if Inv(Snapshot()) {
        StepInv(Snapshot(), chunk);
      }
      var hword := HWords.FromBytes(chunk).value;
      match state {
        case WaitingForSync =>
          if IsIdleHWord(chunk) {
            state := WaitingForFrame;
          } else if IsFrameStart(hword.controlBits) {
            state := WaitingForFrame;
            frame := ProcessHWord(chunk);
            return;
          }
          frame := None;
        case WaitingForFrame =>
          frame := WaitForFrame(chunk, hword);
        case CollectingHeader(count, lastIndex) =>
          frame := CollectHeader(chunk, hword, count, lastIndex);
        case CollectingPixels(headerCount, pixelCount, expectedPixels) =>
          frame := CollectPixels(chunk, hword, headerCount, pixelCount, expectedPixels);
        case FrameComplete =>
          frame := None;
      }
    }

    /** The WaitingForFrame arm of `process_hword`. */
    method WaitForFrame(chunk: Bytes12, hword: HWord) returns (frame: Option<seq<bv8>>)
      modifies this
      ensures Snapshot() == WhileWaitingForFrame(old(Snapshot()), chunk, hword).engine
      ensures frame == None == WhileWaitingForFrame(old(Snapshot()), chunk, hword).frame
    {
      if IsFrameStart(hword.controlBits) {
        frameBuffer := [];
        frameBuffer := frameBuffer + chunk;
        var expectedPixels := match ExtractNumPixels(hword) case Some(n) => n case None => 1;
        if expectedPixels == 1 {
          currentMode := OnePointScan;
        } else if expectedPixels == 5 {
          currentMode := FivePointScan;
        } else {
          currentMode := Imaging(expectedPixels);
        }
        state := CollectingHeader(1, Some(0));
        assert frameBuffer == chunk && currentMode == ModeFor(expectedPixels);
      }
      frame := None;
    }

    /** The CollectingHeader arm of `process_hword`. */
    method CollectHeader(chunk: Bytes12, hword: HWord, count: nat, lastIndex: Option<nat>)
      returns (frame: Option<seq<bv8>>)
      modifies this
      ensures Snapshot() == WhileCollectingHeader(old(Snapshot()), count, lastIndex, chunk, hword).engine
      ensures frame == None == WhileCollectingHeader(old(Snapshot()), count, lastIndex, chunk, hword).frame
    {
      if IsHeader(hword.controlBits) {
        // a header always has an index, so the source's branch for a missing one is dead
        match ExtractHeaderIndex(hword) {
          case Some(index) =>
            if lastIndex.Some? {
              var expected := (lastIndex.value + 1) % 16;
              if index != expected && count < HEADER_HWORDS_PER_FRAME {
                headerIndexErrors := headerIndexErrors + 1;
              }
            }
            frameBuffer := frameBuffer + chunk;
            if count + 1 >= HEADER_HWORDS_PER_FRAME {
              state := CollectingPixels(count + 1, 0, currentMode.ExpectedPixelCount());
            } else {
              state := CollectingHeader(count + 1, Some(index));
            }
        }
      } else if IsPixel(hword.controlBits) {
        frameBuffer := frameBuffer + chunk;
        state := CollectingPixels(count, 1, currentMode.ExpectedPixelCount());
      }
      frame := None;
    }

    /** The CollectingPixels arm of `process_hword`. */
    method CollectPixels(chunk: Bytes12, hword: HWord, headerCount: nat, pixelCount: nat, expectedPixels: nat)
      returns (frame: Option<seq<bv8>>)
      modifies this
      ensures Snapshot() == WhileCollectingPixels(old(Snapshot()), headerCount, pixelCount, expectedPixels, chunk, hword).engine
      ensures frame == WhileCollectingPixels(old(Snapshot()), headerCount, pixelCount, expectedPixels, chunk, hword).frame
    {
      if IsPixel(hword.controlBits) {
        frameBuffer := frameBuffer + chunk;
        if pixelCount + 1 >= expectedPixels {
          framesCompleted := framesCompleted + 1;
          state := WaitingForFrame;
          return Some(frameBuffer);
        } else {
          state := CollectingPixels(headerCount, pixelCount + 1, expectedPixels);
        }
      } else if IsFrameStart(hword.controlBits) {
        syncErrors := syncErrors + 1;
        frameBuffer := [];
        frameBuffer := frameBuffer + chunk;
        state := CollectingHeader(1, Some(0));
      }
      frame := None;
    }
  }
}
