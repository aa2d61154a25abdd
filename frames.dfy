/**
 * Frame assembly (shared/src/frame.rs).
 *
 * A `.dsql` buffer is a sequence of 12-byte HWORDs. `Frame::from_bytes`
 * walks it once, routing header HWORDs into the frame header and pixel
 * HWORDs into the pixel list under an `in_header` flag, then unpacks the
 * header into 16-bit registers. The routing is stated by `Route`, a fold over
 * the decoded HWORDs; the source's loops are methods proved against it.
 */
module Frames {
  import opened Wrappers
  import opened Protocol
  import opened HWords
  import opened Coordinates
  import opened Digits

  /** The `SharedError` variants frame assembly produces. */
  datatype SharedError =
    | HWordFailure(cause: HWordError)
    | InvalidFrame(message: string)
    | InvalidFileFormat(message: string)

  /** A `u32` value. */
  type U32 = n: nat | n < 0x1_0000_0000

  // ---------------------------------------------------------------------------
  // Registers
  // ---------------------------------------------------------------------------

  /** Register `i` of a header data field: bits 16i+15..16i. */
  function Register(data: bv128, i: nat): bv16
    requires i < 5
  {
    match i
    case 0 => (data & 0xFFFF) as bv16
    case 1 => ((data >> 16) & 0xFFFF) as bv16
    case 2 => ((data >> 32) & 0xFFFF) as bv16
    case 3 => ((data >> 48) & 0xFFFF) as bv16
    case _ => ((data >> 64) & 0xFFFF) as bv16
  }

  /** The five registers one header HWORD carries, in the order `extract_registers` pushes them. */
  function FiveRegisters(data: bv128): seq<bv16>
  {
    [Register(data, 0), Register(data, 1), Register(data, 2), Register(data, 3), Register(data, 4)]
  }

  /** The registers of one header HWORD. */
  function HeaderRegisters(h: HWord): (regs: seq<bv16>)
    ensures |regs| == 5
  {
    FiveRegisters(DataAsU128(h))
  }

  /** The concatenation of `f(x)` over the elements `x` of `xs`, in order. */
  function FlatMap<T, U>(xs: seq<T>, f: T -> seq<U>): seq<U>
  {
    if xs == [] then [] else FlatMap(xs[..|xs| - 1], f) + f(xs[|xs| - 1])
  }

  /** With five values per element, value `5k + i` of the concatenation is value `i` of element `k`. */
  lemma {:induction false} FlatMapAt<T, U>(xs: seq<T>, f: T -> seq<U>, k: nat, i: nat)
    requires forall j :: 0 <= j < |xs| ==> |f(xs[j])| == 5
    requires k < |xs| && i < 5
    ensures |FlatMap(xs, f)| == 5 * |xs|
    ensures FlatMap(xs, f)[5 * k + i] == f(xs[k])[i]
    decreases |xs|
  {
    var n := |xs| - 1;
    var front := xs[..n];
    assert forall j :: 0 <= j < |front| ==> front[j] == xs[j];
    if n == 0 {
      assert front == [];
    } else if k < n {
      FlatMapAt(front, f, k, i);
    } else {
      FlatMapAt(front, f, 0, 0);
    }
  }

  /** The registers of a list of header HWORDs: five per HWORD, in order. */
  function Registers(hs: seq<HWord>): seq<bv16>
  {
    FlatMap(hs, HeaderRegisters)
  }

  /** The registers of one more HWORD are those of the shorter prefix and five more. */
  lemma RegistersSnoc(hs: seq<HWord>, k: nat)
    requires k < |hs|
    ensures Registers(hs[..k + 1]) == Registers(hs[..k]) + FiveRegisters(DataAsU128(hs[k]))
  {
    assert hs[..k + 1][..k] == hs[..k];
  }

  /** A little-endian pair of bytes. */
  function Pair(lo: bv8, hi: bv8): bv16
  {
    ((hi as bv16) << 8) | (lo as bv16)
  }

  /** There are five registers per HWORD, and register `5k + i` is register `i` of HWORD `k`. */
  lemma RegistersAt(hs: seq<HWord>, k: nat, i: nat)
    requires k < |hs| && i < 5
    ensures |Registers(hs)| == 5 * |hs|
    ensures Registers(hs)[5 * k + i] == Register(DataAsU128(hs[k]), i)
  {
    FlatMapAt(hs, HeaderRegisters, k, i);
    FiveRegistersAt(DataAsU128(hs[k]), i);
  }

  /** Register `i` is the `i`-th of the five. */
  lemma FiveRegistersAt(data: bv128, i: nat)
    requires i < 5
    ensures |FiveRegisters(data)| == 5 && FiveRegisters(data)[i] == Register(data, i)
  {
  }

  /** Five registers per HWORD. */
  lemma {:induction false} RegistersLength(hs: seq<HWord>)
    ensures |Registers(hs)| == 5 * |hs|
    decreases |hs|
  {
    if hs != [] {
      RegistersLength(hs[..|hs| - 1]);
    }
  }

  /** The five registers of a data field are its bytes 0..9 taken as little-endian pairs. */
  lemma RegistersOfPack(d0: bv8, d1: bv8, d2: bv8, d3: bv8, d4: bv8, d5: bv8,
                        d6: bv8, d7: bv8, d8: bv8, d9: bv8, d10: bv8, r: bv8)
    ensures FiveRegisters(DataPack(d0, d1, d2, d3, d4, d5, d6, d7, d8, d9, d10, r))
         == [Pair(d0, d1), Pair(d2, d3), Pair(d4, d5), Pair(d6, d7), Pair(d8, d9)]
  {
  }

  /** Register `i` of a header HWORD is its data bytes `2i` and `2i + 1`, little-endian. */
  lemma RegistersOfHWord(h: HWord)
    ensures FiveRegisters(DataAsU128(h))
         == [Pair(h.data[0], h.data[1]), Pair(h.data[2], h.data[3]), Pair(h.data[4], h.data[5]),
             Pair(h.data[6], h.data[7]), Pair(h.data[8], h.data[9])]
  {
    var d := h.data;
    RegistersOfPack(d[0], d[1], d[2], d[3], d[4], d[5], d[6], d[7], d[8], d[9], d[10], h.remainingBits);
  }

  // ---------------------------------------------------------------------------
  // Headers and pixel lists
  // ---------------------------------------------------------------------------

  /** Every HWORD in the list has a header code. */
  predicate AllHeaders(hs: seq<HWord>)
  {
    forall k :: 0 <= k < |hs| ==> IsHeader(hs[k].controlBits)
  }

  /** Every HWORD in the list has a pixel code. */
  predicate AllPixels(hs: seq<HWord>)
  {
    forall k :: 0 <= k < |hs| ==> IsPixel(hs[k].controlBits)
  }

  /** `FrameHeader`: the header HWORDs of a frame and the registers unpacked from them. */
  class FrameHeader {
    var hwords: seq<HWord>
    var registers: seq<bv16>

    /** `FrameHeader::new`: empty. */
    constructor ()
      ensures hwords == [] && registers == []
    {
      hwords := [];
      registers := [];
    }

    /** `FrameHeader::add_hword`: append a header HWORD; refuse any other. */
    method AddHWord(h: HWord) returns (r: Result<(), SharedError>)
      modifies this`hwords
      ensures r.Ok? <==> IsHeader(h.controlBits)
      ensures hwords == if r.Ok? then old(hwords) + [h] else old(hwords)
      ensures old(AllHeaders(hwords)) ==> AllHeaders(hwords)
    {
      if !IsHeader(h.controlBits) {
        return Err(InvalidFrame("Attempted to add non-header HWORD to frame header"));
      }
      hwords := hwords + [h];
      return Ok(());
    }

    /** `FrameHeader::is_complete`: at least `HEADER_HWORDS_PER_FRAME` HWORDs. */
    predicate IsComplete()
      reads this
    {
      |hwords| >= HEADER_HWORDS_PER_FRAME
    }

    /** The inner loop of `extract_registers`: push the five registers of one data field. */
    method PushRegisters(data: bv128)
      modifies this`registers
      ensures registers == old(registers) + FiveRegisters(data)
    {
      ghost var five := FiveRegisters(data);
      var i := 0;
      while i < 5
        invariant 0 <= i <= 5
        invariant registers == old(registers) + five[..i]
      {
        FiveRegistersAt(data, i);
        assert five[..i + 1] == five[..i] + [five[i]];
        registers := registers + [Register(data, i)];
        i := i + 1;
      }
      assert five[..5] == five;
    }

    /** `FrameHeader::extract_registers`: replace the registers by five per header HWORD. */
    method ExtractRegisters() returns (r: Result<(), SharedError>)
      modifies this`registers
      ensures r.Ok?
      ensures registers == Registers(hwords)
    {
      registers := [];
      var k := 0;
      while k < |hwords|
        invariant 0 <= k <= |hwords|
        invariant registers == Registers(hwords[..k])
      {
        PushRegisters(DataAsU128(hwords[k]));
        RegistersSnoc(hwords, k);
        k := k + 1;
      }
      assert hwords[..k] == hwords;
      return Ok(());
    }
  }

  /** The HWORDs `extract_coordinates` turns into points: pixels whose index survives decimation. */
  function Kept(hs: seq<HWord>, decimation: nat): seq<HWord>
  {
    if hs == [] then []
    else
      var i := |hs| - 1;
      var skipped := decimation > 1 && i % decimation != 0;
      Kept(hs[..i], decimation) + (if !skipped && IsPixel(hs[i].controlBits) then [hs[i]] else [])
  }

  /** The points of a list of HWORDs, one per HWORD. */
  function Points(hs: seq<HWord>, w: FieldWhitelist): seq<CoordinatePoint>
  {
    seq(|hs|, k requires 0 <= k < |hs| => PointOf(DataAsU128(hs[k]), w))
  }

  /** The points `extract_coordinates` yields for a list of HWORDs. */
  function ExtractedPoints(hs: seq<HWord>, w: FieldWhitelist, decimation: nat): seq<CoordinatePoint>
  {
    Points(Kept(hs, decimation), w)
  }

  /** One more HWORD adds its point. */
  lemma PointsSnoc(hs: seq<HWord>, h: HWord, w: FieldWhitelist)
    ensures Points(hs + [h], w) == Points(hs, w) + [PointOf(DataAsU128(h), w)]
  {
  }

  /** Of a list of pixels, decimation keeps all for a factor of 0 or 1, and the stepping otherwise. */
  lemma {:induction false} KeptPixels(hs: seq<HWord>, decimation: nat)
    requires AllPixels(hs)
    ensures decimation <= 1 ==> Kept(hs, decimation) == hs
    ensures decimation > 1 ==> Kept(hs, decimation) == StepBy(hs, decimation)
    decreases |hs|
  {
    if hs != [] {
      var i := |hs| - 1;
      var front := hs[..i];
      assert AllPixels(front) by {
        assert forall k :: 0 <= k < |front| ==> front[k] == hs[k];
      }
      var last := hs[i];
      KeptPixels(front, decimation);
      assert IsPixel(last.controlBits);
      assert hs == front + [last];
      var kept := !(decimation > 1 && i % decimation != 0);
      assert Kept(hs, decimation) == Kept(front, decimation) + (if kept then [last] else []);
      if decimation > 1 {
        StepByAppend(front, last, decimation);
        IsMultipleMod(i, decimation);
        assert kept <==> IsMultiple(|front|, decimation);
      }
    }
  }

  /**
   * Of a list of pixels, decimation by `d >= 2` keeps the points of the pixels
   * at indices `q * d`, ceil(n / d) of them; with `d` of 0 or 1, all `n` are
   * kept.
   */
  lemma ExtractedCount(hs: seq<HWord>, w: FieldWhitelist, decimation: nat)
    requires AllPixels(hs)
    ensures decimation <= 1 ==> ExtractedPoints(hs, w, decimation) == Points(hs, w)
    ensures decimation > 1 ==>
      |hs| <= |ExtractedPoints(hs, w, decimation)| * decimation < |hs| + decimation
    ensures decimation > 1 ==> forall q :: 0 <= q < |ExtractedPoints(hs, w, decimation)| ==>
      q * decimation < |hs| && ExtractedPoints(hs, w, decimation)[q] == PointOf(DataAsU128(hs[q * decimation]), w)
  {
    KeptPixels(hs, decimation);
    if decimation > 1 {
      StepByLength(hs, decimation);
      forall q | 0 <= q < |ExtractedPoints(hs, w, decimation)|
        ensures q * decimation < |hs| && ExtractedPoints(hs, w, decimation)[q] == PointOf(DataAsU128(hs[q * decimation]), w)
      {
        StepByIndex(hs, decimation, q);
      }
    }
  }

  /** `PixelData`: the pixel HWORDs of a frame. */
  class PixelData {
    var hwords: seq<HWord>

    /** `PixelData::new`: empty. */
    constructor ()
      ensures hwords == []
    {
      hwords := [];
    }

    /** `PixelData::add_hword`: append a pixel HWORD; refuse any other. */
    method AddHWord(h: HWord) returns (r: Result<(), SharedError>)
      modifies this`hwords
      ensures r.Ok? <==> IsPixel(h.controlBits)
      ensures hwords == if r.Ok? then old(hwords) + [h] else old(hwords)
      ensures old(AllPixels(hwords)) ==> AllPixels(hwords)
    {
      if !IsPixel(h.controlBits) {
        return Err(InvalidFrame("Attempted to add non-pixel HWORD to pixel data"));
      }
      hwords := hwords + [h];
      return Ok(());
    }

    /** `PixelData::len`. */
    function Len(): nat
      reads this
    {
      |hwords|
    }

    /**
     * `PixelData::extract_coordinates`: the point of every pixel HWORD whose
     * index survives decimation.
     */
    method ExtractCoordinates(w: FieldWhitelist, decimation: nat) returns (c: CoordinateData)
      ensures fresh(c)
      ensures c.points == ExtractedPoints(hwords, w, decimation)
    {
      c := new CoordinateData();
      var i := 0;
      while i < |hwords|
        invariant 0 <= i <= |hwords|
        invariant c.points == Points(Kept(hwords[..i], decimation), w)
      {
        assert hwords[..i + 1][..i] == hwords[..i];
        if !(decimation > 1 && i % decimation != 0) {
          var point := ExtractCoordinatesFromHWord(hwords[i], w);
          if point.Some? {
            PointsSnoc(Kept(hwords[..i], decimation), hwords[i], w);
            c.AddPoint(point.value);
          }
        }
        i := i + 1;
      }
      assert hwords[..i] == hwords;
    }
  }

  // ---------------------------------------------------------------------------
  // Routing
  // ---------------------------------------------------------------------------

  /** What `from_bytes` has collected so far, and its `in_header` flag. */
  datatype Routing = Routing(header: seq<HWord>, pixels: seq<HWord>, inHeader: bool)

  /**
   * One iteration of the routing loop of `from_bytes`: each list either keeps
   * its contents or gains the HWORD at its end.
   */
  function RouteStep(st: Routing, h: HWord): (r: Routing)
    ensures r.header == st.header || r.header == st.header + [h]
    ensures r.pixels == st.pixels || r.pixels == st.pixels + [h]
  {
    match h.controlBits
    case FirstHeader => Routing(st.header + [h], st.pixels, true)
    case SubsequentHeader => if st.inHeader then st.(header := st.header + [h]) else st
    case FirstPixel => Routing(st.header, st.pixels + [h], false)
    case SubsequentPixel => if !st.inHeader then st.(pixels := st.pixels + [h]) else st
    case _ => st
  }

  /** The routing of a list of HWORDs, from an empty frame outside any header. */
  function Route(hs: seq<HWord>): Routing
  {
    if hs == [] then Routing([], [], false) else RouteStep(Route(hs[..|hs| - 1]), hs[|hs| - 1])
  }

  /** Routing a list and one more HWORD is one more routing step. */
  lemma RouteAppend(hs: seq<HWord>, h: HWord)
    ensures Route(hs + [h]) == RouteStep(Route(hs), h)
  {
    assert (hs + [h])[..|hs|] == hs;
  }

  /** Routing one more HWORD of a list is one more routing step. */
  lemma RouteSnoc(hs: seq<HWord>, k: nat)
    requires k < |hs|
    ensures Route(hs[..k + 1]) == RouteStep(Route(hs[..k]), hs[k])
  {
    assert hs[..k + 1][..k] == hs[..k];
  }

  /** `a` is `b` with some elements left out, the rest in their order. */
  predicate IsSubsequence<T(==)>(a: seq<T>, b: seq<T>)
    decreases |b|
  {
    if a == [] then true
    else if b == [] then false
    else
      (a[|a| - 1] == b[|b| - 1] && IsSubsequence(a[..|a| - 1], b[..|b| - 1]))
      || IsSubsequence(a, b[..|b| - 1])
  }

  /** A subsequence of `b` stays one when `x` is added to `b`, or to both. */
  lemma SubsequenceExtend<T>(a: seq<T>, a': seq<T>, b: seq<T>, x: T)
    requires IsSubsequence(a, b)
    requires a' == a || a' == a + [x]
    ensures IsSubsequence(a', b + [x])
  {
    assert (b + [x])[..|b|] == b;
    assert (a + [x])[..|a|] == a;
  }

  /** The header list holds only header HWORDs and the pixel list only pixel HWORDs. */
  lemma {:induction false} RouteSorts(hs: seq<HWord>)
    ensures AllHeaders(Route(hs).header) && AllPixels(Route(hs).pixels)
  {
    if hs != [] {
      RouteSorts(hs[..|hs| - 1]);
    }
  }

  /** Both lists keep the input's order: each is a subsequence of the input. */
  lemma {:induction false} RouteInOrder(hs: seq<HWord>)
    ensures IsSubsequence(Route(hs).header, hs) && IsSubsequence(Route(hs).pixels, hs)
  {
    if hs != [] {
      var front := hs[..|hs| - 1];
      var h := hs[|hs| - 1];
      RouteInOrder(front);
      var st := Route(front);
      assert Route(hs) == RouteStep(st, h);
      SubsequenceExtend(st.header, Route(hs).header, front, h);
      SubsequenceExtend(st.pixels, Route(hs).pixels, front, h);
      assert front + [h] == hs;
    }
  }

  /**
   * The flag is set exactly when some FirstHeader has been seen and no
   * FirstPixel since.
   */
  lemma {:induction false} RouteInHeader(hs: seq<HWord>)
    ensures Route(hs).inHeader <==>
      exists k :: 0 <= k < |hs| && hs[k].controlBits == FirstHeader &&
        forall j :: k < j < |hs| ==> hs[j].controlBits != FirstPixel
  {
    if hs != [] {
      var n := |hs| - 1;
      var front := hs[..n];
      RouteInHeader(front);
      assert forall j :: 0 <= j < n ==> front[j] == hs[j];
      if Route(hs).inHeader && hs[n].controlBits != FirstHeader {
        var k :| 0 <= k < n && front[k].controlBits == FirstHeader &&
          forall j :: k < j < n ==> front[j].controlBits != FirstPixel;
        assert forall j :: k < j < |hs| ==> hs[j].controlBits != FirstPixel;
      }
      if !Route(hs).inHeader && hs[n].controlBits != FirstPixel {
        forall k | 0 <= k < |hs| && hs[k].controlBits == FirstHeader
          ensures exists j :: k < j < |hs| && hs[j].controlBits == FirstPixel
        {
          assert k < n;
          assert front[k].controlBits == FirstHeader;
        }
      }
    }
  }

  /** Outside a header, a run of SubsequentPixel HWORDs is kept whole, and the header does not change. */
  lemma {:induction false} RoutePixelRun(hs: seq<HWord>, run: seq<HWord>)
    requires !Route(hs).inHeader
    requires forall k :: 0 <= k < |run| ==> run[k].controlBits == SubsequentPixel
    ensures Route(hs + run) == Route(hs).(pixels := Route(hs).pixels + run)
    decreases |run|
  {
    if run == [] {
      assert hs + run == hs;
    } else {
      var front, last := run[..|run| - 1], run[|run| - 1];
      assert forall k :: 0 <= k < |front| ==> front[k] == run[k];
      RoutePixelRun(hs, front);
      var mid := Route(hs + front);
      assert mid == Route(hs).(pixels := Route(hs).pixels + front);
      assert !mid.inHeader && last.controlBits == SubsequentPixel;
      assert RouteStep(mid, last) == mid.(pixels := mid.pixels + [last]);
      assert hs + run == (hs + front) + [last];
      RouteAppend(hs + front, last);
      assert Route(hs).pixels + front + [last] == Route(hs).pixels + run;
    }
  }

  /** A FirstHeader, a FirstPixel and 99 SubsequentPixel HWORDs give one header HWORD and 100 pixels. */
  lemma ScenarioOneHundredPixels(hs: seq<HWord>)
    requires |hs| == 101
    requires hs[0].controlBits == FirstHeader && hs[1].controlBits == FirstPixel
    requires forall k :: 2 <= k < 101 ==> hs[k].controlBits == SubsequentPixel
    ensures |Route(hs).pixels| == 100 && |Route(hs).header| == 1
  {
    var start := hs[..2];
    assert start[..1] == [hs[0]] && start[1] == hs[1];
    assert [hs[0]][..0] == [];
    assert Route([hs[0]]) == Routing([hs[0]], [], true);
    assert Route(start) == Routing([hs[0]], [hs[1]], false);
    var run := hs[2..];
    RoutePixelRun(start, run);
    assert start + run == hs;
  }

  // ---------------------------------------------------------------------------
  // Frames
  // ---------------------------------------------------------------------------

  /** The `k`-th whole 12-byte chunk of a buffer. */
  function ChunkBytes(data: seq<bv8>, k: nat): Bytes12
    requires 12 * k + 12 <= |data|
  {
    data[12 * k..12 * k + 12]
  }

  /** A chunk index below the number of whole chunks names a chunk inside the buffer. */
  lemma ChunkInRange(n: nat, k: nat)
    requires k < n / 12
    ensures 12 * k + 12 <= n
  {
  }

  /** The HWORDs of the whole chunks of a buffer, in order. */
  function Chunks(data: seq<bv8>): (hs: seq<HWord>)
    ensures |hs| == |data| / 12
  {
    seq(|data| / 12, k requires 0 <= k < |data| / 12 => ChunkInRange(|data|, k); Decode(ChunkBytes(data, k)))
  }

  /**
   * Writing each HWORD of a buffer back with `to_bytes` gives its chunk, so
   * `from_bytes` loses no byte of a whole chunk.
   */
  lemma ChunksRoundTrip(data: seq<bv8>)
    ensures forall k: nat :: k < |Chunks(data)| ==>
      12 * k + 12 <= |data| && ToBytes(Chunks(data)[k]) == data[12 * k..12 * k + 12]
  {
    forall k: nat | k < |Chunks(data)|
      ensures 12 * k + 12 <= |data| && ToBytes(Chunks(data)[k]) == data[12 * k..12 * k + 12]
    {
      ChunksAt(data, k);
      EncodeDecode(ChunkBytes(data, k));
    }
  }

  /** The message `from_bytes` gives for a buffer of `n` bytes that is not a whole number of HWORDs. */
  function FileSizeMessage(n: nat): string
  {
    "File size " + Decimal(n) + FILE_SIZE_SUFFIX
  }

  /** The fixed end of that message. */
  const FILE_SIZE_SUFFIX := " is not a multiple of HWORD size (12 bytes)"

  /** The k-th HWORD of a buffer is the one parsed from its k-th chunk. */
  lemma ChunksAt(data: seq<bv8>, k: nat)
    requires k < |data| / 12
    ensures 12 * k + 12 <= |data| && |Chunks(data)| == |data| / 12
    ensures Chunks(data)[k] == Decode(ChunkBytes(data, k))
  {
    ChunkInRange(|data|, k);
  }

  /** The whitelist `Frame::data` builds: from the names if given, else all fields. */
  function WhitelistOf(fieldNames: Option<seq<string>>): FieldWhitelist
  {
    match fieldNames
    case Some(names) => NewWhitelist(names)
    case None => AllFields()
  }

  /** `Frame`: an identifier, a type name, a header and a pixel list. */
  class Frame {
    var frameId: U32
    var header: FrameHeader
    var pixels: PixelData
    var frameType: string

    /** `Frame::new`: a "point_cloud" frame with an empty header and no pixels. */
    constructor (frameId: U32)
      ensures this.frameId == frameId && frameType == "point_cloud"
      ensures fresh(header) && fresh(pixels)
      ensures header.hwords == [] && header.registers == [] && pixels.hwords == []
    {
      this.frameId := frameId;
      header := new FrameHeader();
      pixels := new PixelData();
      frameType := "point_cloud";
    }

    /**
     * `Frame::from_bytes`: fails exactly when the buffer is not a whole number
     * of HWORDs; otherwise the routed header and pixel HWORDs and the header's
     * registers.
     */
    static method FromBytes(frameId: U32, data: seq<bv8>) returns (r: Result<Frame, SharedError>)
      ensures r.Err? <==> |data| % HWORD_SIZE_BYTES != 0
      ensures r.Err? ==> r.error == InvalidFileFormat(FileSizeMessage(|data|))
      ensures r.Ok? ==> fresh(r.value) && fresh(r.value.header) && fresh(r.value.pixels)
      ensures r.Ok? ==> r.value.frameId == frameId && r.value.frameType == "point_cloud"
      ensures r.Ok? ==> r.value.header.hwords == Route(Chunks(data)).header
      ensures r.Ok? ==> r.value.pixels.hwords == Route(Chunks(data)).pixels
      ensures r.Ok? ==> r.value.header.registers == Registers(r.value.header.hwords)
    {
      if |data| % HWORD_SIZE_BYTES != 0 {
        return Err(InvalidFileFormat(FileSizeMessage(|data|)));
      }
      var frame := new Frame(frameId);
      var inHeader := false;
      ghost var hs := Chunks(data);
      var k := 0;
      while k < |data| / HWORD_SIZE_BYTES
        invariant 0 <= k <= |data| / 12
        invariant frame.frameId == frameId && frame.frameType == "point_cloud"
        invariant fresh(frame.header) && fresh(frame.pixels)
        invariant Route(hs[..k]) == Routing(frame.header.hwords, frame.pixels.hwords, inHeader)
      {
        ChunksAt(data, k);
        var hword := HWords.FromBytes(ChunkBytes(data, k)).value;
        assert hword == hs[k];
        RouteSnoc(hs, k);
        inHeader := frame.RouteHWord(hword, inHeader);
        k := k + 1;
      }
      assert hs[..k] == hs;
      var extracted := frame.header.ExtractRegisters();
      return Ok(frame);
    }

    /**
     * The body of the routing loop of `from_bytes`: file one HWORD by its code
     * and the flag. Each `add_hword` gets an HWORD of its own kind, so the
     * source's `?` on it never fails.
     */
    method RouteHWord(hword: HWord, inHeader: bool) returns (next: bool)
      modifies header`hwords, pixels`hwords
      ensures Routing(header.hwords, pixels.hwords, next)
        == RouteStep(Routing(old(header.hwords), old(pixels.hwords), inHeader), hword)
    {
      next := inHeader;
      match hword.controlBits {
        case FirstHeader =>
          next := true;
          var added := header.AddHWord(hword);
          assert added.Ok?;
        case SubsequentHeader =>
          if inHeader {
            var added := header.AddHWord(hword);
            assert added.Ok?;
          }
        case FirstPixel =>
          next := false;
          var added := pixels.AddHWord(hword);
          assert added.Ok?;
        case SubsequentPixel =>
          if !inHeader {
            var added := pixels.AddHWord(hword);
            assert added.Ok?;
          }
        case _ =>
      }
    }

    /** `Frame::number`. */
    function Number(): U32
      reads this
    {
      frameId
    }

    /** `Frame::frame_type`. */
    function FrameType(): string
      reads this
    {
      frameType
    }

    /** `Frame::num_pixels`: the number of pixel HWORDs. */
    function NumPixels(): nat
      reads this, pixels
    {
      pixels.Len()
    }

    /**
     * `Frame::data`: the points of the pixels under the given decimation
     * (default 1) and field names (default: all fields).
     */
    method Data(decimation: Option<nat>, fieldNames: Option<seq<string>>) returns (c: CoordinateData)
      ensures fresh(c)
      ensures c.points == ExtractedPoints(pixels.hwords, WhitelistOf(fieldNames),
                                          match decimation case Some(d) => d case None => 1)
    {
      var d := match decimation case Some(d) => d case None => 1;
      var whitelist := match fieldNames case Some(names) => NewWhitelist(names) case None => AllFields();
      c := pixels.ExtractCoordinates(whitelist, d);
    }
  }

  /** A freshly built frame matches the source's example: number 42, "point_cloud", nothing collected. */
  method FrameCreationExample() returns (f: Frame)
    ensures f.Number() == 42 && f.FrameType() == "point_cloud"
    ensures f.header.hwords == [] && !f.header.IsComplete() && f.NumPixels() == 0
  {
    f := new Frame(42);
  }

  /** A 13-byte buffer is refused, with its length in the message. */
  method FileSizeErrorExample() returns (r: Result<Frame, SharedError>)
    ensures r == Err(InvalidFileFormat("File size 13" + FILE_SIZE_SUFFIX))
  {
    r := Frame.FromBytes(0, seq(13, _ => 0));
    assert Decimal(13) == Decimal(1) + [DecimalChar(3)] == "13";
    assert "File size " + "13" == "File size 13";
  }

  /**
   * A buffer that is a whole number of HWORDs whose codes are a FirstHeader, a
   * FirstPixel and 99 SubsequentPixels gives a frame with 100 pixels.
   */
  lemma ScenarioFromBytes(data: seq<bv8>)
    requires |data| == 101 * 12
    requires Chunks(data)[0].controlBits == FirstHeader && Chunks(data)[1].controlBits == FirstPixel
    requires forall k :: 2 <= k < 101 ==> Chunks(data)[k].controlBits == SubsequentPixel
    ensures |data| % HWORD_SIZE_BYTES == 0
    ensures |Route(Chunks(data)).pixels| == 100
  {
    ScenarioOneHundredPixels(Chunks(data));
  }
}
