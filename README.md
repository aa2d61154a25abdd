# A verified model of the DSQL frame decoding core

This project is a Dafny model of the part of the DSQL frame grabber and decoder
that turns raw bytes into frames. It covers four pieces:

- **HWORD records** (`hwords.dfy`, module `HWords`). A record is 12 bytes read
  big-endian as a 96-bit word:
  - bits 95..93 are the control code and bit 92 is the parity bit;
  - bits 91..0 are the data field, which the record keeps as eleven
    little-endian bytes plus four "remaining" bits.

  The model parses records, writes them back, rebuilds the data field and
  checks odd parity. It proves both round trips and the byte position of
  every field.
- **Pixel fields and field selection** (`coordinates.dfy`, module
  `Coordinates`).
  - Fields decoded from a pixel's data field: the signed 19-bit X and Y, the
    signed 22-bit Z, the 12-bit intensity, and the over-range and gain flags.
  - Coordinates are stated as exact quotients by 1024 of two's-complement
    counts.
  - Field names are parsed case-insensitively into a whitelist.
  - Points are decimated by stride.
- **Frame assembly** (`frames.dfy`, module `Frames`, and `framenumbers.dfy`,
  module `FrameNumbers`).
  - `Frame::from_bytes` routes 12-byte chunks into the header list or the
    pixel list under an `in_header` flag, then unpacks the header into
    16-bit registers.
  - Pixels become points under a decimation factor and a whitelist.
  - The frame number is read from the file stem: eight hex digits, or a
    decimal number, or the first run of digits.
- **The count-based frame synchroniser** (`framesync.dfy`, module
  `FrameSync`). This is the grabber's state machine:
  - it moves WaitingForSync → WaitingForFrame → CollectingHeader →
    CollectingPixels;
  - it owns a growing frame buffer and three counters;
  - it learns the expected pixel count from register 2 of the frame's first
    header.

`wrappers.dfy` holds `Option` and `Result`. `digits.dfy` (module `Digits`)
holds digit values, as `char::to_digit` gives them, and the decimal rendering
of a number, as `{}` writes it; both frame assembly and the frame number use
it. `protocol.dfy` holds the protocol
constants of `shared/src/lib.rs`: 12-byte HWORDs, 96 bits, 92 data bits, 110
header HWORDs per frame and the scale factor 1024.

The model takes each source file in its own form:

- **Pure code** becomes functions with contracts and lemmas, for example
  `ControlBits`, `FieldType::from_str`, `FieldWhitelist::new` and
  `extract_frame_number_from_path`.
- **Structs with `&mut self` methods** become classes: `CoordinateData`,
  `FrameHeader`, `PixelData`, `Frame` and `FrameSyncEngine`. Each has
  `modifies` clauses.
- **Loops in the source** become methods with loops and invariants:
  `extract_registers`, `extract_coordinates` and `from_bytes`.
- **Specification functions.** Each such method is proved against a function,
  and the lemmas about that function carry the source's promises:
  - `Registers` for `extract_registers`;
  - `ExtractedPoints` for `extract_coordinates`;
  - `Route` and `Chunks` for `from_bytes`;
  - `Step` and `Run` for `process_hword`.
- **`FrameSyncEngine.ProcessHWord`** is proved to move the engine's fields
  exactly as the pure `Step` says, and to keep the invariant `Inv`. `Inv`
  links the state to the length and first record of the frame buffer.

Behaviour of the code that the model keeps as it is:

- **The control-code test.** The test at `shared/src/hword.rs:182` expects
  `ControlBits::from_u8(0b1000)` to be `None`. The code masks the argument
  with `0b111`, so every value yields a code and `0b1000` yields
  `Reserved0`. The model follows the code (`HWords.FromU8`,
  `HWords.FromU8Examples`). As a result `HWord::from_bytes` never fails.
- **The data field's bits 91..88.** `remaining_bits` is a whole byte, so the
  reverse round trip holds exactly when it is below 16.
  - `to_bytes` ORs the byte in at bit 88, so larger values spill into the
    parity and control bits.
  - `data_as_u128` is then 2^92 or more.
- **A restart keeps the old mode.** In CollectingPixels, a FirstHeader
  restarts the buffer but does not re-read the pixel count. The new frame
  keeps the abandoned frame's mode (`FrameSync.CollectingPixelsStep`).
- **A premature pixel counts as the first pixel.** A pixel before the 110th header enters CollectingPixels with a pixel count of 1 (framegrabber/src/frame_sync.rs:270-278). Completion is tested only when the next pixel arrives (framegrabber/src/frame_sync.rs:284-286), so a short-header frame that expects one pixel is returned only with two (`FrameSync.CollectingHeaderStep`).
- **Header collection swallows a FirstHeader.** While the header is being
  collected, a FirstHeader is appended as one more header HWORD. It is not a
  restart.
- **Eight-character stems are read as hex first.** A stem of eight decimal
  digits is therefore read in hex: "00000010" is frame 16.
  - The grabber names an incomplete frame `{:08X}_incomplete`. That stem is
    read through the digit-run fallback, so "0000001A_incomplete" gives
    frame 1 (`FrameNumbers.IncompleteStemExample`).
- **Detect disagrees with the mode at frame start for 2 to 4 pixels.**
  `FrameMode::detect` calls a full header with 2 to 4 pixels Unknown. The
  frame start calls the same counts Imaging (`FrameSync.DetectAgreesWithStart`).

## Model

| member | source | states |
|---|---|---|
| `HWords.Code` | shared/src/hword.rs:14-23 | the discriminant of a control code is below 8 |
| `HWords.FromU8` | shared/src/hword.rs:27-39 | every byte yields a code, and that code's discriminant is the byte's low three bits |
| `HWords.CodeRoundTrip` | shared/src/hword.rs:14-39 | `from_u8` of a code's discriminant gives the code back |
| `HWords.IsHeader` | shared/src/hword.rs:41-44 | FirstHeader and SubsequentHeader are the headers; `Classification` states which codes these are |
| `HWords.IsPixel` | shared/src/hword.rs:46-49 | FirstPixel and SubsequentPixel are the pixels; `Classification` proves them disjoint from the headers |
| `HWords.IsFrameStart` | shared/src/hword.rs:51-54 | only FirstHeader starts a frame; `Classification` proves a frame start is a header |
| `HWords.IsIdle` | shared/src/hword.rs:56-59 | only Idle is idle; `Classification` proves it is neither header nor pixel |
| `HWords.Classification` | shared/src/hword.rs:41-59 | headers are the codes 01x, pixels 10x, the frame start 010 and idle 111; headers and pixels are disjoint and a frame start is a header |
| `HWords.FromU8Examples` | shared/src/hword.rs:177-183 | 0b010, 0b100 and 0b111 give FirstHeader, FirstPixel and Idle, and 0b1000 gives Reserved0, not None |
| `HWords.EncodeDecode` | shared/src/hword.rs:89-144 | writing back the byte-level meaning of any record gives the record's bytes |
| `HWords.DecodeEncode` | shared/src/hword.rs:124-144 | reading the bytes of an HWORD gives it back iff its remaining bits are below 16 |
| `HWords.WordBytes` | shared/src/hword.rs:96-100 | the big-endian word of a record fits in 96 bits and its bytes from the top are the record's bytes |
| `HWords.WordFields` | shared/src/hword.rs:90-113 | the control code is the top three bits of byte 0, parity (bit 92) is bit 4 of byte 0, data bytes 0..10 are record bytes 11..1 and bits 91..88 are the low nibble of byte 0 |
| `HWords.FromBytes` | shared/src/hword.rs:89-121 | parsing a 12-byte record always succeeds, with the byte-level meaning of the record |
| `HWords.ToBytes` | shared/src/hword.rs:124-144 | the big-endian bytes of the assembled word are the byte-level encoding, for every HWORD |
| `HWords.EncodeWordIsWord` | shared/src/hword.rs:125-135 | the word assembled from code, parity and data field is the big-endian word of the encoded bytes |
| `HWords.ToBytesFromBytes` | shared/src/hword.rs:185-197 | round trip: `to_bytes(from_bytes(b)) == b` for every 12-byte record |
| `HWords.FromBytesToBytes` | shared/src/hword.rs:109-144 | reverse round trip: `from_bytes(to_bytes(h)) == h` iff the remaining bits are below 16 |
| `HWords.DataOfParsed` | shared/src/hword.rs:162-170 | `data_as_u128` of a parsed record is the low 92 bits of its big-endian word, and so below 2^92 |
| `HWords.DataAsU128` | shared/src/hword.rs:162-170 | the eleven data bytes little-endian with the remaining bits at bit 88; `DataOfParsed` shows it is the parsed record's low 92 bits and `DataFits` that it is below 2^92 iff the remaining bits are below 16 |
| `HWords.DataFits` | shared/src/hword.rs:163-170 | `data_as_u128` fits in 92 bits iff the remaining bits are below 16 |
| `HWords.VerifyParity` | shared/src/hword.rs:146-160 | the parity check holds iff the encoded record has an odd number of set bits |
| `HWords.CountOnesWord` | shared/src/hword.rs:150-156 | the set bits of the rebuilt 128-bit word are the set bits of the twelve bytes |
| `HWords.VerifyParityOfParsed` | shared/src/hword.rs:146-160 | for a parsed record the parity check holds iff the record's 96 bits have odd population count |
| `HWords.ParityFlip` | shared/src/hword.rs:133-159 | with remaining bits below 16, exactly one of the two parity flags passes the check |
| `Coordinates.ToLower` | shared/src/coordinates.rs:27 | the result has the input's length and no upper-case ASCII letter; each upper-case letter becomes the letter 32 code points up and every other character is kept |
| `Coordinates.FromStr` | shared/src/coordinates.rs:26-36 | the field a name denotes, ignoring case; `FromStrNames`, `FromStrNone`, `FromStrCaseInsensitive` and `FromStrAsStr` state which names parse to which field, that all others give None, that case does not matter and that every canonical name parses back |
| `Coordinates.FromStrNames` | shared/src/coordinates.rs:26-36 | a name parses to a field iff its lower-cased form is one of that field's spellings ("over_range" and "overrange" both name OverRange) |
| `Coordinates.FromStrNone` | shared/src/coordinates.rs:26-36 | a name parses to None iff it is no field's spelling |
| `Coordinates.FromStrCaseInsensitive` | shared/src/coordinates.rs:26-27 | a name and its lower-cased form parse alike |
| `Coordinates.ToLowerIdempotent` | shared/src/coordinates.rs:27 | lower-casing twice is lower-casing once |
| `Coordinates.AsStr` | shared/src/coordinates.rs:39-48 | the canonical names are already lower case |
| `Coordinates.FromStrAsStr` | shared/src/coordinates.rs:26-48 | `from_str(as_str(f)) == Some(f)` for every field |
| `Coordinates.FromStrExamples` | shared/src/coordinates.rs:266-273 | "x" and "X" are X, "intensity" is Intensity, "over_range" and "OverRange" are OverRange, "invalid" is None |
| `Coordinates.NewWhitelist` | shared/src/coordinates.rs:59-66 | a field is included iff some given name parses to it; other names are dropped |
| `Coordinates.AllFields` | shared/src/coordinates.rs:69-80 | every field is included |
| `Coordinates.FieldWhitelist.Includes` | shared/src/coordinates.rs:82-85 | a field is included iff it is in the set; `NewWhitelist`, `AllFields` and `PointFieldsSelected` state it in those terms |
| `Coordinates.EveryFieldListed` | shared/src/coordinates.rs:15-22 | the six listed fields are all the field types |
| `Coordinates.NewWhitelistExample` | shared/src/coordinates.rs:275-282 | the whitelist of "x", "y", "z" includes X, Y, Z and not Intensity |
| `Coordinates.SignExtend19` | shared/src/coordinates.rs:200-208 | the source's sign extension of a 19-bit field is its two's-complement value |
| `Coordinates.SignExtend22` | shared/src/coordinates.rs:228-236 | the source's sign extension of a 22-bit field is its two's-complement value |
| `Coordinates.XCount` | shared/src/coordinates.rs:199-209 | X is the two's-complement value of data bits 18..0, in [-2^18, 2^18 - 1] |
| `Coordinates.YCount` | shared/src/coordinates.rs:213-223 | Y is the two's-complement value of data bits 42..24, in [-2^18, 2^18 - 1] |
| `Coordinates.ZCount` | shared/src/coordinates.rs:227-237 | Z is the two's-complement value of data bits 69..48, in [-2^21, 2^21 - 1] |
| `Coordinates.IntensityOf` | shared/src/coordinates.rs:241-244 | the intensity (data bits 83..72) is below 4096 |
| `Coordinates.OverRangeOf` | shared/src/coordinates.rs:246-250 | data bit 90; `FlagsOfBytes` places it in the record |
| `Coordinates.GainOf` | shared/src/coordinates.rs:252-256 | data bit 91, set for low gain; `FlagsOfBytes` places it in the record |
| `Coordinates.FlagsOfBytes` | shared/src/coordinates.rs:246-256 | in a parsed record the over-range flag is bit 2 and the gain flag bit 3 of the first byte |
| `Coordinates.PointOf` | shared/src/coordinates.rs:196-258 | the point of a data field under a whitelist; `PointFieldsSelected`, `XCount`, `YCount`, `ZCount`, `PointRanges` and `ExtractionExample` state which fields are present, their bit positions and ranges, and the source test's values |
| `Coordinates.PointFieldsSelected` | shared/src/coordinates.rs:196-258 | each field of a decoded point is present iff the whitelist includes it |
| `Coordinates.PointRanges` | shared/src/coordinates.rs:198-244 | X and Y lie in [-256, 256), Z in [-2048, 2048) and the intensity below 4096 |
| `Coordinates.ExtractCoordinatesFromHWord` | shared/src/coordinates.rs:189-259 | None exactly for a non-pixel HWORD; otherwise the point of its data field under the whitelist |
| `Coordinates.ExtractionExample` | shared/src/coordinates.rs:284-311 | data 1024, 2048 << 24, 3072 << 48, 100 << 72 decodes to x = 1, y = 2, z = 3 and intensity 100 |
| `Coordinates.StepByLength` | shared/src/coordinates.rs:172-176 | stepping through n elements by f keeps ceil(n / f) of them |
| `Coordinates.StepBy` | shared/src/coordinates.rs:172-176 | `step_by`; `StepByLength`, `StepByIndex`, `StepByKeeps` and `StepByAppend` state how many elements are kept, that the k-th kept is element k·f, that every multiple of f is kept and when an appended element is |
| `Coordinates.StepByIndex` | shared/src/coordinates.rs:172-176 | the k-th element kept is element k * f |
| `Coordinates.StepByKeeps` | shared/src/coordinates.rs:172-176 | every element at an index q * f is kept, at position q |
| `Coordinates.StepByAppend` | shared/src/coordinates.rs:172-176 | a new last element is kept iff its index is a multiple of the step |
| `Coordinates.IsMultipleMod` | shared/src/coordinates.rs:172-176 | the indices the stepping reaches are exactly those whose remainder by the step is 0 |
| `Coordinates.CoordinateData.constructor` | shared/src/coordinates.rs:138-142 | a new collection has no points |
| `Coordinates.CoordinateData.AddPoint` | shared/src/coordinates.rs:152-154 | the point is appended and nothing else changes |
| `Coordinates.CoordinateData.Decimate` | shared/src/coordinates.rs:167-179 | a factor of 0 or 1 changes nothing; a larger factor keeps every factor-th point from the first, in order |
| `Frames.FrameHeader.constructor` | shared/src/frame.rs:23-28 | a new header has no HWORDs and no registers |
| `Frames.FrameHeader.AddHWord` | shared/src/frame.rs:31-38 | succeeds iff the HWORD is a header, appending it then; otherwise nothing changes, so the list holds only headers |
| `Frames.FrameHeader.IsComplete` | shared/src/frame.rs:40-43 | a header is complete once it holds `HEADER_HWORDS_PER_FRAME` (110) HWORDs; `FrameCreationExample` shows a new header is not |
| `Frames.FrameHeader.PushRegisters` | shared/src/frame.rs:54-57 | five registers of one data field are appended, bits 16i+15..16i in order |
| `Frames.FrameHeader.ExtractRegisters` | shared/src/frame.rs:46-61 | always succeeds, and the registers become five per header HWORD, in order |
| `Frames.RegistersAt` | shared/src/frame.rs:46-61 | there are 5 registers per HWORD and register 5k + i is bits 16i+15..16i of HWORD k's data |
| `Frames.Registers` | shared/src/frame.rs:46-61 | the registers of a list of header HWORDs; `RegistersAt`, `RegistersLength` and `RegistersOfHWord` state their count, each one's bits and its two data bytes |
| `Frames.RegistersLength` | shared/src/frame.rs:49-58 | there are exactly five registers per header HWORD |
| `Frames.RegistersOfHWord` | shared/src/frame.rs:50-56 | register i of an HWORD is its data bytes 2i and 2i + 1, little-endian |
| `Frames.PixelData.constructor` | shared/src/frame.rs:78-82 | a new pixel list is empty |
| `Frames.PixelData.AddHWord` | shared/src/frame.rs:85-92 | succeeds iff the HWORD is a pixel, appending it then; otherwise nothing changes, so the list holds only pixels |
| `Frames.PixelData.Len` | shared/src/frame.rs:94-97 | the number of pixel HWORDs; `Frame.NumPixels` is this |
| `Frames.KeptPixels` | shared/src/frame.rs:108-112 | of a list of pixels, decimation 0 or 1 keeps them all and a larger factor keeps the stepping by that factor |
| `Frames.Kept` | shared/src/frame.rs:108-116 | the HWORDs whose index survives decimation and that are pixels; `KeptPixels` and `ExtractedCount` state which ones and how many |
| `Frames.ExtractedCount` | shared/src/frame.rs:105-120 | with d >= 2, ceil(n / d) points, the q-th being the point of pixel q * d; with d of 0 or 1, all n points |
| `Frames.PixelData.ExtractCoordinates` | shared/src/frame.rs:105-120 | a fresh collection of the points of the pixels whose index survives decimation |
| `Frames.RouteStep` | shared/src/frame.rs:181-210 | one routing step either leaves each list alone or appends the HWORD to it |
| `Frames.Route` | shared/src/frame.rs:174-211 | the lists and flag after routing a list of HWORDs; `RouteSorts`, `RouteInOrder`, `RouteInHeader` and `RoutePixelRun` state what each list holds, in what order, when the flag is set and that pixel runs are kept whole |
| `Frames.RouteSorts` | shared/src/frame.rs:181-201 | the header list holds only header HWORDs and the pixel list only pixel HWORDs |
| `Frames.RouteInOrder` | shared/src/frame.rs:175-211 | both lists are subsequences of the input, so kept HWORDs keep their input order |
| `Frames.RouteInHeader` | shared/src/frame.rs:172-210 | the flag is set iff some FirstHeader has been seen and no FirstPixel after it |
| `Frames.RoutePixelRun` | shared/src/frame.rs:192-201 | outside a header, a run of SubsequentPixel HWORDs is kept whole and the header is unchanged |
| `Frames.ScenarioOneHundredPixels` | shared/src/frame.rs:164-217 | a FirstHeader, a FirstPixel and 99 SubsequentPixels give one header HWORD and 100 pixels |
| `Frames.Chunks` | shared/src/frame.rs:175-179 | one HWORD per whole 12-byte chunk; `ChunksRoundTrip` ties each to its chunk |
| `Frames.ChunksRoundTrip` | shared/src/frame.rs:175-179 | writing the k-th HWORD of a buffer back with `to_bytes` gives bytes 12k..12k+11, so parsing loses no byte of a whole chunk |
| `Frames.Frame.constructor` | shared/src/frame.rs:140-147 | the given number, type "point_cloud", an empty header and an empty pixel list |
| `Frames.Frame.Number` | shared/src/frame.rs:219-222 | the frame's id; the constructor, `FromBytes` and `FrameCreationExample` state it is the id given |
| `Frames.Frame.FrameType` | shared/src/frame.rs:224-227 | the frame's type; the constructor, `FromBytes` and `FrameCreationExample` state it is "point_cloud" |
| `Frames.Frame.NumPixels` | shared/src/frame.rs:229-234 | the number of pixel HWORDs; `FrameCreationExample` states a new frame has none, and `FromBytes` that a parsed frame's pixels are the routed pixels |
| `Frames.Frame.FromBytes` | shared/src/frame.rs:164-217 | fails iff the length is not a multiple of 12, with InvalidFileFormat("File size " + the length in decimal + " is not a multiple of HWORD size (12 bytes)"); otherwise the header and pixels are the routing of the chunks, and the registers are those of the header |
| `Frames.Frame.RouteHWord` | shared/src/frame.rs:181-210 | one iteration of the routing loop moves the lists and the flag as the routing step says |
| `Frames.Frame.Data` | shared/src/frame.rs:237-247 | the extracted points with decimation 1 and all fields by default |
| `Frames.FrameCreationExample` | shared/src/frame.rs:309-316 | frame 42 has number 42, type "point_cloud", no header HWORDs and no pixels |
| `Frames.FileSizeErrorExample` | shared/src/frame.rs:165-169 | a 13-byte buffer is refused with the message "File size 13 is not a multiple of HWORD size (12 bytes)" |
| `Frames.ScenarioFromBytes` | shared/src/frame.rs:164-217 | a 101-record buffer of a FirstHeader, a FirstPixel and 99 SubsequentPixels is accepted and gives 100 pixels |
| `Digits.DigitValue` | shared/src/frame.rs:258 | a digit's value is below the radix |
| `Digits.Decimal` | shared/src/frame.rs:167 | `n` in decimal, as `{}` writes it: only digits, and no leading zero unless `n` is 0; `FrameNumbers.DecimalValue` reads it back as `n` |
| `FrameNumbers.ParseU32` | shared/src/frame.rs:258 | `u32::from_str_radix`: an optional `+` and one or more digits whose value fits in 32 bits; `HexDigitsValue` and `DecimalValue` state that hex and decimal renderings read back as their numbers, and `NotDecimalExample` and `IncompleteNotDecimal` that "frame_123" and "0000001A_incomplete" give None |
| `FrameNumbers.DigitPrefix` | shared/src/frame.rs:270-271 | the longest prefix made of ASCII digits |
| `FrameNumbers.FirstDigitRun` | shared/src/frame.rs:269-271 | None iff the stem has no digit; otherwise a maximal digit run with no digit before it |
| `FrameNumbers.FirstDigitRunUnique` | shared/src/frame.rs:269-271 | the leftmost maximal digit run is the one found |
| `FrameNumbers.ExtractFrameNumber` | shared/src/frame.rs:251-287 | fails, with "Invalid filename", iff there is no file stem |
| `FrameNumbers.HexDigitsValue` | shared/src/frame.rs:257-260 | n written in `count` hex digits reads back as n when n < 16^count |
| `FrameNumbers.FrameNumberRoundTrip` | shared/src/frame.rs:256-260 | the eight-hex-digit stem the grabber writes for frame n is read back as n |
| `FrameNumbers.DecimalValue` | shared/src/frame.rs:263-266 | a decimal rendering reads back as its number |
| `FrameNumbers.FrameNumberDecimal` | shared/src/frame.rs:256-266 | a decimal stem is read back as its number unless it has exactly eight digits |
| `FrameNumbers.HexExample` | shared/src/frame.rs:297-302 | "00000001" is 1 and "000000FF" is 255, and "00000010" is 16 because hex comes first |
| `FrameNumbers.DecimalExample` | shared/src/frame.rs:304-306 | "123" is 123 |
| `FrameNumbers.DigitRunExample` | shared/src/frame.rs:268-275 | "frame_123" falls back to its digit run and is 123 |
| `FrameNumbers.IncompleteStemExample` | framegrabber/src/capture.rs:362 | the stem written for an incomplete frame 0x1A, "0000001A_incomplete", is read as 1 |
| `FrameSync.Detect` | framegrabber/src/frame_sync.rs:64-72 | 111 total HWORDs is OnePointScan, 115 FivePointScan, otherwise more than five pixels is Imaging with that many pixels, and Unknown else |
| `FrameSync.ModeFor` | framegrabber/src/frame_sync.rs:205-211 | the mode chosen at a frame start expects exactly the announced count; it is Imaging iff the count is neither 1 nor 5 |
| `FrameSync.ModeTotals` | framegrabber/src/frame_sync.rs:37-61 | one-point frames are 111 HWORDs, five-point frames 115, and imaging frames 110 + n |
| `FrameSync.FrameMode.ExpectedPixelCount` | framegrabber/src/frame_sync.rs:48-57 | 1, 5, the announced count, or 1 for Unknown; `ModeFor` states the count a frame start expects |
| `FrameSync.FrameMode.TotalHWordCount` | framegrabber/src/frame_sync.rs:59-62 | header HWORDs plus expected pixels; `ModeTotals` states 111, 115 and 110 + n |
| `FrameSync.Step` | framegrabber/src/frame_sync.rs:167-328 | one call of `process_hword` on values; `StepInv`, `StepFrame` and `StepCounters` state the invariant it keeps, when it returns a frame and how the counters move |
| `FrameSync.DetectAgreesWithStart` | framegrabber/src/frame_sync.rs:63-72 | with a full header, `detect` agrees with the frame-start mode iff the count is 1, 5 or above 5; for 2 to 4 it says Unknown |
| `FrameSync.IsIdleHWord` | framegrabber/src/frame_sync.rs:109-122 | a chunk is idle iff it equals the idle pattern |
| `FrameSync.IdlePatternIsIdle` | framegrabber/src/frame_sync.rs:13-17 | the idle pattern has control code Idle, so it is not a frame start |
| `FrameSync.ExtractHeaderIndex` | framegrabber/src/frame_sync.rs:125-134 | an index exists iff the HWORD is a header, and it is below 16 |
| `FrameSync.HeaderIndexOfBytes` | framegrabber/src/frame_sync.rs:130-133 | the header index (data bits 87..84) is the high nibble of record byte 1 |
| `FrameSync.ExtractNumPixels` | framegrabber/src/frame_sync.rs:146-163 | a count exists iff the HWORD is a frame start, and it is at least 1 |
| `FrameSync.NumPixelsOfData` | framegrabber/src/frame_sync.rs:150-162 | the count is data bytes 5 and 4 as a 16-bit number with 0 read as 1, so it lies in [1, 65535] |
| `FrameSync.NumPixelsOfBytes` | framegrabber/src/frame_sync.rs:136-163 | the count is record bytes 6 and 7, big-endian, with 0 read as 1 |
| `FrameSync.InitialInv` | framegrabber/src/frame_sync.rs:87-96 | a new engine satisfies the invariant |
| `FrameSync.FrameStart` | framegrabber/src/frame_sync.rs:194-221 | a FirstHeader while waiting for a frame resets the buffer to that record, counts one header with index 0 and sets the mode from the announced count |
| `FrameSync.WaitingForSyncStep` | framegrabber/src/frame_sync.rs:179-192 | an idle record moves to WaitingForFrame; a FirstHeader does that and is reprocessed, starting a frame; anything else changes nothing |
| `FrameSync.WaitingForFrameStep` | framegrabber/src/frame_sync.rs:194-221 | while waiting for a frame, anything but a FirstHeader changes nothing |
| `FrameSync.WhileWaitingForFrame` | framegrabber/src/frame_sync.rs:194-221 | the WaitingForFrame arm on values; `WaitingForFrameStep` states that only a FirstHeader changes the engine, and `FrameStart` how it starts the frame |
| `FrameSync.CollectingHeaderStep` | framegrabber/src/frame_sync.rs:223-281 | a header (FirstHeader included) is appended and counted, an index mismatch counts one error, the 110th moves to CollectingPixels with no pixels; an early pixel moves there with one pixel; anything else changes nothing |
| `FrameSync.WhileCollectingHeader` | framegrabber/src/frame_sync.rs:223-281 | the CollectingHeader arm on values; `CollectingHeaderStep` states each of its cases |
| `FrameSync.CollectingPixelsStep` | framegrabber/src/frame_sync.rs:283-320 | a pixel is appended and completes the frame at the expected count; a FirstHeader counts a sync error and restarts the buffer with that record, keeping the mode; anything else changes nothing |
| `FrameSync.WhileCollectingPixels` | framegrabber/src/frame_sync.rs:283-320 | the CollectingPixels arm on values; `CollectingPixelsStep` and `StepFrame` state when it completes a frame and what it returns |
| `FrameSync.StepInv` | framegrabber/src/frame_sync.rs:167-328 | every step keeps the invariant: the buffer holds count × 12 bytes while collecting the header and (h + p) × 12 while collecting pixels, starting with the FirstHeader; the state is never FrameComplete |
| `FrameSync.StepFrame` | framegrabber/src/frame_sync.rs:284-297 | a frame comes back iff a pixel reaches the expected count; it holds h + p + 1 HWORDs, starts with the FirstHeader, ends with this record, frames completed rises by one and the engine waits for a frame |
| `FrameSync.StepCounters` | framegrabber/src/frame_sync.rs:167-328 | frames completed rises exactly on a returned frame, sync errors exactly on a restart, header index errors by at most one; none goes down |
| `FrameSync.RunInv` | framegrabber/src/frame_sync.rs:167-328 | along any run the invariant holds, the state is never FrameComplete and no counter goes down |
| `FrameSync.RunCountsFrames` | framegrabber/src/frame_sync.rs:287-297 | frames completed rises by exactly the number of frames returned along a run |
| `FrameSync.HeaderRun` | framegrabber/src/frame_sync.rs:223-251 | header records are appended and counted one by one, and the 110th moves to CollectingPixels with no pixels; no frame is returned and the mode stays |
| `FrameSync.OnePointHeader` | framegrabber/src/frame_sync.rs:194-251 | a FirstHeader announcing one pixel and 109 more headers lead to CollectingPixels(110, 0, 1) with no frame |
| `FrameSync.OnePointFrame` | framegrabber/src/frame_sync.rs:194-297 | such a header and then a pixel give back one frame of 111 HWORDs starting with the FirstHeader, and the engine waits for a frame |
| `FrameSync.FrameSyncEngine.constructor` | framegrabber/src/frame_sync.rs:87-96 | a new engine waits for sync, with an empty buffer, mode Unknown and all counters 0 |
| `FrameSync.FrameSyncEngine.State` | framegrabber/src/frame_sync.rs:98-101 | the current state; the constructor states it starts as WaitingForSync and `ProcessHWord` ties each change to `Step` |
| `FrameSync.FrameSyncEngine.Stats` | framegrabber/src/frame_sync.rs:103-106 | frames completed, sync errors and header index errors; the constructor states they start at 0, and `StepCounters` and `RunCountsFrames` state how they move |
| `FrameSync.FrameSyncEngine.CurrentBuffer` | framegrabber/src/frame_sync.rs:330-333 | while a frame is being collected, the buffer has the length of its HWORDs so far and starts with its FirstHeader |
| `FrameSync.FrameSyncEngine.ProcessHWord` | framegrabber/src/frame_sync.rs:167-328 | the fields and the returned frame are those of one step, and the invariant is kept |
| `FrameSync.FrameSyncEngine.WaitForFrame` | framegrabber/src/frame_sync.rs:194-221 | the WaitingForFrame arm moves the fields as the step says |
| `FrameSync.FrameSyncEngine.CollectHeader` | framegrabber/src/frame_sync.rs:223-281 | the CollectingHeader arm moves the fields as the step says and returns no frame |
| `FrameSync.FrameSyncEngine.CollectPixels` | framegrabber/src/frame_sync.rs:283-320 | the CollectingPixels arm moves the fields and returns the frame as the step says |

## Left out

- HWords.FromBytes, HWords.ToBytes, HWords.DataAsU128 and HWords.VerifyParity: the source's `for` loops are written as closed-form shifts and masks over the twelve bytes, not as loops. The source folds the bytes one at a time; the model computes the same words in one expression, so the order of the folds and the intermediate words are not modelled.
- HWords: the `HWordError` variants `InvalidLength`, `ParityCheckFailed` and `InvalidDataField` are declared but never produced, as in the source. `from_bytes` does not call `verify_parity`.
- Coordinates.PointOf: X, Y and Z are exact reals (count / 1024), not `f64`. Every count involved is exactly representable, so the two agree.
- Coordinates.ToLower: `str::to_lowercase` is modelled on ASCII letters only. No field name contains another letter, but a non-ASCII name that lower-cases to a field name under Unicode rules is not modelled.
- `CoordinateData::with_capacity`, `len` and `is_empty`, `PixelData::is_empty` and `FieldWhitelist::fields` are not modelled: they are capacity hints or plain field reads.
- `Frame::from_file` is left out because it reads the filesystem. Its two parts, the frame number and `from_bytes`, are modelled.
- FrameNumbers.ExtractFrameNumber: the file stem (`Path::file_stem` and `to_str`) is an input. The `DefaultHasher` fallback is the parameter `hash`, the lower 32 bits of the stem's hash, because the hash function is not part of this model.
- FrameNumbers.FirstDigitRun: `\d` is taken as the ASCII digits, whereas the regex crate's `\d` is Unicode-aware. Whenever the source's first Unicode `\d+` run contains a non-ASCII digit, `parse::<u32>` fails on it and the source uses the hash, while the model may return the value of an ASCII run: for the stem "frame_12" followed by U+0663 (ARABIC-INDIC DIGIT THREE) the source gives the hash and the model gives 12.
- FrameNumbers.ExtractFrameNumber: `filename.len()` is a byte count in the source and a character count here. These differ only for non-ASCII stems, which fail the hex parse under both.
- FrameSync.FrameSyncEngine.ProcessHWord: the counters are unbounded `nat`s, not `u64`s that could overflow; counts and indices are `nat`s rather than `usize` and `u8`.
- The unreachable error branch of `process_hword` (a failed `HWord::from_bytes`, framegrabber/src/frame_sync.rs:169-176) is left out: parsing never fails. So is the branch for a header without an index (framegrabber/src/frame_sync.rs:252-268): every header has one.
- `tracing` logging is left out.
- The UDP capture, threads, files, GUI, command line, configuration and the Python bindings are not part of this model.
