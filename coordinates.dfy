/**
 * Pixel field decoding and field selection (shared/src/coordinates.rs).
 *
 * A pixel HWORD's 92-bit data field packs a 19-bit signed X (bits 18..0), a
 * 19-bit signed Y (bits 42..24), a 22-bit signed Z (bits 69..48), a 12-bit
 * intensity (bits 83..72), an over-range flag (bit 90) and a gain flag
 * (bit 91). Coordinates are two's-complement counts of 1/1024; the source's
 * f64 quotient is an exact real here.
 */
module Coordinates {
  import opened Wrappers
  import opened HWords
  import opened Protocol

  // ---------------------------------------------------------------------------
  // Field names
  // ---------------------------------------------------------------------------

  /** The fields a point can carry. */
  datatype FieldType = X | Y | Z | Intensity | Gain | OverRange

  /** ASCII lower-casing of one character. */
  function LowerChar(c: char): char
  {
    if 'A' <= c <= 'Z' then (c as int + 32) as char else c
  }

  /**
   * `str::to_lowercase`, on ASCII letters: the result has no upper-case
   * letter, each upper-case letter becomes its lower-case partner 32 code
   * points up, and every other character is kept.
   */
  function ToLower(s: string): (t: string)
    ensures |t| == |s|
    ensures forall i :: 0 <= i < |t| ==> !('A' <= t[i] <= 'Z')
    ensures forall i :: 0 <= i < |s| && 'A' <= s[i] <= 'Z' ==> t[i] as int == s[i] as int + 32
    ensures forall i :: 0 <= i < |s| && !('A' <= s[i] <= 'Z') ==> t[i] == s[i]
  {
    seq(|s|, i requires 0 <= i < |s| => LowerChar(s[i]))
  }

  /** `FieldType::from_str`: a field name, ignoring case. */
  function FromStr(s: string): (r: Option<FieldType>)
  {
    match ToLower(s)
    case "x" => Some(X)
    case "y" => Some(Y)
    case "z" => Some(Z)
    case "intensity" => Some(Intensity)
    case "gain" => Some(Gain)
    case "over_range" => Some(OverRange)
    case "overrange" => Some(OverRange)
    case _ => None
  }

  /** `FieldType::as_str`: the canonical lower-case name of a field. */
  function AsStr(f: FieldType): (s: string)
    ensures ToLower(s) == s
  {
    match f
    case X => "x"
    case Y => "y"
    case Z => "z"
    case Intensity => "intensity"
    case Gain => "gain"
    case OverRange => "over_range"
  }

  /** The lower-case spellings that name a field: its canonical name, and "overrange" for OverRange. */
  function Names(f: FieldType): set<string>
  {
    if f == OverRange then {AsStr(f), "overrange"} else {AsStr(f)}
  }

  /** A name parses to `f` iff its lower-cased form is one of `f`'s spellings. */
  lemma FromStrNames(s: string, f: FieldType)
    ensures FromStr(s) == Some(f) <==> ToLower(s) in Names(f)
  {
  }

  /** A name that is no field's spelling parses to None. */
  lemma FromStrNone(s: string)
    ensures FromStr(s).None? <==> forall f: FieldType :: ToLower(s) !in Names(f)
  {
    if FromStr(s).Some? {
      FromStrNames(s, FromStr(s).value);
    }
  }

  /** Lower-casing twice is lower-casing once. */
  lemma ToLowerIdempotent(s: string)
    ensures ToLower(ToLower(s)) == ToLower(s)
  {
    var t := ToLower(s);
    assert forall i :: 0 <= i < |s| ==> ToLower(t)[i] == t[i];
  }

  /** Parsing ignores case: a name and its lower-cased form parse alike. */
  lemma FromStrCaseInsensitive(s: string)
    ensures FromStr(s) == FromStr(ToLower(s))
  {
    ToLowerIdempotent(s);
  }

  /** The canonical name of every field parses back to that field. */
  lemma FromStrAsStr(f: FieldType)
    ensures FromStr(AsStr(f)) == Some(f)
  {
  }

  /** The parser's documented cases: "x", "X", "intensity", "over_range" and "invalid". */
  lemma FromStrExamples()
    ensures FromStr("x") == Some(X) && FromStr("X") == Some(X)
    ensures FromStr("intensity") == Some(Intensity) && FromStr("over_range") == Some(OverRange)
    ensures FromStr("OverRange") == Some(OverRange) && FromStr("invalid") == None
  {
    FromStrAsStr(X);
    FromStrAsStr(Intensity);
    FromStrAsStr(OverRange);
    assert ToLower("X") == "x";
    assert ToLower("OverRange") == "overrange";
    assert ToLower("invalid") == "invalid";
  }

  // ---------------------------------------------------------------------------
  // Whitelists
  // ---------------------------------------------------------------------------

  /** `FieldWhitelist`: the set of fields to extract. */
  datatype FieldWhitelist = FieldWhitelist(fields: set<FieldType>)
  {
    /** `FieldWhitelist::includes`. */
    predicate Includes(f: FieldType)
    {
      f in fields
    }
  }

  /**
   * `FieldWhitelist::new`: the fields some given name parses to; names that
   * do not parse are dropped.
   */
  function NewWhitelist(names: seq<string>): (w: FieldWhitelist)
    ensures forall f: FieldType :: w.Includes(f) <==> exists i :: 0 <= i < |names| && FromStr(names[i]) == Some(f)
  {
    if names == [] then FieldWhitelist({})
    else
      var rest := NewWhitelist(names[1..]);
      var w := match FromStr(names[0])
        case Some(f) => FieldWhitelist({f} + rest.fields)
        case None => rest;
      assert forall i :: 1 <= i < |names| ==> names[i] == names[1..][i - 1];
      w
  }

  /** `FieldWhitelist::all` (also its `Default`): every field. */
  function AllFields(): (w: FieldWhitelist)
    ensures forall f: FieldType :: w.Includes(f)
  {
    EveryFieldListed();
    FieldWhitelist(FIELDS)
  }

  /** The six fields `FieldWhitelist::all` lists. */
  const FIELDS: set<FieldType> := {X, Y, Z, Intensity, Gain, OverRange}

  /** The six listed variants are all the fields there are. */
  lemma EveryFieldListed()
    ensures forall f: FieldType :: f in FIELDS
  {
    forall f: FieldType ensures f in FIELDS {
      match f
      case X => case Y => case Z => case Intensity => case Gain => case OverRange =>
    }
  }

  /** The whitelist of "x", "y", "z" holds the three coordinates and not the intensity. */
  lemma NewWhitelistExample()
    ensures NewWhitelist(["x", "y", "z"]).Includes(X)
    ensures NewWhitelist(["x", "y", "z"]).Includes(Y)
    ensures NewWhitelist(["x", "y", "z"]).Includes(Z)
    ensures !NewWhitelist(["x", "y", "z"]).Includes(Intensity)
  {
    var names := ["x", "y", "z"];
    FromStrAsStr(X);
    FromStrAsStr(Y);
    FromStrAsStr(Z);
    assert FromStr(names[0]) == Some(X);
    assert FromStr(names[1]) == Some(Y);
    assert FromStr(names[2]) == Some(Z);
  }

  // ---------------------------------------------------------------------------
  // Field decoding
  // ---------------------------------------------------------------------------

  /** The value of a 32-bit pattern read as `i32`. */
  function AsI32(u: bv32): int
  {
    if u < 0x8000_0000 then u as int else u as int - 0x1_0000_0000
  }

  /** The two's-complement value of a field `v` whose sign bit is worth `half`. */
  function TwosComplement(v: int, half: int): int
  {
    if v < half then v else v - 2 * half
  }

  /** The source's sign extension: if the sign bit is set, OR in the upper bits, then read as `i32`. */
  function SignExtend(raw: bv32, sign: bv32, upper: bv32): int
  {
    AsI32(if raw & sign != 0 then raw | upper else raw)
  }

  /** Sign extension from 19 bits gives the field's two's-complement value. */
  lemma SignExtend19(raw: bv32)
    requires raw < 0x8_0000
    ensures SignExtend(raw, 0x4_0000, 0xFFF8_0000) == TwosComplement(raw as int, 0x4_0000)
  {
    Bits19(raw);
  }

  /** The bit-level facts behind `SignExtend19`, stated on integers. */
  lemma Bits19(raw: bv32)
    requires raw < 0x8_0000
    ensures raw as int < 0x8_0000 && raw < 0x8000_0000
    ensures raw & 0x4_0000 != 0 <==> raw as int >= 0x4_0000
    ensures !(raw | 0xFFF8_0000 < 0x8000_0000)
    ensures (raw | 0xFFF8_0000) as int == raw as int + 0xFFF8_0000
  {
  }

  /** Sign extension from 22 bits gives the field's two's-complement value. */
  lemma SignExtend22(raw: bv32)
    requires raw < 0x40_0000
    ensures SignExtend(raw, 0x20_0000, 0xFFC0_0000) == TwosComplement(raw as int, 0x20_0000)
  {
    Bits22(raw);
  }

  /** The bit-level facts behind `SignExtend22`, stated on integers. */
  lemma Bits22(raw: bv32)
    requires raw < 0x40_0000
    ensures raw as int < 0x40_0000 && raw < 0x8000_0000
    ensures raw & 0x20_0000 != 0 <==> raw as int >= 0x20_0000
    ensures !(raw | 0xFFC0_0000 < 0x8000_0000)
    ensures (raw | 0xFFC0_0000) as int == raw as int + 0xFFC0_0000
  {
  }

  /** Data bits 18..0, the raw X field. */
  function XRaw(data: bv128): (raw: bv32)
    ensures raw < 0x8_0000
  {
    (data & 0x7_FFFF) as bv32
  }

  /** Data bits 42..24, the raw Y field. */
  function YRaw(data: bv128): (raw: bv32)
    ensures raw < 0x8_0000
  {
    ((data >> 24) & 0x7_FFFF) as bv32
  }

  /** Data bits 69..48, the raw Z field. */
  function ZRaw(data: bv128): (raw: bv32)
    ensures raw < 0x40_0000
  {
    ((data >> 48) & 0x3F_FFFF) as bv32
  }

  /** X in units of 1/1024: the 19-bit two's-complement value of its field. */
  function XCount(data: bv128): (v: int)
    ensures v == TwosComplement(XRaw(data) as int, 0x4_0000)
    ensures -0x4_0000 <= v < 0x4_0000
  {
    SignExtend19(XRaw(data));
    SignExtend(XRaw(data), 0x4_0000, 0xFFF8_0000)
  }

  /** Y in units of 1/1024: the 19-bit two's-complement value of its field. */
  function YCount(data: bv128): (v: int)
    ensures v == TwosComplement(YRaw(data) as int, 0x4_0000)
    ensures -0x4_0000 <= v < 0x4_0000
  {
    SignExtend19(YRaw(data));
    SignExtend(YRaw(data), 0x4_0000, 0xFFF8_0000)
  }

  /** Z in units of 1/1024: the 22-bit two's-complement value of its field. */
  function ZCount(data: bv128): (v: int)
    ensures v == TwosComplement(ZRaw(data) as int, 0x20_0000)
    ensures -0x20_0000 <= v < 0x20_0000
  {
    SignExtend22(ZRaw(data));
    SignExtend(ZRaw(data), 0x20_0000, 0xFFC0_0000)
  }

  /** Data bits 83..72, the intensity. */
  function IntensityOf(data: bv128): (i: bv16)
    ensures i < 0x1000
  {
    ((data >> 72) & 0xFFF) as bv16
  }

  /** Data bit 90, the over-range flag. */
  function OverRangeOf(data: bv128): bool
  {
    (data >> 90) & 1 != 0
  }

  /** Data bit 91, the gain flag (set for low gain). */
  function GainOf(data: bv128): bool
  {
    (data >> 91) & 1 != 0
  }

  /** Data bits 90 and 91 are bits 2 and 3 of the remaining-bits nibble. */
  lemma FlagBits(d0: bv8, d1: bv8, d2: bv8, d3: bv8, d4: bv8, d5: bv8,
                 d6: bv8, d7: bv8, d8: bv8, d9: bv8, d10: bv8, r: bv8)
    ensures OverRangeOf(DataPack(d0, d1, d2, d3, d4, d5, d6, d7, d8, d9, d10, r)) <==> r & 0x04 != 0
    ensures GainOf(DataPack(d0, d1, d2, d3, d4, d5, d6, d7, d8, d9, d10, r)) <==> r & 0x08 != 0
  {
  }

  /**
   * In a pixel record, the over-range flag is bit 2 and the gain flag bit 3
   * of the first byte, below the parity bit.
   */
  lemma FlagsOfBytes(bytes: Bytes12)
    ensures OverRangeOf(DataAsU128(Decode(bytes))) <==> bytes[0] & 0x04 != 0
    ensures GainOf(DataAsU128(Decode(bytes))) <==> bytes[0] & 0x08 != 0
  {
    var h := Decode(bytes);
    FlagBits(h.data[0], h.data[1], h.data[2], h.data[3], h.data[4], h.data[5],
             h.data[6], h.data[7], h.data[8], h.data[9], h.data[10], h.remainingBits);
    assert h.remainingBits & 0x04 == bytes[0] & 0x04 && h.remainingBits & 0x08 == bytes[0] & 0x08;
  }

  // ---------------------------------------------------------------------------
  // Points
  // ---------------------------------------------------------------------------

  /** `CoordinatePoint`: the fields decoded from one pixel, each present only if selected. */
  datatype CoordinatePoint = CoordinatePoint(
    x: Option<real>, y: Option<real>, z: Option<real>,
    intensity: Option<bv16>, gain: Option<bool>, overRange: Option<bool>)

  /** `CoordinatePoint::new`: no field set. */
  const EmptyPoint := CoordinatePoint(None, None, None, None, None, None)

  /** The point a pixel's data field decodes to under a whitelist. */
  function PointOf(data: bv128, w: FieldWhitelist): CoordinatePoint
  {
    CoordinatePoint(
      if w.Includes(X) then Some(XCount(data) as real / COORDINATE_SCALE_FACTOR) else None,
      if w.Includes(Y) then Some(YCount(data) as real / COORDINATE_SCALE_FACTOR) else None,
      if w.Includes(Z) then Some(ZCount(data) as real / COORDINATE_SCALE_FACTOR) else None,
      if w.Includes(Intensity) then Some(IntensityOf(data)) else None,
      if w.Includes(Gain) then Some(GainOf(data)) else None,
      if w.Includes(OverRange) then Some(OverRangeOf(data)) else None)
  }

  /** Each field of a decoded point is present iff the whitelist selects it. */
  lemma PointFieldsSelected(data: bv128, w: FieldWhitelist)
    ensures PointOf(data, w).x.Some? <==> w.Includes(X)
    ensures PointOf(data, w).y.Some? <==> w.Includes(Y)
    ensures PointOf(data, w).z.Some? <==> w.Includes(Z)
    ensures PointOf(data, w).intensity.Some? <==> w.Includes(Intensity)
    ensures PointOf(data, w).gain.Some? <==> w.Includes(Gain)
    ensures PointOf(data, w).overRange.Some? <==> w.Includes(OverRange)
  {
  }

  /** The coordinates of a decoded point lie in the ranges their fields can express. */
  lemma PointRanges(data: bv128, w: FieldWhitelist)
    ensures PointOf(data, w).x.Some? ==> -256.0 <= PointOf(data, w).x.value < 256.0
    ensures PointOf(data, w).y.Some? ==> -256.0 <= PointOf(data, w).y.value < 256.0
    ensures PointOf(data, w).z.Some? ==> -2048.0 <= PointOf(data, w).z.value < 2048.0
    ensures PointOf(data, w).intensity.Some? ==> PointOf(data, w).intensity.value < 4096
  {
  }

  /**
   * `extract_coordinates_from_hword`: None for a non-pixel HWORD; otherwise
   * the point filled in field by field from `data_as_u128`.
   */
  method ExtractCoordinatesFromHWord(h: HWord, w: FieldWhitelist) returns (r: Option<CoordinatePoint>)
    ensures r.None? <==> !IsPixel(h.controlBits)
    ensures r.Some? ==> r.value == PointOf(DataAsU128(h), w)
  {
    if !IsPixel(h.controlBits) {
      return None;
    }
    var data := DataAsU128(h);
    var point := EmptyPoint;
    if w.Includes(X) {
      var raw := XRaw(data);
      point := point.(x := Some(SignExtend(raw, 0x4_0000, 0xFFF8_0000) as real / COORDINATE_SCALE_FACTOR));
    }
    if w.Includes(Y) {
      var raw := YRaw(data);
      point := point.(y := Some(SignExtend(raw, 0x4_0000, 0xFFF8_0000) as real / COORDINATE_SCALE_FACTOR));
    }
    if w.Includes(Z) {
      var raw := ZRaw(data);
      point := point.(z := Some(SignExtend(raw, 0x20_0000, 0xFFC0_0000) as real / COORDINATE_SCALE_FACTOR));
    }
    if w.Includes(Intensity) {
      point := point.(intensity := Some(IntensityOf(data)));
    }
    if w.Includes(OverRange) {
      point := point.(overRange := Some(OverRangeOf(data)));
    }
    if w.Includes(Gain) {
      point := point.(gain := Some(GainOf(data)));
    }
    return Some(point);
  }

  /** The pixel of the source's extraction example: data 1024 | 2048 << 24 | 3072 << 48 | 100 << 72. */
  const ExamplePixel := HWord(FirstPixel, false, [0x00, 0x04, 0x00, 0x00, 0x08, 0x00, 0x00, 0x0C, 0x00, 0x64, 0x00], 0)

  /** That pixel decodes to x = 1, y = 2, z = 3 and intensity 100. */
  lemma ExtractionExample()
    ensures DataAsU128(ExamplePixel) == 1024 | (2048 << 24) | (3072 << 48) | (100 << 72)
    ensures PointOf(DataAsU128(ExamplePixel), AllFields()).x == Some(1.0)
    ensures PointOf(DataAsU128(ExamplePixel), AllFields()).y == Some(2.0)
    ensures PointOf(DataAsU128(ExamplePixel), AllFields()).z == Some(3.0)
    ensures PointOf(DataAsU128(ExamplePixel), AllFields()).intensity == Some(100)
  {
    var data := DataAsU128(ExamplePixel);
    assert XRaw(data) == 1024;
    assert YRaw(data) == 2048;
    assert ZRaw(data) == 3072;
    assert IntensityOf(data) == 100;
  }

  // ---------------------------------------------------------------------------
  // Point collections
  // ---------------------------------------------------------------------------

  /**
   * `Iterator::step_by(f)`: the first element, then every `f`-th after it.
   */
  function StepBy<T>(s: seq<T>, f: nat): (r: seq<T>)
    requires f >= 1
    decreases |s|
  {
    if s == [] then [] else if |s| <= f then [s[0]] else [s[0]] + StepBy(s[f..], f)
  }

  /** Stepping through `n` elements by `f` keeps ceil(n / f) of them: the least count `c` with `c * f >= n`. */
  lemma {:induction false} StepByLength<T>(s: seq<T>, f: nat)
    requires f >= 1
    ensures |s| <= |StepBy(s, f)| * f < |s| + f
    decreases |s|
  {
    if |s| > f {
      StepByLength(s[f..], f);
      var n := |StepBy(s[f..], f)|;
      assert |StepBy(s, f)| * f == n * f + f;
    }
  }

  /** The `k`-th element kept is element `k * f` of the input. */
  lemma {:induction false} StepByIndex<T>(s: seq<T>, f: nat, k: nat)
    requires f >= 1 && k < |StepBy(s, f)|
    ensures k * f < |s| && StepBy(s, f)[k] == s[k * f]
    decreases |s|
  {
    if k > 0 {
      var t := s[f..];
      assert StepBy(s, f)[k] == StepBy(t, f)[k - 1];
      StepByIndex(t, f, k - 1);
      assert k * f == (k - 1) * f + f;
    }
  }

  /** Every element whose index is a multiple `q * f` of the step is kept, at position `q`. */
  lemma StepByKeeps<T>(s: seq<T>, f: nat, q: nat)
    requires f >= 1 && q * f < |s|
    ensures q < |StepBy(s, f)| && StepBy(s, f)[q] == s[q * f]
  {
    StepByLength(s, f);
    StepByIndex(s, f, q);
  }

  /** `n` is a multiple of `f`, counted up in steps of `f`. */
  predicate IsMultiple(n: nat, f: nat)
    requires f >= 1
  {
    n == 0 || (n >= f && IsMultiple(n - f, f))
  }

  /** Appending to a list adds an element to its stepping exactly when the new index is a multiple of the step. */
  lemma {:induction false} StepByAppend<T>(s: seq<T>, x: T, f: nat)
    requires f >= 1
    ensures StepBy(s + [x], f) == if IsMultiple(|s|, f) then StepBy(s, f) + [x] else StepBy(s, f)
    decreases |s|
  {
    if s == [] {
    } else if |s| < f {
      assert (s + [x])[0] == s[0];
    } else if |s| == f {
      assert IsMultiple(|s| - f, f);
      assert (s + [x])[f..] == [x];
      assert (s + [x])[0] == s[0];
    } else {
      var t := s[f..];
      StepByAppend(t, x, f);
      assert (s + [x])[f..] == t + [x];
      assert (s + [x])[0] == s[0];
    }
  }

  /** A positive multiple of `f` is at least `f`. */
  lemma {:induction false} MulAtLeast(x: nat, f: nat)
    requires x >= 1
    ensures x * f >= f
  {
    if x > 1 {
      MulAtLeast(x - 1, f);
      assert x * f == (x - 1) * f + f;
    }
  }

  /** The remainder of `a * f + r` by `f` is `r`, for `r` below `f`. */
  lemma ModUnique(n: nat, f: nat, a: nat, r: nat)
    requires f >= 1 && r < f && n == a * f + r
    ensures n % f == r
  {
    var q, r' := n / f, n % f;
    assert n == q * f + r';
    if a > q {
      MulAtLeast(a - q, f);
    } else if q > a {
      MulAtLeast(q - a, f);
    }
  }

  /** Counting up in steps of `f` reaches exactly the numbers whose remainder by `f` is 0. */
  lemma {:induction false} IsMultipleMod(n: nat, f: nat)
    requires f >= 1
    ensures IsMultiple(n, f) <==> n % f == 0
    decreases n
  {
    if n < f {
      ModUnique(n, f, 0, n);
    } else {
      IsMultipleMod(n - f, f);
      var q, r := (n - f) / f, (n - f) % f;
      assert n - f == q * f + r;
      assert n == (q + 1) * f + r;
      ModUnique(n, f, q + 1, r);
    }
  }

  /** `CoordinateData`: a growing list of decoded points. */
  class CoordinateData {
    var points: seq<CoordinatePoint>

    /** `CoordinateData::new`: no points. */
    constructor ()
      ensures points == []
    {
      points := [];
    }

    /** `CoordinateData::add_point`: append a point. */
    method AddPoint(point: CoordinatePoint)
      modifies this
      ensures points == old(points) + [point]
    {
      points := points + [point];
    }

    /**
     * `CoordinateData::decimate`: a factor of 0 or 1 keeps every point; a
     * larger factor keeps every `factor`-th point, starting with the first.
     */
    method Decimate(factor: nat)
      modifies this
      ensures factor <= 1 ==> points == old(points)
      ensures factor > 1 ==> points == StepBy(old(points), factor)
    {
      if factor <= 1 {
        return;
      }
      points := StepBy(points, factor);
    }
  }
}
