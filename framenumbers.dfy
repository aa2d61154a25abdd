/**
 * The frame number of a capture file, from its file stem: the
 * `extract_frame_number_from_path` function of the frame file, with
 * `u32::from_str_radix` and the `(\d+)` search it relies on.
 */
module FrameNumbers {
  import opened Wrappers
  import opened Digits
  import opened Frames

  /** The value of a string of digits, most significant first; `None` if one is not a digit. */
  function DigitsValue(ds: string, radix: nat): Option<nat>
  {
    if ds == [] then Some(0)
    else
      match DigitsValue(ds[..|ds| - 1], radix)
      case None => None
      case Some(v) =>
        match DigitValue(ds[|ds| - 1], radix)
        case None => None
        case Some(d) => Some(v * radix + d)
  }

  /**
   * `u32::from_str_radix`: an optional `+` and at least one digit, with a
   * value below 2^32. A `-` is not accepted by an unsigned type.
   */
  function ParseU32(s: string, radix: nat): (r: Option<U32>)
  {
    var digits := if |s| > 0 && s[0] == '+' then s[1..] else s;
    if digits == [] then None
    else
      match DigitsValue(digits, radix)
      case Some(v) => if v < 0x1_0000_0000 then Some(v) else None
      case None => None
  }

  /** The longest prefix of `s` made of ASCII digits. */
  function DigitPrefix(s: string): (p: string)
    ensures |p| <= |s| && p == s[..|p|]
    ensures forall k :: 0 <= k < |p| ==> IsAsciiDigit(p[k])
    ensures |p| < |s| ==> !IsAsciiDigit(s[|p|])
  {
    if s == [] || !IsAsciiDigit(s[0]) then [] else [s[0]] + DigitPrefix(s[1..])
  }

  /**
   * The first match of the regular expression `(\d+)`: the leftmost maximal
   * run of digits, if there is one.
   */
  function FirstDigitRun(s: string): (r: Option<string>)
    ensures r.None? <==> forall k :: 0 <= k < |s| ==> !IsAsciiDigit(s[k])
    ensures r.Some? ==> exists i :: 0 <= i < |s| && IsDigitRunAt(s, i, r.value)
  {
    if s == [] then None
    else if IsAsciiDigit(s[0]) then
      var p := DigitPrefix(s);
      assert IsDigitRunAt(s, 0, p);
      Some(p)
    else
      var r := FirstDigitRun(s[1..]);
      if r.Some? then
        var i :| 0 <= i < |s[1..]| && IsDigitRunAt(s[1..], i, r.value);
        DigitRunShift(s, i, r.value);
        r
      else
        DigitRunShift(s, 0, []);
        r
  }

  /**
   * Past a first character that is no digit, digit runs and digit-free
   * stretches of the rest are those of the whole string, one place on.
   */
  lemma DigitRunShift(s: string, i: nat, run: string)
    requires s != [] && !IsAsciiDigit(s[0])
    ensures IsDigitRunAt(s[1..], i, run) ==> IsDigitRunAt(s, i + 1, run)
    ensures (forall k :: 0 <= k < |s[1..]| ==> !IsAsciiDigit(s[1..][k])) ==>
      forall k :: 0 <= k < |s| ==> !IsAsciiDigit(s[k])
  {
    assert forall k :: 0 < k < |s| ==> s[k] == s[1..][k - 1];
    if IsDigitRunAt(s[1..], i, run) {
      assert s[i + 1..i + 1 + |run|] == s[1..][i..i + |run|];
    }
  }

  /** `run` is the maximal digit run of `s` that starts at `i`, with no digit before `i`. */
  predicate IsDigitRunAt(s: string, i: nat, run: string)
  {
    i < |s| && i + |run| <= |s| && run != [] && s[i..i + |run|] == run
    && (forall k :: 0 <= k < |run| ==> IsAsciiDigit(run[k]))
    && (forall k :: 0 <= k < i ==> !IsAsciiDigit(s[k]))
    && (i + |run| < |s| ==> !IsAsciiDigit(s[i + |run|]))
  }

  /**
   * `extract_frame_number_from_path` on the file stem (`None` when the path has
   * none or it is not UTF-8): eight characters as hex, else decimal, else the
   * first digit run as decimal, else the given lower 32 bits of the stem's hash.
   */
  function ExtractFrameNumber(stem: Option<string>, hash: U32): (r: Result<U32, SharedError>)
    ensures r.Err? <==> stem.None?
    ensures r.Err? ==> r.error == InvalidFileFormat("Invalid filename")
  {
    match stem
    case None => Err(InvalidFileFormat("Invalid filename"))
    case Some(name) =>
      var hex := if |name| == 8 then ParseU32(name, 16) else None;
      if hex.Some? then Ok(hex.value)
      else
        match ParseU32(name, 10)
        case Some(n) => Ok(n)
        case None =>
          match FirstDigitRun(name)
          case Some(run) =>
            (match ParseU32(run, 10)
             case Some(n) => Ok(n)
             case None => Ok(hash))
          case None => Ok(hash)
  }

  /** An upper-case hex digit. */
  function HexChar(d: nat): (c: char)
    requires d < 16
    ensures DigitValue(c, 16) == Some(d)
    ensures c != '+'
  {
    if d < 10 then ((('0' as int) + d) as char) else ((('A' as int) + d - 10) as char)
  }

  /** 16 to the power `c`. */
  function Pow16(c: nat): (p: nat)
    ensures p >= 1
  {
    if c == 0 then 1 else 16 * Pow16(c - 1)
  }

  /** The last `count` upper-case hex digits of `n`, zero-padded, as Rust's upper-case hex format with a width writes it. */
  function HexDigits(n: nat, count: nat): (s: string)
    ensures |s| == count
    ensures forall k :: 0 <= k < |s| ==> s[k] != '+'
  {
    if count == 0 then [] else HexDigits(n / 16, count - 1) + [HexChar(n % 16)]
  }

  /** Reading back `count` hex digits of a number below `16^count` gives the number. */
  lemma {:induction false} HexDigitsValue(n: nat, count: nat)
    requires n < Pow16(count)
    ensures DigitsValue(HexDigits(n, count), 16) == Some(n)
  {
    if count > 0 {
      var s := HexDigits(n, count);
      HexDigitsValue(n / 16, count - 1);
      assert s[..|s| - 1] == HexDigits(n / 16, count - 1);
    }
  }

  /** The file stem `capture` writes for frame `n`, eight upper-case hex digits. */
  function Hex8(n: U32): string
  {
    HexDigits(n, 8)
  }

  /** The frame number of a stem written as eight hex digits is read back unchanged. */
  lemma FrameNumberRoundTrip(n: U32, hash: U32)
    ensures ExtractFrameNumber(Some(Hex8(n)), hash) == Ok(n)
  {
    assert Pow16(8) == 0x1_0000_0000;
    HexDigitsValue(n, 8);
    assert Hex8(n)[0] != '+';
  }

  /** Appending a digit multiplies by the radix and adds it. */
  lemma DigitsSnoc(s: string, c: char, radix: nat)
    ensures DigitsValue(s + [c], radix) ==
      if DigitsValue(s, radix).Some? && DigitValue(c, radix).Some?
      then Some(DigitsValue(s, radix).value * radix + DigitValue(c, radix).value)
      else None
  {
    assert (s + [c])[..|s|] == s;
  }

  /** "123" reads as 123 in decimal. */
  lemma Parse123()
    ensures ParseU32("123", 10) == Some(123)
  {
    DigitsSnoc("1", '2', 10);
    assert "1" + ['2'] == "12";
    DigitsSnoc("12", '3', 10);
    assert "12" + ['3'] == "123";
    assert DigitsValue("1", 10) == Some(1);
  }

  /** The source's decimal example: "123" is frame 123. */
  lemma DecimalExample(hash: U32)
    ensures ExtractFrameNumber(Some("123"), hash) == Ok(123)
  {
    Parse123();
  }

  /** Zero digits are worth nothing. */
  lemma {:induction false} ZerosValue(z: string, radix: nat)
    requires radix > 0
    requires forall k :: 0 <= k < |z| ==> z[k] == '0'
    ensures DigitsValue(z, radix) == Some(0)
  {
    if z != [] {
      ZerosValue(z[..|z| - 1], radix);
    }
  }

  /** Leading zeros do not change the value of a string of digits. */
  lemma {:induction false} LeadingZeros(z: string, t: string, radix: nat)
    requires radix > 0
    requires forall k :: 0 <= k < |z| ==> z[k] == '0'
    ensures DigitsValue(z + t, radix) == DigitsValue(t, radix)
  {
    if t == [] {
      assert z + t == z;
      ZerosValue(z, radix);
    } else {
      var front := t[..|t| - 1];
      LeadingZeros(z, front, radix);
      assert (z + t)[..|z + t| - 1] == z + front;
    }
  }

  /** Eight hex digits: six zeros and two more. */
  lemma HexAfterZeros(t: string, v: nat)
    requires |t| == 2 && DigitsValue([t[0]], 16).Some?
    requires DigitValue(t[1], 16).Some?
    requires v == DigitsValue([t[0]], 16).value * 16 + DigitValue(t[1], 16).value
    ensures ParseU32("000000" + t, 16) == Some(v)
  {
    LeadingZeros("000000", t, 16);
    DigitsSnoc([t[0]], t[1], 16);
    assert [t[0]] + [t[1]] == t;
  }

  /**
   * The source's hex examples, "00000001" is 1 and "000000FF" is 255, and hex
   * comes first: "00000010" is 16, not 10.
   */
  lemma HexExample(hash: U32)
    ensures ExtractFrameNumber(Some("00000001"), hash) == Ok(1)
    ensures ExtractFrameNumber(Some("000000FF"), hash) == Ok(255)
    ensures ExtractFrameNumber(Some("00000010"), hash) == Ok(16)
  {
    HexAfterZeros("01", 1);
    assert "000000" + "01" == "00000001";
    HexAfterZeros("FF", 255);
    assert "000000" + "FF" == "000000FF";
    HexAfterZeros("10", 16);
    assert "000000" + "10" == "00000010";
  }

  /** A digit run as `IsDigitRunAt` describes it is the one `FirstDigitRun` finds. */
  lemma {:induction false} FirstDigitRunUnique(s: string, i: nat, run: string)
    requires IsDigitRunAt(s, i, run)
    ensures FirstDigitRun(s) == Some(run)
    decreases i
  {
    if i == 0 {
      var p := DigitPrefix(s);
      assert s[0] == run[0];
    } else {
      assert !IsAsciiDigit(s[0]);
      var t := s[1..];
      assert t[i - 1..i - 1 + |run|] == s[i..i + |run|];
      assert forall k :: 0 <= k < i - 1 ==> t[k] == s[k + 1];
      FirstDigitRunUnique(t, i - 1, run);
    }
  }

  /** The first digit run of "frame_123". */
  lemma DigitRunOfExample()
    ensures FirstDigitRun("frame_123") == Some("123")
  {
    var s := "frame_123";
    assert s[6..9] == "123";
    FirstDigitRunUnique(s, 6, "123");
  }

  /** "frame_123" is not a decimal number. */
  lemma NotDecimalExample()
    ensures ParseU32("frame_123", 10).None?
  {
    DigitsInvalid("frame_123", 10, 0);
  }

  /** Other stems fall back to their first digit run: "frame_123" is frame 123. */
  lemma DigitRunExample(hash: U32)
    ensures ExtractFrameNumber(Some("frame_123"), hash) == Ok(123)
  {
    DigitRunOfExample();
    NotDecimalExample();
    Parse123();
  }

  /**
   * The stem `capture` gives an incomplete frame, eight hex digits and
   * "_incomplete", goes by the digit-run fallback: frame 0x1A comes back as 1.
   */
  lemma IncompleteStemExample(hash: U32)
    ensures ExtractFrameNumber(Some("0000001A_incomplete"), hash) == Ok(1)
  {
    IncompleteRun();
    IncompleteNotDecimal();
    ParseZerosOne();
  }

  /** "0000001" reads as 1 in decimal. */
  lemma ParseZerosOne()
    ensures ParseU32("0000001", 10) == Some(1)
  {
    LeadingZeros("000000", "1", 10);
    assert "000000" + "1" == "0000001";
    assert "1"[..0] == [];
  }

  /** The first digit run of "0000001A_incomplete". */
  lemma IncompleteRun()
    ensures FirstDigitRun("0000001A_incomplete") == Some("0000001")
  {
    var s := "0000001A_incomplete";
    assert s[0..7] == "0000001";
    FirstDigitRunUnique(s, 0, "0000001");
  }

  /** "0000001A_incomplete" is not a decimal number. */
  lemma IncompleteNotDecimal()
    ensures ParseU32("0000001A_incomplete", 10).None?
  {
    DigitsInvalid("0000001A_incomplete", 10, 7);
  }

  /** One character that is not a digit makes the whole string fail to parse. */
  lemma {:induction false} DigitsInvalid(s: string, radix: nat, k: nat)
    requires k < |s| && DigitValue(s[k], radix).None?
    ensures DigitsValue(s, radix).None?
    decreases |s|
  {
    if k < |s| - 1 {
      DigitsInvalid(s[..|s| - 1], radix, k);
    }
  }

  /** Reading back a decimal rendering gives the number. */
  lemma {:induction false} DecimalValue(n: nat)
    ensures DigitsValue(Decimal(n), 10) == Some(n)
  {
    if n < 10 {
      assert Decimal(n)[..0] == [];
    } else {
      DecimalValue(n / 10);
      assert Decimal(n)[..|Decimal(n)| - 1] == Decimal(n / 10);
    }
  }

  /**
   * A frame number written in decimal is read back unchanged unless it has
   * exactly eight digits, in which case the hex reading comes first.
   */
  lemma FrameNumberDecimal(n: U32, hash: U32)
    requires |Decimal(n)| != 8
    ensures ExtractFrameNumber(Some(Decimal(n)), hash) == Ok(n)
  {
    DecimalValue(n);
  }
}
