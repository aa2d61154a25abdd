/**
 * HWORDs: the 12-byte records of the frame format (shared/src/hword.rs).
 *
 * A record read big-endian is a 96-bit word: bits 95..93 hold a 3-bit control
 * code, bit 92 a parity bit and bits 91..0 the data field. The source keeps the
 * word in a u128 (here bv128) and splits the data field into eleven
 * little-endian bytes plus four "remaining" bits.
 *
 * `Decode` and `Encode` state at byte level what a record means. `FromBytes`,
 * `ToBytes`, `DataAsU128` and `VerifyParity` follow the source's word-level
 * shifting and masking, written in closed form over the twelve bytes, and are
 * proved to agree with them. Shift amounts are 8-bit values so that the
 * bit-vector reasoning stays cheap.
 */
module HWords {
  import opened Wrappers

  /** The bytes of one HWORD record (`[u8; 12]`). */
  type Bytes12 = s: seq<bv8> | |s| == 12 witness [0, 0, 0, 0, 0, 0, 0, 0, 0, 0, 0, 0]

  /** The low 88 data bits, as eleven little-endian bytes (`[u8; 11]`). */
  type Bytes11 = s: seq<bv8> | |s| == 11 witness [0, 0, 0, 0, 0, 0, 0, 0, 0, 0, 0]

  // ---------------------------------------------------------------------------
  // Control codes
  // ---------------------------------------------------------------------------

  /** The eight 3-bit control codes. */
  datatype ControlBits =
    | Reserved0 | Reserved1 | FirstHeader | SubsequentHeader
    | FirstPixel | SubsequentPixel | Reserved6 | Idle

  /** The `#[repr(u8)]` discriminant of a control code. */
  function Code(c: ControlBits): (v: bv8)
    ensures v < 8
  {
    match c
    case Reserved0 => 0
    case Reserved1 => 1
    case FirstHeader => 2
    case SubsequentHeader => 3
    case FirstPixel => 4
    case SubsequentPixel => 5
    case Reserved6 => 6
    case Idle => 7
  }

  /**
   * `ControlBits::from_u8`: only the low three bits of `value` are looked at,
   * so every input yields a code (the `None` arm of the source is dead).
   */
  function FromU8(value: bv8): (r: Option<ControlBits>)
    ensures r.Some? && Code(r.value) == value & 7
  {
    var v := value & 7;
    if v == 0 then Some(Reserved0)
    else if v == 1 then Some(Reserved1)
    else if v == 2 then Some(FirstHeader)
    else if v == 3 then Some(SubsequentHeader)
    else if v == 4 then Some(FirstPixel)
    else if v == 5 then Some(SubsequentPixel)
    else if v == 6 then Some(Reserved6)
    else Some(Idle)
  }

  predicate IsHeader(c: ControlBits) { c == FirstHeader || c == SubsequentHeader }

  predicate IsPixel(c: ControlBits) { c == FirstPixel || c == SubsequentPixel }

  predicate IsFrameStart(c: ControlBits) { c == FirstHeader }

  predicate IsIdle(c: ControlBits) { c == Idle }

  /** The discriminant determines the code, and `FromU8` inverts `Code`. */
  lemma CodeRoundTrip(c: ControlBits)
    ensures FromU8(Code(c)) == Some(c)
  {
    match c
    case Reserved0 =>
    case Reserved1 =>
    case FirstHeader =>
    case SubsequentHeader =>
    case FirstPixel =>
    case SubsequentPixel =>
    case Reserved6 =>
    case Idle =>
  }

  /**
   * The classification in terms of the 3-bit code: headers are 01x, pixels
   * 10x, the frame start is 010 and idle is 111. Headers and pixels are
   * disjoint, and a frame start is a header.
   */
  lemma Classification(c: ControlBits)
    ensures IsHeader(c) <==> Code(c) >> 1 == 1
    ensures IsPixel(c) <==> Code(c) >> 1 == 2
    ensures IsFrameStart(c) <==> Code(c) == 2
    ensures IsIdle(c) <==> Code(c) == 7
    ensures !(IsHeader(c) && IsPixel(c))
    ensures IsFrameStart(c) ==> IsHeader(c)
  {
    match c
    case Reserved0 =>
    case Reserved1 =>
    case FirstHeader =>
    case SubsequentHeader =>
    case FirstPixel =>
    case SubsequentPixel =>
    case Reserved6 =>
    case Idle =>
  }

  /**
   * The values of the control-code test: 0b1000 is masked to 000 and so
   * yields Reserved0, where the test expects no code.
   */
  lemma FromU8Examples()
    ensures FromU8(0x02) == Some(FirstHeader) && FromU8(0x04) == Some(FirstPixel) && FromU8(0x07) == Some(Idle)
    ensures FromU8(0x08) == Some(Reserved0)
  {
  }

  // ---------------------------------------------------------------------------
  // Records
  // ---------------------------------------------------------------------------

  /** The ways HWORD parsing can fail in the source's error type. */
  datatype HWordError =
    | InvalidLength(length: nat)
    | InvalidControlBits(bits: bv8)
    | ParityCheckFailed
    | InvalidDataField

  /**
   * A parsed HWORD. `data[i]` holds data bits 8i+7..8i and `remainingBits`
   * should hold data bits 91..88; the field is a whole byte, and a value of 16
   * or more overlaps the parity and control bits when encoded.
   */
  datatype HWord = HWord(controlBits: ControlBits, parity: bool, data: Bytes11, remainingBits: bv8)

  /** What a record means, byte by byte. */
  function Decode(bytes: Bytes12): HWord
  {
    HWord(FromU8((bytes[0] >> 5) & 7).value,
          bytes[0] & 0x10 != 0,
          [bytes[11], bytes[10], bytes[9], bytes[8], bytes[7], bytes[6],
           bytes[5], bytes[4], bytes[3], bytes[2], bytes[1]],
          bytes[0] & 0x0F)
  }

  /** The bytes an HWORD is written as, byte by byte. */
  function Encode(h: HWord): Bytes12
  {
    [(Code(h.controlBits) << 5) | (if h.parity then 0x10 else 0) | h.remainingBits,
     h.data[10], h.data[9], h.data[8], h.data[7], h.data[6], h.data[5],
     h.data[4], h.data[3], h.data[2], h.data[1], h.data[0]]
  }

  /** Writing back a parsed record gives the original bytes, for every record. */
  lemma EncodeDecode(bytes: Bytes12)
    ensures Encode(Decode(bytes)) == bytes
  {
    var b0 := bytes[0];
    assert (((b0 >> 5) & 7) << 5) | (b0 & 0x10) | (b0 & 0x0F) == b0;
  }

  /** Parsing a written HWORD gives it back exactly when its remaining bits fit in four bits. */
  lemma DecodeEncode(h: HWord)
    ensures Decode(Encode(h)) == h <==> h.remainingBits < 16
  {
    var e := Encode(h);
    var d := Decode(e);
    var p: bv8 := if h.parity then 0x10 else 0;
    assert e[0] == (Code(h.controlBits) << 5) | p | h.remainingBits;
    FirstByteFields(Code(h.controlBits), p, h.remainingBits);
    if h.remainingBits < 16 {
      CodeRoundTrip(h.controlBits);
      assert d.data == h.data;
    }
  }

  /** The fields of a first byte built from a code, a parity bit and remaining bits. */
  lemma FirstByteFields(c: bv8, p: bv8, r: bv8)
    requires c < 8 && (p == 0 || p == 0x10)
    ensures r < 16 ==> (((c << 5) | p | r) >> 5) & 7 == c
    ensures r < 16 ==> (((c << 5) | p | r) & 0x10 != 0 <==> p == 0x10)
    ensures ((c << 5) | p | r) & 0x0F == r <==> r < 16
  {
  }

  // ---------------------------------------------------------------------------
  // The 96-bit word
  // ---------------------------------------------------------------------------

  /** The big-endian 96-bit value of twelve bytes, `b0` being the most significant. */
  function Pack(b0: bv8, b1: bv8, b2: bv8, b3: bv8, b4: bv8, b5: bv8,
                b6: bv8, b7: bv8, b8: bv8, b9: bv8, b10: bv8, b11: bv8): bv128
  {
    ((b0 as bv128) << 88) | ((b1 as bv128) << 80) | ((b2 as bv128) << 72)
    | ((b3 as bv128) << 64) | ((b4 as bv128) << 56) | ((b5 as bv128) << 48)
    | ((b6 as bv128) << 40) | ((b7 as bv128) << 32) | ((b8 as bv128) << 24)
    | ((b9 as bv128) << 16) | ((b10 as bv128) << 8) | (b11 as bv128)
  }

  /** The big-endian word of a record: byte 0 is bits 95..88, byte 11 bits 7..0. */
  function Word(b: Bytes12): bv128
  {
    Pack(b[0], b[1], b[2], b[3], b[4], b[5], b[6], b[7], b[8], b[9], b[10], b[11])
  }

  /** Byte `k` of a 96-bit word counted from the top: `(w >> (88 - 8k)) & 0xFF`. */
  function ByteAt(w: bv128, k: bv8): bv8
    requires k < 12
  {
    ((w >> (88 - k * 8)) & 0xFF) as bv8
  }

  /** Byte `k` of a word counted from the bottom: `(w >> 8k) & 0xFF`. */
  function LowByte(w: bv128, k: bv8): bv8
    requires k < 16
  {
    ((w >> (k * 8)) & 0xFF) as bv8
  }

  /** The mask of the 92-bit data field, `(1 << 92) - 1`. */
  const DATA_MASK: bv128 := (1 << 92) - 1

  /** The word of a record fits in 96 bits and its bytes, from the top, are the record. */
  lemma WordBytes(b: Bytes12)
    ensures Word(b) >> 96 == 0
    ensures ByteAt(Word(b), 0) == b[0] && ByteAt(Word(b), 1) == b[1] && ByteAt(Word(b), 2) == b[2]
    ensures ByteAt(Word(b), 3) == b[3] && ByteAt(Word(b), 4) == b[4] && ByteAt(Word(b), 5) == b[5]
    ensures ByteAt(Word(b), 6) == b[6] && ByteAt(Word(b), 7) == b[7] && ByteAt(Word(b), 8) == b[8]
    ensures ByteAt(Word(b), 9) == b[9] && ByteAt(Word(b), 10) == b[10] && ByteAt(Word(b), 11) == b[11]
  {
  }

  /**
   * The fields of the word: bits 95..93 are the top three bits of byte 0 and
   * bit 92 is bit 4 of byte 0; the data field's low eleven bytes are bytes
   * 11 down to 1, and its bits 91..88 are the low nibble of byte 0.
   */
  lemma WordFields(b: Bytes12)
    ensures ((Word(b) >> 93) & 7) as bv8 == (b[0] >> 5) & 7
    ensures ((Word(b) >> 92) & 1 != 0) == (b[0] & 0x10 != 0)
    ensures (((Word(b) & DATA_MASK) >> 88) & 0xF) as bv8 == b[0] & 0x0F
    ensures LowByte(Word(b) & DATA_MASK, 0) == b[11] && LowByte(Word(b) & DATA_MASK, 1) == b[10]
    ensures LowByte(Word(b) & DATA_MASK, 2) == b[9] && LowByte(Word(b) & DATA_MASK, 3) == b[8]
    ensures LowByte(Word(b) & DATA_MASK, 4) == b[7] && LowByte(Word(b) & DATA_MASK, 5) == b[6]
    ensures LowByte(Word(b) & DATA_MASK, 6) == b[5] && LowByte(Word(b) & DATA_MASK, 7) == b[4]
    ensures LowByte(Word(b) & DATA_MASK, 8) == b[3] && LowByte(Word(b) & DATA_MASK, 9) == b[2]
    ensures LowByte(Word(b) & DATA_MASK, 10) == b[1]
  {
  }

  // ---------------------------------------------------------------------------
  // The source's word-level operations
  // ---------------------------------------------------------------------------

  /**
   * `HWord::from_bytes`: builds the big-endian word, takes parity from bit 92
   * and splits the data field into eleven little-endian bytes and four bits.
   * `ControlBits::from_u8` always yields a code, so the `InvalidControlBits`
   * error of the source is never produced: parsing a 12-byte record always
   * succeeds and gives the byte-level meaning `Decode`.
   */
  function FromBytes(bytes: Bytes12): (r: Result<HWord, HWordError>)
    ensures r == Ok(Decode(bytes))
  {
    var rawControlBits := (bytes[0] >> 5) & 7;
    var word := Word(bytes);
    var parity := (word >> 92) & 1 != 0;
    var data92 := word & DATA_MASK;
    var data := [LowByte(data92, 0), LowByte(data92, 1), LowByte(data92, 2), LowByte(data92, 3),
                 LowByte(data92, 4), LowByte(data92, 5), LowByte(data92, 6), LowByte(data92, 7),
                 LowByte(data92, 8), LowByte(data92, 9), LowByte(data92, 10)];
    var remainingBits := ((data92 >> 88) & 0xF) as bv8;
    WordFields(bytes);
    Ok(HWord(FromU8(rawControlBits).value, parity, data, remainingBits))
  }

  /** Eleven little-endian data bytes `d0`..`d10` and four more bits `r` at bit 88. */
  function DataPack(d0: bv8, d1: bv8, d2: bv8, d3: bv8, d4: bv8, d5: bv8,
                    d6: bv8, d7: bv8, d8: bv8, d9: bv8, d10: bv8, r: bv8): bv128
  {
    (d0 as bv128) | ((d1 as bv128) << 8) | ((d2 as bv128) << 16)
    | ((d3 as bv128) << 24) | ((d4 as bv128) << 32) | ((d5 as bv128) << 40)
    | ((d6 as bv128) << 48) | ((d7 as bv128) << 56) | ((d8 as bv128) << 64)
    | ((d9 as bv128) << 72) | ((d10 as bv128) << 80) | ((r as bv128) << 88)
  }

  /** `HWord::data_as_u128`: the data bytes little-endian, then the remaining bits at 88. */
  function DataAsU128(h: HWord): bv128
  {
    DataPack(h.data[0], h.data[1], h.data[2], h.data[3], h.data[4], h.data[5],
             h.data[6], h.data[7], h.data[8], h.data[9], h.data[10], h.remainingBits)
  }

  /** The word `to_bytes` assembles from a code, a parity flag and a data field. */
  function Assemble(c: bv8, parity: bool, data92: bv128): bv128
  {
    ((c as bv128) << 93) | (if parity then 1 << 92 else 0) | data92
  }

  /** The 96-bit word `to_bytes` assembles for an HWORD. */
  function EncodeWord(h: HWord): bv128
  {
    Assemble(Code(h.controlBits), h.parity, DataAsU128(h))
  }

  /** The assembled word, as the big-endian value of the encoded bytes. */
  lemma PackEncoded(c: bv8, parity: bool, d0: bv8, d1: bv8, d2: bv8, d3: bv8, d4: bv8, d5: bv8,
                    d6: bv8, d7: bv8, d8: bv8, d9: bv8, d10: bv8, r: bv8)
    requires c < 8
    ensures Assemble(c, parity, DataPack(d0, d1, d2, d3, d4, d5, d6, d7, d8, d9, d10, r))
         == Pack((c << 5) | (if parity then 0x10 else 0) | r, d10, d9, d8, d7, d6, d5, d4, d3, d2, d1, d0)
  {
    var p: bv8 := if parity then 0x10 else 0;
    assert (if parity then 1 << 92 else 0) == (p as bv128) << 88;
    PackEncodedBits(c, p, d0, d1, d2, d3, d4, d5, d6, d7, d8, d9, d10, r);
  }

  lemma PackEncodedBits(c: bv8, p: bv8, d0: bv8, d1: bv8, d2: bv8, d3: bv8, d4: bv8, d5: bv8,
                        d6: bv8, d7: bv8, d8: bv8, d9: bv8, d10: bv8, r: bv8)
    requires c < 8 && (p == 0 || p == 0x10)
    ensures ((c as bv128) << 93) | ((p as bv128) << 88) | DataPack(d0, d1, d2, d3, d4, d5, d6, d7, d8, d9, d10, r)
         == Pack((c << 5) | p | r, d10, d9, d8, d7, d6, d5, d4, d3, d2, d1, d0)
  {
  }

  /** The word `to_bytes` assembles is the big-endian word of the byte-level encoding. */
  lemma EncodeWordIsWord(h: HWord)
    ensures EncodeWord(h) == Word(Encode(h))
  {
    var d := h.data;
    var e := Encode(h);
    assert e[1] == d[10] && e[2] == d[9] && e[3] == d[8] && e[4] == d[7] && e[5] == d[6];
    assert e[6] == d[5] && e[7] == d[4] && e[8] == d[3] && e[9] == d[2] && e[10] == d[1] && e[11] == d[0];
    PackEncoded(Code(h.controlBits), h.parity, d[0], d[1], d[2], d[3], d[4], d[5], d[6], d[7], d[8], d[9], d[10], h.remainingBits);
  }

  /**
   * `HWord::to_bytes`: the twelve big-endian bytes of the assembled word. For
   * every record, including remaining bits of 16 or more that spill into the
   * parity and control positions, this is the byte-level `Encode`.
   */
  function ToBytes(h: HWord): (bytes: Bytes12)
    ensures bytes == Encode(h)
  {
    var word := EncodeWord(h);
    EncodeWordIsWord(h);
    WordBytes(Encode(h));
    [ByteAt(word, 0), ByteAt(word, 1), ByteAt(word, 2), ByteAt(word, 3),
     ByteAt(word, 4), ByteAt(word, 5), ByteAt(word, 6), ByteAt(word, 7),
     ByteAt(word, 8), ByteAt(word, 9), ByteAt(word, 10), ByteAt(word, 11)]
  }

  /** Round trip: writing back a parsed record reproduces the record's bytes. */
  lemma ToBytesFromBytes(bytes: Bytes12)
    ensures FromBytes(bytes).Ok? && ToBytes(FromBytes(bytes).value) == bytes
  {
    EncodeDecode(bytes);
  }

  /** Reverse round trip: parsing a written HWORD gives it back iff its remaining bits fit in four bits. */
  lemma FromBytesToBytes(h: HWord)
    ensures FromBytes(ToBytes(h)) == Ok(h) <==> h.remainingBits < 16
  {
    DecodeEncode(h);
  }

  /** Masking a packed record to 92 bits keeps its low nibble of byte 0 and bytes 1..11. */
  lemma PackMasked(b0: bv8, b1: bv8, b2: bv8, b3: bv8, b4: bv8, b5: bv8,
                   b6: bv8, b7: bv8, b8: bv8, b9: bv8, b10: bv8, b11: bv8)
    ensures Pack(b0, b1, b2, b3, b4, b5, b6, b7, b8, b9, b10, b11) & DATA_MASK
         == DataPack(b11, b10, b9, b8, b7, b6, b5, b4, b3, b2, b1, b0 & 0x0F)
    ensures DataPack(b11, b10, b9, b8, b7, b6, b5, b4, b3, b2, b1, b0 & 0x0F) < 1 << 92
  {
  }

  /** The data field of a parsed record is the low 92 bits of its big-endian word. */
  lemma DataOfParsed(bytes: Bytes12)
    ensures DataAsU128(Decode(bytes)) == Word(bytes) & DATA_MASK
    ensures DataAsU128(Decode(bytes)) < 1 << 92
  {
    var b := bytes;
    var h := Decode(b);
    assert h.data[0] == b[11] && h.data[1] == b[10] && h.data[2] == b[9] && h.data[3] == b[8];
    assert h.data[4] == b[7] && h.data[5] == b[6] && h.data[6] == b[5] && h.data[7] == b[4];
    assert h.data[8] == b[3] && h.data[9] == b[2] && h.data[10] == b[1];
    assert DataAsU128(h) == DataPack(b[11], b[10], b[9], b[8], b[7], b[6], b[5], b[4], b[3], b[2], b[1], b[0] & 0x0F);
    PackMasked(b[0], b[1], b[2], b[3], b[4], b[5], b[6], b[7], b[8], b[9], b[10], b[11]);
  }

  /** The value `data_as_u128` returns fits in the 92-bit field iff the remaining bits fit in four bits. */
  lemma DataFits(h: HWord)
    ensures DataAsU128(h) < 1 << 92 <==> h.remainingBits < 16
  {
    if h.remainingBits >= 16 {
      assert (DataAsU128(h) >> 88) as bv8 == h.remainingBits;
    }
  }

  // ---------------------------------------------------------------------------
  // Parity
  // ---------------------------------------------------------------------------

  /** The number of set bits of a byte. */
  function ByteOnes(b: bv8): (n: nat)
    ensures n <= 8
  {
    (if b & 0x01 != 0 then 1 else 0) + (if b & 0x02 != 0 then 1 else 0) +
    (if b & 0x04 != 0 then 1 else 0) + (if b & 0x08 != 0 then 1 else 0) +
    (if b & 0x10 != 0 then 1 else 0) + (if b & 0x20 != 0 then 1 else 0) +
    (if b & 0x40 != 0 then 1 else 0) + (if b & 0x80 != 0 then 1 else 0)
  }

  /** `u128::count_ones`: the set bits of a 128-bit word, counted over its sixteen bytes. */
  function CountOnes(w: bv128): nat
  {
    ByteOnes(LowByte(w, 0)) + ByteOnes(LowByte(w, 1)) + ByteOnes(LowByte(w, 2)) + ByteOnes(LowByte(w, 3)) +
    ByteOnes(LowByte(w, 4)) + ByteOnes(LowByte(w, 5)) + ByteOnes(LowByte(w, 6)) + ByteOnes(LowByte(w, 7)) +
    ByteOnes(LowByte(w, 8)) + ByteOnes(LowByte(w, 9)) + ByteOnes(LowByte(w, 10)) + ByteOnes(LowByte(w, 11)) +
    ByteOnes(LowByte(w, 12)) + ByteOnes(LowByte(w, 13)) + ByteOnes(LowByte(w, 14)) + ByteOnes(LowByte(w, 15))
  }

  /** The set bits of a record's twelve bytes. */
  function RecordOnes(b: Bytes12): nat
  {
    ByteOnes(b[0]) + ByteOnes(b[1]) + ByteOnes(b[2]) + ByteOnes(b[3]) +
    ByteOnes(b[4]) + ByteOnes(b[5]) + ByteOnes(b[6]) + ByteOnes(b[7]) +
    ByteOnes(b[8]) + ByteOnes(b[9]) + ByteOnes(b[10]) + ByteOnes(b[11])
  }

  /**
   * `HWord::verify_parity`: the word rebuilt from `to_bytes` has an odd
   * number of set bits.
   */
  function VerifyParity(h: HWord): (ok: bool)
    ensures ok <==> RecordOnes(Encode(h)) % 2 == 1
  {
    CountOnesWord(Encode(h));
    CountOnes(Word(ToBytes(h))) % 2 == 1
  }

  /** The big-endian word of a record has, from the bottom, the record's bytes reversed and then zeros. */
  lemma WordLowBytes(b: Bytes12)
    ensures LowByte(Word(b), 0) == b[11] && LowByte(Word(b), 1) == b[10] && LowByte(Word(b), 2) == b[9]
    ensures LowByte(Word(b), 3) == b[8] && LowByte(Word(b), 4) == b[7] && LowByte(Word(b), 5) == b[6]
    ensures LowByte(Word(b), 6) == b[5] && LowByte(Word(b), 7) == b[4] && LowByte(Word(b), 8) == b[3]
    ensures LowByte(Word(b), 9) == b[2] && LowByte(Word(b), 10) == b[1] && LowByte(Word(b), 11) == b[0]
    ensures LowByte(Word(b), 12) == 0 && LowByte(Word(b), 13) == 0
    ensures LowByte(Word(b), 14) == 0 && LowByte(Word(b), 15) == 0
  {
  }

  /** The set bits of a record's word are the set bits of its twelve bytes. */
  lemma CountOnesWord(b: Bytes12)
    ensures CountOnes(Word(b)) == RecordOnes(b)
  {
    WordLowBytes(b);
    SumOfLowBytes(Word(b), b);
  }

  /** A word whose low bytes are a record's bytes reversed, then zeros, has the record's set bits. */
  lemma SumOfLowBytes(w: bv128, b: Bytes12)
    requires LowByte(w, 0) == b[11] && LowByte(w, 1) == b[10] && LowByte(w, 2) == b[9]
    requires LowByte(w, 3) == b[8] && LowByte(w, 4) == b[7] && LowByte(w, 5) == b[6]
    requires LowByte(w, 6) == b[5] && LowByte(w, 7) == b[4] && LowByte(w, 8) == b[3]
    requires LowByte(w, 9) == b[2] && LowByte(w, 10) == b[1] && LowByte(w, 11) == b[0]
    requires LowByte(w, 12) == 0 && LowByte(w, 13) == 0
    requires LowByte(w, 14) == 0 && LowByte(w, 15) == 0
    ensures CountOnes(w) == RecordOnes(b)
  {
    assert ByteOnes(0) == 0;
  }

  /** The parity check of a parsed record looks at all 96 bits of the record. */
  lemma VerifyParityOfParsed(bytes: Bytes12)
    ensures VerifyParity(FromBytes(bytes).value) <==> RecordOnes(bytes) % 2 == 1
  {
    EncodeDecode(bytes);
  }

  /** Toggling bit 4 of a byte changes its count of set bits by one. */
  lemma ByteOnesFlip(b: bv8)
    ensures ByteOnes(b ^ 0x10) == if b & 0x10 == 0 then ByteOnes(b) + 1 else ByteOnes(b) - 1
  {
  }

  /** Two records that differ only in bit 4 of byte 0 have set-bit counts of opposite parity. */
  lemma RecordOnesFlip(e: Bytes12, f: Bytes12)
    requires f[0] == e[0] ^ 0x10 && f[1..] == e[1..]
    ensures RecordOnes(f) % 2 != RecordOnes(e) % 2
  {
    ByteOnesFlip(e[0]);
    assert f[1] == e[1] && f[2] == e[2] && f[3] == e[3] && f[4] == e[4] && f[5] == e[5];
    assert f[6] == e[6] && f[7] == e[7] && f[8] == e[8] && f[9] == e[9] && f[10] == e[10] && f[11] == e[11];
  }

  /** With four remaining bits, the parity flag is exactly bit 4 of the first encoded byte. */
  lemma FirstByteParity(c: bv8, r: bv8)
    requires r < 16
    ensures (c << 5) | 0x10 | r == ((c << 5) | 0 | r) ^ 0x10
  {
  }

  /**
   * For an HWORD whose remaining bits fit in four bits, exactly one of the two
   * parity bits makes the parity check pass.
   */
  lemma ParityFlip(h: HWord)
    requires h.remainingBits < 16
    ensures VerifyParity(h.(parity := !h.parity)) <==> !VerifyParity(h)
  {
    var g := h.(parity := !h.parity);
    var e, f := Encode(h), Encode(g);
    FirstByteParity(Code(h.controlBits), h.remainingBits);
    if h.parity {
      RecordOnesFlip(f, e);
    } else {
      RecordOnesFlip(e, f);
    }
  }
}
