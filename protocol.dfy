/** Constants of the HWORD protocol, as shared/src/lib.rs declares them. */
module Protocol {

  /** Size of an HWORD in bytes. */
  const HWORD_SIZE_BYTES: nat := 12

  /** Size of an HWORD in bits. */
  const HWORD_SIZE_BITS: nat := 96

  /** Width of the data field of an HWORD (bits 91..0). */
  const DATA_FIELD_BITS: nat := 92

  /** Number of header HWORDs a frame is expected to carry. */
  const HEADER_HWORDS_PER_FRAME: nat := 110

  /** Coordinates are fixed-point numbers in units of 1 / COORDINATE_SCALE_FACTOR. */
  const COORDINATE_SCALE_FACTOR: real := 1024.0
}
