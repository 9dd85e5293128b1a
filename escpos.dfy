/**
 * Bytes, the conversion Node's `Buffer.from` applies to an array of numbers,
 * and the fixed ESC/POS command bytes of the printout encoder
 * (src/utils/printout-processor.ts, lines 8-30).
 */
module EscPos {
  import opened JsNumber

  type byte = x: int | 0 <= x < 256

  /**
   * The byte `Buffer.from` stores for one array element (ECMAScript ToUint8):
   * `NaN` becomes 0, an integer is taken modulo 256.
   */
  function ToUint8(v: Num): (r: byte)
    ensures v.NaN? ==> r == 0
    ensures v.Int? ==> (v.value - r) % 256 == 0
    ensures v.Int? && 0 <= v.value < 256 ==> r == v.value
  {
    match v
    case NaN => 0
    case Int(i) => i % 256
  }

  /** `buf`: `Buffer.from` on an array of numbers, one byte per element. */
  function Buf(xs: seq<Num>): (r: seq<byte>)
    ensures |r| == |xs|
    ensures forall k :: 0 <= k < |xs| ==> r[k] == ToUint8(xs[k])
  {
    if xs == [] then [] else [ToUint8(xs[0])] + Buf(xs[1..])
  }

  /** `b`: the character code of a one-character command letter. */
  function B(c: char): byte
    requires c as int < 256
  {
    c as int
  }

  const ESC: byte := 0x1B
  const FS: byte := 0x1C
  const GS: byte := 0x1D
  const NL: byte := 0x0A
  const EXCLAMATION_MARK: byte := 0x21
  const LETTER_E: byte := 0x45
  const LETTER_a: byte := 0x61
  const LETTER_M: byte := 0x4D
  const LETTER_Z: byte := 0x5A

  /** `ESC @`: initialise the printer. */
  const ESC_INIT: seq<byte> := [ESC, B('@')]

  /** The entries of `PRINT_OPTIONS`. */
  const CUT: seq<byte> := [ESC, B('i')]
  const BEEP: seq<byte> := [ESC, B('B'), 0x03, 0x02]
  const TAILING_LINE: seq<byte> := [NL, NL, NL, NL]
}
