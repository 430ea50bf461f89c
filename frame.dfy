/** The byte arithmetic of a ranging frame (Library/tfluna_i2c.c, getData): little-endian
    16-bit assembly, the conversion into int16_t, C's truncating division and the
    classification of the signal strength. */
module FrameCodec {
  import opened Registers

  /** `lo + (hi << 8)`: the unsigned value of a little-endian byte pair. */
  function Word(lo: Byte, hi: Byte): U16
  {
    lo + hi * 0x100
  }

  /** The low and high byte of a 16-bit value, as the little-endian target lays them out. */
  function Split(w: U16): (Byte, Byte)
  {
    (w % 0x100, w / 0x100)
  }

  /** Assembling a byte pair and splitting a 16-bit value are inverse to each other. */
  lemma WordSplitRoundTrip(lo: Byte, hi: Byte, w: U16)
    ensures Split(Word(lo, hi)) == (lo, hi)
    ensures Word(Split(w).0, Split(w).1) == w
  {
  }

  /** The conversion of a value in 0..0xFFFF into int16_t: the same 16-bit pattern read in
      two's complement, so that 0x8000 and above become negative. */
  function ToInt16(w: U16): I16
  {
    if w < 0x8000 then w else w - 0x1_0000
  }

  /** ToInt16 keeps the bit pattern, is negative exactly when bit 15 is set, and loses
      nothing: distinct patterns give distinct values. */
  lemma ToInt16Pattern(w: U16, w': U16)
    ensures (w - ToInt16(w)) % 0x1_0000 == 0
    ensures ToInt16(w) < 0 <==> w >= 0x8000
    ensures ToInt16(w) == ToInt16(w') ==> w == w'
  {
  }

  /** C's integer division by a positive divisor: the quotient is truncated toward zero, so
      the remainder takes the sign of the dividend (Dafny's own `/` floors instead). */
  function TruncDiv(a: int, d: int): int
    requires d > 0
  {
    if a >= 0 then a / d else -((-a) / d)
  }

  /** The remainder of a truncating division is smaller than the divisor and has the sign of
      the dividend, and the quotient of a negated dividend is the negated quotient. */
  lemma TruncDivRemainder(a: int, d: int)
    requires d > 0
    ensures a >= 0 ==> 0 <= a - TruncDiv(a, d) * d < d
    ensures a < 0 ==> -d < a - TruncDiv(a, d) * d <= 0
    ensures TruncDiv(-a, d) == -TruncDiv(a, d)
  {
    var n := if a >= 0 then a else -a;
    assert n == (n / d) * d + n % d && 0 <= n % d < d;
  }

  /** One ranging reading as getData hands it to the caller: distance in cm, signal strength,
      and chip temperature in whole degrees Celsius. */
  datatype Frame = Frame(dist: I16, flux: I16, temp: I16)

  /** The three int16_t outputs of getData from the six frame bytes in register order. */
  function DecodeFrame(b: seq<Byte>): Frame
    requires |b| == 6
  {
    var raw := ToInt16(Word(b[4], b[5]));
    Frame(ToInt16(Word(b[0], b[1])), ToInt16(Word(b[2], b[3])), TruncDiv(raw, 100))
  }

  /** A decoded distance or flux is negative exactly when the high byte has bit 7 set, and
      the temperature, a 16-bit value divided by 100, stays within -327..327. */
  lemma DecodeFrameRanges(b: seq<Byte>)
    requires |b| == 6
    ensures DecodeFrame(b).dist < 0 <==> b[1] >= 0x80
    ensures DecodeFrame(b).flux < 0 <==> b[3] >= 0x80
    ensures -328 < DecodeFrame(b).temp < 328
  {
  }

  /** The status getData leaves after a complete frame, decided by the signed flux. The
      saturation test compares against (int16_t)0xFFFF, which is -1 and therefore already
      caught by the weak-signal test: no flux ever yields TFL_STRONG. */
  function FluxStatus(flux: I16): (s: Byte)
    ensures s == (if flux < 100 then TFL_WEAK else TFL_READY)
    ensures s != TFL_STRONG
  {
    if flux < 100 then TFL_WEAK
    else if flux == ToInt16(0xFFFF) then TFL_STRONG
    else TFL_READY
  }

  /** A frame is accepted exactly when its flux bytes, read unsigned, lie in 100..0x7FFF:
      every pattern with the high bit set, 0xFFFF included, is reported as weak. */
  lemma FluxReadyRange(lo: Byte, hi: Byte)
    ensures FluxStatus(ToInt16(Word(lo, hi))) == TFL_READY <==> hi < 0x80 && Word(lo, hi) >= 100
    ensures FluxStatus(ToInt16(Word(lo, hi))) == TFL_WEAK <==> hi >= 0x80 || Word(lo, hi) < 100
  {
  }

  /** The saturation pattern FF FF decodes to a flux of -1 and is classified as weak. */
  lemma SaturatedPatternIsWeak(b: seq<Byte>)
    requires |b| == 6 && b[2] == 0xFF && b[3] == 0xFF
    ensures DecodeFrame(b).flux == -1
    ensures FluxStatus(DecodeFrame(b).flux) == TFL_WEAK
  {
  }

  /** Truncation and flooring differ on negative temperatures: -1.50 degrees is reported as -1. */
  lemma NegativeTemperatureTruncates()
    ensures TruncDiv(-150, 100) == -1 && -150 / 100 == -2
    ensures TruncDiv(2550, 100) == 25
  {
  }

  /** Two reference frames: 100 cm, flux 200, 20.58 degrees is accepted; the same with flux 50
      is reported weak, with distance and temperature still decoded. */
  lemma ReferenceFrames()
    ensures DecodeFrame([0x64, 0x00, 0xC8, 0x00, 0x0A, 0x08]) == Frame(100, 200, 20)
    ensures FluxStatus(200) == TFL_READY
    ensures DecodeFrame([0x64, 0x00, 0x32, 0x00, 0x0A, 0x08]) == Frame(100, 50, 20)
    ensures FluxStatus(50) == TFL_WEAK
  {
  }
}
