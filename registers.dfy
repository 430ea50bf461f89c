/** The register map, status codes and integer widths of the TF-Luna in its I2C mode
    (Library/tfluna_i2c.h). */
module Registers {

  /** uint8_t */
  type Byte = b: int | 0 <= b < 0x100
  /** uint16_t */
  type U16 = w: int | 0 <= w < 0x1_0000
  /** int16_t */
  type I16 = v: int | -0x8000 <= v < 0x8000

  // Defaults
  const TFL_DEF_ADR: Byte := 0x10
  const TFL_DEF_FPS: Byte := 0x64

  // Register names and numbers
  const TFL_DIST_LO: Byte := 0x00
  const TFL_DIST_HI: Byte := 0x01
  const TFL_FLUX_LO: Byte := 0x02
  const TFL_FLUX_HI: Byte := 0x03
  const TFL_TEMP_LO: Byte := 0x04
  const TFL_TEMP_HI: Byte := 0x05
  const TFL_TICK_LO: Byte := 0x06
  const TFL_TICK_HI: Byte := 0x07
  const TFL_ERR_LO: Byte := 0x08
  const TFL_ERR_HI: Byte := 0x09
  const TFL_VER_REV: Byte := 0x0A
  const TFL_VER_MIN: Byte := 0x0B
  const TFL_VER_MAJ: Byte := 0x0C

  const TFL_SAVE_SETTINGS: Byte := 0x20  // write 1 to save
  const TFL_SOFT_RESET: Byte := 0x21     // write 2 to reboot
  const TFL_SET_I2C_ADDR: Byte := 0x22   // documented range 0x08..0x77, effective after reboot
  const TFL_SET_TRIG_MODE: Byte := 0x23  // 0 continuous, 1 trigger
  const TFL_TRIGGER: Byte := 0x24        // 1 triggers one sample
  const TFL_DISABLE: Byte := 0x25        // 0 disable, 1 enable
  const TFL_FPS_LO: Byte := 0x26
  const TFL_FPS_HI: Byte := 0x27
  const TFL_SET_LO_PWR: Byte := 0x28     // 0 normal, 1 low power
  const TFL_HARD_RESET: Byte := 0x29     // 1 restores factory settings

  // The product code: fourteen consecutive registers from 0x10 on
  const PROD_CODE_FIRST: Byte := 0x10
  const PROD_CODE_LENGTH: Byte := 14

  // Values written to the control registers
  const ENABLE_VALUE: Byte := 1
  const DISABLE_VALUE: Byte := 0

  // Frame rates in low-power mode
  const FPS_1: Byte := 0x01
  const FPS_2: Byte := 0x02
  const FPS_3: Byte := 0x03
  const FPS_4: Byte := 0x04
  const FPS_5: Byte := 0x05
  const FPS_6: Byte := 0x06
  const FPS_7: Byte := 0x07
  const FPS_8: Byte := 0x08
  const FPS_9: Byte := 0x09
  const FPS_10: Byte := 0x0A

  // Frame rates in high-power mode
  const FPS_35: Byte := 0x23
  const FPS_50: Byte := 0x32
  const FPS_100: Byte := 0x64
  const FPS_125: Byte := 0x7D
  const FPS_250: Byte := 0xFA

  // Error status conditions; TFL_READY means "no error"
  const TFL_READY: Byte := 0
  const TFL_SERIAL: Byte := 1
  const TFL_HEADER: Byte := 2
  const TFL_CHECKSUM: Byte := 3
  const TFL_TIMEOUT: Byte := 4
  const TFL_PASS: Byte := 5
  const TFL_FAIL: Byte := 6
  const TFL_I2CREAD: Byte := 7
  const TFL_I2CWRITE: Byte := 8
  const TFL_I2CLENGTH: Byte := 9
  const TFL_WEAK: Byte := 10
  const TFL_STRONG: Byte := 11
  const TFL_FLOOD: Byte := 12
  const TFL_MEASURE: Byte := 13
  const TFL_INVALID: Byte := 14

  /** The status codes the header defines, in the order it defines them. */
  const STATUS_CODES: seq<Byte> := [
    TFL_READY, TFL_SERIAL, TFL_HEADER, TFL_CHECKSUM, TFL_TIMEOUT, TFL_PASS, TFL_FAIL,
    TFL_I2CREAD, TFL_I2CWRITE, TFL_I2CLENGTH, TFL_WEAK, TFL_STRONG, TFL_FLOOD,
    TFL_MEASURE, TFL_INVALID]

  /** The status codes are the fifteen distinct values 0..14, each at its own position. */
  lemma StatusCodesAreIndices()
    ensures |STATUS_CODES| == 15
    ensures forall i :: 0 <= i < |STATUS_CODES| ==> STATUS_CODES[i] == i
    ensures forall i, j :: 0 <= i < j < |STATUS_CODES| ==> STATUS_CODES[i] != STATUS_CODES[j]
  {
  }

  /** The six frame registers are the contiguous ascending run 0x00..0x05, so a frame read
      that stores each byte at the index of its register fills exactly dataArray[0..5]. */
  lemma FrameRegistersContiguous()
    ensures var regs := [TFL_DIST_LO, TFL_DIST_HI, TFL_FLUX_LO, TFL_FLUX_HI, TFL_TEMP_LO, TFL_TEMP_HI];
      forall k :: 0 <= k < |regs| ==> regs[k] == TFL_DIST_LO + k && regs[k] == k
  {
  }

  /** The version registers are REV, MIN, MAJ in ascending order. */
  lemma VersionRegistersAscending()
    ensures TFL_VER_MIN == TFL_VER_REV + 1 && TFL_VER_MAJ == TFL_VER_REV + 2
  {
  }

  /** The tick registers are an adjacent low/high pair. */
  lemma TickRegistersAdjacent()
    ensures TFL_TICK_HI == TFL_TICK_LO + 1
  {
  }

  /** The frame-rate registers are an adjacent low/high pair. */
  lemma FrameRateRegistersAdjacent()
    ensures TFL_FPS_HI == TFL_FPS_LO + 1
  {
  }
}
