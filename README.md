# TF-Luna lidar I2C driver — a Dafny model

This project models the register-transaction layer of a C driver for the Benewake TF-Luna
lidar in its I2C mode (`Library/tfluna_i2c.c` and `Library/tfluna_i2c.h`) and proves
what it does.

- **`readReg`** selects a register with a one-byte transmit and then receives one byte.
- **`writeReg`** issues one combined memory write.
- **`getData`** reads the six frame registers 0x00..0x05 into the global `dataArray`. It
  stops at the first failing read. It then decodes distance, signal strength (flux) and
  temperature, and classifies the flux into a status.
- **The command wrappers** read the tick, product code, firmware version and frame rate,
  and write the frame rate and the control registers. Each one stops at its first failure.
- **`printStatus`** maps a status code to its printed name.

Files and modules:

- `registers.dfy` (`Registers`): the register map, the frame-rate and status constants of
  the header, and the C integer widths (`Byte`, `U16`, `I16`).
- `bus.dfy` (`I2cBus`): the HAL I2C peripheral, modelled as an oracle.
  - A `Bus` object holds a script of outcomes, one per transaction in issue order.
  - An acknowledged receive carries the byte it returns.
  - When the script runs out, every later transaction fails.
  - A ghost trace records every transaction issued: `Select` (register-number transmit),
    `Fetch` (one-byte receive) and `WriteTo` (memory write).
- `frame.dfy` (`FrameCodec`): the byte arithmetic of `getData`.
  - Little-endian 16-bit assembly (`Word`) and splitting (`Split`).
  - The conversion into `int16_t` (`ToInt16`).
  - C's truncating division (`TruncDiv`; Dafny's own `/` floors).
  - The flux classification (`FluxStatus`).
- `transactions.dfy` (`Transactions`): each transaction as a pure function of the state
  before it.
  - `ReadRegEffect` and `WriteRegEffect` for one register.
  - `ReadRun` and `WriteRun` for consecutive registers with abort-on-first-failure.
  - `GetDataEffect` for all of `getData`.
  - Closed-form lemmas: which transactions were issued, which bytes were stored, and which
    status is left.
- `driver.dfy` (`TfLunaDriver`): the driver itself.
  - Class `TfLuna` has the three globals `tfStatus`, `dataArray` (a six-cell array) and
    `regReply` as fields. Its methods update them in place, with loops where the C code loops.
  - Each method is proved against the function in `Transactions` that specifies it.
  - `StatusName` is the name mapping of `printStatus`.
- `properties.dfy` (`Properties`): what `getData` and the wrappers guarantee, stated over
  those functions. This includes reference transactions worked through.

How output pointers are modelled. An output pointer (`*dist`, `*flux`, `*temp`, `*tim`,
`*frm`) is an in-out value: the method takes the caller's value and returns the new one.
A caller array (`ver`, `cod`) is an `array<Byte>`. Where the C code writes the bytes of a
`uint16_t` through a `uint8_t *` recast, the model writes the low or high byte of the
value explicitly (`Word`, `Split`, `StoreBytes`), as the little-endian target lays them out.

Where the code and its own comments disagree, the model follows the code:

- Flux is an `int16_t`, and the saturation test compares it with `(int16_t)0xFFFF`, which
  is −1. That value is already below 100, so the `TFL_STRONG` branch can never be taken.
  - Flux bytes FF FF (and every pattern with bit 15 set, such as FF FE) give `TFL_WEAK`.
    The comments at Library/tfluna_i2c.c:109 and Library/tfluna_i2c.h:108 ("Signal
    Strength saturation") intend `TFL_STRONG` for FF FF.
  - `FluxStatus` keeps the three branches of the code. Its contract proves that the
    second branch is dead.
- The weak-signal test is `flux < 100`. The comments at Library/tfluna_i2c.c:103
  ("<= 100") and Library/tfluna_i2c.h:107 ("≤ 100") call 100 itself weak, yet the code
  accepts a flux of exactly 100.
- `readReg` writes `regReply` only when the receive succeeds. What the HAL leaves in the
  receive buffer after a failed receive cannot be seen, so the model leaves it unchanged.

## Model

| member | source | states |
|---|---|---|
| Registers.StatusCodesAreIndices | Library/tfluna_i2c.h:97-111 | the fifteen status codes are the distinct values 0..14, with TFL_READY = 0 |
| Registers.FrameRegistersContiguous | Library/tfluna_i2c.h:49-54 | the frame registers DIST_LO..TEMP_HI are 0x00..0x05, contiguous and ascending, so storing by register number fills dataArray[0..5] |
| Registers.VersionRegistersAscending | Library/tfluna_i2c.h:59-61 | REV, MIN, MAJ are consecutive ascending registers |
| Registers.TickRegistersAdjacent | Library/tfluna_i2c.h:55-56 | the tick registers are an adjacent low/high pair |
| Registers.FrameRateRegistersAdjacent | Library/tfluna_i2c.h:72-73 | the frame-rate registers are an adjacent low/high pair |
| I2cBus.Bus.Transmit | Library/tfluna_i2c.c:264 | a register-number transmit consumes the next scripted outcome and appends a Select to the trace |
| I2cBus.Bus.Receive | Library/tfluna_i2c.c:273 | a one-byte receive consumes the next outcome, yields its byte when acknowledged, and appends a Fetch |
| I2cBus.Bus.MemWrite | Library/tfluna_i2c.c:286 | a memory write consumes the next outcome and appends a WriteTo of the register and byte |
| FrameCodec.Word | Library/tfluna_i2c.c:89-91 | the unsigned value `lo + (hi << 8)` of a little-endian byte pair; its properties are stated by WordSplitRoundTrip |
| FrameCodec.Split | Library/tfluna_i2c.c:135-141 | the low and high byte of a 16-bit variable as a byte pointer into it sees them; inverse of Word by WordSplitRoundTrip |
| FrameCodec.ToInt16 | Library/tfluna_i2c.c:89-91 | the conversion of a 16-bit pattern into int16_t, two's complement; its properties are stated by ToInt16Pattern |
| FrameCodec.TruncDiv | Library/tfluna_i2c.c:97 | C's division by a positive divisor, truncating toward zero; pinned down by TruncDivRemainder |
| FrameCodec.DecodeFrame | Library/tfluna_i2c.c:89-97 | the three outputs from the six frame bytes: two int16_t words and the temperature word divided by 100; ranges stated by DecodeFrameRanges |
| FrameCodec.WordSplitRoundTrip | Library/tfluna_i2c.c:89-91 | assembling `lo + (hi << 8)` and splitting a 16-bit value into its bytes are inverse to each other |
| FrameCodec.ToInt16Pattern | Library/tfluna_i2c.c:89-91 | storing into int16_t keeps the 16-bit pattern, is negative exactly when bit 15 is set, and is injective |
| FrameCodec.TruncDivRemainder | Library/tfluna_i2c.c:97 | the division by 100 truncates toward zero: the remainder has the sign of the dividend and is smaller than the divisor |
| FrameCodec.NegativeTemperatureTruncates | Library/tfluna_i2c.c:97 | −150 / 100 gives −1 in C where flooring gives −2; 2550 / 100 gives 25 |
| FrameCodec.DecodeFrameRanges | Library/tfluna_i2c.c:89-97 | distance and flux are negative exactly when their high byte has bit 7 set; the temperature lies in −327..327 |
| FrameCodec.FluxStatus | Library/tfluna_i2c.c:104-119 | the three-way classification yields TFL_WEAK below 100 and TFL_READY otherwise; TFL_STRONG is never produced |
| FrameCodec.FluxReadyRange | Library/tfluna_i2c.c:104-119 | a frame is accepted exactly when its flux bytes, read unsigned, lie in 100..0x7FFF; every other pattern is weak |
| FrameCodec.SaturatedPatternIsWeak | Library/tfluna_i2c.c:110-114 | flux bytes FF FF decode to −1 and are classified TFL_WEAK, so the saturation branch is unreachable |
| FrameCodec.ReferenceFrames | Library/tfluna_i2c.c:89-119 | bytes 64 00 C8 00 0A 08 decode to 100 cm, flux 200, 20 degrees and are accepted; with flux 50 they are weak |
| Transactions.ReadRegEffect | Library/tfluna_i2c.c:260-280 | readReg as a function of the state before it: select, then fetch only if the select was acknowledged; TFL_I2CWRITE or TFL_I2CREAD on failure, the byte in regReply on success |
| Transactions.ReadRun | Library/tfluna_i2c.c:80-84 | a run of n reads of consecutive registers, stopping at the first failure; never more than n bytes (the read loops of lines 80-84, 152-156 and 165-169) |
| Transactions.ReadTrace | Library/tfluna_i2c.c:80-84 | the transactions of n successful reads: 2n of them, select of register first + k at 2k and a fetch at 2k + 1 |
| Transactions.WriteRegEffect | Library/tfluna_i2c.c:282-293 | writeReg as a function of the state before it: one memory write; TFL_I2CWRITE on failure, status kept on success, regReply never touched |
| Transactions.WriteRun | Library/tfluna_i2c.c:205-215 | a run of writes to consecutive registers, stopping at the first unacknowledged one; its outcome is stated by WriteRunComplete and WriteRunFirstFailure |
| Transactions.WriteTrace | Library/tfluna_i2c.c:205-215 | the transactions of a complete write run: one per byte, write k of data[k] to register first + k |
| Transactions.StoreBytes | Library/tfluna_i2c.c:131-143 | a 16-bit variable after the bytes read were stored through a byte pointer into it (also lines 218-226); its cases are stated by StoreBytesCases |
| Transactions.Filled | Library/tfluna_i2c.c:150-158 | a buffer after a run of reads was stored into it from index 0; its cells are stated by FilledCells |
| Transactions.GetDataEffect | Library/tfluna_i2c.c:71-121 | getData as a function of the state before it: clear the status, run the six frame reads, then FrameOutcome; its outcomes are stated by Properties.GetDataDecodes, GetDataAborts and GetDataStatus |
| Transactions.FrameOutcome | Library/tfluna_i2c.c:85-119 | the end of getData after its reads: an incomplete frame returns false with the outputs untouched, a complete one is decoded and classified by FluxStatus |
| Transactions.ReadRunBytes | Library/tfluna_i2c.c:80-84 | byte k of a read run is the byte the fetch of read k received, and both transactions of read k were acknowledged |
| Transactions.ReadRunByte | Library/tfluna_i2c.c:80-84 | the same for one index k, by induction over the run |
| Transactions.ReadRunAfter | Library/tfluna_i2c.c:80-84 | a complete run of n reads issued select, fetch per register in ascending order (2n transactions), left the last byte in regReply and did not touch the status |
| Transactions.ReadRunFailure | Library/tfluna_i2c.c:80-84 | a run that stops early stops at its first unanswered read, after only its select (TFL_I2CWRITE) or its select and fetch (TFL_I2CREAD) |
| Transactions.FailureAtLast | Library/tfluna_i2c.c:80-84 | a run whose earlier reads all succeeded can fail only at its last read, in the state ReadRunFailure describes |
| Transactions.ReadRunStopsAtFailure | Library/tfluna_i2c.c:82 | once a read fails, no later register is read: the longer run equals the run up to the failure |
| Transactions.ReadRunCompleteIff | Library/tfluna_i2c.c:80-84 | a read run is complete exactly when every one of its reads was answered |
| Transactions.ReadRunStep | Library/tfluna_i2c.c:80-84 | one loop step: a successful read extends the run by its byte; a failed read ends the whole run there with TFL_I2CWRITE or TFL_I2CREAD |
| Transactions.WriteRunComplete | Library/tfluna_i2c.c:205-215 | a write run succeeds exactly when every write is acknowledged; it then issued one memory write per register in order and left the status alone |
| Transactions.WriteRunFirstFailure | Library/tfluna_i2c.c:205-215 | a write run whose first unacknowledged write is j issued writes 0..j only and left TFL_I2CWRITE |
| Transactions.WriteRunPair | Library/tfluna_i2c.c:212-213 | of two writes, the second is issued only if the first was acknowledged |
| Transactions.StoreBytesCases | Library/tfluna_i2c.c:131-143 | a 16-bit variable written byte by byte keeps its value with no byte stored, changes only its low byte with one, and becomes lo + 256 * hi with two |
| Transactions.FilledCells | Library/tfluna_i2c.c:150-158 | a read run stored into a buffer changes exactly the cells below its length, which receive its bytes in order |
| Transactions.GetDataAborted | Library/tfluna_i2c.c:80-84 | proof helper that unfolds FrameOutcome for a frame read that stopped early: false, outputs untouched, only the bytes read stored |
| Transactions.GetDataComplete | Library/tfluna_i2c.c:87-119 | proof helper that unfolds FrameOutcome for six completed reads: the frame decoded into the outputs and classified by its flux |
| TfLunaDriver.TfLuna.constructor | Library/tfluna_i2c.h:148-150 | the globals start at zero with a six-byte dataArray |
| TfLunaDriver.TfLuna.ReadReg | Library/tfluna_i2c.c:260-280 | a failed select leaves TFL_I2CWRITE and no receive is attempted; a failed receive leaves TFL_I2CREAD; success returns true with the received byte in regReply and the status unchanged |
| TfLunaDriver.TfLuna.WriteReg | Library/tfluna_i2c.c:282-293 | exactly one memory write of `data` to `nmbr`; failure leaves TFL_I2CWRITE, success leaves the status alone |
| TfLunaDriver.TfLuna.GetData | Library/tfluna_i2c.c:71-121 | the result, outputs, dataArray and status are those of GetDataEffect: clear the status, read 0x00..0x05 in order into dataArray, stop at the first failure, decode and classify |
| TfLunaDriver.TfLuna.GetTime | Library/tfluna_i2c.c:131-143 | reads 0x06 then 0x07, stopping at a failure, and stores the bytes read into the low then high byte of the caller's variable |
| TfLunaDriver.TfLuna.GetProdCode | Library/tfluna_i2c.c:150-158 | reads 0x10..0x1D in order into cod[0..13], stopping at a failure with earlier bytes stored and later cells untouched |
| TfLunaDriver.TfLuna.GetFirmwareVersion | Library/tfluna_i2c.c:163-171 | reads 0x0A..0x0C in order into ver[0..2], stopping at a failure with earlier bytes stored and later cells untouched |
| TfLunaDriver.TfLuna.SaveSettings | Library/tfluna_i2c.c:174-177 | one write of 1 to register 0x20 |
| TfLunaDriver.TfLuna.SoftReset | Library/tfluna_i2c.c:180-183 | one write of 2 to register 0x21 |
| TfLunaDriver.TfLuna.SetI2cAddr | Library/tfluna_i2c.c:187-190 | one write of `adrNew`, unchanged and unchecked, to register 0x22 |
| TfLunaDriver.TfLuna.SetEnable | Library/tfluna_i2c.c:193-196 | one write of the enable value 1 to register 0x25 |
| TfLunaDriver.TfLuna.SetDisable | Library/tfluna_i2c.c:199-202 | one write of the disable value 0 to register 0x25 |
| TfLunaDriver.TfLuna.SetFrameRate | Library/tfluna_i2c.c:205-215 | the low byte to 0x26, then, only if that succeeded, the high byte to 0x27 |
| TfLunaDriver.TfLuna.GetFrameRate | Library/tfluna_i2c.c:218-226 | reads 0x26 then 0x27, stopping at a failure, and stores the bytes read into the low then high byte of the caller's variable |
| TfLunaDriver.TfLuna.HardReset | Library/tfluna_i2c.c:229-232 | one write of 1 to register 0x29 |
| TfLunaDriver.TfLuna.SetContMode | Library/tfluna_i2c.c:236-239 | one write of 0 (continuous) to register 0x23 |
| TfLunaDriver.TfLuna.SetTrigMode | Library/tfluna_i2c.c:243-246 | one write of 1 (triggered) to register 0x23 |
| TfLunaDriver.TfLuna.SetTrigger | Library/tfluna_i2c.c:250-253 | one write of 1 to register 0x24 |
| TfLunaDriver.StatusName | Library/tfluna_i2c.c:306-320 | the name printStatus prints is "OTHER" exactly for TFL_MEASURE and values above TFL_INVALID |
| TfLunaDriver.StatusNamesDistinct | Library/tfluna_i2c.c:306-320 | a status with a name of its own is told apart from every other status by it |
| Properties.GetDataDecodes | Library/tfluna_i2c.c:87-119 | after six answered reads: dataArray holds the received bytes, the outputs are the int16_t pairs with temperature / 100 toward zero, the result is flux ≥ 100 with TFL_READY or else TFL_WEAK, after twelve transactions in register order |
| Properties.GetDataAborts | Library/tfluna_i2c.c:80-84 | with an unanswered read n: false, outputs untouched, dataArray[0..n-1] received, dataArray[n..5] old, TFL_I2CWRITE after a failed select (no fetch issued) or TFL_I2CREAD after a failed fetch; the trace is the select/fetch pairs of registers 0..n-1 in order, then the select of register n and, unless it failed, its fetch |
| Properties.GetDataStatus | Library/tfluna_i2c.c:104-119 | the result is true exactly when the status is TFL_READY, then flux ≥ 100; the status is one of READY, WEAK, I2CREAD, I2CWRITE and never TFL_STRONG |
| Properties.GetDataSaturatedFlux | Library/tfluna_i2c.c:110-114 | flux bytes FF FF give flux −1, TFL_WEAK and false, with the distance still written |
| Properties.GetDataReference | Library/tfluna_i2c.c:71-121 | a fully acknowledged frame 64 00 C8 00 0A 08 gives true, 100 cm, flux 200, 20 degrees, TFL_READY |
| Properties.GetDataReferenceFailure | Library/tfluna_i2c.c:80-84 | a failed fetch of register 0x01 gives false and TFL_I2CREAD after four transactions, with only dataArray[0] written |
| Properties.WordReadStores | Library/tfluna_i2c.c:131-143 | the tick or frame-rate variable is untouched, low-byte-only updated, or lo + 256 * hi of the received bytes, as zero, one or two reads succeeded |
| Properties.FrameRateWrites | Library/tfluna_i2c.c:205-215 | the bytes written reassemble to the frame rate; a failed first write issues nothing more; success needs both writes acknowledged |
| Properties.VersionReadOrder | Library/tfluna_i2c.c:163-171 | with three answered reads, the run from 0x0A reads REV, MIN, MAJ, each a select then a fetch, six transactions, status untouched, and the caller's array receives [revision, minor, major] in its first three cells |
| Properties.EnableDisableDiffer | Library/tfluna_i2c.c:193-202 | Set_Enable and Set_Disable write to the same register 0x25 with the same outcome and transaction count, and differ only in the byte written, 1 against 0 |

## Left out

- `TF_Luna_init` (Library/tfluna_i2c.c:55-62) only stores the peripheral and the address.
  The `Lidar` datatype is built with both values directly.
- The HAL calls themselves are foreign code, and are modelled only by their outcome. This
  leaves out their 1000 ms timeouts, the `<< 1` shift of the 7-bit address, and how long a
  transaction blocks. The trace records the address as the driver holds it.
- `printf` output: the text `printStatus` writes and the hex dump of `printDataArray`
  (Library/tfluna_i2c.c:330-346). Only the choice of name (`StatusName`) is modelled.
- Concurrency and re-entrancy on the shared globals; the `main.h` platform glue.
- Aliasing of the output pointers of `getData` with each other or with the globals is not
  modelled. They are separate in-out values.
- TfLunaDriver.TfLuna.GetProdCode, TfLunaDriver.TfLuna.GetFirmwareVersion: they require a
  caller array of at least 14 or 3 cells. The C code writes past a shorter array, which is
  undefined behaviour and not modelled.
- TfLunaDriver.TfLuna.ReadReg: after a failed receive, `regReply` keeps its old value. The
  HAL's behaviour on its receive buffer after a failure is not visible.
- The registers `TFL_ERR_LO`/`TFL_ERR_HI` and `TFL_SET_LO_PWR`, and the `FPS_*` rates, are
  defined as constants only. No driver function uses them.
