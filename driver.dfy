/** The TF-Luna I2C driver (Library/tfluna_i2c.c): the register primitives readReg and
    writeReg, the frame reader getData, the command wrappers, and the status names that
    printStatus uses. The driver's file-scope globals tfStatus, dataArray[6] and regReply
    (Library/tfluna_i2c.h) are the fields of one TfLuna object. */
module TfLunaDriver {
  import opened Registers
  import opened I2cBus
  import opened FrameCodec
  import opened Transactions

  /** TF_Luna_Lidar: the I2C peripheral the device is attached to and its 7-bit address. */
  datatype Lidar = Lidar(i2c: Bus, address: Byte)

  class TfLuna {
    /** The status of the last operation; TFL_READY means no error. */
    var tfStatus: Byte
    /** The six raw frame bytes, in register order. */
    var dataArray: array<Byte>
    /** The byte the last successful register read received. */
    var regReply: Byte

    ghost predicate Valid()
      reads this
    {
      dataArray.Length == 6
    }

    /** The globals as the C runtime sets them up: all zero. */
    constructor ()
      ensures Valid() && fresh(dataArray)
      ensures tfStatus == TFL_READY && regReply == 0 && dataArray[..] == [0, 0, 0, 0, 0, 0]
    {
      tfStatus := TFL_READY;
      regReply := 0;
      dataArray := new Byte[6](_ => 0);
    }

    /** What register reads see and change: tfStatus, regReply and the bus. */
    ghost function Snapshot(bus: Bus): Machine
      reads this, bus
    {
      Machine(tfStatus, regReply, bus.calls, bus.trace)
    }

    /** readReg: select register `nmbr` with a one-byte transmit, then receive one byte. */
    method ReadReg(tf: Lidar, nmbr: Byte) returns (ok: bool)
      modifies this`tfStatus, this`regReply, tf.i2c
      ensures (ok, Snapshot(tf.i2c)) == ReadRegEffect(tf.i2c.script, tf.address, nmbr, old(Snapshot(tf.i2c)))
      ensures ok <==> ReplyAt(tf.i2c.script, old(tf.i2c.calls)).Ack? && ReplyAt(tf.i2c.script, old(tf.i2c.calls) + 1).Ack?
      ensures ReplyAt(tf.i2c.script, old(tf.i2c.calls)).Nack? ==>
                tfStatus == TFL_I2CWRITE && tf.i2c.trace == old(tf.i2c.trace) + [Select(tf.address, nmbr)]
      ensures ReplyAt(tf.i2c.script, old(tf.i2c.calls)).Ack? ==>
                tf.i2c.trace == old(tf.i2c.trace) + [Select(tf.address, nmbr), Fetch(tf.address)]
      ensures ReplyAt(tf.i2c.script, old(tf.i2c.calls)).Ack? && !ok ==> tfStatus == TFL_I2CREAD
      ensures ok ==> tfStatus == old(tfStatus) && regReply == ReplyAt(tf.i2c.script, old(tf.i2c.calls) + 1).data
    {
      var sent := tf.i2c.Transmit(tf.address, nmbr);
      if !sent {
        tfStatus := TFL_I2CWRITE;
        return false;
      }
      var received, data := tf.i2c.Receive(tf.address);
      if !received {
        tfStatus := TFL_I2CREAD;
        return false;
      }
      regReply := data;
      return true;
    }

    /** writeReg: one combined memory write of `data` to register `nmbr`. */
    method WriteReg(tf: Lidar, nmbr: Byte, data: Byte) returns (ok: bool)
      modifies this`tfStatus, tf.i2c
      ensures (ok, Snapshot(tf.i2c)) == WriteRegEffect(tf.i2c.script, tf.address, nmbr, data, old(Snapshot(tf.i2c)))
      ensures ok == ReplyAt(tf.i2c.script, old(tf.i2c.calls)).Ack?
      ensures tf.i2c.trace == old(tf.i2c.trace) + [WriteTo(tf.address, nmbr, data)]
      ensures tfStatus == if ok then old(tfStatus) else TFL_I2CWRITE
    {
      ok := tf.i2c.MemWrite(tf.address, nmbr, data);
      if !ok {
        tfStatus := TFL_I2CWRITE;
      }
    }

    /** getData: clear the status, read the six frame registers in ascending order into
        dataArray (stopping at the first failing read), then decode distance, flux and
        temperature and classify the flux. The outputs `dist`, `flux` and `temp` keep the
        caller's values `dist0`, `flux0` and `temp0` unless all six reads succeeded. */
    method GetData(tf: Lidar, dist0: I16, flux0: I16, temp0: I16)
      returns (ok: bool, dist: I16, flux: I16, temp: I16)
      requires Valid()
      modifies this`tfStatus, this`regReply, dataArray, tf.i2c
      ensures Valid()
      ensures FrameRead(ok, dist, flux, temp, dataArray[..], Snapshot(tf.i2c)) ==
              GetDataEffect(tf.i2c.script, tf.address, old(Snapshot(tf.i2c)), old(dataArray[..]), dist0, flux0, temp0)
    {
      ghost var m0, before := Snapshot(tf.i2c), dataArray[..];
      ghost var script := tf.i2c.script;
      dist, flux, temp := dist0, flux0, temp0;
      tfStatus := TFL_READY;
      ghost var start := Snapshot(tf.i2c);
      ghost var got: seq<Byte> := [];
      var reg: Byte := TFL_DIST_LO;
      while reg <= TFL_TEMP_HI
        invariant TFL_DIST_LO <= reg <= TFL_TEMP_HI + 1 && |got| == reg
        invariant ReadRun(script, tf.address, TFL_DIST_LO, reg, start) == Run(got, Snapshot(tf.i2c))
        invariant dataArray[..] == Filled(got, before)
        invariant tfStatus == TFL_READY
      {
        ghost var mi := Snapshot(tf.i2c);
        ok := ReadReg(tf, reg);
        ReadRunStep(script, tf.address, TFL_DIST_LO, 6, reg, start, got, mi, ok, Snapshot(tf.i2c));
        if !ok {
          GetDataAborted(script, tf.address, m0, before, dist0, flux0, temp0, got, Snapshot(tf.i2c));
          return;
        }
        dataArray[reg] := regReply;
        FilledGrows(got, before, regReply);
        got := got + [regReply];
        reg := reg + 1;
      }
      assert dataArray[..] == Filled(got, before) == got;
      GetDataComplete(script, tf.address, m0, before, dist0, flux0, temp0, got, Snapshot(tf.i2c));
      dist := ToInt16(Word(dataArray[0], dataArray[1]));
      flux := ToInt16(Word(dataArray[2], dataArray[3]));
      temp := ToInt16(Word(dataArray[4], dataArray[5]));
      temp := TruncDiv(temp, 100);
      tfStatus := FluxStatus(flux);
      ok := tfStatus == TFL_READY;
    }

    /** Get_Time: the device's millisecond tick, low byte then high byte, stored byte by
        byte into the caller's 16-bit variable (`tim0` on entry, `tim` on return). */
    method GetTime(tf: Lidar, tim0: U16) returns (ok: bool, tim: U16)
      modifies this`tfStatus, this`regReply, tf.i2c
      ensures var r := ReadRun(tf.i2c.script, tf.address, TFL_TICK_LO, 2, old(Snapshot(tf.i2c)));
        ok == (|r.got| == 2) && Snapshot(tf.i2c) == r.after && tim == StoreBytes(tim0, r.got)
    {
      ghost var m0, script := Snapshot(tf.i2c), tf.i2c.script;
      tim := tim0;
      ok := ReadReg(tf, TFL_TICK_LO);
      ReadRunStep(script, tf.address, TFL_TICK_LO, 2, 0, m0, [], m0, ok, Snapshot(tf.i2c));
      if !ok {
        return;
      }
      ghost var got, m1 := [regReply], Snapshot(tf.i2c);
      tim := Word(regReply, Split(tim).1);
      ok := ReadReg(tf, TFL_TICK_HI);
      ReadRunStep(script, tf.address, TFL_TICK_LO, 2, 1, m0, got, m1, ok, Snapshot(tf.i2c));
      WordSplitRoundTrip(got[0], Split(tim0).1, tim0);
      if !ok {
        return;
      }
      tim := Word(Split(tim).0, regReply);
    }

    /** Get_Prod_Code: the fourteen product-code registers 0x10..0x1D, in order, into
        cod[0..13]; a failing read ends the loop with the earlier bytes already stored. */
    method GetProdCode(tf: Lidar, cod: array<Byte>) returns (ok: bool)
      requires cod.Length >= PROD_CODE_LENGTH
      modifies this`tfStatus, this`regReply, cod, tf.i2c
      ensures var r := ReadRun(tf.i2c.script, tf.address, PROD_CODE_FIRST, PROD_CODE_LENGTH, old(Snapshot(tf.i2c)));
        ok == (|r.got| == PROD_CODE_LENGTH) && Snapshot(tf.i2c) == r.after && cod[..] == Filled(r.got, old(cod[..]))
    {
      ghost var start, script, before := Snapshot(tf.i2c), tf.i2c.script, cod[..];
      ghost var got: seq<Byte> := [];
      var i: Byte := 0;
      while i < PROD_CODE_LENGTH
        invariant 0 <= i <= PROD_CODE_LENGTH && |got| == i
        invariant ReadRun(script, tf.address, PROD_CODE_FIRST, i, start) == Run(got, Snapshot(tf.i2c))
        invariant cod[..] == Filled(got, before)
      {
        ghost var mi := Snapshot(tf.i2c);
        ok := ReadReg(tf, PROD_CODE_FIRST + i);
        ReadRunStep(script, tf.address, PROD_CODE_FIRST, PROD_CODE_LENGTH, i, start, got, mi, ok, Snapshot(tf.i2c));
        if !ok {
          return;
        }
        cod[i] := regReply;
        FilledGrows(got, before, regReply);
        got := got + [regReply];
        i := i + 1;
      }
      ok := true;
    }

    /** Get_Firmware_Version: the version registers REV, MIN, MAJ (0x0A..0x0C), in order,
        into ver[0..2]; a failing read ends the loop with the earlier bytes already stored. */
    method GetFirmwareVersion(tf: Lidar, ver: array<Byte>) returns (ok: bool)
      requires ver.Length >= 3
      modifies this`tfStatus, this`regReply, ver, tf.i2c
      ensures var r := ReadRun(tf.i2c.script, tf.address, TFL_VER_REV, 3, old(Snapshot(tf.i2c)));
        ok == (|r.got| == 3) && Snapshot(tf.i2c) == r.after && ver[..] == Filled(r.got, old(ver[..]))
    {
      ghost var start, script, before := Snapshot(tf.i2c), tf.i2c.script, ver[..];
      ghost var got: seq<Byte> := [];
      var i: Byte := 0;
      while i < 3
        invariant 0 <= i <= 3 && |got| == i
        invariant ReadRun(script, tf.address, TFL_VER_REV, i, start) == Run(got, Snapshot(tf.i2c))
        invariant ver[..] == Filled(got, before)
      {
        ghost var mi := Snapshot(tf.i2c);
        ok := ReadReg(tf, TFL_VER_REV + i);
        ReadRunStep(script, tf.address, TFL_VER_REV, 3, i, start, got, mi, ok, Snapshot(tf.i2c));
        if !ok {
          return;
        }
        ver[i] := regReply;
        FilledGrows(got, before, regReply);
        got := got + [regReply];
        i := i + 1;
      }
      ok := true;
    }

    /** Save_Settings: write 1 to the save register. */
    method SaveSettings(tf: Lidar) returns (ok: bool)
      modifies this`tfStatus, tf.i2c
      ensures (ok, Snapshot(tf.i2c)) == WriteRegEffect(tf.i2c.script, tf.address, TFL_SAVE_SETTINGS, 1, old(Snapshot(tf.i2c)))
    {
      ok := WriteReg(tf, TFL_SAVE_SETTINGS, 1);
    }

    /** Soft_Reset: write 2 to the soft-reset register. */
    method SoftReset(tf: Lidar) returns (ok: bool)
      modifies this`tfStatus, tf.i2c
      ensures (ok, Snapshot(tf.i2c)) == WriteRegEffect(tf.i2c.script, tf.address, TFL_SOFT_RESET, 2, old(Snapshot(tf.i2c)))
    {
      ok := WriteReg(tf, TFL_SOFT_RESET, 2);
    }

    /** Set_I2C_Addr: forward `adrNew` to the address register as it is; the documented range
        0x08..0x77 is not checked. */
    method SetI2cAddr(tf: Lidar, adrNew: Byte) returns (ok: bool)
      modifies this`tfStatus, tf.i2c
      ensures (ok, Snapshot(tf.i2c)) == WriteRegEffect(tf.i2c.script, tf.address, TFL_SET_I2C_ADDR, adrNew, old(Snapshot(tf.i2c)))
    {
      ok := WriteReg(tf, TFL_SET_I2C_ADDR, adrNew);
    }

    /** Set_Enable: write 1 (enable) to register 0x25. */
    method SetEnable(tf: Lidar) returns (ok: bool)
      modifies this`tfStatus, tf.i2c
      ensures (ok, Snapshot(tf.i2c)) == WriteRegEffect(tf.i2c.script, tf.address, TFL_DISABLE, ENABLE_VALUE, old(Snapshot(tf.i2c)))
    {
      ok := WriteReg(tf, TFL_DISABLE, 1);
    }

    /** Set_Disable: write 0 (disable) to register 0x25. */
    method SetDisable(tf: Lidar) returns (ok: bool)
      modifies this`tfStatus, tf.i2c
      ensures (ok, Snapshot(tf.i2c)) == WriteRegEffect(tf.i2c.script, tf.address, TFL_DISABLE, DISABLE_VALUE, old(Snapshot(tf.i2c)))
    {
      ok := WriteReg(tf, TFL_DISABLE, 0);
    }

    /** Set_Frame_Rate: the low byte of `frm` to register 0x26, then, only if that write
        succeeded, the high byte to register 0x27. */
    method SetFrameRate(tf: Lidar, frm: U16) returns (ok: bool)
      modifies this`tfStatus, tf.i2c
      ensures (ok, Snapshot(tf.i2c)) ==
              WriteRun(tf.i2c.script, tf.address, TFL_FPS_LO, [Split(frm).0, Split(frm).1], old(Snapshot(tf.i2c)))
    {
      var bytes := Split(frm);
      WriteRunPair(tf.i2c.script, tf.address, TFL_FPS_LO, bytes.0, bytes.1, Snapshot(tf.i2c));
      ok := WriteReg(tf, TFL_FPS_LO, bytes.0);
      if !ok {
        return;
      }
      ok := WriteReg(tf, TFL_FPS_HI, bytes.1);
    }

    /** Get_Frame_Rate: the frame-rate registers, low byte then high byte, stored byte by
        byte into the caller's 16-bit variable (`frm0` on entry, `frm` on return). */
    method GetFrameRate(tf: Lidar, frm0: U16) returns (ok: bool, frm: U16)
      modifies this`tfStatus, this`regReply, tf.i2c
      ensures var r := ReadRun(tf.i2c.script, tf.address, TFL_FPS_LO, 2, old(Snapshot(tf.i2c)));
        ok == (|r.got| == 2) && Snapshot(tf.i2c) == r.after && frm == StoreBytes(frm0, r.got)
    {
      ghost var m0, script := Snapshot(tf.i2c), tf.i2c.script;
      frm := frm0;
      ok := ReadReg(tf, TFL_FPS_LO);
      ReadRunStep(script, tf.address, TFL_FPS_LO, 2, 0, m0, [], m0, ok, Snapshot(tf.i2c));
      if !ok {
        return;
      }
      ghost var got, m1 := [regReply], Snapshot(tf.i2c);
      frm := Word(regReply, Split(frm).1);
      ok := ReadReg(tf, TFL_FPS_HI);
      ReadRunStep(script, tf.address, TFL_FPS_LO, 2, 1, m0, got, m1, ok, Snapshot(tf.i2c));
      WordSplitRoundTrip(got[0], Split(frm0).1, frm0);
      if !ok {
        return;
      }
      frm := Word(Split(frm).0, regReply);
    }

    /** Hard_Reset: write 1 to the hard-reset register (restore factory settings). */
    method HardReset(tf: Lidar) returns (ok: bool)
      modifies this`tfStatus, tf.i2c
      ensures (ok, Snapshot(tf.i2c)) == WriteRegEffect(tf.i2c.script, tf.address, TFL_HARD_RESET, 1, old(Snapshot(tf.i2c)))
    {
      ok := WriteReg(tf, TFL_HARD_RESET, 1);
    }

    /** Set_Cont_Mode: write 0 (continuous ranging) to the trigger-mode register. */
    method SetContMode(tf: Lidar) returns (ok: bool)
      modifies this`tfStatus, tf.i2c
      ensures (ok, Snapshot(tf.i2c)) == WriteRegEffect(tf.i2c.script, tf.address, TFL_SET_TRIG_MODE, 0, old(Snapshot(tf.i2c)))
    {
      ok := WriteReg(tf, TFL_SET_TRIG_MODE, 0);
    }

    /** Set_Trig_Mode: write 1 (sample only when triggered) to the trigger-mode register. */
    method SetTrigMode(tf: Lidar) returns (ok: bool)
      modifies this`tfStatus, tf.i2c
      ensures (ok, Snapshot(tf.i2c)) == WriteRegEffect(tf.i2c.script, tf.address, TFL_SET_TRIG_MODE, 1, old(Snapshot(tf.i2c)))
    {
      ok := WriteReg(tf, TFL_SET_TRIG_MODE, 1);
    }

    /** Set_Trigger: write 1 to the trigger register to take one sample. */
    method SetTrigger(tf: Lidar) returns (ok: bool)
      modifies this`tfStatus, tf.i2c
      ensures (ok, Snapshot(tf.i2c)) == WriteRegEffect(tf.i2c.script, tf.address, TFL_TRIGGER, 1, old(Snapshot(tf.i2c)))
    {
      ok := WriteReg(tf, TFL_TRIGGER, 1);
    }
  }

  /** The name printStatus prints for a status code. TFL_MEASURE has no name of its own and,
      like every value past TFL_INVALID, prints as "OTHER". */
  function StatusName(status: Byte): (name: string)
    ensures name == "OTHER" <==> status == TFL_MEASURE || status > TFL_INVALID
  {
    if status == TFL_READY then "READY"
    else if status == TFL_SERIAL then "SERIAL"
    else if status == TFL_HEADER then "HEADER"
    else if status == TFL_CHECKSUM then "CHECKSUM"
    else if status == TFL_TIMEOUT then "TIMEOUT"
    else if status == TFL_PASS then "PASS"
    else if status == TFL_FAIL then "FAIL"
    else if status == TFL_I2CREAD then "I2C-READ"
    else if status == TFL_I2CWRITE then "I2C-WRITE"
    else if status == TFL_I2CLENGTH then "I2C-LENGTH"
    else if status == TFL_WEAK then "Signal weak"
    else if status == TFL_STRONG then "Signal strong"
    else if status == TFL_FLOOD then "Ambient light"
    else if status == TFL_INVALID then "No Command"
    else "OTHER"
  }

  /** A status with a name of its own is told apart from every other status by it. */
  lemma StatusNamesDistinct(s: Byte, t: Byte)
    requires s != t && StatusName(s) != "OTHER"
    ensures StatusName(s) != StatusName(t)
  {
  }
}
