/** What the driver's transactions guarantee, stated over the functions that specify them
    (Library/tfluna_i2c.c): how getData ends, which bytes the reads and writes of the
    command wrappers move, and reference transactions worked through. */
module Properties {
  import opened Registers
  import opened I2cBus
  import opened FrameCodec
  import opened Transactions

  /** getData after all six frame reads were answered: dataArray holds the received bytes in
      register order, the outputs are the little-endian pairs (0,1), (2,3), (4,5) read as
      int16_t with the temperature divided by 100 toward zero, and the result and the status
      depend on the flux alone: true and TFL_READY when it is at least 100, else false and
      TFL_WEAK. Twelve transactions were issued, select then fetch for 0x00..0x05. */
  lemma GetDataDecodes(script: seq<Reply>, address: Byte, m: Machine, data: seq<Byte>,
                       dist: I16, flux: I16, temp: I16)
    requires |data| == 6
    requires forall k :: 0 <= k < 6 ==> Answered(script, m.calls, k)
    ensures var e := GetDataEffect(script, address, m, data, dist, flux, temp);
      && |e.data| == 6
      && (forall k :: 0 <= k < 6 ==> e.data[k] == Received(script, m.calls, k))
      && e.dist == ToInt16(Word(e.data[0], e.data[1]))
      && e.flux == ToInt16(Word(e.data[2], e.data[3]))
      && e.temp == TruncDiv(ToInt16(Word(e.data[4], e.data[5])), 100)
      && e.ok == (e.flux >= 100)
      && e.after.status == (if e.ok then TFL_READY else TFL_WEAK)
      && e.after.reply == e.data[5]
      && e.after.calls == m.calls + 12
      && e.after.trace == m.trace + ReadTrace(address, TFL_DIST_LO, 6)
  {
    var start := m.(status := TFL_READY);
    ReadRunCompleteIff(script, address, TFL_DIST_LO, 6, start);
    ReadRunBytes(script, address, TFL_DIST_LO, 6, start);
    ReadRunAfter(script, address, TFL_DIST_LO, 6, start);
    var r := ReadRun(script, address, TFL_DIST_LO, 6, start);
    GetDataComplete(script, address, m, data, dist, flux, temp, r.got, r.after);
  }

  /** getData when some frame read went unanswered: it stops at the first such read n, the
      result is false, the outputs keep the caller's values, dataArray[0..n-1] hold the bytes
      received and dataArray[n..5] their old contents, and the status tells which
      transaction of read n failed (TFL_I2CWRITE for the select, TFL_I2CREAD for the fetch,
      which is then not attempted after a failed select). The transactions issued are those of
      the n answered reads in register order, then the select of register n and, unless that
      select failed, its fetch. */
  lemma GetDataAborts(script: seq<Reply>, address: Byte, m: Machine, data: seq<Byte>,
                      dist: I16, flux: I16, temp: I16)
    requires |data| == 6
    requires !(forall k :: 0 <= k < 6 ==> Answered(script, m.calls, k))
    ensures var e := GetDataEffect(script, address, m, data, dist, flux, temp);
      var n := |ReadRun(script, address, TFL_DIST_LO, 6, m.(status := TFL_READY)).got|;
      var selectFailed := ReplyAt(script, m.calls + 2 * n).Nack?;
      && n < 6 && |e.data| == 6
      && !e.ok && e.dist == dist && e.flux == flux && e.temp == temp
      && (forall k :: 0 <= k < n ==> Answered(script, m.calls, k) && e.data[k] == Received(script, m.calls, k))
      && !Answered(script, m.calls, n)
      && (forall k :: n <= k < 6 ==> e.data[k] == data[k])
      && e.after.status == (if selectFailed then TFL_I2CWRITE else TFL_I2CREAD)
      && e.after.calls == m.calls + 2 * n + (if selectFailed then 1 else 2)
      && e.after.trace == m.trace + ReadTrace(address, TFL_DIST_LO, n) +
           (if selectFailed then [Select(address, n)] else [Select(address, n), Fetch(address)])
  {
    AbortedCells(script, address, m, data, dist, flux, temp);
    AbortedBus(script, address, m, data, dist, flux, temp);
  }

  /** The outputs and dataArray after an aborted getData. */
  lemma AbortedCells(script: seq<Reply>, address: Byte, m: Machine, data: seq<Byte>,
                     dist: I16, flux: I16, temp: I16)
    requires |data| == 6
    requires !(forall k :: 0 <= k < 6 ==> Answered(script, m.calls, k))
    ensures var e := GetDataEffect(script, address, m, data, dist, flux, temp);
      var n := |ReadRun(script, address, TFL_DIST_LO, 6, m.(status := TFL_READY)).got|;
      && n < 6 && |e.data| == 6
      && !e.ok && e.dist == dist && e.flux == flux && e.temp == temp
      && (forall k :: 0 <= k < n ==> Answered(script, m.calls, k) && e.data[k] == Received(script, m.calls, k))
      && !Answered(script, m.calls, n)
      && (forall k :: n <= k < 6 ==> e.data[k] == data[k])
  {
    var start := m.(status := TFL_READY);
    ReadRunCompleteIff(script, address, TFL_DIST_LO, 6, start);
    ReadRunBytes(script, address, TFL_DIST_LO, 6, start);
    ReadRunFailure(script, address, TFL_DIST_LO, 6, start);
    var r := ReadRun(script, address, TFL_DIST_LO, 6, start);
    GetDataAborted(script, address, m, data, dist, flux, temp, r.got, r.after);
    FilledCells(r.got, data);
  }

  /** The status, transaction count and trace after an aborted getData. */
  lemma AbortedBus(script: seq<Reply>, address: Byte, m: Machine, data: seq<Byte>,
                   dist: I16, flux: I16, temp: I16)
    requires |data| == 6
    requires !(forall k :: 0 <= k < 6 ==> Answered(script, m.calls, k))
    ensures var e := GetDataEffect(script, address, m, data, dist, flux, temp);
      var n := |ReadRun(script, address, TFL_DIST_LO, 6, m.(status := TFL_READY)).got|;
      var selectFailed := ReplyAt(script, m.calls + 2 * n).Nack?;
      && n < 6
      && e.after.status == (if selectFailed then TFL_I2CWRITE else TFL_I2CREAD)
      && e.after.calls == m.calls + 2 * n + (if selectFailed then 1 else 2)
      && e.after.trace == m.trace + ReadTrace(address, TFL_DIST_LO, n) +
           (if selectFailed then [Select(address, n)] else [Select(address, n), Fetch(address)])
  {
    var start := m.(status := TFL_READY);
    ReadRunCompleteIff(script, address, TFL_DIST_LO, 6, start);
    ReadRunFailure(script, address, TFL_DIST_LO, 6, start);
    var r := ReadRun(script, address, TFL_DIST_LO, 6, start);
    assert |r.got| < 6;
    assert r.after == StoppedAfter(script, address, TFL_DIST_LO, r.got, start);
    StoppedAfterFields(script, address, TFL_DIST_LO, r.got, start);
    GetDataAborted(script, address, m, data, dist, flux, temp, r.got, r.after);
    assert GetDataEffect(script, address, m, data, dist, flux, temp).after == r.after;
  }

  /** The result of getData is true exactly when it leaves TFL_READY; it then saw a flux of at
      least 100. Whatever happens, the status is one of TFL_READY, TFL_WEAK, TFL_I2CREAD and
      TFL_I2CWRITE: the saturation code TFL_STRONG is never produced. */
  lemma GetDataStatus(script: seq<Reply>, address: Byte, m: Machine, data: seq<Byte>,
                      dist: I16, flux: I16, temp: I16)
    requires |data| == 6
    ensures var e := GetDataEffect(script, address, m, data, dist, flux, temp);
      && (e.ok <==> e.after.status == TFL_READY)
      && (e.ok ==> e.flux >= 100)
      && e.after.status in {TFL_READY, TFL_WEAK, TFL_I2CREAD, TFL_I2CWRITE}
      && e.after.status != TFL_STRONG
  {
    if forall k :: 0 <= k < 6 ==> Answered(script, m.calls, k) {
      GetDataDecodes(script, address, m, data, dist, flux, temp);
    } else {
      GetDataAborts(script, address, m, data, dist, flux, temp);
    }
  }

  /** Flux bytes FF FF in an otherwise answered frame: the flux is -1, the frame is reported
      weak and the result is false, yet distance and temperature are still written. */
  lemma GetDataSaturatedFlux(script: seq<Reply>, address: Byte, m: Machine, data: seq<Byte>,
                             dist: I16, flux: I16, temp: I16)
    requires |data| == 6
    requires forall k :: 0 <= k < 6 ==> Answered(script, m.calls, k)
    requires Received(script, m.calls, 2) == 0xFF && Received(script, m.calls, 3) == 0xFF
    ensures var e := GetDataEffect(script, address, m, data, dist, flux, temp);
      && !e.ok && e.flux == -1 && e.after.status == TFL_WEAK
      && e.dist == ToInt16(Word(Received(script, m.calls, 0), Received(script, m.calls, 1)))
  {
    GetDataDecodes(script, address, m, data, dist, flux, temp);
  }

  /** The bus replies of an accepted reading: every select and fetch acknowledged, the fetches
      returning 64 00 C8 00 0A 08. */
  const GOOD_FRAME: seq<Reply> := [
    Ack(0), Ack(0x64), Ack(0), Ack(0x00), Ack(0), Ack(0xC8),
    Ack(0), Ack(0x00), Ack(0), Ack(0x0A), Ack(0), Ack(0x08)]

  /** getData on GOOD_FRAME: 100 cm, flux 200, 0x080A = 2058 hundredths of a degree, so 20
      degrees; the result is true and the status TFL_READY. */
  lemma GetDataReference(address: Byte, m: Machine, data: seq<Byte>, dist: I16, flux: I16, temp: I16)
    requires |data| == 6 && m.calls == 0
    ensures var e := GetDataEffect(GOOD_FRAME, address, m, data, dist, flux, temp);
      e.ok && e.dist == 100 && e.flux == 200 && e.temp == 20 && e.after.status == TFL_READY &&
      e.data == [0x64, 0x00, 0xC8, 0x00, 0x0A, 0x08]
  {
    assert forall k :: 0 <= k < 6 ==> Answered(GOOD_FRAME, m.calls, k);
    GetDataDecodes(GOOD_FRAME, address, m, data, dist, flux, temp);
    var e := GetDataEffect(GOOD_FRAME, address, m, data, dist, flux, temp);
    assert e.data == [0x64, 0x00, 0xC8, 0x00, 0x0A, 0x08];
  }

  /** getData when the fetch of register 0x01 fails: the distance's low byte is already in
      dataArray[0], the rest of dataArray and the outputs are untouched, four transactions
      were issued and the status is TFL_I2CREAD. */
  lemma GetDataReferenceFailure(address: Byte, m: Machine, data: seq<Byte>, dist: I16, flux: I16, temp: I16)
    requires |data| == 6 && m.calls == 0
    ensures var e := GetDataEffect([Ack(0), Ack(0x64), Ack(0), Nack], address, m, data, dist, flux, temp);
      !e.ok && e.dist == dist && e.flux == flux && e.temp == temp &&
      e.data == [0x64] + data[1..] && e.after.status == TFL_I2CREAD && e.after.calls == 4
  {
    var script := [Ack(0), Ack(0x64), Ack(0), Nack];
    assert !Answered(script, 0, 1);
    GetDataAborts(script, address, m, data, dist, flux, temp);
    var n := |ReadRun(script, address, TFL_DIST_LO, 6, m.(status := TFL_READY)).got|;
    assert Answered(script, 0, 0);
    assert n == 1;
    var e := GetDataEffect(script, address, m, data, dist, flux, temp);
    assert e.data == [0x64] + data[1..];
  }

  /** Get_Time and Get_Frame_Rate: with no byte read the caller's variable is untouched, with
      only the low byte read only its low byte changed, and with both read it is lo + 256 * hi
      of the bytes received, in register order. */
  lemma WordReadStores(script: seq<Reply>, address: Byte, first: Byte, m: Machine, w: U16)
    requires first + 2 <= 0x100
    ensures var r := ReadRun(script, address, first, 2, m);
      && (|r.got| == 0 ==> StoreBytes(w, r.got) == w)
      && (|r.got| == 1 ==> StoreBytes(w, r.got) % 0x100 == Received(script, m.calls, 0)
                           && StoreBytes(w, r.got) / 0x100 == w / 0x100)
      && (|r.got| == 2 ==> StoreBytes(w, r.got) ==
                           Received(script, m.calls, 0) as int + 0x100 * Received(script, m.calls, 1) as int)
  {
    ReadRunBytes(script, address, first, 2, m);
    var r := ReadRun(script, address, first, 2, m);
    StoreBytesCases(w, r.got);
  }

  /** Set_Frame_Rate: the low byte goes to 0x26 first; only if that write is acknowledged is
      the high byte written to 0x27. The two bytes written reassemble to the frame rate. */
  lemma FrameRateWrites(script: seq<Reply>, address: Byte, frm: U16, m: Machine)
    ensures var (lo, hi) := Split(frm);
      var (ok, m') := WriteRun(script, address, TFL_FPS_LO, [lo, hi], m);
      && Word(lo, hi) == frm
      && (ok <==> Acked(script, m.calls, 0) && Acked(script, m.calls, 1))
      && (!Acked(script, m.calls, 0) ==>
            m'.calls == m.calls + 1 && m'.trace == m.trace + [WriteTo(address, TFL_FPS_LO, lo)])
      && (Acked(script, m.calls, 0) ==>
            m'.calls == m.calls + 2 &&
            m'.trace == m.trace + [WriteTo(address, TFL_FPS_LO, lo), WriteTo(address, TFL_FPS_HI, hi)])
      && m'.status == (if ok then m.status else TFL_I2CWRITE)
  {
    var (lo, hi) := Split(frm);
    WordSplitRoundTrip(lo, hi, frm);
    WriteRunPair(script, address, TFL_FPS_LO, lo, hi, m);
  }

  /** Get_Firmware_Version with all three reads answered: registers REV, MIN and MAJ are
      read in that order, each a select followed by a fetch, so the caller's array receives
      [revision, minor, major] in its first three cells and keeps the rest; six transactions
      were issued and the status was not touched. */
  lemma VersionReadOrder(script: seq<Reply>, address: Byte, m: Machine, ver: seq<Byte>)
    requires |ver| >= 3
    requires forall k :: 0 <= k < 3 ==> Answered(script, m.calls, k)
    ensures var r := ReadRun(script, address, TFL_VER_REV, 3, m);
      && r.got == [Received(script, m.calls, 0), Received(script, m.calls, 1), Received(script, m.calls, 2)]
      && Filled(r.got, ver) == r.got + ver[3..]
      && r.after.trace == m.trace +
           [Select(address, TFL_VER_REV), Fetch(address), Select(address, TFL_VER_MIN), Fetch(address),
            Select(address, TFL_VER_MAJ), Fetch(address)]
      && r.after.calls == m.calls + 6
      && r.after.status == m.status
  {
    ReadRunCompleteIff(script, address, TFL_VER_REV, 3, m);
    ReadRunBytes(script, address, TFL_VER_REV, 3, m);
    ReadRunAfter(script, address, TFL_VER_REV, 3, m);
  }

  /** Set_Enable and Set_Disable write to the same register 0x25 and differ only in the byte
      written, 1 against 0: the same transaction count, the same outcome and status, and
      traces that end in distinct writes. */
  lemma EnableDisableDiffer(script: seq<Reply>, address: Byte, m: Machine)
    ensures var (okOn, on) := WriteRegEffect(script, address, TFL_DISABLE, ENABLE_VALUE, m);
      var (okOff, off) := WriteRegEffect(script, address, TFL_DISABLE, DISABLE_VALUE, m);
      && okOn == okOff && on.status == off.status && on.calls == off.calls
      && on.trace == m.trace + [WriteTo(address, 0x25, 1)]
      && off.trace == m.trace + [WriteTo(address, 0x25, 0)]
      && on.trace != off.trace
  {
    var on := WriteRegEffect(script, address, TFL_DISABLE, ENABLE_VALUE, m).1;
    var off := WriteRegEffect(script, address, TFL_DISABLE, DISABLE_VALUE, m).1;
    assert on.trace[|m.trace|] != off.trace[|m.trace|];
  }
}
