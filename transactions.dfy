/** Register transactions as functions of the state before them (Library/tfluna_i2c.c,
    readReg and the read loops built on it). These are the specifications the driver's
    methods are proved against; the lemmas give their outcome in closed form. */
module Transactions {
  import opened Registers
  import opened I2cBus
  import opened FrameCodec

  /** What a register read touches: the globals tfStatus and regReply, and the bus's
      transaction count and trace. */
  datatype Machine = Machine(status: Byte, reply: Byte, calls: nat, trace: seq<Txn>)

  /** readReg: transmit the register number; only if that succeeds, receive one byte.
      A failed transmit leaves TFL_I2CWRITE, a failed receive TFL_I2CREAD; on success the
      byte lands in regReply and the status is not touched. */
  function ReadRegEffect(script: seq<Reply>, address: Byte, reg: Byte, m: Machine): (bool, Machine)
  {
    var selected := m.(calls := m.calls + 1, trace := m.trace + [Select(address, reg)]);
    if ReplyAt(script, m.calls).Nack? then
      (false, selected.(status := TFL_I2CWRITE))
    else
      var received := ReplyAt(script, selected.calls);
      var fetched := selected.(calls := selected.calls + 1, trace := selected.trace + [Fetch(address)]);
      if received.Nack? then (false, fetched.(status := TFL_I2CREAD))
      else (true, fetched.(reply := received.data))
  }

  /** The bytes read so far and the state after a run of register reads. */
  datatype Run = Run(got: seq<Byte>, after: Machine)

  /** Read the n consecutive registers first, first + 1, ..., first + n - 1 one after another,
      stopping at the first failing read. The run failed exactly when fewer than n bytes
      were read. */
  function ReadRun(script: seq<Reply>, address: Byte, first: Byte, n: nat, m: Machine): (r: Run)
    requires first + n <= 0x100
    ensures |r.got| <= n
    decreases n
  {
    if n == 0 then Run([], m)
    else
      var prefix := ReadRun(script, address, first, n - 1, m);
      if |prefix.got| < n - 1 then prefix
      else
        var (ok, m') := ReadRegEffect(script, address, first + n - 1, prefix.after);
        Run(if ok then prefix.got + [m'.reply] else prefix.got, m')
  }

  /** The transactions of n successful reads from register `first` on: select then fetch,
      register by register. */
  function ReadTrace(address: Byte, first: Byte, n: nat): (t: seq<Txn>)
    requires first + n <= 0x100
    ensures |t| == 2 * n
    ensures forall k :: 0 <= k < n ==> t[2 * k] == Select(address, first + k) && t[2 * k + 1] == Fetch(address)
    decreases n
  {
    if n == 0 then []
    else ReadTrace(address, first, n - 1) + [Select(address, first + n - 1), Fetch(address)]
  }

  /** The k-th read of a run started at transaction `at` has both its transactions acknowledged. */
  predicate Answered(script: seq<Reply>, at: nat, k: nat)
  {
    ReplyAt(script, at + 2 * k).Ack? && ReplyAt(script, at + 2 * k + 1).Ack?
  }

  /** The byte the k-th read of a run started at transaction `at` receives. */
  function Received(script: seq<Reply>, at: nat, k: nat): Byte
    requires Answered(script, at, k)
  {
    ReplyAt(script, at + 2 * k + 1).data
  }

  /** The state after the reads of `got` from register `first` on all succeeded. */
  function AfterReads(address: Byte, first: Byte, got: seq<Byte>, m: Machine): Machine
    requires first + |got| <= 0x100
  {
    var n := |got|;
    m.(reply := if n == 0 then m.reply else got[n - 1],
       calls := m.calls + 2 * n,
       trace := m.trace + ReadTrace(address, first, n))
  }

  /** Reads k = 0, 1, ... of a run each use transactions 2k and 2k+1 counted from its start;
      byte k of a run is the byte the receive of read k returned, and was only stored because
      both transactions of that read were acknowledged. */
  lemma ReadRunBytes(script: seq<Reply>, address: Byte, first: Byte, n: nat, m: Machine)
    requires first + n <= 0x100
    ensures var r := ReadRun(script, address, first, n, m);
      forall k :: 0 <= k < |r.got| ==> Answered(script, m.calls, k) && r.got[k] == Received(script, m.calls, k)
  {
    var r := ReadRun(script, address, first, n, m);
    forall k | 0 <= k < |r.got|
      ensures Answered(script, m.calls, k) && r.got[k] == Received(script, m.calls, k)
    {
      ReadRunByte(script, address, first, n, m, k);
    }
  }

  /** Byte k of a run, one read at a time. */
  lemma {:induction false} ReadRunByte(script: seq<Reply>, address: Byte, first: Byte, n: nat, m: Machine, k: nat)
    requires first + n <= 0x100
    requires k < |ReadRun(script, address, first, n, m).got|
    ensures Answered(script, m.calls, k)
    ensures ReadRun(script, address, first, n, m).got[k] == Received(script, m.calls, k)
    decreases n
  {
    var p := ReadRun(script, address, first, n - 1, m);
    if k < |p.got| {
      ReadRunByte(script, address, first, n - 1, m, k);
    } else {
      ReadRunAfter(script, address, first, n - 1, m);
    }
  }

  /** A complete run leaves the state AfterReads describes: two transactions per register,
      the last byte in regReply, the status untouched. */
  lemma {:induction false} ReadRunAfter(script: seq<Reply>, address: Byte, first: Byte, n: nat, m: Machine)
    requires first + n <= 0x100
    ensures var r := ReadRun(script, address, first, n, m);
      |r.got| == n ==> r.after == AfterReads(address, first, r.got, m)
    decreases n
  {
    if n > 0 {
      ReadRunAfter(script, address, first, n - 1, m);
    }
  }

  /** The state after a run whose reads of `got` succeeded and whose next read failed: only
      its select if the select failed (TFL_I2CWRITE), its select and its receive if the
      receive failed (TFL_I2CREAD). */
  function StoppedAfter(script: seq<Reply>, address: Byte, first: Byte, got: seq<Byte>, m: Machine): Machine
    requires first + |got| < 0x100
  {
    var before := AfterReads(address, first, got, m);
    var n := |got|;
    if ReplyAt(script, m.calls + 2 * n).Nack? then
      before.(status := TFL_I2CWRITE, calls := before.calls + 1,
              trace := before.trace + [Select(address, first + n)])
    else
      before.(status := TFL_I2CREAD, calls := before.calls + 2,
              trace := before.trace + [Select(address, first + n), Fetch(address)])
  }

  /** StoppedAfter field by field: TFL_I2CWRITE after the select alone, TFL_I2CREAD after the
      select and the fetch, following the transactions of the reads that succeeded. */
  lemma StoppedAfterFields(script: seq<Reply>, address: Byte, first: Byte, got: seq<Byte>, m: Machine)
    requires first + |got| < 0x100
    ensures var s := StoppedAfter(script, address, first, got, m);
      var n := |got|;
      var selectFailed := ReplyAt(script, m.calls + 2 * n).Nack?;
      && s.status == (if selectFailed then TFL_I2CWRITE else TFL_I2CREAD)
      && s.calls == m.calls + 2 * n + (if selectFailed then 1 else 2)
      && s.trace == m.trace + ReadTrace(address, first, n) +
           (if selectFailed then [Select(address, first + n)] else [Select(address, first + n), Fetch(address)])
  {
  }

  /** A run that stops early stops at its first unanswered read, in the state StoppedAfter
      describes. */
  lemma {:induction false} ReadRunFailure(script: seq<Reply>, address: Byte, first: Byte, n: nat, m: Machine)
    requires first + n <= 0x100
    ensures var r := ReadRun(script, address, first, n, m);
      |r.got| < n ==>
        !Answered(script, m.calls, |r.got|) && r.after == StoppedAfter(script, address, first, r.got, m)
    decreases n
  {
    if n > 0 {
      ReadRunFailure(script, address, first, n - 1, m);
      var p := ReadRun(script, address, first, n - 1, m);
      if |p.got| == n - 1 {
        ReadRunAfter(script, address, first, n - 1, m);
        FailureAtLast(script, address, first, n, m);
      }
    }
  }

  /** A run whose first n - 1 reads succeeded fails, if at all, at its last register. */
  lemma FailureAtLast(script: seq<Reply>, address: Byte, first: Byte, n: nat, m: Machine)
    requires first + n <= 0x100 && n > 0
    requires var p := ReadRun(script, address, first, n - 1, m);
      |p.got| == n - 1 && p.after == AfterReads(address, first, p.got, m)
    ensures var r := ReadRun(script, address, first, n, m);
      |r.got| < n ==>
        !Answered(script, m.calls, |r.got|) && r.after == StoppedAfter(script, address, first, r.got, m)
  {
  }

  /** A run that fails within its first k registers is not continued: reading n registers
      gives exactly what reading the first k gave. */
  lemma {:induction false} ReadRunStopsAtFailure(script: seq<Reply>, address: Byte, first: Byte, n: nat, k: nat, m: Machine)
    requires first + n <= 0x100 && k <= n
    requires |ReadRun(script, address, first, k, m).got| < k
    ensures ReadRun(script, address, first, n, m) == ReadRun(script, address, first, k, m)
    decreases n - k
  {
    if k < n {
      ReadRunStopsAtFailure(script, address, first, n - 1, k, m);
    }
  }

  /** The run is complete exactly when every one of its reads was answered. */
  lemma ReadRunCompleteIff(script: seq<Reply>, address: Byte, first: Byte, n: nat, m: Machine)
    requires first + n <= 0x100
    ensures |ReadRun(script, address, first, n, m).got| == n <==>
            forall k :: 0 <= k < n ==> Answered(script, m.calls, k)
  {
    ReadRunBytes(script, address, first, n, m);
    ReadRunAfter(script, address, first, n, m);
    ReadRunFailure(script, address, first, n, m);
  }

  /** One step of a loop that reads the run of registers first, first + 1, ... : after i
      successful reads, read register first + i. If that read succeeds the run grows by its
      byte; if it fails, the run of all n registers ends right there, with the status the
      failing transaction left. */
  lemma ReadRunStep(script: seq<Reply>, address: Byte, first: Byte, n: nat, i: nat,
                    m: Machine, got: seq<Byte>, mi: Machine, ok: bool, m': Machine)
    requires first + n <= 0x100 && i < n
    requires ReadRun(script, address, first, i, m) == Run(got, mi) && |got| == i
    requires (ok, m') == ReadRegEffect(script, address, first + i, mi)
    ensures ok ==> ReadRun(script, address, first, i + 1, m) == Run(got + [m'.reply], m')
    ensures !ok ==> ReadRun(script, address, first, n, m) == Run(got, m')
    ensures !ok ==> m'.status in {TFL_I2CWRITE, TFL_I2CREAD}
  {
    if !ok {
      ReadRunStopsAtFailure(script, address, first, n, i + 1, m);
    }
  }

  /** writeReg: one combined memory write of `data` to register `reg`. A failure leaves
      TFL_I2CWRITE, a success leaves the status alone; regReply is never touched. */
  function WriteRegEffect(script: seq<Reply>, address: Byte, reg: Byte, data: Byte, m: Machine): (bool, Machine)
  {
    var written := m.(calls := m.calls + 1, trace := m.trace + [WriteTo(address, reg, data)]);
    if ReplyAt(script, m.calls).Ack? then (true, written)
    else (false, written.(status := TFL_I2CWRITE))
  }

  /** Write data[0], data[1], ... to the registers first, first + 1, ... one after another,
      stopping at the first failing write. */
  function WriteRun(script: seq<Reply>, address: Byte, first: Byte, data: seq<Byte>, m: Machine): (bool, Machine)
    requires first + |data| <= 0x100
    decreases |data|
  {
    if data == [] then (true, m)
    else
      var last := |data| - 1;
      var (ok, m') := WriteRun(script, address, first, data[..last], m);
      if !ok then (false, m')
      else WriteRegEffect(script, address, first + last, data[last], m')
  }

  /** The transactions of a complete write run: one memory write per register. */
  function WriteTrace(address: Byte, first: Byte, data: seq<Byte>): (t: seq<Txn>)
    requires first + |data| <= 0x100
    ensures |t| == |data|
    ensures forall k :: 0 <= k < |data| ==> t[k] == WriteTo(address, first + k, data[k])
    decreases |data|
  {
    if data == [] then []
    else WriteTrace(address, first, data[..|data| - 1]) + [WriteTo(address, first + |data| - 1, data[|data| - 1])]
  }

  /** Write k of a run started at transaction `at` is acknowledged. */
  predicate Acked(script: seq<Reply>, at: nat, k: nat)
  {
    ReplyAt(script, at + k).Ack?
  }

  /** A write run succeeds exactly when every one of its writes is acknowledged; then it used
      one transaction per byte, issued the writes in register order and left the status and
      regReply alone. */
  lemma {:induction false} WriteRunComplete(script: seq<Reply>, address: Byte, first: Byte, data: seq<Byte>, m: Machine)
    requires first + |data| <= 0x100
    ensures WriteRun(script, address, first, data, m).0 <==>
            forall k :: 0 <= k < |data| ==> Acked(script, m.calls, k)
    ensures WriteRun(script, address, first, data, m).0 ==>
            WriteRun(script, address, first, data, m).1 ==
            m.(calls := m.calls + |data|, trace := m.trace + WriteTrace(address, first, data))
    decreases |data|
  {
    if data != [] {
      var last := |data| - 1;
      var init := data[..last];
      WriteRunComplete(script, address, first, init, m);
      var (ok, m1) := WriteRun(script, address, first, init, m);
      if ok {
        assert WriteRun(script, address, first, data, m) ==
               WriteRegEffect(script, address, first + last, data[last], m1);
        assert m1.calls == m.calls + last;
        assert Acked(script, m.calls, last) == ReplyAt(script, m1.calls).Ack?;
        assert WriteTrace(address, first, data) ==
               WriteTrace(address, first, init) + [WriteTo(address, first + last, data[last])];
      } else {
        assert exists k :: 0 <= k < |init| && !Acked(script, m.calls, k);
      }
    }
  }

  /** A write run whose first unacknowledged write is write j stops there: it issued writes
      0..j and no more, and left TFL_I2CWRITE. */
  lemma {:induction false} WriteRunFirstFailure(script: seq<Reply>, address: Byte, first: Byte, data: seq<Byte>,
                                                m: Machine, j: nat)
    requires first + |data| <= 0x100 && j < |data|
    requires forall k :: 0 <= k < j ==> Acked(script, m.calls, k)
    requires !Acked(script, m.calls, j)
    ensures WriteRun(script, address, first, data, m) ==
            (false, m.(status := TFL_I2CWRITE, calls := m.calls + j + 1,
                       trace := m.trace + WriteTrace(address, first, data[..j + 1])))
    decreases |data|
  {
    var last := |data| - 1;
    var init := data[..last];
    if j == last {
      WriteRunComplete(script, address, first, init, m);
      var (ok, m1) := WriteRun(script, address, first, init, m);
      assert WriteRun(script, address, first, data, m) ==
             WriteRegEffect(script, address, first + last, data[last], m1);
      assert ok && ReplyAt(script, m1.calls).Nack?;
      assert data[..j + 1] == data;
      assert m.trace + WriteTrace(address, first, data) ==
             m1.trace + [WriteTo(address, first + last, data[last])];
    } else {
      WriteRunFirstFailure(script, address, first, init, m, j);
      assert init[..j + 1] == data[..j + 1];
    }
  }

  /** A run of two writes: the first write, and the second only if the first was
      acknowledged. */
  lemma WriteRunPair(script: seq<Reply>, address: Byte, first: Byte, lo: Byte, hi: Byte, m: Machine)
    requires first + 2 <= 0x100
    ensures var (ok, m1) := WriteRegEffect(script, address, first, lo, m);
      WriteRun(script, address, first, [lo, hi], m) ==
      if ok then WriteRegEffect(script, address, first + 1, hi, m1) else (false, m1)
  {
    assert [lo, hi][..1] == [lo];
    assert [lo][..0] == [];
    assert WriteRun(script, address, first, [], m) == (true, m);
    assert WriteRun(script, address, first, [lo], m) == WriteRegEffect(script, address, first, lo, m);
  }

  /** A 16-bit variable written through a byte pointer: the bytes read so far replace its
      low byte, then its high byte, on the little-endian target. */
  function StoreBytes(w: U16, got: seq<Byte>): U16
    requires |got| <= 2
  {
    var b := Filled(got, [Split(w).0, Split(w).1]);
    Word(b[0], b[1])
  }

  /** No byte read leaves the variable alone, one byte read replaces only its low byte, and
      two bytes read give lo + 256 * hi. */
  lemma StoreBytesCases(w: U16, got: seq<Byte>)
    requires |got| <= 2
    ensures |got| == 0 ==> StoreBytes(w, got) == w
    ensures |got| == 1 ==> StoreBytes(w, got) == got[0] as int + 0x100 * (w / 0x100)
    ensures |got| == 1 ==> StoreBytes(w, got) / 0x100 == w / 0x100 && StoreBytes(w, got) % 0x100 == got[0]
    ensures |got| == 2 ==> StoreBytes(w, got) == got[0] as int + 0x100 * got[1] as int
  {
    WordSplitRoundTrip(0, 0, w);
    if |got| == 1 {
      WordSplitRoundTrip(got[0], w / 0x100, w);
    }
  }

  /** A buffer after a run of reads stored into it from index 0: the cells the run reached
      hold its bytes, the others keep their contents. */
  function Filled(got: seq<Byte>, buffer: seq<Byte>): seq<Byte>
    requires |got| <= |buffer|
  {
    got + buffer[|got|..]
  }

  /** Storing the next byte x of a run at index |got| is the same as extending the run by x. */
  lemma FilledGrows(got: seq<Byte>, buffer: seq<Byte>, x: Byte)
    requires |got| < |buffer|
    ensures Filled(got, buffer)[|got| := x] == Filled(got + [x], buffer)
  {
  }

  /** What a run of reads stored into a buffer: exactly the cells below |got| changed. */
  lemma FilledCells(got: seq<Byte>, buffer: seq<Byte>)
    requires |got| <= |buffer|
    ensures |Filled(got, buffer)| == |buffer|
    ensures forall k :: 0 <= k < |got| ==> Filled(got, buffer)[k] == got[k]
    ensures forall k :: |got| <= k < |buffer| ==> Filled(got, buffer)[k] == buffer[k]
  {
  }

  /** What getData hands back and leaves behind: its result, the three output values, the
      six-byte dataArray and the register-read state. */
  datatype FrameRead = FrameRead(ok: bool, dist: I16, flux: I16, temp: I16, data: seq<Byte>, after: Machine)

  /** getData as a function of the state before it: the status is cleared, the frame
      registers are read in ascending order into `data` by register number until one read
      fails; only a complete frame is decoded into the outputs and classified by its flux,
      otherwise the outputs keep the caller's values `dist`, `flux`, `temp`. */
  function GetDataEffect(script: seq<Reply>, address: Byte, m: Machine, data: seq<Byte>,
                         dist: I16, flux: I16, temp: I16): FrameRead
    requires |data| == 6
  {
    FrameOutcome(ReadRun(script, address, TFL_DIST_LO, 6, m.(status := TFL_READY)), data, dist, flux, temp)
  }

  /** The end of getData once its register reads `r` are done. */
  function FrameOutcome(r: Run, data: seq<Byte>, dist: I16, flux: I16, temp: I16): FrameRead
    requires |r.got| <= |data| == 6
  {
    var buffer := Filled(r.got, data);
    if |r.got| < 6 then FrameRead(false, dist, flux, temp, buffer, r.after)
    else
      var f := DecodeFrame(r.got);
      var status := FluxStatus(f.flux);
      FrameRead(status == TFL_READY, f.dist, f.flux, f.temp, buffer, r.after.(status := status))
  }

  /** getData when the frame read stopped early: nothing is decoded. */
  lemma GetDataAborted(script: seq<Reply>, address: Byte, m: Machine, data: seq<Byte>,
                       dist: I16, flux: I16, temp: I16, got: seq<Byte>, after: Machine)
    requires |data| == 6
    requires ReadRun(script, address, TFL_DIST_LO, 6, m.(status := TFL_READY)) == Run(got, after)
    requires |got| < 6
    ensures GetDataEffect(script, address, m, data, dist, flux, temp) ==
            FrameRead(false, dist, flux, temp, Filled(got, data), after)
  {
  }

  /** getData when all six frame registers were read: the frame is decoded and classified. */
  lemma GetDataComplete(script: seq<Reply>, address: Byte, m: Machine, data: seq<Byte>,
                        dist: I16, flux: I16, temp: I16, got: seq<Byte>, after: Machine)
    requires |data| == 6
    requires ReadRun(script, address, TFL_DIST_LO, 6, m.(status := TFL_READY)) == Run(got, after)
    requires |got| == 6
    ensures var f := DecodeFrame(got); var status := FluxStatus(f.flux);
      GetDataEffect(script, address, m, data, dist, flux, temp) ==
      FrameRead(status == TFL_READY, f.dist, f.flux, f.temp, got, after.(status := status))
  {
    assert Filled(got, data) == got;
  }
}
