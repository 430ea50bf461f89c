/** The I2C peripheral that the driver talks through (the HAL's blocking transmit, receive
    and memory-write calls). Its internals are not visible, so it is modelled as an oracle:
    a script gives the outcome of each transaction in the order they are issued, and a ghost
    trace records which transactions were issued. A script that has run out answers every
    further transaction with a failure, as a device that stopped answering would. */
module I2cBus {
  import opened Registers

  /** The outcome of one bus transaction: acknowledged (with the byte a receive returns), or failed. */
  datatype Reply = Ack(data: Byte) | Nack

  /** One bus transaction, as the driver issues it to a 7-bit device address. */
  datatype Txn =
    | Select(address: Byte, reg: Byte)             // one-byte master transmit of a register number
    | Fetch(address: Byte)                         // one-byte master receive
    | WriteTo(address: Byte, reg: Byte, data: Byte)  // combined memory write: register-select-and-write

  /** The outcome of the i-th transaction (counting from 0) under a script. */
  function ReplyAt(script: seq<Reply>, i: nat): Reply
  {
    if i < |script| then script[i] else Nack
  }

  class Bus {
    /** The outcomes of the transactions, in issue order. */
    const script: seq<Reply>
    /** How many transactions have been issued. */
    var calls: nat
    /** The transactions issued so far, oldest first. */
    ghost var trace: seq<Txn>

    constructor (script: seq<Reply>)
      ensures this.script == script && calls == 0 && trace == []
    {
      this.script := script;
      calls := 0;
      trace := [];
    }

    /** Master transmit of the one byte `reg` to `address`. */
    method Transmit(address: Byte, reg: Byte) returns (ok: bool)
      modifies this
      ensures ok == ReplyAt(script, old(calls)).Ack?
      ensures calls == old(calls) + 1
      ensures trace == old(trace) + [Select(address, reg)]
    {
      ok := ReplyAt(script, calls).Ack?;
      calls := calls + 1;
      trace := trace + [Select(address, reg)];
    }

    /** Master receive of one byte from `address`. */
    method Receive(address: Byte) returns (ok: bool, data: Byte)
      modifies this
      ensures ok == ReplyAt(script, old(calls)).Ack?
      ensures ok ==> data == ReplyAt(script, old(calls)).data
      ensures calls == old(calls) + 1
      ensures trace == old(trace) + [Fetch(address)]
    {
      var reply := ReplyAt(script, calls);
      ok := reply.Ack?;
      data := if ok then reply.data else 0;
      calls := calls + 1;
      trace := trace + [Fetch(address)];
    }

    /** Memory write: select register `reg` of `address` and write `data` to it in one transaction. */
    method MemWrite(address: Byte, reg: Byte, data: Byte) returns (ok: bool)
      modifies this
      ensures ok == ReplyAt(script, old(calls)).Ack?
      ensures calls == old(calls) + 1
      ensures trace == old(trace) + [WriteTo(address, reg, data)]
    {
      ok := ReplyAt(script, calls).Ack?;
      calls := calls + 1;
      trace := trace + [WriteTo(address, reg, data)];
    }
  }
}
