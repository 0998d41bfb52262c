/** The SMBus handle the codec talks through. The bus itself is foreign
    code: what a device answers is supplied by the caller, and the handle
    records every transaction it issues, in order. */
module I2c {
  import opened Outcomes

  /** One register byte. */
  type byte = x: int | 0 <= x < 0x100

  /** A bus transaction as issued by the codec. */
  datatype Transaction =
    | BlockRead(addr: byte, start: byte, length: nat)
    | ByteWrite(addr: byte, register: byte, value: byte)

  class SMBus {
    const bus: nat
    /** Every transaction issued on this handle, oldest first. */
    var log: seq<Transaction>

    constructor (bus: nat)
      ensures this.bus == bus && log == []
    {
      this.bus := bus;
      log := [];
    }

    /** read_i2c_block_data: a block read that either fails as a whole or
        yields exactly the requested number of bytes. */
    method ReadI2cBlockData(addr: byte, start: byte, length: nat, reply: Option<seq<byte>>)
      returns (r: Option<seq<byte>>)
      requires reply.Some? ==> |reply.value| == length
      modifies this
      ensures log == old(log) + [BlockRead(addr, start, length)]
      ensures r == reply
    {
      log := log + [BlockRead(addr, start, length)];
      r := reply;
    }

    /** write_byte_data: a single-byte register write that either succeeds or
        raises; `succeeds` is the device's answer. */
    method WriteByteData(addr: byte, register: byte, value: byte, succeeds: bool)
      returns (ok: bool)
      modifies this
      ensures log == old(log) + [ByteWrite(addr, register, value)]
      ensures ok == succeeds
    {
      log := log + [ByteWrite(addr, register, value)];
      ok := succeeds;
    }
  }
}
