/** The UpsPico class of the Home Assistant component: the raw register
    table, the decoded value table, and the SMBus handle they are read
    through. set_data updates the decoded table after a successful write. */
module UpsPicoComponent {
  import opened Outcomes
  import opened I2c
  import opened HexFormat
  import opened Voltage
  import opened PicoCodec

  class UpsPico {
    /** pico_reg: the raw buffer of each bank, keyed by device address. */
    var picoReg: map<int, seq<byte>>
    /** pico_data: the decoded values, keyed by field name. */
    var picoData: map<Field, Value>
    const i2c: SMBus
    /** reg_dict: the write register of each LED field. */
    const regDict: map<string, byte> := RegDict

    constructor ()
      ensures picoReg == map[] && picoData == map[]
      ensures fresh(i2c) && i2c.bus == 1 && i2c.log == []
    {
      picoReg := map[];
      picoData := map[];
      i2c := new SMBus(1);
    }

    /** _try_get_data: the three block reads, stopping at the first failure;
        Bank A's buffer is stored once both of its reads have succeeded, Bank
        B's once its read has. The decoded table is not touched. */
    method TryGetData(low: Option<seq<byte>>, high: Option<seq<byte>>, bankB: Option<seq<byte>>)
      returns (ok: bool)
      requires RepliesWellFormed(low, high, bankB)
      modifies this, i2c
      ensures i2c.log == old(i2c.log) + ReadsIssued(low, high, bankB)
      ensures ok == Refresh(low, high, bankB, old(picoReg)).ok
      ensures picoReg == Refresh(low, high, bankB, old(picoReg)).reg
      ensures picoData == old(picoData)
    {
      var r := i2c.ReadI2cBlockData(BankA, 0, LowLength, low);
      if r.None? {
        return false;
      }
      var reg := r.value;
      reg := reg + Filler;
      r := i2c.ReadI2cBlockData(BankA, HighStart, HighLength, high);
      if r.None? {
        return false;
      }
      reg := reg + r.value;
      picoReg := picoReg[BankA := reg];

      r := i2c.ReadI2cBlockData(BankB, 0, BankBLength, bankB);
      if r.None? {
        return false;
      }
      picoReg := picoReg[BankB := r.value];
      return true;
    }

    /** set_data: writes `data` to the field's Bank B register and, if the
        write succeeds, records it in the decoded table. An unknown field
        issues no write. */
    method SetData(device: string, data: byte, writeSucceeds: bool) returns (ok: bool)
      modifies this, i2c
      ensures device !in regDict ==> !ok && i2c.log == old(i2c.log)
      ensures device in regDict ==>
        i2c.log == old(i2c.log) + [ByteWrite(BankB, regDict[device], data)] && ok == writeSucceeds
      ensures picoData == if ok then old(picoData)[LedField(device) := Int(data)] else old(picoData)
      ensures picoReg == old(picoReg)
    {
      var addr := BankB;
      if device in regDict {
        var reg := regDict[device];
        var written := i2c.WriteByteData(addr, reg, data, writeSucceeds);
        if written {
          picoData := picoData[LedField(device) := Int(data)];
          return true;
        }
      }
      return false;
    }

    /** led_on: set_data with 1. */
    method LedOn(device: string, writeSucceeds: bool) returns (ok: bool)
      modifies this, i2c
      ensures device !in regDict ==> !ok && i2c.log == old(i2c.log)
      ensures device in regDict ==>
        i2c.log == old(i2c.log) + [ByteWrite(BankB, regDict[device], 1)] && ok == writeSucceeds
      ensures picoData == if ok then old(picoData)[LedField(device) := Int(1)] else old(picoData)
      ensures picoReg == old(picoReg)
    {
      ok := SetData(device, 1, writeSucceeds);
    }

    /** led_off: set_data with 0. */
    method LedOff(device: string, writeSucceeds: bool) returns (ok: bool)
      modifies this, i2c
      ensures device !in regDict ==> !ok && i2c.log == old(i2c.log)
      ensures device in regDict ==>
        i2c.log == old(i2c.log) + [ByteWrite(BankB, regDict[device], 0)] && ok == writeSucceeds
      ensures picoData == if ok then old(picoData)[LedField(device) := Int(0)] else old(picoData)
      ensures picoReg == old(picoReg)
    {
      ok := SetData(device, 0, writeSucceeds);
    }

    /** get_data: refresh the raw table, then decode it into the value table.
        A failed refresh returns false with the value table untouched. */
    method GetData(low: Option<seq<byte>>, high: Option<seq<byte>>, bankB: Option<seq<byte>>)
      returns (status: Status)
      requires RepliesWellFormed(low, high, bankB)
      modifies this, i2c
      ensures i2c.log == old(i2c.log) + ReadsIssued(low, high, bankB)
      ensures picoReg == Refresh(low, high, bankB, old(picoReg)).reg
      ensures !Refresh(low, high, bankB, old(picoReg)).ok ==>
        status == Returned(false) && picoData == old(picoData)
      ensures Refresh(low, high, bankB, old(picoReg)).ok ==>
        var d := DecodeAll(picoReg[BankA], picoReg[BankB], old(picoData));
        picoData == d.data && status == (if d.Completed? then Returned(true) else ValueErrorRaised)
    {
      var result := TryGetData(low, high, bankB);
      if !result {
        return Returned(false);
      }
      status := DecodeRegisters();
    }

    /** The decoding part of get_data, on the buffers a successful refresh
        stored. */
    method DecodeRegisters() returns (status: Status)
      requires BankA in picoReg && |picoReg[BankA]| == BankALength
      requires BankB in picoReg && |picoReg[BankB]| == BankBLength
      modifies this
      ensures picoReg == old(picoReg)
      ensures var d := DecodeAll(picoReg[BankA], picoReg[BankB], old(picoData));
        picoData == d.data && status == (if d.Completed? then Returned(true) else ValueErrorRaised)
    {
      var completed := DecodeBankARegisters();
      if !completed {
        return ValueErrorRaised;
      }
      DecodeBankBRegisters();
      return Returned(true);
    }

    /** The 0x69 registers, written into the value table one at a time. */
    method DecodeBankARegisters() returns (completed: bool)
      requires BankA in picoReg && |picoReg[BankA]| == BankALength
      modifies this
      ensures picoReg == old(picoReg)
      ensures var d := DecodeBankA(picoReg[BankA], old(picoData));
        picoData == d.data && completed == d.Completed?
    {
      ghost var prev := picoData;
      var data := picoReg[BankA];

      // 0x00: power mode
      var regWord := data[0x00];
      if regWord == 1 {
        picoData := picoData[PwrMode := Str("RPi powered")];
      } else if regWord == 2 {
        picoData := picoData[PwrMode := Str("UPS powered")];
      }
      assert picoData == WithPowerMode(prev, data[0x00]);

      // 0x08: battery voltage
      var volt := DecodeVolt(data[0x08], data[0x09]);
      if volt.None? {
        return false;
      }
      picoData := picoData[VoltBat := Volts(volt.value)];

      // 0x0a: RPi voltage
      volt := DecodeVolt(data[0x0a], data[0x0b]);
      if volt.None? {
        return false;
      }
      picoData := picoData[VoltRpi := Volts(volt.value)];

      // 0x1b: NTC1 temperature; 0x24, 0x25, 0x26: PCB, bootloader and firmware versions
      picoData := picoData[TempNtc1 := Str(Format02x(data[0x1b]))];
      picoData := picoData[VerPCB := Str(Chr(data[0x24]))];
      picoData := picoData[VerBoot := Str(Chr(data[0x25]))];
      picoData := picoData[VerFW := Str(Format02x(data[0x26]))];
      return true;
    }

    /** The 0x6b registers, written into the value table one at a time. */
    method DecodeBankBRegisters()
      requires BankB in picoReg && |picoReg[BankB]| == BankBLength
      modifies this
      ensures picoReg == old(picoReg)
      ensures picoData == DecodeBankB(picoReg[BankB], old(picoData))
    {
      var data := picoReg[BankB];

      // 0x01: battery run time
      var regWord := data[0x01];
      if regWord == 0xff {
        picoData := picoData[PwrRunTime := Str("disabled")];
      } else {
        picoData := picoData[PwrRunTime := Int(1 + regWord)];
      }

      // 0x09, 0x0a, 0x0b: orange, green and blue LEDs; 0x15: LEDs enabled
      picoData := picoData[LedOrange := Int(data[0x09])];
      picoData := picoData[LedGreen := Int(data[0x0a])];
      picoData := picoData[LedBlue := Int(data[0x0b])];
      picoData := picoData[LedEnable := Int(data[0x15])];
    }
  }
}
