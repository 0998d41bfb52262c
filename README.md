# UPS PIco register codec

A model of the `UpsPico` class that the UPS PIco Home Assistant integration
uses to talk to the board over I2C. The class keeps a raw register table
(`pico_reg`, one byte buffer per device address) and a decoded value table
(`pico_data`, keyed by field name). A refresh reads three register blocks:

- the low region 0x00..0x1c of bank 0x69;
- the high region 0x20..0x26 of bank 0x69;
- the region 0x00..0x15 of bank 0x6b.

Three 0xff filler bytes are placed between the two bank-0x69 regions, so
that an index into the joined buffer equals the register number. Decoding
turns the registers into named values:

- the power mode;
- the battery and RPi voltages, stored as BCD (binary-coded decimal);
- the NTC1 temperature and the firmware version as two hexadecimal digits;
- the PCB and bootloader versions as a character;
- the battery run time;
- the LED registers.

Writing an LED field sends one byte to its bank-0x6b register.

Two versions of the class exist and both are modelled:

- `custom_components/ups_pico.py` (module `UpsPicoComponent`). Its
  `set_data` also records a successful write in `pico_data`.
- the older `ups_pico.py` (module `UpsPicoLegacy`). Its `setData` never
  touches the decoded table.

Modules:

- `Outcomes`: `Option`.
- `I2c`: the `byte` type, the transaction log, and the `SMBus` handle. The
  device's replies (or write outcomes) are parameters, and the handle
  records every transaction it issues.
- `HexFormat`: `format(n, "02x")`, reading hexadecimal and decimal numerals.
- `Voltage`: the voltage rule, its BCD reading, the inverse encoding, and
  Python's `float()` on hexadecimal-digit strings (the rule as written).
- `PicoCodec`: register constants, the field keys, the LED register table,
  and the two pure halves of the codec. `Refresh` is the raw table after a
  refresh. `DecodeAll` is the value table after decoding, field by field
  in the source's order, including where `float()` raises.
- `UpsPicoComponent`, `UpsPicoLegacy`: the two `UpsPico` classes. They are
  imperative: their fields are reassigned one entry at a time, as the
  source does, and each method is proved against `Refresh` and `DecodeAll`.

Units and representations:

- A voltage is an exact count of hundredths of a volt. For example, bytes
  `[0x44, 0x01]` give 144, i.e. 1.44 V.
- A `ValueError` that escapes `get_data` is the status `ValueErrorRaised`.
  The fields written before it stay written.
- The decoded table is keyed by the `Field` datatype. `PicoCodec.Name`
  gives the string key each field has in the source.

Behaviour of the code worth knowing, which the model keeps:

- Decoding is not atomic. It writes field by field. A `ValueError` from a
  voltage leaves `pwrMode`, and possibly `voltBat`, already updated.
- The 0x69 buffer is replaced as soon as both of its reads succeed, even
  when the 0x6b read then fails and the refresh reports failure.
- A power-mode byte other than 1 or 2 keeps the previous `pwrMode` entry,
  or leaves it absent.

The one place where the model departs from the code is the voltage rule:
the decode uses the corrected rule `Voltage.DecodeVolt`, and the rule as
written is `Voltage.VoltAsWritten` (see Findings and Left out).

## Model

| member | source | states |
|---|---|---|
| UpsPicoComponent.UpsPico.constructor | custom_components/ups_pico.py:126-139 | both tables start empty; a fresh handle on bus 1 with an empty log |
| UpsPicoComponent.UpsPico.TryGetData | custom_components/ups_pico.py:146-160 | issues the block reads up to the first failure; the result and the new raw table are those of `Refresh`; the value table is unchanged |
| UpsPicoComponent.UpsPico.SetData | custom_components/ups_pico.py:162-179 | an unknown field issues no write and returns false; a known field writes the byte to its 0x6b register, returns whether the write succeeded, and only on success records the byte under that field; the raw table is unchanged |
| UpsPicoComponent.UpsPico.LedOn | custom_components/ups_pico.py:181-184 | the same as SetData with byte 1 |
| UpsPicoComponent.UpsPico.LedOff | custom_components/ups_pico.py:186-189 | the same as SetData with byte 0 |
| UpsPicoComponent.UpsPico.GetData | custom_components/ups_pico.py:191-258 | a failed refresh returns false and leaves the value table untouched; after a successful refresh the value table is `DecodeAll` of the new buffers over the old table; it returns true when decoding completes and raises ValueError otherwise |
| UpsPicoComponent.UpsPico.DecodeRegisters | custom_components/ups_pico.py:198-258 | the decoding part of get_data equals `DecodeAll` over the old value table |
| UpsPicoComponent.UpsPico.DecodeBankARegisters | custom_components/ups_pico.py:198-238 | the field-by-field 0x69 writes equal `DecodeBankA`, including the partial table when a voltage raises |
| UpsPicoComponent.UpsPico.DecodeBankBRegisters | custom_components/ups_pico.py:240-256 | the 0x6b writes equal `DecodeBankB` over the old table |
| UpsPicoLegacy.UpsPico.constructor | ups_pico.py:160-172 | both tables start empty; a fresh handle on bus 1 with an empty log |
| UpsPicoLegacy.UpsPico.TryGetData | ups_pico.py:174-188 | the same refresh contract as the component's `_try_get_data` |
| UpsPicoLegacy.UpsPico.SetData | ups_pico.py:190-203 | the same write and result as the component's `set_data`, but neither table ever changes |
| UpsPicoLegacy.UpsPico.LedOn | ups_pico.py:205-206 | setData with byte 1 |
| UpsPicoLegacy.UpsPico.LedOff | ups_pico.py:208-209 | setData with byte 0 |
| UpsPicoLegacy.UpsPico.GetData | ups_pico.py:211-277 | the same contract as the component's `get_data`, over `picoReg` and `picoData` |
| UpsPicoLegacy.UpsPico.DecodeRegisters | ups_pico.py:217-277 | the decoding part of getData equals `DecodeAll` |
| UpsPicoLegacy.UpsPico.DecodeBankARegisters | ups_pico.py:217-257 | the 0x69 writes equal `DecodeBankA` |
| UpsPicoLegacy.UpsPico.DecodeBankBRegisters | ups_pico.py:259-275 | the 0x6b writes equal `DecodeBankB` |
| I2c.SMBus.ReadI2cBlockData | custom_components/ups_pico.py:148-153 | a block read returns the device's reply (of the requested length) and is logged |
| I2c.SMBus.WriteByteData | custom_components/ups_pico.py:168 | a byte write reports the device's outcome and is logged |
| PicoCodec.Refresh | custom_components/ups_pico.py:146-160 | succeeds exactly when all three reads succeed. The 0x69 buffer is the low region, the filler and the high region, of length 0x27, and it is stored once both of its reads succeed. The 0x6b buffer is the reply, stored only on success. Every other entry is unchanged, and a failure before the 0x6b read leaves the whole table as it was |
| PicoCodec.RefreshBankALayout | custom_components/ups_pico.py:148-151 | index k of the joined 0x69 buffer is register k: 0x00..0x1c from the low reply, 0xff at 0x1d..0x1f, 0x20..0x26 from the high reply |
| PicoCodec.LedField | custom_components/ups_pico.py:133-138 | each writable name maps to the LED field of the same name |
| PicoCodec.LedWriteReadBack | custom_components/ups_pico.py:133-138 | the 0x6b register that set_data writes for an LED name is the offset get_data decodes that field from (lines 251-256), so a read-back of the written register decodes the written byte under that name |
| PicoCodec.PowerMode | custom_components/ups_pico.py:202-206 | byte 1 names "RPi powered", byte 2 names "UPS powered", and no other byte names a mode (each direction) |
| PicoCodec.RunTime | custom_components/ups_pico.py:244-248 | "disabled" exactly for 0xff; otherwise the integer byte+1, in 1..255 |
| PicoCodec.RunTimeInjective | custom_components/ups_pico.py:244-248 | different run-time bytes decode to different values |
| PicoCodec.Chr | custom_components/ups_pico.py:226-233 | one character whose code is the byte |
| PicoCodec.DecodeBankA | custom_components/ups_pico.py:198-238 | the 0x69 half of the decode completes exactly when both voltage words decode under the corrected rule, and never touches a 0x6b field |
| PicoCodec.DecodeBankB | custom_components/ups_pico.py:240-256 | after the 0x6b half of the decode, pwrRunTime and the four LED fields are present and every other entry is kept |
| PicoCodec.DecodeAll | custom_components/ups_pico.py:198-256 | the decode raises exactly when a voltage word does not decode under the corrected rule, and a raise leaves every 0x6b field as it was |
| PicoCodec.DecodeRaisesIffNotBcd | custom_components/ups_pico.py:208-218 | decoding raises exactly when the battery or the RPi voltage word is not BCD |
| PicoCodec.DecodePowerMode | custom_components/ups_pico.py:201-206 | whether decoding completes or raises, pwrMode is the named mode for bytes 1 and 2; otherwise the previous entry is kept, or stays absent |
| PicoCodec.DecodeCompletedVoltages | custom_components/ups_pico.py:208-218 | after a completed decode every field except pwrMode is present; voltBat and voltRpi are the BCD values of their little-endian words, each below 100.00 V |
| PicoCodec.DecodeCompletedVersions | custom_components/ups_pico.py:220-238 | tempNtc1 and verFW are the two lower-case hexadecimal digits of their byte and read back as it; verPCB and verBoot are the character of their byte |
| PicoCodec.DecodeCompletedBankB | custom_components/ups_pico.py:243-256 | pwrRunTime is "disabled" for 0xff and byte+1 otherwise; each LED field is its raw byte |
| PicoCodec.DecodeRaisedIsPartial | custom_components/ups_pico.py:201-218 | when decoding raises, every field other than pwrMode and voltBat keeps its previous entry. voltBat holds the new value if the battery word was BCD and keeps its previous entry otherwise |
| Voltage.Word | custom_components/ups_pico.py:209 | the little-endian word of two bytes: below 0x10000, low byte = lo, high byte = hi |
| Voltage.DecodeVoltReadsHexAsDecimal | custom_components/ups_pico.py:209-211 | the corrected voltage rule is "print the word in hexadecimal, read the digits as a decimal numeral": it succeeds exactly when every digit is decimal, with that numeral's value |
| Voltage.DecodeVolt | custom_components/ups_pico.py:209-211 | the corrected voltage rule: a register pair decodes exactly when its word is BCD, and a decoded voltage is below 100.00 V |
| Voltage.EncodeVolt | custom_components/ups_pico.py:209-211 | the register pair of a voltage below 100.00 V is the BCD word of the value |
| Voltage.VoltRoundTrip | custom_components/ups_pico.py:209-211 | every voltage below 100.00 V decodes back from its encoding |
| Voltage.VoltCanonical | custom_components/ups_pico.py:209-211 | a register pair that decodes is the encoding of its value, so the rule is one-to-one on the words it accepts |
| Voltage.VoltExample | custom_components/ups_pico.py:208-212 | bytes [0x44, 0x01] read as 1.44 V |
| Voltage.PyFloat | custom_components/ups_pico.py:211 | float() on a hexadecimal-digit string without the letter 'e' succeeds exactly on a non-empty decimal numeral, and its value is that numeral's value |
| Voltage.VoltAsWritten | custom_components/ups_pico.py:209-211 | the rule as written, float(format(word, "02x")): it agrees with the corrected rule whenever the printed word has no 'e' |
| Voltage.AsWrittenAgreesOnBcd | custom_components/ups_pico.py:209-211 | the rule as written yields the corrected value on every BCD word |
| Voltage.ExponentQuirk | custom_components/ups_pico.py:209-211 | the rule as written reads bytes [0xe5, 0x01] as 1000.00 V where the corrected rule rejects them |
| Voltage.HexDigitsAsDecimal | custom_components/ups_pico.py:210-211 | the hexadecimal numeral of n is decimal exactly when n is BCD, and then reads as its BCD value |
| Voltage.BcdEncodeRoundTrip | custom_components/ups_pico.py:209-211 | BCD encoding yields a BCD word that decodes back |
| Voltage.BcdValueRoundTrip | custom_components/ups_pico.py:209-211 | decoding a BCD word and re-encoding the value gives the word |
| Voltage.BcdValueBelow | custom_components/ups_pico.py:209-211 | a BCD word below 16^k has a value below 10^k |
| HexFormat.Format02x | custom_components/ups_pico.py:222 | format(n, "02x") is at least two lower-case hexadecimal digits, exactly two for a byte |
| HexFormat.Format02xByte | custom_components/ups_pico.py:221-223 | a byte renders as its high nibble's digit followed by its low nibble's digit |
| HexFormat.Format02xRoundTrip | custom_components/ups_pico.py:221-223 | reading the rendering back as hexadecimal gives the number |
| HexFormat.Format02xInjective | custom_components/ups_pico.py:236-238 | different numbers render differently |
| HexFormat.HexDigitsRoundTrip | custom_components/ups_pico.py:210 | the unpadded hexadecimal numeral reads back as the number |

## Left out

- Home Assistant glue is not part of this model: platform setup, the sensor
  and switch entities, `async_update`, and the shared-instance registry.
  The switch platform under `custom_components/switch` is not part of it
  either.
- Logging calls are not modelled: they have no effect on state or results.
- `getTest`, `deviceDict` and the Domoticz-style strings of the older file
  are not part of this model. They are test and plugin code outside the
  register codec.
- The smbus2 library is not modelled. Its replies and write outcomes are
  parameters, and any exception it raises is a `None` reply or a `false`
  outcome. A reply that arrives is assumed to have the requested length;
  smbus2 returns exactly `length` bytes.
- Opening the bus in the constructor (an import or open failure) is not
  modelled.
- Voltages are exact hundredths, not Python floats. The rounding of
  `float(...) / 100` (1.44 is not exactly representable) is not modelled.
- UpsPicoComponent.UpsPico.SetData: `data` is limited to a byte. Its only
  callers, `led_on` and `led_off`, pass 0 and 1. What smbus2 does with a
  value outside a byte is not modelled.
- UpsPicoLegacy.UpsPico.SetData: `data` is limited to a byte, as above
  (`ledOn` and `ledOff` pass 0 and 1).
- UpsPicoComponent.UpsPico.GetData: the voltages use the corrected rule
  `Voltage.DecodeVolt`. On a word whose hexadecimal form reads as a
  mantissa and exponent (see Findings), the code as written stores a
  number and the model raises instead.
- UpsPicoLegacy.UpsPico.GetData: uses the corrected rule, as above.
- UpsPicoComponent.UpsPico.DecodeRegisters: equals `DecodeAll`, which uses
  the corrected rule; on a voltage word that float() reads in exponent
  form the code stores a number and the model raises.
- UpsPicoComponent.UpsPico.DecodeBankARegisters: calls the corrected rule
  where the code calls float(); the same exponent-form words raise in the
  model and are stored by the code.
- UpsPicoLegacy.UpsPico.DecodeRegisters: uses the corrected rule, as above.
- UpsPicoLegacy.UpsPico.DecodeBankARegisters: uses the corrected rule, as
  above.
- PicoCodec.DecodeBankA: decodes voltages with the corrected rule, not
  float(); on an exponent-form word it raises where the code stores a
  number.
- PicoCodec.DecodeAll: built on `DecodeBankA`, with the same difference.
- PicoCodec.DecodeRaisesIffNotBcd: states when the corrected decode
  raises. The code raises exactly when float() rejects a voltage word, and
  float() also accepts non-BCD words that print in exponent form, such as
  0x01e5.
- PicoCodec.DecodeRaisedIsPartial: states the partial table of the
  corrected decode. When the battery word prints in exponent form and the
  RPi word is rejected, the code stores the battery value before raising,
  where the lemma keeps the previous voltBat entry.
- Concurrency is not modelled. Nothing in the code serialises a refresh
  against a write.

## Findings

| source | as written | input that shows it | evidently intended | confidence | as-written member | corrected member |
|---|---|---|---|---|---|---|
| custom_components/ups_pico.py:209-218 (and ups_pico.py:228-237) | `float(format(word, "02x")) / 100` reads the printed hexadecimal digits as a Python float literal, and a float literal may contain an exponent `e` | voltage bytes `[0xe5, 0x01]`: word 0x01e5 prints as `"1e5"`, which reads as 100000.0, giving 1000.00 V | the word is BCD; a word with a non-decimal nibble is not a voltage and raises ValueError, as it does for every such word without an `e` | not executed | Voltage.ExponentQuirk | Voltage.DecodeVolt |
