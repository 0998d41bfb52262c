/** The register map of the UPS PIco board and the two pure halves of its
    codec: how a refresh assembles the raw register table from three block
    reads, and how the raw tables decode into the named value table. */
module PicoCodec {
  import opened Outcomes
  import opened I2c
  import opened HexFormat
  import opened Voltage

  /** Bank A: power mode, voltages, temperature and versions. */
  const BankA: byte := 0x69
  /** Bank B: battery run time and the LEDs. */
  const BankB: byte := 0x6b

  /** Bank A is read as a low region 0x00..0x1c and a high region
      0x20..0x26; three filler bytes stand for the unread 0x1d..0x1f so
      that logical offsets into the joined buffer equal register numbers. */
  const LowLength: nat := 0x1d
  const HighStart: byte := 0x20
  const HighLength: nat := 7
  const Filler: seq<byte> := [0xff, 0xff, 0xff]
  const BankALength: nat := 0x27
  /** Bank B is read as one region 0x00..0x15. */
  const BankBLength: nat := 0x16

  /** A value of the decoded table: text, a voltage (in hundredths of a
      volt), or an integer. */
  datatype Value = Str(text: string) | Volts(hundredths: nat) | Int(n: int)

  /** The keys of the decoded table; Name gives the key the source uses. */
  datatype Field =
    | PwrMode | VoltBat | VoltRpi | TempNtc1 | VerPCB | VerBoot | VerFW
    | PwrRunTime | LedOrange | LedGreen | LedBlue | LedEnable

  function Name(f: Field): string {
    match f
    case PwrMode => "pwrMode"
    case VoltBat => "voltBat"
    case VoltRpi => "voltRpi"
    case TempNtc1 => "tempNtc1"
    case VerPCB => "verPCB"
    case VerBoot => "verBoot"
    case VerFW => "verFW"
    case PwrRunTime => "pwrRunTime"
    case LedOrange => "ledOrange"
    case LedGreen => "ledGreen"
    case LedBlue => "ledBlue"
    case LedEnable => "ledEnable"
  }

  /** The Bank B register written for each writable field name. */
  const RegDict: map<string, byte> :=
    map["ledOrange" := 0x09, "ledGreen" := 0x0a, "ledBlue" := 0x0b, "ledEnable" := 0x15]

  /** The decoded-table key of a writable field name. */
  function LedField(name: string): (f: Field)
    requires name in RegDict
    ensures Name(f) == name
    ensures f in {LedOrange, LedGreen, LedBlue, LedEnable}
  {
    if name == "ledOrange" then LedOrange
    else if name == "ledGreen" then LedGreen
    else if name == "ledBlue" then LedBlue
    else LedEnable
  }


  /** How a refresh-and-decode call ends: it returns a boolean, or float()
      raises ValueError out of it. */
  datatype Status = Returned(value: bool) | ValueErrorRaised

  /** The device's replies to the three block reads of a refresh; a reply
      that arrives has the requested length. */
  predicate RepliesWellFormed(low: Option<seq<byte>>, high: Option<seq<byte>>, bankB: Option<seq<byte>>) {
    (low.Some? ==> |low.value| == LowLength) &&
    (high.Some? ==> |high.value| == HighLength) &&
    (bankB.Some? ==> |bankB.value| == BankBLength)
  }

  /** The block reads a refresh issues: it stops at the first failing one. */
  function ReadsIssued(low: Option<seq<byte>>, high: Option<seq<byte>>, bankB: Option<seq<byte>>): seq<Transaction> {
    [BlockRead(BankA, 0, LowLength)] +
    if low.None? then [] else
      [BlockRead(BankA, HighStart, HighLength)] +
      if high.None? then [] else [BlockRead(BankB, 0, BankBLength)]
  }

  datatype RefreshResult = RefreshResult(ok: bool, reg: map<int, seq<byte>>)

  /** The raw register table after a refresh with the given replies. */
  function Refresh(low: Option<seq<byte>>, high: Option<seq<byte>>, bankB: Option<seq<byte>>,
                   reg: map<int, seq<byte>>): (r: RefreshResult)
    requires RepliesWellFormed(low, high, bankB)
    ensures r.ok <==> low.Some? && high.Some? && bankB.Some?
    ensures r.ok ==> BankA in r.reg && |r.reg[BankA]| == BankALength
    ensures r.ok ==> BankB in r.reg && r.reg[BankB] == bankB.value && |r.reg[BankB]| == BankBLength
    ensures low.None? || high.None? ==> r.reg == reg
    ensures low.Some? && high.Some? ==> BankA in r.reg && r.reg[BankA] == low.value + Filler + high.value
    ensures bankB.None? ==> (BankB in r.reg <==> BankB in reg) && (BankB in reg ==> r.reg[BankB] == reg[BankB])
    ensures forall addr :: addr != BankA && addr != BankB ==>
      (addr in r.reg <==> addr in reg) && (addr in reg ==> r.reg[addr] == reg[addr])
  {
    if low.None? || high.None? then RefreshResult(false, reg)
    else
      var a := low.value + Filler + high.value;
      if bankB.None? then RefreshResult(false, reg[BankA := a])
      else RefreshResult(true, reg[BankA := a][BankB := bankB.value])
  }

  /** The joined Bank A buffer holds register k at index k: the low region
      at 0x00..0x1c, the filler 0xff at 0x1d..0x1f, the high region at
      0x20..0x26. */
  lemma RefreshBankALayout(low: Option<seq<byte>>, high: Option<seq<byte>>, bankB: Option<seq<byte>>,
                           reg: map<int, seq<byte>>)
    requires RepliesWellFormed(low, high, bankB) && low.Some? && high.Some?
    ensures var a := Refresh(low, high, bankB, reg).reg[BankA];
      |a| == BankALength &&
      (forall k :: 0 <= k < LowLength ==> a[k] == low.value[k]) &&
      (forall k :: LowLength <= k < HighStart ==> a[k] == 0xff) &&
      (forall k :: 0 <= k < HighLength ==> a[HighStart + k] == high.value[k])
  {
  }

  /** The power-mode register: 1 and 2 name a mode, any other byte names
      none. */
  function PowerMode(b: byte): (r: Option<string>)
    ensures r == Some("RPi powered") <==> b == 1
    ensures r == Some("UPS powered") <==> b == 2
    ensures r.None? <==> b != 1 && b != 2
  {
    if b == 1 then Some("RPi powered") else if b == 2 then Some("UPS powered") else None
  }

  /** The battery run-time register: 0xff disables the limit, any other
      byte is the run time in minutes less one. */
  function RunTime(b: byte): (v: Value)
    ensures v.Str? <==> b == 0xff
    ensures v.Str? ==> v.text == "disabled"
    ensures v.Int? ==> 1 <= v.n <= 0xff && v.n - 1 == b
    ensures !v.Volts?
  {
    if b == 0xff then Str("disabled") else Int(1 + b)
  }

  /** Different run-time bytes never decode alike. */
  lemma RunTimeInjective(x: byte, y: byte)
    requires RunTime(x) == RunTime(y)
    ensures x == y
  {
  }

  /** chr(b): the one-character text whose character code is b. */
  function Chr(b: byte): (s: string)
    ensures |s| == 1 && s[0] as int == b
  {
    [b as char]
  }

  /** How decoding the raw tables ends: every field written, or float()
      raised after the fields written so far. */
  datatype DecodeOutcome = Completed(data: map<Field, Value>) | Raised(data: map<Field, Value>)

  /** The version and temperature fields of Bank A written over m. */
  function DecodeVersions(a: seq<byte>, m: map<Field, Value>): map<Field, Value>
    requires |a| >= BankALength
  {
    m[TempNtc1 := Str(Format02x(a[0x1b]))]
     [VerPCB := Str(Chr(a[0x24]))]
     [VerBoot := Str(Chr(a[0x25]))]
     [VerFW := Str(Format02x(a[0x26]))]
  }

  /** The fields decoded from Bank B. */
  predicate IsBankBField(f: Field) {
    f == PwrRunTime || f == LedOrange || f == LedGreen || f == LedBlue || f == LedEnable
  }

  /** The Bank B fields written over m: they are all present afterwards,
      and every other entry of m is kept. */
  function DecodeBankB(b: seq<byte>, m: map<Field, Value>): (r: map<Field, Value>)
    requires |b| >= BankBLength
    ensures forall f :: IsBankBField(f) ==> f in r
    ensures forall f :: !IsBankBField(f) ==> (f in r <==> f in m) && (f in m ==> r[f] == m[f])
  {
    m[PwrRunTime := RunTime(b[0x01])]
     [LedOrange := Int(b[0x09])]
     [LedGreen := Int(b[0x0a])]
     [LedBlue := Int(b[0x0b])]
     [LedEnable := Int(b[0x15])]
  }

  /** The pwrMode entry written over prev when the power-mode byte names a
      mode; prev itself otherwise. */
  function WithPowerMode(prev: map<Field, Value>, mode: byte): map<Field, Value> {
    var name := PowerMode(mode);
    if name.Some? then prev[PwrMode := Str(name.value)] else prev
  }

  /** The Bank A half of the decode over prev: power mode, the two
      voltages, then the version and temperature fields; float() raises on
      a voltage word that is not BCD, after the fields before it. It
      completes exactly when both voltage words decode, and it never
      touches a Bank B field. */
  function DecodeBankA(a: seq<byte>, prev: map<Field, Value>): (r: DecodeOutcome)
    requires |a| >= BankALength
    ensures r.Completed? <==> DecodeVolt(a[0x08], a[0x09]).Some? && DecodeVolt(a[0x0a], a[0x0b]).Some?
    ensures forall f :: IsBankBField(f) ==> (f in r.data <==> f in prev) && (f in prev ==> r.data[f] == prev[f])
  {
    var withMode := WithPowerMode(prev, a[0x00]);
    var bat := DecodeVolt(a[0x08], a[0x09]);
    if bat.None? then Raised(withMode)
    else
      var withBat := withMode[VoltBat := Volts(bat.value)];
      var rpi := DecodeVolt(a[0x0a], a[0x0b]);
      if rpi.None? then Raised(withBat)
      else Completed(DecodeVersions(a, withBat[VoltRpi := Volts(rpi.value)]))
  }

  /** The decode half of get_data: the field table after decoding Bank A
      buffer a and Bank B buffer b over the previous table prev, field by
      field in the source's order. It raises exactly when a voltage word
      does not decode, and then before any Bank B field is written. */
  function DecodeAll(a: seq<byte>, b: seq<byte>, prev: map<Field, Value>): (r: DecodeOutcome)
    requires |a| >= BankALength && |b| >= BankBLength
    ensures r.Raised? <==> DecodeVolt(a[0x08], a[0x09]).None? || DecodeVolt(a[0x0a], a[0x0b]).None?
    ensures r.Raised? ==> forall f :: IsBankBField(f) ==> (f in r.data <==> f in prev) && (f in prev ==> r.data[f] == prev[f])
  {
    match DecodeBankA(a, prev)
    case Raised(d) => Raised(d)
    case Completed(d) => Completed(DecodeBankB(b, d))
  }

  /** Decoding stops with ValueError exactly when one of the two voltage
      words is not BCD. */
  lemma DecodeRaisesIffNotBcd(a: seq<byte>, b: seq<byte>, prev: map<Field, Value>)
    requires |a| >= BankALength && |b| >= BankBLength
    ensures DecodeAll(a, b, prev).Raised? <==>
      !IsBcd(Word(a[0x08], a[0x09])) || !IsBcd(Word(a[0x0a], a[0x0b]))
  {
  }

  /** pwrMode follows bytes 1 and 2 and otherwise keeps its previous entry
      (or stays absent), whether or not decoding completes. */
  lemma DecodePowerMode(a: seq<byte>, b: seq<byte>, prev: map<Field, Value>)
    requires |a| >= BankALength && |b| >= BankBLength
    ensures var d := DecodeAll(a, b, prev).data;
      (a[0x00] == 1 ==> PwrMode in d && d[PwrMode] == Str("RPi powered")) &&
      (a[0x00] == 2 ==> PwrMode in d && d[PwrMode] == Str("UPS powered")) &&
      (a[0x00] != 1 && a[0x00] != 2 ==>
        (PwrMode in d <==> PwrMode in prev) && (PwrMode in prev ==> d[PwrMode] == prev[PwrMode]))
  {
  }

  /** Helper for the lemmas below: when both voltage words are BCD the
      decode completes, and its table is the power mode, the two voltages,
      the version fields and the Bank B fields written in turn over prev. */
  lemma DecodeCompletedShape(a: seq<byte>, b: seq<byte>, prev: map<Field, Value>)
    requires |a| >= BankALength && |b| >= BankBLength
    requires IsBcd(Word(a[0x08], a[0x09])) && IsBcd(Word(a[0x0a], a[0x0b]))
    ensures DecodeAll(a, b, prev).Completed?
    ensures DecodeAll(a, b, prev).data ==
      DecodeBankB(b, DecodeVersions(a, WithPowerMode(prev, a[0x00])
        [VoltBat := Volts(BcdValue(Word(a[0x08], a[0x09])))]
        [VoltRpi := Volts(BcdValue(Word(a[0x0a], a[0x0b])))]))
  {
  }

  /** After a complete decode (both voltage words BCD) the voltages are
      the BCD values of their words, both below 100.00 V, and every field
      but pwrMode is present. */
  lemma DecodeCompletedVoltages(a: seq<byte>, b: seq<byte>, prev: map<Field, Value>)
    requires |a| >= BankALength && |b| >= BankBLength
    requires IsBcd(Word(a[0x08], a[0x09])) && IsBcd(Word(a[0x0a], a[0x0b]))
    ensures var d := DecodeAll(a, b, prev).data;
      (forall f :: f != PwrMode ==> f in d) &&
      d[VoltBat] == Volts(BcdValue(Word(a[0x08], a[0x09]))) && d[VoltBat].hundredths < 10000 &&
      d[VoltRpi] == Volts(BcdValue(Word(a[0x0a], a[0x0b]))) && d[VoltRpi].hundredths < 10000
  {
    DecodeCompletedShape(a, b, prev);
  }

  /** After a complete decode tempNtc1 and verFW are the two lower-case
      hexadecimal digits of their bytes, and verPCB and verBoot the
      characters whose codes are their bytes. */
  lemma DecodeCompletedVersions(a: seq<byte>, b: seq<byte>, prev: map<Field, Value>)
    requires |a| >= BankALength && |b| >= BankBLength
    requires IsBcd(Word(a[0x08], a[0x09])) && IsBcd(Word(a[0x0a], a[0x0b]))
    ensures var d := DecodeAll(a, b, prev).data;
      TempNtc1 in d && VerPCB in d && VerBoot in d && VerFW in d &&
      d[TempNtc1] == Str([HexChar(a[0x1b] / 16), HexChar(a[0x1b] % 16)]) &&
      HexValue(d[TempNtc1].text) == a[0x1b] &&
      d[VerPCB] == Str([a[0x24] as char]) &&
      d[VerBoot] == Str([a[0x25] as char]) &&
      d[VerFW] == Str([HexChar(a[0x26] / 16), HexChar(a[0x26] % 16)]) &&
      HexValue(d[VerFW].text) == a[0x26]
  {
    DecodeCompletedShape(a, b, prev);
    Format02xByte(a[0x1b]);
    Format02xRoundTrip(a[0x1b]);
    Format02xByte(a[0x26]);
    Format02xRoundTrip(a[0x26]);
  }

  /** After a complete decode pwrRunTime is "disabled" for 0xff and the
      byte plus one otherwise, and each LED field is its raw byte. */
  lemma DecodeCompletedBankB(a: seq<byte>, b: seq<byte>, prev: map<Field, Value>)
    requires |a| >= BankALength && |b| >= BankBLength
    requires IsBcd(Word(a[0x08], a[0x09])) && IsBcd(Word(a[0x0a], a[0x0b]))
    ensures var d := DecodeAll(a, b, prev).data;
      PwrRunTime in d && LedOrange in d && LedGreen in d && LedBlue in d && LedEnable in d &&
      d[PwrRunTime] == (if b[0x01] == 0xff then Str("disabled") else Int(b[0x01] + 1)) &&
      d[LedOrange] == Int(b[0x09]) && d[LedGreen] == Int(b[0x0a]) &&
      d[LedBlue] == Int(b[0x0b]) && d[LedEnable] == Int(b[0x15])
  {
    DecodeCompletedShape(a, b, prev);
  }

  /** When float() raises, only pwrMode and (if the battery word was BCD)
      voltBat have been written; every other field keeps its entry. */
  lemma DecodeRaisedIsPartial(a: seq<byte>, b: seq<byte>, prev: map<Field, Value>)
    requires |a| >= BankALength && |b| >= BankBLength
    requires DecodeAll(a, b, prev).Raised?
    ensures var d := DecodeAll(a, b, prev).data;
      (forall f :: f != PwrMode && f != VoltBat ==> (f in d <==> f in prev) && (f in prev ==> d[f] == prev[f])) &&
      (IsBcd(Word(a[0x08], a[0x09])) ==> VoltBat in d && d[VoltBat] == Volts(BcdValue(Word(a[0x08], a[0x09])))) &&
      (!IsBcd(Word(a[0x08], a[0x09])) ==> (VoltBat in d <==> VoltBat in prev) && (VoltBat in prev ==> d[VoltBat] == prev[VoltBat]))
  {
  }

  /** The register set_data writes for a field is the Bank B offset the
      decode reads that field from, so a read-back after a write decodes
      the written byte. */
  lemma LedWriteReadBack(name: string, b: seq<byte>, m: map<Field, Value>)
    requires name in RegDict && |b| >= BankBLength
    ensures LedField(name) in DecodeBankB(b, m)
    ensures DecodeBankB(b, m)[LedField(name)] == Int(b[RegDict[name]])
  {
  }
}
