/** The constant tables and the small integer and byte helpers of the
    application: message and state codes, task codes, the calibration-flash
    sub-task cycle, timing, the adapter's header defaults, command flags and
    setting numbers, the ECU identifier table, and the `Byte`/`Int`/`Long`
    extension functions. */
module Constants {
  import opened KotlinInt

  // ---------------------------------------------------------------------------
  // Broadcast message kinds

  const MessageStateChange: int32 := 1
  const MessageTaskChange: int32 := 2
  const MessageToast: int32 := 3
  const MessageRead: int32 := 4
  const MessageReadVin: int32 := 5
  const MessageReadDtc: int32 := 6
  const MessageReadLog: int32 := 7
  const MessageWriteLog: int32 := 8
  const MessageEcuInfo: int32 := 9
  const MessageFlashResponse: int32 := 10

  // ---------------------------------------------------------------------------
  // Connection states and tasks

  datatype ConnState = StateError | StateNone | StateConnecting | StateConnected
  {
    function Code(): int32
    {
      match this
      case StateError => -1
      case StateNone => 0
      case StateConnecting => 1
      case StateConnected => 2
    }
  }

  datatype Task =
    | TaskNone
    | TaskFlashing
    | TaskLogging
    | TaskReadVin
    | TaskClearDtc
    | TaskGetEcuInfo
    | TaskFlashEcuCal
  {
    function Code(): int32
    {
      match this
      case TaskNone => 0
      case TaskFlashing => 1
      case TaskLogging => 2
      case TaskReadVin => 3
      case TaskClearDtc => 4
      case TaskGetEcuInfo => 5
      case TaskFlashEcuCal => 6
    }
  }

  /** Distinct states and tasks carry distinct codes, so the integer
      comparisons of the application agree with the comparisons of this model. */
  lemma CodesAreDistinct(s: ConnState, t: ConnState, a: Task, b: Task)
    ensures s.Code() == t.Code() <==> s == t
    ensures a.Code() == b.Code() <==> a == b
  {
  }

  // ---------------------------------------------------------------------------
  // Sub-steps of the calibration flash, in declaration order

  datatype FlashSubtask =
    | SubNone
    | GetEcuBoxCode
    | ReadFileFromStorage
    | CheckFileCompat
    | ChecksumBin
    | CompressBin
    | EncryptBin
    | SubClearDtc
    | OpenExtendedDiagnostic
    | CheckProgrammingPrecondition
    | Sa2SeedKey
    | WriteWorkshopLog
    | FlashBlock
    | ChecksumBlock
    | VerifyProgrammingDependencies
    | ResetEcu
  {
    function Ordinal(): (i: nat)
      ensures i < SubtaskCount
    {
      match this
      case SubNone => 0
      case GetEcuBoxCode => 1
      case ReadFileFromStorage => 2
      case CheckFileCompat => 3
      case ChecksumBin => 4
      case CompressBin => 5
      case EncryptBin => 6
      case SubClearDtc => 7
      case OpenExtendedDiagnostic => 8
      case CheckProgrammingPrecondition => 9
      case Sa2SeedKey => 10
      case WriteWorkshopLog => 11
      case FlashBlock => 12
      case ChecksumBlock => 13
      case VerifyProgrammingDependencies => 14
      case ResetEcu => 15
    }

    /** `next()`: the value after this one in declaration order, wrapping round. */
    function Next(): (r: FlashSubtask)
      ensures r.Ordinal() == (Ordinal() + 1) % SubtaskCount
    {
      SubtaskAt((Ordinal() + 1) % SubtaskCount)
    }
  }

  const SubtaskCount: nat := 16

  /** `values()[i]` */
  function SubtaskAt(i: nat): (r: FlashSubtask)
    requires i < SubtaskCount
    ensures r.Ordinal() == i
  {
    match i
    case 0 => SubNone
    case 1 => GetEcuBoxCode
    case 2 => ReadFileFromStorage
    case 3 => CheckFileCompat
    case 4 => ChecksumBin
    case 5 => CompressBin
    case 6 => EncryptBin
    case 7 => SubClearDtc
    case 8 => OpenExtendedDiagnostic
    case 9 => CheckProgrammingPrecondition
    case 10 => Sa2SeedKey
    case 11 => WriteWorkshopLog
    case 12 => FlashBlock
    case 13 => ChecksumBlock
    case 14 => VerifyProgrammingDependencies
    case _ => ResetEcu
  }

  /** Reading the table at a sub-task's ordinal gives the sub-task back. */
  lemma SubtaskAtOrdinal(s: FlashSubtask)
    ensures SubtaskAt(s.Ordinal()) == s
  {
  }

  /** `next()` applied `k` times. */
  function Advance(s: FlashSubtask, k: nat): FlashSubtask
    decreases k
  {
    if k == 0 then s else Advance(s, k - 1).Next()
  }

  /** `k` applications of `next()` move the ordinal `k` places round the cycle. */
  lemma {:induction false} AdvanceOrdinal(s: FlashSubtask, k: nat)
    ensures Advance(s, k).Ordinal() == (s.Ordinal() + k) % SubtaskCount
    decreases k
  {
    if k == 0 {
      DivModUnique(s.Ordinal(), SubtaskCount, 0, s.Ordinal());
    } else {
      AdvanceOrdinal(s, k - 1);
      var i := s.Ordinal() + k - 1;
      assert Advance(s, k).Ordinal() == (i % SubtaskCount + 1) % SubtaskCount;
      ModSuccessor(i, SubtaskCount);
    }
  }

  /** Counting on by one commutes with reducing modulo `d`. */
  lemma ModSuccessor(i: int, d: int)
    requires d >= 1
    ensures (i % d + 1) % d == (i + 1) % d
  {
    ModAddMultiple(i % d + 1, d, i / d);
    assert i % d + 1 + d * (i / d) == i + 1;
  }

  /** Sub-tasks with the same ordinal are the same sub-task. */
  lemma OrdinalInjective(a: FlashSubtask, b: FlashSubtask)
    requires a.Ordinal() == b.Ordinal()
    ensures a == b
  {
    SubtaskAtOrdinal(a);
    SubtaskAtOrdinal(b);
  }

  /** Sixteen steps of `next()` come back to the start. */
  lemma FullTurn(s: FlashSubtask)
    ensures Advance(s, SubtaskCount) == s
  {
    AdvanceOrdinal(s, SubtaskCount);
    DivModUnique(s.Ordinal() + SubtaskCount, SubtaskCount, 1, s.Ordinal());
    OrdinalInjective(Advance(s, SubtaskCount), s);
  }

  /** Between one and fifteen steps never come back to the start. */
  lemma ShortAdvanceMoves(s: FlashSubtask, j: nat)
    requires 0 < j < SubtaskCount
    ensures Advance(s, j).Ordinal() != s.Ordinal()
  {
    AdvanceOrdinal(s, j);
    var o := s.Ordinal();
    if o + j < SubtaskCount {
      DivModUnique(o + j, SubtaskCount, 0, o + j);
    } else {
      DivModUnique(o + j, SubtaskCount, 1, o + j - SubtaskCount);
    }
  }

  /** The last sub-task wraps round to the first. */
  lemma LastWraps()
    ensures ResetEcu.Next() == SubNone
    ensures forall s: FlashSubtask :: s != ResetEcu ==> s.Next().Ordinal() == s.Ordinal() + 1
  {
  }

  /** `next()` has period sixteen: sixteen steps return to the sub-task
      started from, and no smaller positive number of steps does. */
  lemma NextCycles(s: FlashSubtask, j: nat)
    requires 0 < j < SubtaskCount
    ensures Advance(s, SubtaskCount) == s
    ensures Advance(s, j) != s
  {
    FullTurn(s);
    ShortAdvanceMoves(s, j);
  }

  // ---------------------------------------------------------------------------
  // Timing (milliseconds)

  const TaskEndDelay: int32 := 1000
  const TaskEndTimeout: int32 := 5000
  const BleScanPeriod: int64 := 5000

  // ---------------------------------------------------------------------------
  // Adapter

  const BleDeviceName: string := "BLE_TO_ISOTP"
  const BleGattMtuSize: int32 := 512

  const BleHeaderId: int32 := 0xF1
  const BleHeaderPt: int32 := 0xF2
  const BleHeaderRx: int32 := 0x7E8
  const BleHeaderTx: int32 := 0x7E0

  const BleCommandFlagPerEnable: int32 := 1
  const BleCommandFlagPerClear: int32 := 2
  const BleCommandFlagPerAdd: int32 := 4
  const BleCommandFlagSplitPk: int32 := 8
  const BleCommandFlagSettingsGet: int32 := 64
  const BleCommandFlagSettings: int32 := 128

  const BrgSettingIsotpStmin: int32 := 1
  const BrgSettingLedColor: int32 := 2
  const BrgSettingPersistDelay: int32 := 3
  const BrgSettingPersistQDelay: int32 := 4
  const BrgSettingBleSendDelay: int32 := 5
  const BrgSettingBleMultiDelay: int32 := 6

  // Result codes of the logging collaborator
  const UdsOk: int32 := 0

  /** The command flags, in declaration order. */
  const CommandFlags: seq<int32> := [
    BleCommandFlagPerEnable, BleCommandFlagPerClear, BleCommandFlagPerAdd,
    BleCommandFlagSplitPk, BleCommandFlagSettingsGet, BleCommandFlagSettings]

  ghost predicate IsPowerOfTwo(x: int)
  {
    exists k: nat :: k < 32 && Pow2(k) == x
  }

  /** The completion grace period is shorter than the hard timeout, and the
      command flags are distinct single bits, so that they can be combined
      with `or` and told apart again. */
  lemma TimingAndFlags()
    ensures 0 < TaskEndDelay < TaskEndTimeout
    ensures forall i :: 0 <= i < |CommandFlags| ==> IsPowerOfTwo(CommandFlags[i])
    ensures forall i, j :: 0 <= i < j < |CommandFlags| ==> CommandFlags[i] != CommandFlags[j]
  {
    assert Pow2(0) == 1 && Pow2(1) == 2 && Pow2(2) == 4 && Pow2(3) == 8;
    assert Pow2(6) == 64 && Pow2(7) == 128;
  }

  /** `BLE_COMMAND_FLAG_SETTINGS or setting`: the settings flag in the top bit
      of the command byte and the setting number in the bits below it. */
  lemma SettingsCommand(setting: int32)
    requires 0 <= setting < BleCommandFlagSettings
    ensures Or32(BleCommandFlagSettings, setting) == BleCommandFlagSettings + setting
  {
    Pow2Values();
    OrCommutes(BleCommandFlagSettings, setting, 32);
    OrLowHigh(setting, 1, 7, 32);
    assert Pow2(32 - 7) >= 2 by { Pow2Monotone(1, 25); assert 32 - 7 == 25; }
    DivModUnique(1, Pow2(32 - 7), 0, 1);
    assert OrBits(setting, BleCommandFlagSettings, 32) == setting + BleCommandFlagSettings;
    Wrap32Identity(BleCommandFlagSettings + setting);
  }

  lemma {:induction false} OrCommutes(a: int, b: int, n: nat)
    ensures OrBits(a, b, n) == OrBits(b, a, n)
    decreases n
  {
    if n > 0 {
      OrCommutes(a / 2, b / 2, n - 1);
    }
  }

  // ---------------------------------------------------------------------------
  // The identifiers read by the ECU-information task, in insertion order
  // (`mapOf` keeps insertion order, and `forEach` follows it)

  /** One `name to byteArrayOf(hi.toByte(), lo.toByte())` pair of the table. */
  datatype EcuInfoEntry = EcuInfoEntry(name: string, hi: int, lo: int)
  {
    /** The identifier as the byte array the table holds. */
    function Id(): (r: seq<int8>)
      ensures |r| == 2
    {
      [Wrap8(hi), Wrap8(lo)]
    }
  }

  /** The number of entries in the table. */
  const EcuInfoCount: nat := 14

  /** The entry at position `i` of the table, in insertion order. */
  function EcuInfoAt(i: nat): EcuInfoEntry
    requires i < EcuInfoCount
  {
    if i == 0 then EcuInfoEntry("VIN", 0xF1, 0x90)
    else if i == 1 then EcuInfoEntry("ASAM/ODX File Identifier", 0xF1, 0x9E)
    else if i == 2 then EcuInfoEntry("ASAM/ODX File Version", 0xF1, 0xA2)
    else if i == 3 then EcuInfoEntry("Vehicle Speed", 0xF4, 0x0D)
    else if i == 4 then EcuInfoEntry("Calibration Version Numbers", 0xF8, 0x06)
    else if i == 5 then EcuInfoEntry("VW Spare part Number", 0xF1, 0x87)
    else if i == 6 then EcuInfoEntry("VW ASW Version", 0xF1, 0x89)
    else if i == 7 then EcuInfoEntry("ECU Hardware Number", 0xF1, 0x91)
    else if i == 8 then EcuInfoEntry("ECU Hardware Version Number", 0xF1, 0xA3)
    else if i == 9 then EcuInfoEntry("System Name/Engine type", 0xF1, 0x97)
    else if i == 10 then EcuInfoEntry("Engine Code", 0xF1, 0xAD)
    else if i == 11 then EcuInfoEntry("VW Workshop Name", 0xF1, 0xAA)
    else if i == 12 then EcuInfoEntry("State of Flash Mem", 0x04, 0x05)
    else EcuInfoEntry("VW Coding Value", 0x06, 0x00)
  }

  /** Two-byte identifier `hi lo` as the number the adapter sees on the wire. */
  function Identifier(id: seq<int8>): int
    requires |id| == 2
  {
    Unsigned(id[0]) * 0x100 + Unsigned(id[1])
  }

  /** Converting a value to a byte and reading it back unsigned keeps its low
      eight bits; a value in 0..255 comes back unchanged. */
  lemma UnsignedWrap8(v: int)
    ensures Unsigned(Wrap8(v)) == v % 0x100
    ensures 0 <= v < 0x100 ==> Unsigned(Wrap8(v)) == v
  {
    var q := (v + 0x80) / 0x100;
    assert Wrap8(v) == v + 0x100 * -q;
    ModAddMultiple(v, 0x100, -q);
    if 0 <= v < 0x100 {
      DivModUnique(v, 0x100, 0, v);
    }
  }

  /** The bytes of an entry read back as the number `hi * 256 + lo`. */
  lemma EntryIdentifier(e: EcuInfoEntry)
    requires 0 <= e.hi < 0x100 && 0 <= e.lo < 0x100
    ensures Identifier(e.Id()) == e.hi * 0x100 + e.lo
  {
    UnsignedWrap8(e.hi);
    UnsignedWrap8(e.lo);
  }

  /** The position of the entry whose identifier is `hi * 256 + lo`. */
  function NumberIndex(n: int): int
  {
    match n
    case 0xF190 => 0
    case 0xF19E => 1
    case 0xF1A2 => 2
    case 0xF40D => 3
    case 0xF806 => 4
    case 0xF187 => 5
    case 0xF189 => 6
    case 0xF191 => 7
    case 0xF1A3 => 8
    case 0xF197 => 9
    case 0xF1AD => 10
    case 0xF1AA => 11
    case 0x0405 => 12
    case 0x0600 => 13
    case _ => -1
  }

  /** The number an entry's identifier bytes spell. */
  function EntryNumber(e: EcuInfoEntry): int
  {
    e.hi * 0x100 + e.lo
  }

  /** Every entry carries bytes in 0..255, and its number leads back to its
      position, so no two entries share a number. */
  lemma EcuInfoNumbers()
    ensures forall i :: 0 <= i < EcuInfoCount ==> 0 <= EcuInfoAt(i).hi < 0x100 && 0 <= EcuInfoAt(i).lo < 0x100
    ensures forall i :: 0 <= i < EcuInfoCount ==> NumberIndex(EntryNumber(EcuInfoAt(i))) == i
  {
  }

  /** A name's length and first character, which already tell the table's
      names apart. */
  function NameKey(name: string): int
  {
    if |name| == 0 then -1 else |name| * 0x100 + name[0] as int
  }

  /** The position of the entry whose name has the given key. */
  function KeyIndex(key: int): int
  {
    match key
    case 0x356 => 0
    case 0x1841 => 1
    case 0x1541 => 2
    case 0xd56 => 3
    case 0x1b43 => 4
    case 0x1456 => 5
    case 0xe56 => 6
    case 0x1345 => 7
    case 0x1b45 => 8
    case 0x1753 => 9
    case 0xb45 => 10
    case 0x1056 => 11
    case 0x1253 => 12
    case 0xf56 => 13
    case _ => -1
  }

  /** Every name leads back to its position, so the names are distinct and
      `mapOf` keeps all fourteen entries. */
  lemma EcuInfoNames()
    ensures forall i :: 0 <= i < EcuInfoCount ==> KeyIndex(NameKey(EcuInfoAt(i).name)) == i
  {
    EcuInfoNamesFirstHalf();
    EcuInfoNamesSecondHalf();
  }

  lemma EcuInfoNamesFirstHalf()
    ensures forall i :: 0 <= i < 7 ==> KeyIndex(NameKey(EcuInfoAt(i).name)) == i
  {
  }

  lemma EcuInfoNamesSecondHalf()
    ensures forall i :: 7 <= i < EcuInfoCount ==> KeyIndex(NameKey(EcuInfoAt(i).name)) == i
  {
  }

  /** The table has fourteen entries under distinct names, every identifier
      is two bytes, no identifier repeats, and the first one asks for the VIN. */
  lemma EcuInfoTable()
    ensures forall i :: 0 <= i < EcuInfoCount ==> |EcuInfoAt(i).Id()| == 2
    ensures forall i, j :: 0 <= i < j < EcuInfoCount ==> EcuInfoAt(i).name != EcuInfoAt(j).name
    ensures forall i, j :: 0 <= i < j < EcuInfoCount ==> EcuInfoAt(i).Id() != EcuInfoAt(j).Id()
    ensures Identifier(EcuInfoAt(0).Id()) == 0xF190
  {
    EcuInfoNumbers();
    EcuInfoNames();
    forall i, j | 0 <= i < j < EcuInfoCount
      ensures EcuInfoAt(i).Id() != EcuInfoAt(j).Id()
    {
      EntryIdentifier(EcuInfoAt(i));
      EntryIdentifier(EcuInfoAt(j));
    }
    EntryIdentifier(EcuInfoAt(0));
  }

  // ---------------------------------------------------------------------------
  // Extension functions on Byte, Short, Int and Long

  /** The wire value of a byte: what `b and 0xFF` yields (see `ByteAndMask`). */
  function Unsigned(b: int8): (u: int)
    ensures 0 <= u < 0x100
  {
    b % 0x100
  }

  /** `toByte()` turns the wire value back into the byte. */
  lemma UnsignedInverse(b: int8)
    ensures Wrap8(Unsigned(b)) == b
  {
    if b >= 0 {
      DivModUnique(b, 0x100, 0, b);
      DivModUnique(b + 0x80, 0x100, 0, b + 0x80);
    } else {
      DivModUnique(b, 0x100, -1, b + 0x100);
      DivModUnique(b + 0x100 + 0x80, 0x100, 1, b + 0x80);
    }
  }

  /** Distinct bytes have distinct wire values. */
  lemma UnsignedInjective(a: int8, b: int8)
    requires Unsigned(a) == Unsigned(b)
    ensures a == b
  {
    UnsignedInverse(a);
    UnsignedInverse(b);
  }

  /** `b and 0xFF` is the wire value of `b`. */
  lemma ByteAndLow(b: int8)
    ensures ByteAnd(b, 0xFF) == Unsigned(b)
  {
    And32LowByte(b);
  }

  /** `Byte.and(that)`: the byte is sign-extended to an `Int` first. */
  function ByteAnd(b: int8, that: int32): int32
  {
    And32(b, that)
  }

  /** `Byte.shl(that)` */
  function ByteShl(b: int8, that: nat): int32
    requires that < 32
  {
    Shl32(b, that)
  }

  /** `Byte.shr(that)` */
  function ByteShr(b: int8, that: nat): int32
    requires that < 32
  {
    Shr32(b, that)
  }

  /** `Short.and(that)` */
  function ShortAnd(s: int16, that: int32): int32
  {
    And32(s, that)
  }

  /** `Short.shl(that)` */
  function ShortShl(s: int16, that: nat): int32
    requires that < 32
  {
    Shl32(s, that)
  }

  /** `Short.shr(that)` */
  function ShortShr(s: int16, that: nat): int32
    requires that < 32
  {
    Shr32(s, that)
  }

  /** Despite the sign extension, `b and 0xFF` lies in 0..255, and it is the
      bit pattern of `b`: converting it back with `toByte()` gives `b`. */
  lemma ByteAndMask(b: int8)
    ensures 0 <= ByteAnd(b, 0xFF) <= 0xFF
    ensures ByteAnd(b, 0xFF) == Unsigned(b)
    ensures Wrap8(ByteAnd(b, 0xFF)) == b
    ensures b < 0 ==> ByteAnd(b, 0xFF) == b + 0x100
  {
    ByteAndLow(b);
    UnsignedInverse(b);
    if b < 0 {
      DivModUnique(b, 0x100, -1, b + 0x100);
    }
  }

  /** A byte's value shifted left by 8 does not overflow an `Int`. */
  lemma ShlByte(v: int32)
    requires 0 <= v < 0x100
    ensures Shl32(v, 8) == v * 0x100
  {
    Pow2Values();
    Wrap32Identity(v * 0x100);
  }

  /** `Int.toArray2()`: the low 16 bits, most significant byte first. */
  function ToArray2(x: int32): (r: seq<int8>)
    ensures |r| == 2
    ensures Unsigned(r[0]) * 0x100 + Unsigned(r[1]) == x % 0x1_0000
    ensures 0 <= x < 0x1_0000 ==> Unsigned(r[0]) * 0x100 + Unsigned(r[1]) == x
  {
    ToArray2Bytes(x);
    [Wrap8(Shr32(And32(x, 0xFF00), 8)), Wrap8(And32(x, 0xFF))]
  }

  lemma ToArray2Bytes(x: int32)
    ensures Unsigned(Wrap8(Shr32(And32(x, 0xFF00), 8))) * 0x100 + Unsigned(Wrap8(And32(x, 0xFF))) == x % 0x1_0000
    ensures 0 <= x < 0x1_0000 ==> x % 0x1_0000 == x
  {
    var hi, lo := (x / 0x100) % 0x100, x % 0x100;
    And32SecondByte(x);
    And32LowByte(x);
    UnsignedWrap8(hi);
    UnsignedWrap8(lo);
    SplitDivMod(x, 0x100, 0x100);
    assert x % 0x1_0000 == lo + 0x100 * hi;
    if 0 <= x < 0x1_0000 {
      DivModUnique(x, 0x1_0000, 0, x);
    }
  }

  /** `Long.toArray4()`: the low 32 bits, most significant byte first. */
  function ToArray4(x: int64): (r: seq<int8>)
    ensures |r| == 4
    ensures Unsigned(r[0]) * 0x100_0000 + Unsigned(r[1]) * 0x1_0000 + Unsigned(r[2]) * 0x100 + Unsigned(r[3])
            == x % 0x1_0000_0000
    ensures 0 <= x < 0x1_0000_0000 ==>
              Unsigned(r[0]) * 0x100_0000 + Unsigned(r[1]) * 0x1_0000 + Unsigned(r[2]) * 0x100 + Unsigned(r[3]) == x
  {
    ToArray4Bytes(x);
    [Wrap8(Shr64(And64(x, 0xFF00_0000), 24)), Wrap8(Shr64(And64(x, 0xFF_0000), 16)),
     Wrap8(Shr64(And64(x, 0xFF00), 8)), Wrap8(And64(x, 0xFF))]
  }

  lemma ToArray4Bytes(x: int64)
    ensures Unsigned(Wrap8(Shr64(And64(x, 0xFF00_0000), 24))) * 0x100_0000
            + Unsigned(Wrap8(Shr64(And64(x, 0xFF_0000), 16))) * 0x1_0000
            + Unsigned(Wrap8(Shr64(And64(x, 0xFF00), 8))) * 0x100
            + Unsigned(Wrap8(And64(x, 0xFF))) == x % 0x1_0000_0000
    ensures 0 <= x < 0x1_0000_0000 ==> x % 0x1_0000_0000 == x
  {
    ToArray4Masks(x);
    ToArray4Digits(x);
    UnsignedWrap8((x / 0x100_0000) % 0x100);
    UnsignedWrap8((x / 0x1_0000) % 0x100);
    UnsignedWrap8((x / 0x100) % 0x100);
    UnsignedWrap8(x % 0x100);
    if 0 <= x < 0x1_0000_0000 {
      DivModUnique(x, 0x1_0000_0000, 0, x);
    }
  }

  lemma ToArray4Masks(x: int64)
    ensures Shr64(And64(x, 0xFF00_0000), 24) == (x / 0x100_0000) % 0x100
    ensures Shr64(And64(x, 0xFF_0000), 16) == (x / 0x1_0000) % 0x100
    ensures Shr64(And64(x, 0xFF00), 8) == (x / 0x100) % 0x100
    ensures And64(x, 0xFF) == x % 0x100
  {
    Pow2Values();
    ByteAt(x, 24, 0xFF00_0000, 0x100_0000);
    ByteAt(x, 16, 0xFF_0000, 0x1_0000);
    ByteAt(x, 8, 0xFF00, 0x100);
    LowByte64(x);
  }

  lemma ByteAt(x: int64, j: nat, mask: int64, p: int)
    requires j <= 24 && p == Pow2(j) && mask == 255 * p
    ensures Shr64(And64(x, mask), j) == (x / p) % 0x100
  {
    And64ByteAt(x, j, mask);
  }

  lemma LowByte64(x: int64)
    ensures And64(x, 0xFF) == x % 0x100
  {
    Pow2Values();
    AndLowMask(x, 8, 64);
    assert AndBits(x, 0xFF, 64) == x % 0x100;
    Wrap64Identity(x % 0x100);
  }

  /** The four base-256 digits of the low 32 bits. */
  lemma ToArray4Digits(x: int)
    ensures ((x / 0x100_0000) % 0x100) * 0x100_0000 + ((x / 0x1_0000) % 0x100) * 0x1_0000
            + ((x / 0x100) % 0x100) * 0x100 + x % 0x100 == x % 0x1_0000_0000
  {
    SplitDivMod(x, 0x100, 0x100);
    SplitDivMod(x, 0x1_0000, 0x100);
    SplitDivMod(x, 0x100_0000, 0x100);
  }

  /** `Long.toColorInt()`: an opaque colour from the low 24 bits. */
  function ToColorInt(x: int64): (r: int32)
    ensures r % 0x100_0000 == x % 0x100_0000
    ensures r % 0x1_0000_0000 == 0xFF00_0000 + x % 0x100_0000
    ensures r < 0
  {
    ColorBits(x);
    Or32(And32(Wrap32(x), 0xFF_FFFF), Wrap32(0xFF00_0000))
  }

  /** The colour is the low 24 bits of `x` with every bit above them set. */
  lemma ColorBits(x: int64)
    ensures var r := Or32(And32(Wrap32(x), 0xFF_FFFF), Wrap32(0xFF00_0000));
      && r == x % 0x100_0000 - 0x100_0000
      && r % 0x100_0000 == x % 0x100_0000
      && r % 0x1_0000_0000 == 0xFF00_0000 + x % 0x100_0000
  {
    var t := Wrap32(x);
    var low := x % 0x100_0000;
    assert And32(t, 0xFF_FFFF) == low by { ColorLowBits(x); }
    assert Wrap32(0xFF00_0000) == -0x100_0000;
    assert Or32(low, -0x100_0000) == low - 0x100_0000 by { ColorHighBits(low); }
    ModAddMultiple(low, 0x100_0000, -1);
    DivModUnique(low, 0x100_0000, 0, low);
    ModAddMultiple(low - 0x100_0000, 0x1_0000_0000, 1);
    DivModUnique(low + 0xFF00_0000, 0x1_0000_0000, 0, low + 0xFF00_0000);
  }

  /** `x.toInt() and 0xFFFFFF` is the low 24 bits of the `Long`. */
  lemma ColorLowBits(x: int64)
    ensures And32(Wrap32(x), 0xFF_FFFF) == x % 0x100_0000
  {
    And32Low24(Wrap32(x));
    WrapKeepsLow24(x);
  }

  lemma And32Low24(t: int32)
    ensures And32(t, 0xFF_FFFF) == t % 0x100_0000
  {
    Pow2Values();
    AndLowMask(t, 24, 32);
    assert AndBits(t, 0xFF_FFFF, 32) == t % 0x100_0000;
    Wrap32Identity(t % 0x100_0000);
  }

  /** `toInt()` drops whole multiples of `2^32`, which leaves the low 24 bits alone. */
  lemma WrapKeepsLow24(x: int)
    ensures Wrap32(x) % 0x100_0000 == x % 0x100_0000
  {
    var q := (x + 0x8000_0000) / 0x1_0000_0000;
    assert Wrap32(x) == x + 0x100_0000 * (-0x100 * q);
    ModAddMultiple(x, 0x100_0000, -0x100 * q);
  }

  /** OR-ing a 24-bit value with `0xFF000000.toInt()` sets the top byte. */
  lemma ColorHighBits(low: int)
    requires 0 <= low < 0x100_0000
    ensures Or32(low, -0x100_0000) == low - 0x100_0000
  {
    OrTopByte(low);
    WrapTopByte(low);
  }

  lemma OrTopByte(low: int)
    requires 0 <= low < 0x100_0000
    ensures OrBits(low, -0x100_0000, 32) == low + 0xFF00_0000
  {
    Pow2Values();
    var p24: int, p8: int := Pow2(24), Pow2(8);
    OrLowHigh(low, -1, 24, 32);
    assert OrBits(low, p24 * -1, 32) == low + p24 * ((-1) % p8);
    DivModUnique(-1, p8, -1, 0xFF);
  }

  lemma WrapTopByte(low: int)
    requires 0 <= low < 0x100_0000
    ensures Wrap32(low + 0xFF00_0000) == low - 0x100_0000
  {
    DivModUnique(low + 0xFF00_0000 + 0x8000_0000, 0x1_0000_0000, 1, low + 0x7F00_0000);
  }


}
