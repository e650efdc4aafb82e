/**
 * The Adafruit base definitions: the advertisement that carries the board's USB
 * product ID in Adafruit's manufacturer data, and the two characteristic factories
 * the base service class offers its subclasses (measurement period and service version).
 */
module AdafruitService {
  import opened Wrappers
  import opened Bytes
  import opened StructFormat
  import opened ServiceUuid

  /**
   * The advertising data type "Manufacturer Specific Data" (Part A, section 1.4
   * of the Bluetooth Core Specification Supplement), as the BLE library defines it.
   */
  const ManufacturingDataAdt: byte := 0xFF

  /** Adafruit's Bluetooth SIG company identifier, as the BLE library defines it. */
  const AdafruitCompanyId: u16 := 0x0822

  /** The manufacturer-data key under which the product ID is advertised. */
  const PidDataId: u16 := 0x0001

  /** The `key_encoding` of Adafruit's manufacturer data and the encoding of the `pid` field. */
  const KeyEncoding: string := "<H"
  const PidEncoding: string := "<H"

  /**
   * `AdafruitServerAdvertisement.match_prefixes[0]`: the advertising data type,
   * the company ID, the length of one key-value entry (`calcsize("<HH")`) and the
   * product-ID key.
   */
  function MatchPrefix(): Result<seq<byte>, StructError>
  {
    match CalcSize("<HH")
    case Err(e) => Err(e)
    case Ok(entryLength) =>
      Pack("<BHBH", [ManufacturingDataAdt as int, AdafruitCompanyId as int, entryLength, PidDataId as int])
  }

  /** The key-value entry the `pid` field stands for: the key, then the product ID. */
  function PidEntry(pid: int): Result<seq<byte>, StructError>
  {
    match (Pack(KeyEncoding, [PidDataId as int]), Pack(PidEncoding, [pid]))
    case (Ok(key), Ok(value)) => Ok(key + value)
    case (Err(e), _) => Err(e)
    case (_, Err(e)) => Err(e)
  }

  /** The permissions of a characteristic's value (`Attribute.OPEN`, `Attribute.NO_ACCESS`). */
  datatype Access = Open | NoAccess

  datatype Property = Read | Write

  /** Which integer characteristic class holds the value. */
  datatype IntKind = Int32 | Uint32

  /** An integer characteristic as declared: UUID text, properties, permissions, initial value. */
  datatype IntCharacteristic = IntCharacteristic(
    kind: IntKind,
    uuid: string,
    properties: set<Property>,
    readPerm: Access,
    writePerm: Access,
    initialValue: int)

  /** `AdafruitService.measurement_period_charac(msecs)`. */
  function MeasurementPeriodCharac(msecs: int := 1000): IntCharacteristic
  {
    IntCharacteristic(Int32, AdafruitServiceUuid(0x0001), {Read, Write}, Open, Open, msecs)
  }

  /** `AdafruitService.service_version_charac(version)`. */
  function ServiceVersionCharac(version: int := 1): IntCharacteristic
  {
    IntCharacteristic(Uint32, AdafruitServiceUuid(0x0002), {Read}, Open, NoAccess, version)
  }

  // ---------------------------------------------------------------------------
  // Properties

  /** The three format strings the advertisement uses are well formed. */
  lemma FormatsUsed()
    ensures ParseFormat("<H") == Ok([H])
    ensures ParseFormat("<HH") == Ok([H, H])
    ensures ParseFormat("<BHBH") == Ok([B, H, B, H])
  {
    assert ParseCodes("H").value == [H];
    assert ParseCodes("HH").value == [H, H];
    assert ParseCodes("BH").value == [B, H];
    assert ParseCodes("HBH").value == [H, B, H];
    assert ParseCodes("BHBH").value == [B, H, B, H];
  }

  /** `calcsize("<HH")`: one `<H` key and one `<H` value take four bytes. */
  lemma EntryLengthIsFour()
    ensures CalcSize("<HH") == Ok(4)
    ensures CalcSize(KeyEncoding) == Ok(2) && CalcSize(PidEncoding) == Ok(2)
  {
    FormatsUsed();
  }

  /** The prefix is six little-endian, unpadded bytes: type, company ID, entry length, key. */
  lemma MatchPrefixLayout()
    ensures MatchPrefix().Ok?
    ensures MatchPrefix().value ==
      [ManufacturingDataAdt as int, AdafruitCompanyId % 0x100, AdafruitCompanyId / 0x100,
       4, PidDataId % 0x100, PidDataId / 0x100]
  {
    EntryLengthIsFour();
    FormatsUsed();
    var codes: seq<Code>, vals: seq<int> := [B, H, B, H], [0xFF, 0x0822, 4, 0x0001];
    assert codes[1..] == [H, B, H] && vals[1..] == [0x0822, 4, 0x0001];
    assert codes[2..] == [B, H] && vals[2..] == [4, 0x0001];
    assert [H, B, H][1..] == [B, H] && [0x0822, 4, 0x0001][1..] == [4, 0x0001];
    assert [B, H][1..] == [H] && [4, 0x0001][1..] == [0x0001];
    assert PackFields([H], [0x0001]).Ok? && PackFields([H], [0x0001]).value == [0x01, 0x00];
    assert PackFields([B, H], [4, 0x0001]).value == [0x04, 0x01, 0x00];
    assert PackFields([H, B, H], [0x0822, 4, 0x0001]).value == [0x22, 0x08, 0x04, 0x01, 0x00];
    assert PackFields(codes, vals).value == [0xFF, 0x22, 0x08, 0x04, 0x01, 0x00];
  }

  /** With the library's constants the prefix is FF 22 08 04 01 00. */
  lemma MatchPrefixBytes()
    ensures MatchPrefix() == Ok([0xFF, 0x22, 0x08, 0x04, 0x01, 0x00])
  {
    MatchPrefixLayout();
  }

  /** The product-ID entry exists exactly for 16-bit product IDs. */
  lemma PidEntryOkIff(pid: int)
    ensures PidEntry(pid).Ok? <==> 0 <= pid <= 0xFFFF
  {
    EntryLengthIsFour();
    PackOkIff(KeyEncoding, [PidDataId as int]);
    PackOkIff(PidEncoding, [pid]);
    FormatsUsed();
  }

  /**
   * The prefix agrees with the entry of every 16-bit product ID: its length byte is
   * the entry's size and its last two bytes are the entry's key, and the product ID
   * reads back from the bytes after the prefix.
   */
  lemma PrefixAgreesWithPidEntry(pid: int)
    requires 0 <= pid <= 0xFFFF
    ensures MatchPrefix().Ok? && PidEntry(pid).Ok?
    ensures MatchPrefix().value[3] == |PidEntry(pid).value|
    ensures MatchPrefix().value[4..] == PidEntry(pid).value[..2]
    ensures UnpackFrom(PidEncoding, PidEntry(pid).value[2..]) == Ok([pid])
  {
    MatchPrefixLayout();
    PidEntryOkIff(pid);
    EntryLengthIsFour();
    var key, value := Pack(KeyEncoding, [PidDataId as int]).value, Pack(PidEncoding, [pid]).value;
    PackSize(KeyEncoding, [PidDataId as int]);
    PackSize(PidEncoding, [pid]);
    assert PidEntry(pid).value == key + value;
    assert PidEntry(pid).value[..2] == key;
    assert PidEntry(pid).value[2..] == value + [];
    UnpackFromPack(PidEncoding, [pid], []);
    FormatsUsed();
  }

  /** The measurement period is characteristic 0x0001 and the service version 0x0002 of the Adafruit base. */
  lemma SharedCharacteristicsSubIds(msecs: int, version: int)
    ensures MeasurementPeriodCharac(msecs).uuid == AdafruitServiceUuid(0x0001)
    ensures ServiceVersionCharac(version).uuid == AdafruitServiceUuid(0x0002)
    ensures MeasurementPeriodCharac(msecs).initialValue == msecs
    ensures ServiceVersionCharac(version).initialValue == version
  {
  }

  /** The two factory characteristics have different UUIDs, whatever their initial values. */
  lemma SharedCharacteristicsDistinct(msecs: int, version: int)
    ensures MeasurementPeriodCharac(msecs).uuid != ServiceVersionCharac(version).uuid
  {
    if AdafruitServiceUuid(0x0001) == AdafruitServiceUuid(0x0002) {
      AdafruitServiceUuidInjective(0x0001, 0x0002);
    }
  }

  /**
   * The measurement period is a readable and writable signed 32-bit value of
   * 1000 ms by default; the service version a read-only unsigned value, 1 by default.
   */
  lemma SharedCharacteristicsDefaults()
    ensures MeasurementPeriodCharac().initialValue == 1000 && MeasurementPeriodCharac().kind == Int32
    ensures MeasurementPeriodCharac().properties == {Read, Write} && MeasurementPeriodCharac().writePerm == Open
    ensures ServiceVersionCharac().initialValue == 1 && ServiceVersionCharac().kind == Uint32
    ensures ServiceVersionCharac().properties == {Read} && ServiceVersionCharac().writePerm == NoAccess
    ensures IsUuidText(MeasurementPeriodCharac().uuid) && IsUuidText(ServiceVersionCharac().uuid)
  {
    AdafruitServiceUuidIsUuidTextIff(0x0001);
    AdafruitServiceUuidIsUuidTextIff(0x0002);
  }
}
