# Adafruit BLE services: wire formats and identifiers in Dafny

This project models the logic of the Adafruit "Bluefruit Playground" BLE services
that is not just a schema handed to the BLE stack:

- **Service and characteristic UUIDs** (`ServiceUuid`). `AdafruitService.adafruit_service_uuid(n)`
  fills a sub-ID, written with Python's `"{:04x}"`, into the base text
  `ADAFnnnn-C332-42A8-93BD-25E905756CB8`. The model writes `"{:04x}"` for every integer,
  negative ones included. It reads hexadecimal text back, and it proves four things:
  the map is injective on all integers; a 16-bit sub-ID gives 36 characters with only
  positions 4 to 7 varying; the text has the 8-4-4-4-12 form of section 3 of RFC 4122
  exactly for 16-bit sub-IDs; and sub-ID 0x900 gives the docstring's template with nnnn = 0900.
- **The advertisement's match prefix and product-ID entry** (`AdafruitService`). The prefix is
  `struct.pack("<BHBH", ADT, company ID, calcsize("<HH"), 0x0001)`. The `pid` field is a
  `<H` value under a `<H` key. The model proves the exact six bytes `FF 22 08 04 01 00`.
  It also proves that the length byte equals the size of the key-and-PID entry, and that
  the PID reads back from that entry. The model also covers the two characteristic factories the
  base class offers its subclasses (measurement period, sub-ID 1, default 1000, which the
  microphone and gesture services use; service version, sub-ID 2, default 1) and shows that
  their UUIDs differ.
- **The pixel packet** (`PixelPacket`, `PixelService`). `AddressablePixelService.values`
  allocates a zero-filled buffer of `packet_size` bytes on first use and keeps it. It lets
  the transport's `readinto` fill the buffer and returns `None` when the count is 0.
  Otherwise it decodes `start` (little-endian `u16`), `write_now` (bit 0 of byte 2) and
  `data` (`buf[3:]`). The service is a class with a nullable array field and a `Values`
  method. Its contract gives the new buffer contents and the result in terms of the pure
  decoder. The decoder's properties are lemmas: when it fails, field by field what it
  returns, that reserved flag bits are ignored, and the round trip with the documented layout.
- **Python's `struct`** (`StructFormat`), only as far as those lines use it: `<` formats
  with the codes `B` and `H`. It covers `pack`, `calcsize` and `unpack_from`, including
  when each raises `struct.error`. Its pack/unpack round trip and size lemmas are what the
  prefix and decoder proofs use.

The transport's `readinto` is a parameter of `Values`: the bytes it writes at the head of
the buffer and the count it returns. The model does not assume that the two agree, because
the code never relies on it.

## Model

| member | source | states |
|---|---|---|
| `StructFormat.CalcSize` | adafruit_ble_adafruit/adafruit_service.py:66 | defined by its body (the summed widths of a `<` format's codes, or a format error); properties in `StructFormat.PackSize`, `StructFormat.UnpackFromOkIff`, `AdafruitService.EntryLengthIsFour` |
| `StructFormat.Pack` | adafruit_ble_adafruit/adafruit_service.py:62-68 | defined by its body (`struct.pack` for `<` formats of `B` and `H`, with its error cases); properties in `StructFormat.PackOkIff`, `StructFormat.PackSize`, `StructFormat.UnpackFromPack` |
| `StructFormat.UnpackFrom` | adafruit_ble_adafruit/addressable_pixel_service.py:127 | defined by its body (`struct.unpack_from` at offset 0, with its error cases); properties in `StructFormat.UnpackFromPack`, `StructFormat.UnpackFromOkIff` |
| `StructFormat.PackOkIff` | adafruit_ble_adafruit/adafruit_service.py:62-68 | `struct.pack` succeeds exactly when the format is well formed, the value count matches and every value fits its code |
| `StructFormat.PackSize` | adafruit_ble_adafruit/adafruit_service.py:66 | packed bytes are exactly `calcsize(fmt)` long |
| `StructFormat.UnpackFromPack` | adafruit_ble_adafruit/addressable_pixel_service.py:127 | `unpack_from(fmt, pack(fmt, *vals) + rest)` gives back `vals`, whatever bytes follow |
| `StructFormat.UnpackFromOkIff` | adafruit_ble_adafruit/addressable_pixel_service.py:127 | `unpack_from` raises exactly when the buffer is shorter than the format's size, and then with the buffer-size error |
| `ServiceUuid.Format04x` | adafruit_ble_adafruit/adafruit_service.py:99 | defined by its body (Python's `"{:04x}"`, sign-aware zero fill); properties in `ServiceUuid.Format04xOfU16`, `ServiceUuid.Format04xInjective` |
| `ServiceUuid.AdafruitServiceUuid` | adafruit_ble_adafruit/adafruit_service.py:95-99 | defined by its body (the template with the formatted sub-ID filled in); properties in `ServiceUuid.AdafruitServiceUuidInjective`, `ServiceUuid.AdafruitServiceUuidLayout`, `ServiceUuid.AdafruitServiceUuidIsUuidTextIff`, `ServiceUuid.PixelServiceUuidText` |
| `ServiceUuid.ParseHexDigits` | adafruit_ble_adafruit/adafruit_service.py:99 | the hexadecimal digits written for `n` are hex characters that read back as `n` |
| `ServiceUuid.HexDigitsLower` | adafruit_ble_adafruit/adafruit_service.py:99 | every digit written for `n` is one of the lower-case digits `0123456789abcdef` that the `x` presentation type uses |
| `ServiceUuid.Format04xOfU16` | adafruit_ble_adafruit/adafruit_service.py:99 | for 0 <= n <= 0xFFFF, `"{:04x}"` gives exactly four lower-case hex digits denoting `n` |
| `ServiceUuid.Format04xInjective` | adafruit_ble_adafruit/adafruit_service.py:99 | `"{:04x}"` maps distinct integers, negative ones included, to distinct strings |
| `ServiceUuid.AdafruitServiceUuidInjective` | adafruit_ble_adafruit/adafruit_service.py:95-99 | distinct sub-IDs give distinct UUID strings |
| `ServiceUuid.AdafruitServiceUuidLayout` | adafruit_ble_adafruit/adafruit_service.py:96-99 | for a 16-bit sub-ID the string is `ADAF`, the four digits, then `-C332-42A8-93BD-25E905756CB8`: 36 characters with hyphens at 8, 13, 18 and 23 |
| `ServiceUuid.OnlySubIdCharactersVary` | adafruit_ble_adafruit/adafruit_service.py:99 | two 16-bit sub-IDs give strings equal at every position outside 4 to 7 |
| `ServiceUuid.AdafruitServiceUuidIsUuidTextIff` | adafruit_ble_adafruit/adafruit_service.py:95-99 | the string has the 8-4-4-4-12 hexadecimal form of section 3 of RFC 4122 if and only if 0 <= n <= 0xFFFF |
| `ServiceUuid.PixelServiceUuidText` | adafruit_ble_adafruit/addressable_pixel_service.py:90 | sub-ID 0x900 gives `ADAF0900-C332-42A8-93BD-25E905756CB8` |
| `AdafruitService.MatchPrefix` | adafruit_ble_adafruit/adafruit_service.py:61-69 | defined by its body (`struct.pack("<BHBH", …)` with `calcsize("<HH")` as the length byte); properties in `AdafruitService.MatchPrefixLayout`, `AdafruitService.MatchPrefixBytes`, `AdafruitService.PrefixAgreesWithPidEntry` |
| `AdafruitService.PidEntry` | adafruit_ble_adafruit/adafruit_service.py:75-77 | defined by its body (the `<H` key followed by the `<H` product ID); properties in `AdafruitService.PidEntryOkIff`, `AdafruitService.PrefixAgreesWithPidEntry` |
| `AdafruitService.MeasurementPeriodCharac` | adafruit_ble_adafruit/adafruit_service.py:101-108 | defined by its body (an Int32 record, readable and writable, sub-ID 0x0001); properties in `AdafruitService.SharedCharacteristicsSubIds`, `AdafruitService.SharedCharacteristicsDefaults`, `AdafruitService.SharedCharacteristicsDistinct` |
| `AdafruitService.ServiceVersionCharac` | adafruit_ble_adafruit/adafruit_service.py:110-118 | defined by its body (a read-only Uint32 record with no write access, sub-ID 0x0002); properties in `AdafruitService.SharedCharacteristicsSubIds`, `AdafruitService.SharedCharacteristicsDefaults`, `AdafruitService.SharedCharacteristicsDistinct` |
| `AdafruitService.EntryLengthIsFour` | adafruit_ble_adafruit/adafruit_service.py:66 | `calcsize("<HH")` is 4, and each of the `<H` key and `<H` PID encodings is 2 bytes |
| `AdafruitService.MatchPrefixLayout` | adafruit_ble_adafruit/adafruit_service.py:61-69 | the match prefix is the six bytes ADT, company ID low and high, 4, key low and high, unpadded and little-endian |
| `AdafruitService.MatchPrefixBytes` | adafruit_ble_adafruit/adafruit_service.py:61-69 | with ADT 0xFF and company ID 0x0822 the prefix is `FF 22 08 04 01 00` |
| `AdafruitService.PidEntryOkIff` | adafruit_ble_adafruit/adafruit_service.py:75-77 | the `<H`-keyed `<H` product-ID entry can be encoded exactly for 16-bit product IDs |
| `AdafruitService.PrefixAgreesWithPidEntry` | adafruit_ble_adafruit/adafruit_service.py:61-77 | the prefix's length byte is the size of the key-plus-PID entry, its last two bytes are that entry's key, and the PID reads back from the entry |
| `AdafruitService.SharedCharacteristicsSubIds` | adafruit_ble_adafruit/adafruit_service.py:101-118 | for any initial values, the measurement period is the Adafruit UUID with sub-ID 0x0001 and the service version the one with sub-ID 0x0002, each holding the initial value it was given |
| `AdafruitService.SharedCharacteristicsDistinct` | adafruit_ble_adafruit/adafruit_service.py:101-118 | measurement-period and service-version characteristics have different UUIDs for any initial values |
| `AdafruitService.SharedCharacteristicsDefaults` | adafruit_ble_adafruit/adafruit_service.py:101-118 | default 1000 ms on a readable and writable Int32, default version 1 on a Uint32 whose only property is read, with no write access, both with well-formed UUIDs |
| `PixelPacket.Decode` | adafruit_ble_adafruit/addressable_pixel_service.py:126-127 | defined by its body (`unpack_from("<H", buf)[0]`, `bool(buf[2] & 0x1)`, `buf[3:]`, with the errors Python raises on a short buffer); properties in `PixelPacket.DecodeOkIff`, `PixelPacket.DecodeFields`, `PixelPacket.DecodeLayout`, `PixelPacket.LayoutOfDecoded` |
| `PixelPacket.DecodeOkIff` | adafruit_ble_adafruit/addressable_pixel_service.py:127 | decoding succeeds iff the buffer has at least 3 bytes; under 2 bytes `unpack_from` raises, at 2 bytes the flags index raises |
| `PixelPacket.DecodeFields` | adafruit_ble_adafruit/addressable_pixel_service.py:126-127 | `start` is `buf[0] + 256*buf[1]`, `write_now` is bit 0 of `buf[2]`, `data` has length `len(buf) - 3` and `data[i] == buf[3+i]` |
| `PixelPacket.ReservedFlagBitsIgnored` | adafruit_ble_adafruit/addressable_pixel_service.py:127 | buffers that differ only in bits 1 to 7 of the flags byte decode identically |
| `PixelPacket.DecodeLayout` | adafruit_ble_adafruit/addressable_pixel_service.py:63-68 | a buffer laid out as documented (start, any flags byte, data) decodes to that start, bit 0 of the flags and that data |
| `PixelPacket.LayoutOfDecoded` | adafruit_ble_adafruit/addressable_pixel_service.py:127 | every buffer of 3 or more bytes is the documented layout of what it decodes to, so decoding loses only the reserved flag bits |
| `PixelPacket.DecodeEncode` | adafruit_ble_adafruit/addressable_pixel_service.py:63-68 | decoding the packet built from any `(start, write_now, data)` gives back that triple |
| `PixelPacket.OneRedPixel` | adafruit_ble_adafruit/addressable_pixel_service.py:63-68 | start 0, write now, data `FF 00 00` is the packet `00 00 01 FF 00 00` and decodes back to it |
| `PixelPacket.DecodeKeepsStaleBytes` | adafruit_ble_adafruit/addressable_pixel_service.py:127 | a 3-byte packet in a 6-byte buffer decodes with the 3 stale bytes as its data; decoding only the bytes read gives empty data |
| `PixelPacket.DecodeReceivedRoundTrip` | adafruit_ble_adafruit/addressable_pixel_service.py:122-127 | decoding `buf[3:count]` returns exactly the values of the packet just read, whatever the buffer held before |
| `PixelService.AddressablePixelService.constructor` | adafruit_ble_adafruit/addressable_pixel_service.py:108-110 | a new service has no packet buffer yet |
| `PixelService.AddressablePixelService.Values` | adafruit_ble_adafruit/addressable_pixel_service.py:112-128 | the first call allocates a zero-filled buffer of `packet_size` bytes and later calls reuse the same array. The transport's bytes overwrite its head and the rest is kept. The result is `None` for count 0, else the decoded buffer or the error decoding raises |
| `PixelService.ReadInto` | adafruit_ble_adafruit/addressable_pixel_service.py:122 | the transport's bytes overwrite the head of the buffer and the rest is kept, the length unchanged |
| `PixelService.ValuesFrom` | adafruit_ble_adafruit/addressable_pixel_service.py:122-128 | defined by its body (`None` for count 0, otherwise the decoded buffer); properties in `PixelService.ValuesNoneIff`, `PixelService.CountOnlyComparedWithZero`, `PixelService.DataCoversWholeBuffer`, `PixelService.ShortBufferRaises` |
| `PixelService.ValuesNoneIff` | adafruit_ble_adafruit/addressable_pixel_service.py:122-128 | the result is `None` iff `readinto` returned 0; with a 3-byte or longer buffer any other count yields a `PixelValues` |
| `PixelService.CountOnlyComparedWithZero` | adafruit_ble_adafruit/addressable_pixel_service.py:122 | any two non-zero counts give the same result on the same buffer |
| `PixelService.DataCoversWholeBuffer` | adafruit_ble_adafruit/addressable_pixel_service.py:117-127 | after any read into a buffer of 3 or more bytes, `data` is the whole buffer from index 3 and is `len(buf) - 3` long |
| `PixelService.ShortBufferRaises` | adafruit_ble_adafruit/addressable_pixel_service.py:127 | with a buffer under 3 bytes a non-zero count raises (`struct.error` under 2 bytes, `IndexError` at 2) |
| `PixelService.PixelServiceUuidsDistinct` | adafruit_ble_adafruit/addressable_pixel_service.py:70-98 | the service (0x900) and its characteristics (0x901, 0x902, 0x903) have pairwise distinct UUIDs |
| `PixelService.StaleDataOnSecondRead` | adafruit_ble_adafruit/addressable_pixel_service.py:117-127 | on one service, a 6-byte packet and then a 3-byte packet with no pixel bytes both return the first packet's three pixel bytes |

## Left out

- `_bleio.PacketBuffer` and `readinto` are the native transport. `Values` takes their effect as input: the bytes written at the head of the buffer and the returned count. A packet longer than the buffer is the transport's limit, so `Values` requires the incoming bytes to fit and a longer packet is outside the model. `_PixelPacket.bind`, which creates the packet buffer, is not modelled.
- `VendorUUID` parsing the UUID text into 128 bits is in the BLE library. Only the text is modelled.
- Scanning, matching the prefix against scan entries, and the serialisation done by `ManufacturerData`/`ManufacturerDataField` are in the BLE library. The model has the prefix bytes and the key-plus-PID entry, not the whole advertisement.
- `AdafruitServerAdvertisement.__init__` only sets flags on the library's advertisement object.
- Characteristic declarations with their properties and permissions are schema for the BLE stack. This covers `pixel_pin`, `pixel_pin_type`, the microphone and gesture services, and permission enforcement. The model keeps only their sub-IDs where the pixel service uses them. The two factory characteristics are modelled as plain values. Any range check of the initial value is done by the library and is not modelled.
- `AdafruitService.MeasurementPeriodCharac`, `AdafruitService.ServiceVersionCharac`: these return a value record. The real code returns a fresh library object bound later by the stack.
- `StructFormat`: only `<` formats with the codes `B` and `H` and no repeat counts. Any other format is reported as a format error, although Python would accept some of them. Offsets other than 0 for `unpack_from` are not modelled. The code uses neither.
- The example programs are a radio and hardware polling loop, or incomplete scripts, and are not part of this model.
- `PixelPacket.Encode` and `PixelPacket.Layout` have no counterpart in the code. They state the layout of the `_PixelPacket` docstring (addressable_pixel_service.py:63-68) as the partner of the decoder. A buffer shorter than 3 bytes raises Python's own errors, `struct.error` or `IndexError`, and the model keeps them.

## Findings

| source | as written | input that shows it | evidently intended | confidence | as-written member | corrected member |
|---|---|---|---|---|---|---|
| adafruit_ble_adafruit/addressable_pixel_service.py:122-127 | the count from `readinto` is only compared with 0, and `data` is `buf[3:]`, the whole reused buffer | `packet_size` 6; first packet `00 00 01 07 07 07`, then packet `00 00 01` (count 3). The second call returns data `07 07 07`, which is stale bytes of the first packet. On a first call, a packet shorter than `packet_size` likewise returns zero padding as pixel data | `data` is `buf[3:count]`, only the bytes just read | medium; not executed | `PixelService.StaleDataOnSecondRead` | `PixelPacket.DecodeReceivedRoundTrip` |

The service class keeps the code as written. `PixelPacket.DecodeReceived` is the corrected decoding. `PixelPacket.DecodeKeepsStaleBytes` sets the two decodings side by side on the same buffer.
