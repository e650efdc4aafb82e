/**
 * The pixel-setting packet written to the addressable-pixel characteristic:
 * `start` (unsigned 16-bit, little-endian), a flags byte whose bit 0 asks for the
 * whole buffer to be shown now, and then raw pixel bytes in the strip's colour order.
 */
module PixelPacket {
  import opened Wrappers
  import opened Bytes
  import StructFormat

  /** The `PixelValues` named tuple: `start` is a byte offset into the pixel buffer, not a pixel index. */
  datatype PixelValues = PixelValues(start: u16, writeNow: bool, data: seq<byte>)

  /** What decoding a buffer raises: `struct.error` from `unpack_from`, or `IndexError` from `buf[2]`. */
  datatype DecodeError = StructError(reason: StructFormat.StructError) | IndexError

  /** `bool(flags & 0x1)`: bit 0 of the flags byte. */
  predicate Bit0(flags: byte)
  {
    flags % 2 == 1
  }

  /**
   * The fields of a buffer, as the service reads them: `unpack_from("<H", buf)[0]`,
   * then `bool(buf[2] & 0x1)`, then `buf[3:]`, evaluated in that order.
   */
  function Decode(buf: seq<byte>): Result<PixelValues, DecodeError>
  {
    match StructFormat.UnpackFrom("<H", buf)
    case Err(e) => Err(StructError(e))
    case Ok(fields) =>
      if |buf| <= 2 then Err(IndexError)
      else Ok(PixelValues(fields[0], Bit0(buf[2]), buf[3..]))
  }

  /** The packet layout documented for the characteristic, with any flags byte. */
  function Layout(start: u16, flags: byte, data: seq<byte>): (buf: seq<byte>)
  {
    [start % 0x100, start / 0x100, flags] + data
  }

  /** The packet a client writes for given values, with the reserved flag bits clear. */
  function Encode(v: PixelValues): seq<byte>
  {
    Layout(v.start, if v.writeNow then 1 else 0, v.data)
  }

  // ---------------------------------------------------------------------------
  // Properties

  lemma UnpackStart(buf: seq<byte>)
    ensures StructFormat.ParseFormat("<H") == Ok([StructFormat.H])
    ensures |buf| >= 2 ==> StructFormat.UnpackFrom("<H", buf) == Ok([buf[0] as int + 0x100 * buf[1] as int])
    ensures |buf| < 2 ==> StructFormat.UnpackFrom("<H", buf) == Err(StructFormat.BufferTooSmall)
  {
    assert StructFormat.ParseCodes("H").value == [StructFormat.H];
    if |buf| >= 2 {
      assert StructFormat.UnpackFrom("<H", buf).value == [buf[0] as int + 0x100 * buf[1] as int];
    }
  }

  /**
   * Decoding succeeds exactly for buffers of three bytes or more; a shorter one
   * makes `unpack_from` raise (under two bytes) or the flags index raise (two bytes).
   */
  lemma DecodeOkIff(buf: seq<byte>)
    ensures Decode(buf).Ok? <==> |buf| >= 3
    ensures |buf| < 2 ==> Decode(buf) == Err(StructError(StructFormat.BufferTooSmall))
    ensures |buf| == 2 ==> Decode(buf) == Err(IndexError)
  {
    UnpackStart(buf);
  }

  /**
   * The decoded fields: `start` is the little-endian value of bytes 0 and 1, `writeNow`
   * is bit 0 of byte 2, and `data` is every byte from index 3 to the end of the buffer.
   */
  lemma DecodeFields(buf: seq<byte>)
    requires |buf| >= 3
    ensures Decode(buf).Ok?
    ensures Decode(buf).value.start == buf[0] as int + 256 * buf[1] as int
    ensures Decode(buf).value.writeNow <==> buf[2] % 2 == 1
    ensures |Decode(buf).value.data| == |buf| - 3
    ensures forall i :: 0 <= i < |buf| - 3 ==> Decode(buf).value.data[i] == buf[3 + i]
  {
    UnpackStart(buf);
  }

  /** Bits 1 to 7 of the flags byte never change what is decoded. */
  lemma ReservedFlagBitsIgnored(a: seq<byte>, b: seq<byte>)
    requires |a| == |b| >= 3
    requires a[0] == b[0] && a[1] == b[1] && a[3..] == b[3..]
    requires a[2] % 2 == b[2] % 2
    ensures Decode(a) == Decode(b)
  {
    UnpackStart(a);
    UnpackStart(b);
  }

  /** A buffer laid out as documented decodes to its start, bit 0 of its flags, and its data. */
  lemma DecodeLayout(start: u16, flags: byte, data: seq<byte>)
    ensures Decode(Layout(start, flags, data)) == Ok(PixelValues(start, Bit0(flags), data))
  {
    var buf := Layout(start, flags, data);
    UnpackStart(buf);
    assert buf[3..] == data;
  }

  /** Every buffer of three bytes or more is the layout of what it decodes to, with its own flags byte. */
  lemma LayoutOfDecoded(buf: seq<byte>)
    requires |buf| >= 3
    ensures Decode(buf).Ok?
    ensures Layout(Decode(buf).value.start, buf[2], Decode(buf).value.data) == buf
  {
    UnpackStart(buf);
    var v := Decode(buf).value;
    assert v.start % 0x100 == buf[0] && v.start / 0x100 == buf[1];
    assert Layout(v.start, buf[2], v.data) == buf[..3] + buf[3..];
  }

  /** Decoding undoes encoding: every value triple is recovered from its packet. */
  lemma DecodeEncode(v: PixelValues)
    ensures Decode(Encode(v)) == Ok(v)
  {
    DecodeLayout(v.start, if v.writeNow then 1 else 0, v.data);
  }

  /** Start 0, write now, three data bytes (one pixel of an RGB strip, red). */
  lemma OneRedPixel()
    ensures Encode(PixelValues(0, true, [0xFF, 0x00, 0x00])) == [0x00, 0x00, 0x01, 0xFF, 0x00, 0x00]
    ensures Decode([0x00, 0x00, 0x01, 0xFF, 0x00, 0x00]) == Ok(PixelValues(0, true, [0xFF, 0x00, 0x00]))
  {
    DecodeEncode(PixelValues(0, true, [0xFF, 0x00, 0x00]));
  }

  // ---------------------------------------------------------------------------
  // Decoding only the bytes that were read

  /**
   * The decoding the service evidently intends: the same `start` and flag, but
   * `data` limited to the bytes the transport reported, `buf[3:count]`
   * (for `count >= 0` this is Python's slice: empty when `count <= 3`, cut at the
   * buffer's end; a negative count, which the transport never reports, is read as 3
   * here, whereas Python would count it from the end of the buffer).
   */
  function DecodeReceived(buf: seq<byte>, count: int): Result<PixelValues, DecodeError>
  {
    match Decode(buf)
    case Err(e) => Err(e)
    case Ok(v) =>
      var stop := if count < 3 then 3 else if count > |buf| then |buf| else count;
      Ok(v.(data := buf[3..stop]))
  }

  /**
   * Whatever the buffer held before, after the transport writes a packet at its head
   * and reports the packet's length, the packet's own values are decoded, and only them.
   */
  lemma DecodeReceivedRoundTrip(v: PixelValues, stale: seq<byte>)
    ensures var packet := Encode(v);
      DecodeReceived(packet + stale, |packet|) == Ok(v)
  {
    var packet := Encode(v);
    var buf := packet + stale;
    UnpackStart(buf);
    assert buf[..3] == packet[..3];
    assert buf[3..|packet|] == v.data;
  }

  /**
   * As written, `data` runs to the end of the buffer: a packet that leaves stale
   * bytes behind it decodes with those bytes appended to its data.
   */
  lemma DecodeKeepsStaleBytes()
    ensures Decode(Encode(PixelValues(0, true, [])) + [7, 7, 7]) == Ok(PixelValues(0, true, [7, 7, 7]))
    ensures DecodeReceived(Encode(PixelValues(0, true, [])) + [7, 7, 7], 3) == Ok(PixelValues(0, true, []))
  {
    var buf := Encode(PixelValues(0, true, [])) + [7, 7, 7];
    assert buf == [0, 0, 1, 7, 7, 7];
    DecodeLayout(0, 1, [7, 7, 7]);
    DecodeReceivedRoundTrip(PixelValues(0, true, []), [7, 7, 7]);
  }
}
