/**
 * The addressable-pixel service. Its `values` property reads the next packet from
 * the pixel-packet characteristic into a buffer it allocates on first use and
 * keeps, and decodes that buffer.
 */
module PixelService {
  import opened Wrappers
  import opened Bytes
  import opened ServiceUuid
  import opened PixelPacket

  /** Sub-IDs of the service and of its characteristics. */
  const ServiceSubId := 0x900
  const PixelPinSubId := 0x901
  const PixelPinTypeSubId := 0x902
  const PixelPacketSubId := 0x903

  /**
   * The buffer after the transport's `readinto` has written `incoming` at its head;
   * the bytes after them keep what the buffer held.
   */
  function ReadInto(buf: seq<byte>, incoming: seq<byte>): (r: seq<byte>)
    requires |incoming| <= |buf|
    ensures |r| == |buf|
    ensures forall i :: 0 <= i < |r| ==> r[i] == if i < |incoming| then incoming[i] else buf[i]
  {
    incoming + buf[|incoming|..]
  }

  /**
   * What `values` gives for a buffer and the count `readinto` returned:
   * `None` for a count of 0, otherwise the decoded buffer or the error decoding raises.
   */
  function ValuesFrom(buf: seq<byte>, count: int): Result<Option<PixelValues>, DecodeError>
  {
    if count == 0 then Ok(None)
    else
      match Decode(buf)
      case Ok(v) => Ok(Some(v))
      case Err(e) => Err(e)
  }

  class AddressablePixelService {
    /** `_pixel_packet.packet_size`, fixed by the transport when the characteristic is bound. */
    const packetSize: nat

    /** `_pixel_packet_buf`: no buffer until the first read. */
    var pixelPacketBuf: array?<byte>

    ghost predicate Valid()
      reads this
    {
      pixelPacketBuf != null ==> pixelPacketBuf.Length == packetSize
    }

    constructor (packetSize: nat)
      ensures Valid()
      ensures this.packetSize == packetSize && pixelPacketBuf == null
    {
      this.packetSize := packetSize;
      pixelPacketBuf := null;
    }

    /**
     * The `values` property. The transport's `readinto` is given as the bytes it
     * writes into the buffer (`incoming`) and the count it returns (`count`).
     */
    method Values(incoming: seq<byte>, count: int) returns (r: Result<Option<PixelValues>, DecodeError>)
      requires Valid()
      requires |incoming| <= packetSize
      modifies this, pixelPacketBuf
      ensures Valid() && pixelPacketBuf != null
      ensures old(pixelPacketBuf) == null ==> fresh(pixelPacketBuf)
      ensures old(pixelPacketBuf) != null ==> pixelPacketBuf == old(pixelPacketBuf)
      ensures pixelPacketBuf[..] ==
        ReadInto(if old(pixelPacketBuf) == null then Zeros(packetSize) else old(pixelPacketBuf[..]), incoming)
      ensures r == ValuesFrom(pixelPacketBuf[..], count)
    {
      if pixelPacketBuf == null {
        pixelPacketBuf := new byte[packetSize](_ => 0);
      }
      var buf := pixelPacketBuf;
      ghost var before := buf[..];
      forall i | 0 <= i < |incoming| {
        buf[i] := incoming[i];
      }
      assert buf[..] == ReadInto(before, incoming);
      if count == 0 {
        return Ok(None);
      }
      r := match Decode(buf[..])
        case Ok(v) => Ok(Some(v))
        case Err(e) => Err(e);
    }
  }

  // ---------------------------------------------------------------------------
  // Properties

  /** `values` is `None` exactly when `readinto` reported no bytes; otherwise a 3-byte buffer always decodes. */
  lemma ValuesNoneIff(buf: seq<byte>, count: int)
    ensures ValuesFrom(buf, count) == Ok(None) <==> count == 0
    ensures count != 0 && |buf| >= 3 ==> ValuesFrom(buf, count).Ok? && ValuesFrom(buf, count).value.Some?
  {
    DecodeOkIff(buf);
  }

  /** The count is only compared with 0: every non-zero count gives the same values. */
  lemma CountOnlyComparedWithZero(buf: seq<byte>, c1: int, c2: int)
    requires c1 != 0 && c2 != 0
    ensures ValuesFrom(buf, c1) == ValuesFrom(buf, c2)
  {
  }

  /**
   * The data covers the whole buffer, however few bytes were read: with the
   * buffer of `packetSize` bytes, data is `packetSize - 3` bytes long.
   */
  lemma DataCoversWholeBuffer(previous: seq<byte>, incoming: seq<byte>, count: int)
    requires |incoming| <= |previous| && |previous| >= 3 && count != 0
    ensures var buf := ReadInto(previous, incoming);
      ValuesFrom(buf, count).Ok? && ValuesFrom(buf, count).value.Some? &&
      ValuesFrom(buf, count).value.value.data == buf[3..] &&
      |ValuesFrom(buf, count).value.value.data| == |previous| - 3
  {
    var buf := ReadInto(previous, incoming);
    DecodeFields(buf);
  }

  /** With the buffer too short to hold start and flags, a reported packet raises instead of decoding. */
  lemma ShortBufferRaises(buf: seq<byte>, count: int)
    requires |buf| < 3 && count != 0
    ensures ValuesFrom(buf, count).Err?
    ensures ValuesFrom(buf, count).error ==
      if |buf| < 2 then StructError(StructFormat.BufferTooSmall) else IndexError
  {
    DecodeOkIff(buf);
  }

  /** The service and its three characteristics have four different UUIDs. */
  lemma PixelServiceUuidsDistinct()
    ensures var ids := [ServiceSubId, PixelPinSubId, PixelPinTypeSubId, PixelPacketSubId];
      forall i, j :: 0 <= i < j < 4 ==> AdafruitServiceUuid(ids[i]) != AdafruitServiceUuid(ids[j])
  {
    var ids := [ServiceSubId, PixelPinSubId, PixelPinTypeSubId, PixelPacketSubId];
    forall i, j | 0 <= i < j < 4
      ensures AdafruitServiceUuid(ids[i]) != AdafruitServiceUuid(ids[j])
    {
      if AdafruitServiceUuid(ids[i]) == AdafruitServiceUuid(ids[j]) {
        AdafruitServiceUuidInjective(ids[i], ids[j]);
      }
    }
  }

  /**
   * Two reads through one service: a full packet of six bytes, then a packet of
   * three bytes with no pixel data. The second read still returns the first
   * packet's pixel bytes, because the buffer is reused and `data` runs to its end.
   */
  method StaleDataOnSecondRead() returns (first: Result<Option<PixelValues>, DecodeError>,
                                          second: Result<Option<PixelValues>, DecodeError>)
    ensures first == Ok(Some(PixelValues(0, true, [7, 7, 7])))
    ensures second == Ok(Some(PixelValues(0, true, [7, 7, 7])))
  {
    var service := new AddressablePixelService(6);
    first := service.Values([0, 0, 1, 7, 7, 7], 6);
    DecodeLayout(0, 1, [7, 7, 7]);
    assert service.pixelPacketBuf[..] == [0, 0, 1, 7, 7, 7];
    second := service.Values([0, 0, 1], 3);
    assert service.pixelPacketBuf[..] == [0, 0, 1, 7, 7, 7];
  }
}
