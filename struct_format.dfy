/**
 * The part of Python's `struct` module that the services use: little-endian,
 * unpadded formats (`<` followed by the codes `B` and `H`), with `pack`,
 * `calcsize` and `unpack_from` and the cases in which they raise `struct.error`.
 */
module StructFormat {
  import opened Wrappers
  import opened Bytes

  /** `B` is an unsigned char (one byte), `H` an unsigned short (two bytes). */
  datatype Code = B | H

  /** The reasons `struct` raises `struct.error` in this model. */
  datatype StructError =
    | BadFormat       // no leading '<', or a code other than B and H
    | WrongItemCount  // pack got a different number of values than the format holds
    | OutOfRange      // a value does not fit the code it is packed with
    | BufferTooSmall  // unpack_from got fewer bytes than the format's size

  /** Number of bytes one field of code `c` occupies with standard sizes. */
  function Width(c: Code): (w: nat)
    ensures w == 1 || w == 2
  {
    match c
    case B => 1
    case H => 2
  }

  /** Exclusive upper bound of the values code `c` accepts. */
  function Bound(c: Code): nat
  {
    match c
    case B => 0x100
    case H => 0x1_0000
  }

  /** Whether `v` can be packed with code `c`. */
  predicate Fits(c: Code, v: int)
  {
    0 <= v < Bound(c)
  }

  /** The code a format character names, if it is one of the modelled ones. */
  function CodeOf(ch: char): Option<Code>
  {
    if ch == 'B' then Some(B) else if ch == 'H' then Some(H) else None
  }

  /** The codes named by the characters of `s`, if every one is `B` or `H`. */
  function ParseCodes(s: string): (r: Option<seq<Code>>)
    ensures r.Some? ==> |r.value| == |s|
  {
    if s == [] then Some([])
    else
      match CodeOf(s[0])
      case None => None
      case Some(c) =>
        match ParseCodes(s[1..])
        case None => None
        case Some(rest) => Some([c] + rest)
  }

  /** A format string: the little-endian, no-padding prefix `<` and then codes. */
  function ParseFormat(fmt: string): Result<seq<Code>, StructError>
  {
    if |fmt| == 0 || fmt[0] != '<' then Err(BadFormat)
    else
      match ParseCodes(fmt[1..])
      case Some(codes) => Ok(codes)
      case None => Err(BadFormat)
  }

  /** The number of bytes a sequence of fields occupies. */
  function Size(codes: seq<Code>): nat
  {
    if codes == [] then 0 else Width(codes[0]) + Size(codes[1..])
  }

  /** `struct.calcsize(fmt)`. */
  function CalcSize(fmt: string): Result<nat, StructError>
  {
    match ParseFormat(fmt)
    case Ok(codes) => Ok(Size(codes))
    case Err(e) => Err(e)
  }

  /** One field, least significant byte first. */
  function PackField(c: Code, v: int): (r: seq<byte>)
    requires Fits(c, v)
    ensures |r| == Width(c)
  {
    match c
    case B => [v]
    case H => [v % 0x100, v / 0x100]
  }

  /** The value of a field of code `c` stored at the head of `bs`. */
  function UnpackField(c: Code, bs: seq<byte>): (v: nat)
    requires |bs| >= Width(c)
    ensures Fits(c, v)
  {
    match c
    case B => bs[0]
    case H => bs[0] as int + 0x100 * (bs[1] as int)
  }

  /** The fields packed one after the other; fails on the first value that does not fit. */
  function PackFields(codes: seq<Code>, vals: seq<int>): (r: Result<seq<byte>, StructError>)
    requires |vals| == |codes|
    ensures r.Ok? ==> |r.value| == Size(codes)
  {
    if codes == [] then Ok([])
    else if !Fits(codes[0], vals[0]) then Err(OutOfRange)
    else
      match PackFields(codes[1..], vals[1..])
      case Ok(rest) => Ok(PackField(codes[0], vals[0]) + rest)
      case Err(e) => Err(e)
  }

  /** `struct.pack(fmt, *vals)`. */
  function Pack(fmt: string, vals: seq<int>): Result<seq<byte>, StructError>
  {
    match ParseFormat(fmt)
    case Err(e) => Err(e)
    case Ok(codes) =>
      if |vals| != |codes| then Err(WrongItemCount) else PackFields(codes, vals)
  }

  /** The fields stored one after the other at the head of `bs`. */
  function UnpackFields(codes: seq<Code>, bs: seq<byte>): (vals: seq<int>)
    requires |bs| >= Size(codes)
    ensures |vals| == |codes|
    ensures forall i :: 0 <= i < |codes| ==> Fits(codes[i], vals[i])
  {
    if codes == [] then []
    else [UnpackField(codes[0], bs)] + UnpackFields(codes[1..], bs[Width(codes[0])..])
  }

  /** `struct.unpack_from(fmt, buf)` with the default offset 0: bytes past the format's size are ignored. */
  function UnpackFrom(fmt: string, buf: seq<byte>): Result<seq<int>, StructError>
  {
    match ParseFormat(fmt)
    case Err(e) => Err(e)
    case Ok(codes) =>
      if |buf| < Size(codes) then Err(BufferTooSmall) else Ok(UnpackFields(codes, buf))
  }

  // ---------------------------------------------------------------------------
  // Properties

  /** Packing a field and reading it back gives the value, whatever follows it. */
  lemma UnpackPackField(c: Code, v: int, rest: seq<byte>)
    requires Fits(c, v)
    ensures UnpackField(c, PackField(c, v) + rest) == v
  {
  }

  /** Packing succeeds exactly when every value fits its code. */
  lemma {:induction false} PackFieldsOkIff(codes: seq<Code>, vals: seq<int>)
    requires |vals| == |codes|
    ensures PackFields(codes, vals).Ok? <==> forall i :: 0 <= i < |codes| ==> Fits(codes[i], vals[i])
  {
    if codes != [] {
      PackFieldsOkIff(codes[1..], vals[1..]);
      assert forall i :: 1 <= i < |codes| ==> codes[i] == codes[1..][i - 1] && vals[i] == vals[1..][i - 1];
    }
  }

  /** Whatever `pack` produces, `unpack_from` with the same format reads back, also from a longer buffer. */
  lemma {:induction false} UnpackPackFields(codes: seq<Code>, vals: seq<int>, rest: seq<byte>)
    requires |vals| == |codes| && PackFields(codes, vals).Ok?
    ensures UnpackFields(codes, PackFields(codes, vals).value + rest) == vals
  {
    if codes != [] {
      var head := PackField(codes[0], vals[0]);
      var tail := PackFields(codes[1..], vals[1..]).value;
      assert PackFields(codes, vals).value + rest == head + (tail + rest);
      UnpackPackField(codes[0], vals[0], tail + rest);
      assert (head + (tail + rest))[Width(codes[0])..] == tail + rest;
      UnpackPackFields(codes[1..], vals[1..], rest);
    }
  }

  /** `pack` succeeds exactly when the format is good, the count matches and every value fits. */
  lemma PackOkIff(fmt: string, vals: seq<int>)
    ensures Pack(fmt, vals).Ok? <==>
      ParseFormat(fmt).Ok? && |vals| == |ParseFormat(fmt).value| &&
      forall i :: 0 <= i < |vals| ==> Fits(ParseFormat(fmt).value[i], vals[i])
  {
    if ParseFormat(fmt).Ok? && |vals| == |ParseFormat(fmt).value| {
      PackFieldsOkIff(ParseFormat(fmt).value, vals);
    }
  }

  /** The packed bytes are exactly `calcsize(fmt)` long. */
  lemma PackSize(fmt: string, vals: seq<int>)
    requires Pack(fmt, vals).Ok?
    ensures CalcSize(fmt) == Ok(|Pack(fmt, vals).value|)
  {
  }

  /** `unpack_from(fmt, pack(fmt, *vals) + rest)` is `vals`. */
  lemma UnpackFromPack(fmt: string, vals: seq<int>, rest: seq<byte>)
    requires Pack(fmt, vals).Ok?
    ensures UnpackFrom(fmt, Pack(fmt, vals).value + rest) == Ok(vals)
  {
    UnpackPackFields(ParseFormat(fmt).value, vals, rest);
  }

  /** `unpack_from` raises exactly when the buffer is shorter than the format (for a good format). */
  lemma UnpackFromOkIff(fmt: string, buf: seq<byte>)
    requires ParseFormat(fmt).Ok?
    ensures UnpackFrom(fmt, buf).Ok? <==> CalcSize(fmt).Ok? && |buf| >= CalcSize(fmt).value
    ensures UnpackFrom(fmt, buf).Err? ==> UnpackFrom(fmt, buf).error == BufferTooSmall
  {
  }
}
