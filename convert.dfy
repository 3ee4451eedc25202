/** The conversion helpers shared by both copies of the reader: the module-level
    `binary_to_*` functions of bert_reader.py and the identical `GenericTable`
    methods of bert_reader/tables.py (which add an explicit `length` parameter
    to the integer and byte readers, defaulting to the size the root copy fixes).
    Every helper first takes the Python slice `data[offset:offset + length]`, which
    never fails; what happens to a short slice is up to the conversion after it. */
module Convert {
  import opened Bytes
  import opened Results
  import Utf8
  import opened HexDump
  import opened Guid

  /** `binary_to_string`: the UTF-8 text of the slice. A short slice is not an
      error; only bytes that are not well-formed UTF-8 are. */
  function BinaryToString(data: seq<Byte>, offset: int, length: int): (r: Result<string>)
    ensures r.Success? <==> Utf8.Decode(Slice(data, offset, offset + length)).Some?
    ensures r.Failure? ==> r.error == InvalidText
    ensures r.Success? ==> Utf8.Encode(r.value) == Slice(data, offset, offset + length)
  {
    match Utf8.Decode(Slice(data, offset, offset + length))
    case Some(s) =>
      Utf8.EncodeDecode(Slice(data, offset, offset + length), s);
      Success(s)
    case None => Failure(InvalidText)
  }

  /** `binary_to_int`: `struct.unpack("i", slice)`, which raises unless the slice
      holds exactly four bytes. */
  function BinaryToInt(data: seq<Byte>, offset: int, length: int := 4): (r: Result<int>)
    ensures r.Success? <==> |Slice(data, offset, offset + length)| == 4
    ensures r.Failure? ==> r.error == ShortRead
    ensures r.Success? ==> MinInt32 <= r.value <= MaxInt32
    ensures r.Success? ==> EncodeLe32(r.value) == Slice(data, offset, offset + length)
  {
    var w := Slice(data, offset, offset + length);
    if |w| == 4 then
      EncodeDecodeLe32(w);
      Success(LeSigned32(w))
    else Failure(ShortRead)
  }

  /** `binary_to_byte`: `struct.unpack("B", slice)`, which raises unless the slice
      holds exactly one byte. */
  function BinaryToByte(data: seq<Byte>, offset: int, length: int := 1): (r: Result<Byte>)
    ensures r.Success? <==> |Slice(data, offset, offset + length)| == 1
    ensures r.Failure? ==> r.error == ShortRead
    ensures r.Success? ==> Slice(data, offset, offset + length) == [r.value]
  {
    var w := Slice(data, offset, offset + length);
    if |w| == 1 then Success(w[0]) else Failure(ShortRead)
  }

  /** `binary_to_hex`: the space-separated dump of the slice; never fails. */
  function BinaryToHex(data: seq<Byte>, offset: int, length: int): (r: string)
    ensures var w := Slice(data, offset, offset + length);
      && |r| == (if w == [] then 0 else 3 * |w| - 1)
      && (forall i :: 0 <= i < |w| ==> r[3 * i..3 * i + 2] == HexByte(w[i]))
  {
    var w := Slice(data, offset, offset + length);
    SpacedHexLayout(w);
    SpacedHex(w)
  }

  /** `binary_to_guid`: `UUID(bytes=slice)` raises unless the slice holds 16 bytes. */
  function BinaryToGuid(data: seq<Byte>, offset: int, length: int): (r: Result<string>)
    ensures r.Success? <==> |Slice(data, offset, offset + length)| == 16
    ensures r.Failure? ==> r.error == ShortRead
    ensures r.Success? ==> ParseGuid(r.value) == Some(Slice(data, offset, offset + length))
  {
    var w := Slice(data, offset, offset + length);
    if |w| == 16 then
      ParseGuidString(w);
      Success(GuidString(w))
    else Failure(ShortRead)
  }

  /** Every helper sees only its slice: two buffers with the same slice at an
      offset read alike there. */
  lemma SameSlice(b: seq<Byte>, c: seq<Byte>, offset: int, length: int)
    requires Slice(b, offset, offset + length) == Slice(c, offset, offset + length)
    ensures BinaryToString(b, offset, length) == BinaryToString(c, offset, length)
    ensures BinaryToInt(b, offset, length) == BinaryToInt(c, offset, length)
    ensures BinaryToByte(b, offset, length) == BinaryToByte(c, offset, length)
    ensures BinaryToHex(b, offset, length) == BinaryToHex(c, offset, length)
  {
  }

  /** A slice holding the UTF-8 encoding of a string reads back as that string. */
  lemma StringRead(data: seq<Byte>, offset: int, length: int, s: string)
    requires Slice(data, offset, offset + length) == Utf8.Encode(s)
    ensures BinaryToString(data, offset, length) == Success(s)
  {
    Utf8.DecodeEncode(s);
  }

  /** A slice holding the little-endian encoding of an int32 reads back as it. */
  lemma IntRead(data: seq<Byte>, offset: int, v: int)
    requires MinInt32 <= v <= MaxInt32
    requires Slice(data, offset, offset + 4) == EncodeLe32(v)
    ensures BinaryToInt(data, offset) == Success(v)
  {
    DecodeEncodeLe32(v);
  }

  /** The root copy's integer read: exactly the four bytes at the offset, little-endian
      two's complement; it fails once fewer than four bytes remain. */
  lemma IntAt(data: seq<Byte>, offset: nat)
    ensures BinaryToInt(data, offset).Success? <==> offset + 4 <= |data|
    ensures offset + 4 <= |data| ==> BinaryToInt(data, offset) == Success(LeSigned32(data[offset..offset + 4]))
  {
  }

  /** The `length` parameter of the package's integer read: struct needs the slice to
      be exactly four bytes long, so a length of 4 works whenever four bytes remain,
      and a longer length works only when the buffer ends exactly four bytes after
      the offset; a shorter length never works. */
  lemma IntLengthParameter(data: seq<Byte>, offset: nat, length: nat)
    requires offset <= |data|
    ensures BinaryToInt(data, offset, length).Success? <==>
              (length == 4 && offset + 4 <= |data|) || (length > 4 && offset + 4 == |data|)
  {
    var w := Slice(data, offset, offset + length);
    if offset + length <= |data| {
      assert |w| == length;
    } else {
      assert |w| == |data| - offset;
    }
  }

  /** The byte read returns the single byte at the offset and fails past the end. */
  lemma ByteAt(data: seq<Byte>, offset: nat)
    ensures BinaryToByte(data, offset).Success? <==> offset < |data|
    ensures offset < |data| ==> BinaryToByte(data, offset) == Success(data[offset])
  {
  }

  /** A dump request past the end of the buffer is silently truncated to the bytes
      that exist (possibly none) instead of failing. */
  lemma HexTruncates(data: seq<Byte>, offset: nat, length: nat)
    ensures BinaryToHex(data, offset, length) ==
              SpacedHex(data[Min(offset, |data|)..Min(offset + length, |data|)])
  {
  }

  /** The GUID read renders the 16 wire bytes at the offset and fails on fewer. */
  lemma GuidAt(data: seq<Byte>, offset: nat)
    ensures BinaryToGuid(data, offset, 16).Success? <==> offset + 16 <= |data|
    ensures offset + 16 <= |data| ==>
              BinaryToGuid(data, offset, 16) == Success(GuidString(data[offset..offset + 16]))
  {
  }

  function Min(a: int, b: int): int { if a < b then a else b }
}
