/** The BERT table as both copies decode it (`get_bert_table` in bert_reader.py and
    `Bert.__init__` in bert_reader/tables.py): the System Description Table Header of
    section 5.2.6 of the ACPI Specification followed by the Boot Error Record Table
    fields of section 18.3.1. Each field is read at a fixed offset within the first
    48 bytes, in dictionary order, and the first read that raises ends the decode.
    The OEM Table ID at bytes 16..24 is never read as a field. */
module BertTable {
  import opened Bytes
  import opened Results
  import opened HexDump
  import opened Convert
  import Utf8

  /** The decoded table; `hex` is the dump of the first 48 bytes. */
  datatype BertRecord = BertRecord(
    headerSignature: string,
    length: int,
    revision: Byte,
    checksum: Byte,
    oemId: string,
    oemRevision: int,
    creatorId: string,
    creatorRevision: int,
    bootErrorRegionLength: int,
    bootErrorRegion: string,
    hex: string)

  /** The table decode, field by field in the order the source evaluates them. */
  function DecodeBert(b: seq<Byte>): (r: Result<BertRecord>)
    ensures r.Success? ==> |b| >= 40 && TextFieldsDecode(b)
  {
    var signature :- BinaryToString(b, 0, 4);
    var length :- BinaryToInt(b, 4);
    var revision :- BinaryToByte(b, 8);
    var checksum :- BinaryToByte(b, 9);
    var oemId :- BinaryToString(b, 10, 6);
    var oemRevision :- BinaryToInt(b, 24);
    var creatorId :- BinaryToString(b, 28, 4);
    var creatorRevision :- BinaryToInt(b, 32);
    var regionLength :- BinaryToInt(b, 36);
    Success(BertRecord(signature, length, revision, checksum, oemId, oemRevision,
                       creatorId, creatorRevision, regionLength,
                       BinaryToHex(b, 40, 8), BinaryToHex(b, 0, 48)))
  }

  /** The three text fields are well-formed UTF-8. */
  predicate TextFieldsDecode(b: seq<Byte>)
    requires |b| >= 32
  {
    && Utf8.Decode(b[0..4]).Some?
    && Utf8.Decode(b[10..16]).Some?
    && Utf8.Decode(b[28..32]).Some?
  }

  /** The decode succeeds exactly on buffers of at least 40 bytes (the last integer
      ends at 40) whose text fields are UTF-8, and fails with ShortRead or InvalidText.
      A long enough buffer fails only with InvalidText; a short one fails with
      ShortRead when the three text slices, shortened by the end of the buffer as
      Python's slicing shortens them, are UTF-8. */
  lemma DecodeBertSucceeds(b: seq<Byte>)
    ensures DecodeBert(b).Success? <==> |b| >= 40 && TextFieldsDecode(b)
    ensures DecodeBert(b).Failure? ==> DecodeBert(b).error in {ShortRead, InvalidText}
    ensures DecodeBert(b).Failure? && |b| >= 40 ==> DecodeBert(b).error == InvalidText
    ensures (&& |b| < 40
             && Utf8.Decode(Slice(b, 0, 4)).Some?
             && Utf8.Decode(Slice(b, 10, 16)).Some?
             && Utf8.Decode(Slice(b, 28, 32)).Some?)
            ==> DecodeBert(b) == Failure(ShortRead)
  {
    IntAt(b, 4);
    IntAt(b, 24);
    IntAt(b, 32);
    IntAt(b, 36);
    ByteAt(b, 8);
    ByteAt(b, 9);
  }

  /** Every field is the decoding of the bytes at its offset: reading the fields back
      by offset gives the raw bytes of the buffer. */
  lemma BertFields(b: seq<Byte>, t: BertRecord)
    requires DecodeBert(b) == Success(t)
    ensures |b| >= 40
    ensures && Utf8.Encode(t.headerSignature) == b[0..4]
      && t.length == LeSigned32(b[4..8])
      && t.revision == b[8]
      && t.checksum == b[9]
      && Utf8.Encode(t.oemId) == b[10..16]
      && t.oemRevision == LeSigned32(b[24..28])
      && Utf8.Encode(t.creatorId) == b[28..32]
      && t.creatorRevision == LeSigned32(b[32..36])
      && t.bootErrorRegionLength == LeSigned32(b[36..40])
      && t.bootErrorRegion == SpacedHex(b[40..Min(48, |b|)])
      && t.hex == SpacedHex(b[..Min(48, |b|)])
  {
    DecodeBertRecord(b);
    IntAt(b, 4);
    IntAt(b, 24);
    IntAt(b, 32);
    IntAt(b, 36);
    BertDumps(b, t);
  }

  /** A successful decode holds the value of every read, in field order. */
  lemma DecodeBertRecord(b: seq<Byte>)
    requires DecodeBert(b).Success?
    ensures DecodeBert(b) == Success(BertRecord(
      BinaryToString(b, 0, 4).value, BinaryToInt(b, 4).value, BinaryToByte(b, 8).value,
      BinaryToByte(b, 9).value, BinaryToString(b, 10, 6).value, BinaryToInt(b, 24).value,
      BinaryToString(b, 28, 4).value, BinaryToInt(b, 32).value, BinaryToInt(b, 36).value,
      BinaryToHex(b, 40, 8), BinaryToHex(b, 0, 48)))
  {
    DecodeBertSucceeds(b);
    IntAt(b, 4);
    IntAt(b, 24);
    IntAt(b, 32);
    IntAt(b, 36);
    ByteAt(b, 8);
    ByteAt(b, 9);
  }

  /** The two dumps: the region field shows bytes [40,48) and `hex` bytes [0,48), both
      cut short by the end of the buffer. */
  lemma BertDumps(b: seq<Byte>, t: BertRecord)
    requires DecodeBert(b) == Success(t)
    ensures |b| >= 40
    ensures t.bootErrorRegion == SpacedHex(b[40..Min(48, |b|)])
    ensures t.hex == SpacedHex(b[..Min(48, |b|)])
  {
    DecodeBertRecord(b);
    assert Slice(b, 40, 48) == b[40..Min(48, |b|)];
    assert Slice(b, 0, 48) == b[..Min(48, |b|)];
  }

  /** The named fields never depend on bytes 16..24 (the OEM Table ID): two buffers
      of the same length that differ only there decode alike, up to the `hex` dump. */
  lemma SkipsOemTableId(b: seq<Byte>, c: seq<Byte>)
    requires |b| == |c|
    requires forall i :: 0 <= i < |b| && !(16 <= i < 24) ==> b[i] == c[i]
    ensures DecodeBert(b).Success? <==> DecodeBert(c).Success?
    ensures DecodeBert(b).Success? ==> DecodeBert(b).value.(hex := "") == DecodeBert(c).value.(hex := "")
  {
    SameReads(b, c);
    SameOutcome(b, c);
  }

  /** Whether the decode fails, and how, depends only on the slices it reads. */
  lemma SameOutcome(b: seq<Byte>, c: seq<Byte>)
    requires SameFieldReads(b, c)
    ensures DecodeBert(b).Success? <==> DecodeBert(c).Success?
  {
  }

  /** The reads of every named field agree on the two buffers. */
  predicate SameFieldReads(b: seq<Byte>, c: seq<Byte>)
  {
    && BinaryToString(b, 0, 4) == BinaryToString(c, 0, 4)
    && BinaryToInt(b, 4) == BinaryToInt(c, 4)
    && BinaryToByte(b, 8) == BinaryToByte(c, 8)
    && BinaryToByte(b, 9) == BinaryToByte(c, 9)
    && BinaryToString(b, 10, 6) == BinaryToString(c, 10, 6)
    && BinaryToInt(b, 24) == BinaryToInt(c, 24)
    && BinaryToString(b, 28, 4) == BinaryToString(c, 28, 4)
    && BinaryToInt(b, 32) == BinaryToInt(c, 32)
    && BinaryToInt(b, 36) == BinaryToInt(c, 36)
    && BinaryToHex(b, 40, 8) == BinaryToHex(c, 40, 8)
  }

  lemma SameReads(b: seq<Byte>, c: seq<Byte>)
    requires |b| == |c|
    requires forall i :: 0 <= i < |b| && !(16 <= i < 24) ==> b[i] == c[i]
    ensures SameFieldReads(b, c)
  {
    SameSlices(b, c);
    SameSlice(b, c, 0, 4);
    SameSlice(b, c, 4, 4);
    SameSlice(b, c, 8, 1);
    SameSlice(b, c, 9, 1);
    SameSlice(b, c, 10, 6);
    SameSlice(b, c, 24, 4);
    SameSlice(b, c, 28, 4);
    SameSlice(b, c, 32, 4);
    SameSlice(b, c, 36, 4);
    SameSlice(b, c, 40, 8);
  }

  /** The slices the decode reads agree on two such buffers. */
  lemma SameSlices(b: seq<Byte>, c: seq<Byte>)
    requires |b| == |c|
    requires forall i :: 0 <= i < |b| && !(16 <= i < 24) ==> b[i] == c[i]
    ensures Slice(b, 0, 4) == Slice(c, 0, 4) && Slice(b, 4, 8) == Slice(c, 4, 8)
    ensures Slice(b, 8, 9) == Slice(c, 8, 9) && Slice(b, 9, 10) == Slice(c, 9, 10)
    ensures Slice(b, 10, 16) == Slice(c, 10, 16) && Slice(b, 24, 28) == Slice(c, 24, 28)
    ensures Slice(b, 28, 32) == Slice(c, 28, 32) && Slice(b, 32, 36) == Slice(c, 32, 36)
    ensures Slice(b, 36, 40) == Slice(c, 36, 40) && Slice(b, 40, 48) == Slice(c, 40, 48)
  {
    assert Slice(b, 0, 4) == Slice(c, 0, 4) && Slice(b, 4, 8) == Slice(c, 4, 8);
    assert Slice(b, 8, 9) == Slice(c, 8, 9) && Slice(b, 9, 10) == Slice(c, 9, 10);
    assert Slice(b, 10, 16) == Slice(c, 10, 16) && Slice(b, 24, 28) == Slice(c, 24, 28);
    assert Slice(b, 28, 32) == Slice(c, 28, 32) && Slice(b, 32, 36) == Slice(c, 32, 36);
    assert Slice(b, 36, 40) == Slice(c, 36, 40) && Slice(b, 40, 48) == Slice(c, 40, 48);
  }

  /** On a full 48-byte header the region field shows 8 bytes (23 characters) and the
      dump shows all 48 (143 characters). */
  lemma HexDumpLengths(b: seq<Byte>)
    requires DecodeBert(b).Success? && |b| >= 48
    ensures |DecodeBert(b).value.bootErrorRegion| == 23
    ensures |DecodeBert(b).value.hex| == 143
  {
    BertFields(b, DecodeBert(b).value);
    SpacedHexLayout(b[40..48]);
    SpacedHexLayout(b[..48]);
  }

  /** The signature is decoded but never compared with "BERT": any ASCII buffer of at
      least 40 bytes decodes, and its signature is its first four bytes as text. */
  lemma AnySignatureAccepted(b: seq<Byte>)
    requires |b| >= 40 && forall i :: 0 <= i < |b| ==> b[i] < 0x80
    ensures DecodeBert(b).Success?
    ensures var s := DecodeBert(b).value.headerSignature;
      |s| == 4 && forall i :: 0 <= i < 4 ==> s[i] as int == b[i]
  {
    Utf8.DecodeAscii(b[0..4]);
    Utf8.DecodeAscii(b[10..16]);
    Utf8.DecodeAscii(b[28..32]);
    DecodeBertSucceeds(b);
    BertFields(b, DecodeBert(b).value);
    Utf8.DecodeEncode(DecodeBert(b).value.headerSignature);
  }

  /** The 48 bytes of a table with the given fields, laid out at the offsets the decode
      reads them from (the partner of DecodeBert); `oemTableId` fills bytes 16..24. */
  function EncodeBert(signature: string, length: int, revision: Byte, checksum: Byte,
                      oemId: string, oemTableId: seq<Byte>, oemRevision: int,
                      creatorId: string, creatorRevision: int, regionLength: int,
                      region: seq<Byte>): (b: seq<Byte>)
    requires |Utf8.Encode(signature)| == 4 && |Utf8.Encode(oemId)| == 6
    requires |Utf8.Encode(creatorId)| == 4 && |oemTableId| == 8 && |region| == 8
    requires MinInt32 <= length <= MaxInt32 && MinInt32 <= oemRevision <= MaxInt32
    requires MinInt32 <= creatorRevision <= MaxInt32 && MinInt32 <= regionLength <= MaxInt32
    ensures |b| == 48
  {
    Utf8.Encode(signature) + EncodeLe32(length) + [revision, checksum] + Utf8.Encode(oemId)
    + oemTableId + EncodeLe32(oemRevision) + Utf8.Encode(creatorId)
    + EncodeLe32(creatorRevision) + EncodeLe32(regionLength) + region
  }

  /** Every table laid out by EncodeBert decodes back to the fields it was built from,
      whatever its signature and its OEM Table ID. */
  lemma DecodeEncodeBert(signature: string, length: int, revision: Byte, checksum: Byte,
                         oemId: string, oemTableId: seq<Byte>, oemRevision: int,
                         creatorId: string, creatorRevision: int, regionLength: int,
                         region: seq<Byte>)
    requires |Utf8.Encode(signature)| == 4 && |Utf8.Encode(oemId)| == 6
    requires |Utf8.Encode(creatorId)| == 4 && |oemTableId| == 8 && |region| == 8
    requires MinInt32 <= length <= MaxInt32 && MinInt32 <= oemRevision <= MaxInt32
    requires MinInt32 <= creatorRevision <= MaxInt32 && MinInt32 <= regionLength <= MaxInt32
    ensures var b := EncodeBert(signature, length, revision, checksum, oemId, oemTableId,
                                oemRevision, creatorId, creatorRevision, regionLength, region);
      DecodeBert(b) == Success(BertRecord(signature, length, revision, checksum, oemId,
                                          oemRevision, creatorId, creatorRevision,
                                          regionLength, SpacedHex(region), SpacedHex(b)))
  {
    var b := EncodeBert(signature, length, revision, checksum, oemId, oemTableId,
                        oemRevision, creatorId, creatorRevision, regionLength, region);
    EncodeBertLayout(signature, length, revision, checksum, oemId, oemTableId,
                     oemRevision, creatorId, creatorRevision, regionLength, region);
    StringRead(b, 0, 4, signature);
    IntRead(b, 4, length);
    StringRead(b, 10, 6, oemId);
    IntRead(b, 24, oemRevision);
    StringRead(b, 28, 4, creatorId);
    IntRead(b, 32, creatorRevision);
    IntRead(b, 36, regionLength);
  }

  /** Where EncodeBert puts each field. */
  lemma EncodeBertLayout(signature: string, length: int, revision: Byte, checksum: Byte,
                         oemId: string, oemTableId: seq<Byte>, oemRevision: int,
                         creatorId: string, creatorRevision: int, regionLength: int,
                         region: seq<Byte>)
    requires |Utf8.Encode(signature)| == 4 && |Utf8.Encode(oemId)| == 6
    requires |Utf8.Encode(creatorId)| == 4 && |oemTableId| == 8 && |region| == 8
    requires MinInt32 <= length <= MaxInt32 && MinInt32 <= oemRevision <= MaxInt32
    requires MinInt32 <= creatorRevision <= MaxInt32 && MinInt32 <= regionLength <= MaxInt32
    ensures var b := EncodeBert(signature, length, revision, checksum, oemId, oemTableId,
                                oemRevision, creatorId, creatorRevision, regionLength, region);
      && Slice(b, 0, 4) == Utf8.Encode(signature) && Slice(b, 4, 8) == EncodeLe32(length)
      && Slice(b, 8, 9) == [revision] && Slice(b, 9, 10) == [checksum]
      && Slice(b, 10, 16) == Utf8.Encode(oemId) && Slice(b, 24, 28) == EncodeLe32(oemRevision)
      && Slice(b, 28, 32) == Utf8.Encode(creatorId)
      && Slice(b, 32, 36) == EncodeLe32(creatorRevision)
      && Slice(b, 36, 40) == EncodeLe32(regionLength)
      && Slice(b, 40, 48) == region && Slice(b, 0, 48) == b
  {
    var b := EncodeBert(signature, length, revision, checksum, oemId, oemTableId,
                        oemRevision, creatorId, creatorRevision, regionLength, region);
    var h1 := Utf8.Encode(signature) + EncodeLe32(length);
    var h2 := h1 + [revision, checksum];
    var h3 := h2 + Utf8.Encode(oemId);
    var h5 := h3 + oemTableId + EncodeLe32(oemRevision);
    var h6 := h5 + Utf8.Encode(creatorId);
    var h7 := h6 + EncodeLe32(creatorRevision);
    var h8 := h7 + EncodeLe32(regionLength);
    assert b == h8 + region;
    Pieces(h8, region);
    Pieces(h7, EncodeLe32(regionLength));
    Pieces(h6, EncodeLe32(creatorRevision));
    Pieces(h5, Utf8.Encode(creatorId));
    Pieces(h3 + oemTableId, EncodeLe32(oemRevision));
    Pieces(h2, Utf8.Encode(oemId));
    Pieces(h1, [revision, checksum]);
    Pieces(Utf8.Encode(signature), EncodeLe32(length));
    assert b[..36] == h7 && b[..32] == h6 && b[..28] == h5;
    assert b[..16] == h3 && b[..10] == h2 && b[..8] == h1;
  }

  /** The two halves of a concatenation. */
  lemma Pieces(x: seq<Byte>, y: seq<Byte>)
    ensures (x + y)[..|x|] == x && (x + y)[|x|..] == y
  {
  }
}
