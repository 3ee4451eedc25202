/** GUIDs as the byte helpers render them: `uuid.UUID(bytes=w).bytes_le.hex()`.
    The EFI_GUID wire layout (UEFI Specification, Appendix A) stores the first
    three fields of the RFC 4122 layout (section 4.1.2) little-endian, so the
    rendering reverses bytes 0-3, 4-5 and 6-7 and keeps bytes 8-15. */
module Guid {
  import opened Bytes
  import opened HexDump
  import opened Results

  /** The wire position of the byte shown at position i. */
  function Source(i: nat): (j: nat)
    requires i < 16
    ensures j < 16
  {
    if i < 4 then 3 - i else if i < 6 then 9 - i else if i < 8 then 13 - i else i
  }

  /** `UUID(bytes=w).bytes_le`: the 4/2/2 fields reversed, the last 8 bytes kept. */
  function Swap(w: seq<Byte>): (r: seq<Byte>)
    requires |w| == 16
    ensures |r| == 16
    ensures forall i :: 0 <= i < 16 ==> r[i] == w[Source(i)]
  {
    [w[3], w[2], w[1], w[0], w[5], w[4], w[7], w[6]] + w[8..]
  }

  /** The swap is an involution: applying it twice gives back the wire bytes. */
  lemma SwapInvolution(w: seq<Byte>)
    requires |w| == 16
    ensures Swap(Swap(w)) == w
  {
    var r := Swap(Swap(w));
    forall i | 0 <= i < 16
      ensures r[i] == w[i]
    {
      assert Source(Source(i)) == i;
    }
  }

  /** The 32-character lower-case string `binary_to_guid` returns for 16 wire bytes. */
  function GuidString(w: seq<Byte>): (g: string)
    requires |w| == 16
    ensures |g| == 32
  {
    Hex(Swap(w))
  }

  /** Characters 2i and 2i+1 of the string are the digits of wire byte Source(i). */
  lemma GuidStringAt(w: seq<Byte>, i: nat)
    requires |w| == 16 && i < 16
    ensures GuidString(w)[2 * i..2 * i + 2] == HexByte(w[Source(i)])
  {
    HexAt(Swap(w), i);
  }

  /** Reads a rendered GUID string back into wire bytes (the partner of GuidString). */
  function ParseGuid(g: string): Option<seq<Byte>>
  {
    match ParseHex(g)
    case Some(bs) => if |bs| == 16 then Some(Swap(bs)) else None
    case None => None
  }

  lemma ParseGuidString(w: seq<Byte>)
    requires |w| == 16
    ensures ParseGuid(GuidString(w)) == Some(w)
  {
    ParseHexOfHex(Swap(w));
    SwapInvolution(w);
  }

  /** A string that parses as a GUID is the rendering of the bytes it parses to,
      so two wire GUIDs render alike exactly when they are equal. */
  lemma GuidStringOfParse(g: string, w: seq<Byte>)
    requires ParseGuid(g) == Some(w)
    ensures |w| == 16 && GuidString(w) == g
  {
    var bs := ParseHex(g).value;
    HexOfParseHex(g, bs);
    SwapInvolution(bs);
  }
}
