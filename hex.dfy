/** Hex renderings of byte strings: `bytes.hex()` (two lower-case digits per
    byte, in wire order) and the space-separated form the byte helpers build
    from it with `' '.join(a+b for a,b in zip(h[::2], h[1::2]))`. */
module HexDump {
  import opened Bytes
  import opened Results

  predicate IsHexDigit(c: char) { '0' <= c <= '9' || 'a' <= c <= 'f' }

  /** The lower-case hex digit for a nibble. */
  function Digit(v: nat): (c: char)
    requires v < 16
    ensures IsHexDigit(c)
  {
    if v < 10 then ('0' as int + v) as char else ('a' as int + v - 10) as char
  }

  /** The value of a lower-case hex digit (the partner of Digit). */
  function DigitValue(c: char): (v: nat)
    requires IsHexDigit(c)
    ensures v < 16 && Digit(v) == c
  {
    if c <= '9' then c as int - '0' as int else c as int - 'a' as int + 10
  }

  /** The two digits of one byte, high nibble first. */
  function HexByte(b: Byte): (h: string)
    ensures |h| == 2 && IsHexDigit(h[0]) && IsHexDigit(h[1])
    ensures 16 * DigitValue(h[0]) + DigitValue(h[1]) == b
  {
    [Digit(b / 16), Digit(b % 16)]
  }

  /** `bytes.hex()`. */
  function Hex(bs: seq<Byte>): (h: string)
    ensures |h| == 2 * |bs|
  {
    if bs == [] then "" else HexByte(bs[0]) + Hex(bs[1..])
  }

  /** Byte i of the input is rendered at characters 2i and 2i+1. */
  lemma {:induction false} HexAt(bs: seq<Byte>, i: nat)
    requires i < |bs|
    ensures Hex(bs)[2 * i..2 * i + 2] == HexByte(bs[i])
  {
    if i > 0 {
      HexAt(bs[1..], i - 1);
      assert Hex(bs)[2 * i..2 * i + 2] == Hex(bs[1..])[2 * (i - 1)..2 * (i - 1) + 2];
    }
  }

  /** Reads an unseparated lower-case hex string back into bytes. */
  function ParseHex(h: string): Option<seq<Byte>>
    decreases |h|
  {
    if h == [] then Some([])
    else if |h| < 2 || !IsHexDigit(h[0]) || !IsHexDigit(h[1]) then None
    else match ParseHex(h[2..])
      case None => None
      case Some(rest) => Some([16 * DigitValue(h[0]) + DigitValue(h[1])] + rest)
  }

  /** A string made only of lower-case hex digits. */
  predicate IsLowerHex(h: string) { forall i :: 0 <= i < |h| ==> IsHexDigit(h[i]) }

  /** Every even-length lower-case hex string parses, to half as many bytes. */
  lemma {:induction false} ParseLowerHex(h: string)
    requires IsLowerHex(h) && |h| % 2 == 0
    ensures ParseHex(h).Some? && |ParseHex(h).value| == |h| / 2
  {
    if h != [] {
      ParseLowerHex(h[2..]);
    }
  }

  /** `bytes.hex()` loses nothing: its output parses back to the input. */
  lemma {:induction false} ParseHexOfHex(bs: seq<Byte>)
    ensures ParseHex(Hex(bs)) == Some(bs)
  {
    if bs != [] {
      var h := Hex(bs);
      assert h[..2] == HexByte(bs[0]) && h[2..] == Hex(bs[1..]);
      ParseHexOfHex(bs[1..]);
      assert bs == [bs[0]] + bs[1..];
    }
  }

  /** Every string that parses is exactly the hex rendering of what it parses to. */
  lemma {:induction false} HexOfParseHex(h: string, bs: seq<Byte>)
    requires ParseHex(h) == Some(bs)
    ensures Hex(bs) == h
  {
    if h != [] {
      var rest :| ParseHex(h[2..]) == Some(rest) && bs == [16 * DigitValue(h[0]) + DigitValue(h[1])] + rest;
      HexOfParseHex(h[2..], rest);
      assert bs[1..] == rest;
      var x, y := DigitValue(h[0]), DigitValue(h[1]);
      assert bs[0] / 16 == x && bs[0] % 16 == y;
      assert HexByte(bs[0]) == h[..2];
      assert h == h[..2] + h[2..];
    }
  }

  /** `a+b for a,b in zip(h[::2], h[1::2])`: consecutive two-character groups;
      a trailing odd character has no partner and is dropped, as zip drops it. */
  function Pairs(h: string): seq<string>
    decreases |h|
  {
    if |h| < 2 then [] else [h[..2]] + Pairs(h[2..])
  }

  /** `' '.join(ps)`. */
  function JoinSpaced(ps: seq<string>): string
  {
    if ps == [] then ""
    else if |ps| == 1 then ps[0]
    else ps[0] + " " + JoinSpaced(ps[1..])
  }

  /** The space-separated dump the `binary_to_hex` helpers return. */
  function SpacedHex(bs: seq<Byte>): string
  {
    JoinSpaced(Pairs(Hex(bs)))
  }

  lemma {:induction false} PairsOfHex(bs: seq<Byte>)
    ensures |Pairs(Hex(bs))| == |bs|
    ensures forall i :: 0 <= i < |bs| ==> Pairs(Hex(bs))[i] == HexByte(bs[i])
  {
    if bs != [] {
      var h := Hex(bs);
      assert h[..2] == HexByte(bs[0]) && h[2..] == Hex(bs[1..]);
      PairsOfHex(bs[1..]);
    }
  }

  lemma SpacedHexCons(bs: seq<Byte>)
    requires |bs| >= 2
    ensures SpacedHex(bs) == HexByte(bs[0]) + " " + SpacedHex(bs[1..])
  {
    var h := Hex(bs);
    assert h[..2] == HexByte(bs[0]) && h[2..] == Hex(bs[1..]);
    PairsOfHex(bs[1..]);
  }

  /** The dump of n bytes is n two-digit groups in wire order separated by single
      spaces: 3n-1 characters, or none for n = 0. */
  lemma {:induction false} SpacedHexLayout(bs: seq<Byte>)
    ensures |SpacedHex(bs)| == if bs == [] then 0 else 3 * |bs| - 1
    ensures forall i :: 0 <= i < |bs| ==> SpacedHex(bs)[3 * i..3 * i + 2] == HexByte(bs[i])
    ensures forall i :: 0 <= i < |bs| - 1 ==> SpacedHex(bs)[3 * i + 2] == ' '
  {
    if |bs| == 1 {
      assert Hex(bs) == HexByte(bs[0]);
    } else if |bs| >= 2 {
      SpacedHexCons(bs);
      SpacedHexLayout(bs[1..]);
      var s := SpacedHex(bs);
      var t := SpacedHex(bs[1..]);
      forall i | 0 <= i < |bs|
        ensures s[3 * i..3 * i + 2] == HexByte(bs[i])
      {
        if i > 0 {
          assert s[3 * i..3 * i + 2] == t[3 * (i - 1)..3 * (i - 1) + 2];
        }
      }
      forall i | 0 <= i < |bs| - 1
        ensures s[3 * i + 2] == ' '
      {
        if i > 0 {
          assert s[3 * i + 2] == t[3 * (i - 1) + 2];
        }
      }
    }
  }
}
