/** Strict UTF-8, as `bytes.decode("utf-8")` applies it: a byte sequence
    decodes only if it is a concatenation of well-formed sequences in the
    sense of Table 3-7 of the Unicode Standard (no overlong forms, no
    surrogates, nothing above U+10FFFF). `char` here is a Unicode scalar value. */
module Utf8 {
  import opened Bytes
  import opened Results

  /** A continuation byte, 10xxxxxx. */
  predicate Tail(b: Byte) { 0x80 <= b <= 0xBF }

  /** Length of the well-formed sequence at the head of `s`, or 0 when there is none. */
  function LeadLength(s: seq<Byte>): (k: nat)
    ensures k <= 4 && k <= |s|
    ensures k == 0 <==> s == [] || !WellFormedHead(s)
  {
    if s == [] then 0
    else if s[0] <= 0x7F then 1
    else if 0xC2 <= s[0] <= 0xDF then (if |s| >= 2 && Tail(s[1]) then 2 else 0)
    else if 0xE0 <= s[0] <= 0xEF then (if |s| >= 3 && SecondOk(s[0], s[1]) && Tail(s[2]) then 3 else 0)
    else if 0xF0 <= s[0] <= 0xF4 then (if |s| >= 4 && SecondOk(s[0], s[1]) && Tail(s[2]) && Tail(s[3]) then 4 else 0)
    else 0
  }

  /** The allowed range of the second byte after a three- or four-byte lead. */
  predicate SecondOk(lead: Byte, b: Byte) {
    if lead == 0xE0 then 0xA0 <= b <= 0xBF
    else if lead == 0xED then 0x80 <= b <= 0x9F
    else if lead == 0xF0 then 0x90 <= b <= 0xBF
    else if lead == 0xF4 then 0x80 <= b <= 0x8F
    else Tail(b)
  }

  /** The rows of Table 3-7, stated independently of LeadLength. */
  predicate WellFormedHead(s: seq<Byte>)
    requires s != []
  {
    || s[0] <= 0x7F
    || (0xC2 <= s[0] <= 0xDF && |s| >= 2 && Tail(s[1]))
    || (s[0] == 0xE0 && |s| >= 3 && 0xA0 <= s[1] <= 0xBF && Tail(s[2]))
    || ((0xE1 <= s[0] <= 0xEC || 0xEE <= s[0] <= 0xEF) && |s| >= 3 && Tail(s[1]) && Tail(s[2]))
    || (s[0] == 0xED && |s| >= 3 && 0x80 <= s[1] <= 0x9F && Tail(s[2]))
    || (s[0] == 0xF0 && |s| >= 4 && 0x90 <= s[1] <= 0xBF && Tail(s[2]) && Tail(s[3]))
    || (0xF1 <= s[0] <= 0xF3 && |s| >= 4 && Tail(s[1]) && Tail(s[2]) && Tail(s[3]))
    || (s[0] == 0xF4 && |s| >= 4 && 0x80 <= s[1] <= 0x8F && Tail(s[2]) && Tail(s[3]))
  }

  /** The scalar value a well-formed head sequence of length k stands for. */
  function Scalar(s: seq<Byte>, k: nat): (c: char)
    requires 1 <= k && LeadLength(s) == k
  {
    var b0: int := s[0];
    if k == 1 then b0 as char
    else
      var b1: int := s[1] - 0x80;
      if k == 2 then ((b0 - 0xC0) * 0x40 + b1) as char
      else
        var b2: int := s[2] - 0x80;
        if k == 3 then ((b0 - 0xE0) * 0x1000 + b1 * 0x40 + b2) as char
        else
          var b3: int := s[3] - 0x80;
          ((b0 - 0xF0) * 0x4_0000 + b1 * 0x1000 + b2 * 0x40 + b3) as char
  }

  /** `bytes.decode("utf-8")`: None where Python raises UnicodeDecodeError. */
  function Decode(s: seq<Byte>): (r: Option<string>)
    ensures r.Some? ==> |r.value| <= |s| && (r.value == [] <==> s == [])
    decreases |s|
  {
    if s == [] then Some([])
    else
      var k := LeadLength(s);
      if k == 0 then None
      else match Decode(s[k..])
        case None => None
        case Some(t) => Some([Scalar(s, k)] + t)
  }

  /** The UTF-8 encoding of one scalar value (the partner of Scalar). */
  function EncodeChar(c: char): (w: seq<Byte>)
    ensures 1 <= |w| <= 4
  {
    var n := c as int;
    var m := n / 0x40;
    var m2 := m / 0x40;
    if n < 0x80 then [n]
    else if n < 0x800 then [0xC0 + m, 0x80 + n % 0x40]
    else if n < 0x1_0000 then [0xE0 + m2, 0x80 + m % 0x40, 0x80 + n % 0x40]
    else [0xF0 + m2 / 0x40, 0x80 + m2 % 0x40, 0x80 + m % 0x40, 0x80 + n % 0x40]
  }

  /** `str.encode("utf-8")`. */
  function Encode(s: string): seq<Byte>
  {
    if s == [] then [] else EncodeChar(s[0]) + Encode(s[1..])
  }

  /** Division by 64 splits off the low six bits, and nothing else does. */
  lemma SixBits(n: int, q: int, r: int)
    requires 0 <= n
    ensures n == 0x40 * (n / 0x40) + n % 0x40 && 0 <= n % 0x40 < 0x40
    ensures n == 0x40 * q + r && 0 <= r < 0x40 ==> n / 0x40 == q && n % 0x40 == r
  {
  }

  lemma EncodeCharHead(c: char, rest: seq<Byte>)
    ensures LeadLength(EncodeChar(c) + rest) == |EncodeChar(c)|
    ensures Scalar(EncodeChar(c) + rest, |EncodeChar(c)|) == c
  {
    var n := c as int;
    if n < 0x80 {
      assert (EncodeChar(c) + rest)[0] == n;
    } else if n < 0x800 {
      EncodeHead2(c, rest);
    } else if n < 0x1_0000 {
      EncodeHead3(c, rest);
    } else {
      EncodeHead4(c, rest);
    }
  }

  lemma EncodeHead2(c: char, rest: seq<Byte>)
    requires 0x80 <= c as int < 0x800
    ensures |EncodeChar(c)| == 2 && LeadLength(EncodeChar(c) + rest) == 2
    ensures Scalar(EncodeChar(c) + rest, 2) == c
  {
    var n := c as int;
    var m := n / 0x40;
    SixBits(n, 0, 0);
    var s := EncodeChar(c) + rest;
    assert s[0] == 0xC0 + m && s[1] == 0x80 + n % 0x40;
  }

  lemma EncodeHead3(c: char, rest: seq<Byte>)
    requires 0x800 <= c as int < 0x1_0000
    ensures |EncodeChar(c)| == 3 && LeadLength(EncodeChar(c) + rest) == 3
    ensures Scalar(EncodeChar(c) + rest, 3) == c
  {
    var n := c as int;
    var m := n / 0x40;
    var m2 := m / 0x40;
    SixBits(n, 0, 0);
    SixBits(m, 0, 0);
    var s := EncodeChar(c) + rest;
    assert s[0] == 0xE0 + m2 && s[1] == 0x80 + m % 0x40 && s[2] == 0x80 + n % 0x40;
    assert n == 0x1000 * m2 + 0x40 * (m % 0x40) + n % 0x40;
  }

  lemma EncodeHead4(c: char, rest: seq<Byte>)
    requires 0x1_0000 <= c as int
    ensures |EncodeChar(c)| == 4 && LeadLength(EncodeChar(c) + rest) == 4
    ensures Scalar(EncodeChar(c) + rest, 4) == c
  {
    var n := c as int;
    var m := n / 0x40;
    var m2 := m / 0x40;
    SixBits(n, 0, 0);
    SixBits(m, 0, 0);
    SixBits(m2, 0, 0);
    var s := EncodeChar(c) + rest;
    assert s[0] == 0xF0 + m2 / 0x40 && s[1] == 0x80 + m2 % 0x40;
    assert s[2] == 0x80 + m % 0x40 && s[3] == 0x80 + n % 0x40;
    assert n == 0x4_0000 * (m2 / 0x40) + 0x1000 * (m2 % 0x40) + 0x40 * (m % 0x40) + n % 0x40;
  }

  lemma ScalarEncodes(s: seq<Byte>, k: nat)
    requires 1 <= k && LeadLength(s) == k
    ensures EncodeChar(Scalar(s, k)) == s[..k]
  {
    if k == 2 {
      ScalarEncodes2(s);
    } else if k == 3 {
      ScalarEncodes3(s);
    } else if k == 4 {
      ScalarEncodes4(s);
    }
  }

  lemma ScalarEncodes2(s: seq<Byte>)
    requires LeadLength(s) == 2
    ensures EncodeChar(Scalar(s, 2)) == s[..2]
  {
    var n := Scalar(s, 2) as int;
    var b0: int, b1: int := s[0], s[1];
    assert n == (b0 - 0xC0) * 0x40 + (b1 - 0x80);
    assert 0x80 <= n < 0x800;
    SixBits(n, b0 - 0xC0, b1 - 0x80);
  }

  lemma ScalarEncodes3(s: seq<Byte>)
    requires LeadLength(s) == 3
    ensures EncodeChar(Scalar(s, 3)) == s[..3]
  {
    var n := Scalar(s, 3) as int;
    var b0: int, b1: int, b2: int := s[0], s[1], s[2];
    var m := (b0 - 0xE0) * 0x40 + (b1 - 0x80);
    assert n == m * 0x40 + (b2 - 0x80);
    assert 0x800 <= n < 0x1_0000;
    SixBits(n, m, b2 - 0x80);
    SixBits(m, b0 - 0xE0, b1 - 0x80);
  }

  lemma ScalarEncodes4(s: seq<Byte>)
    requires LeadLength(s) == 4
    ensures EncodeChar(Scalar(s, 4)) == s[..4]
  {
    var n := Scalar(s, 4) as int;
    var b0: int, b1: int, b2: int, b3: int := s[0], s[1], s[2], s[3];
    var m2 := (b0 - 0xF0) * 0x40 + (b1 - 0x80);
    var m := m2 * 0x40 + (b2 - 0x80);
    assert n == m * 0x40 + (b3 - 0x80);
    assert 0x1_0000 <= n;
    SixBits(n, m, b3 - 0x80);
    SixBits(m, m2, b2 - 0x80);
    SixBits(m2, b0 - 0xF0, b1 - 0x80);
  }

  /** Every string survives encoding and strict decoding. */
  lemma {:induction false} DecodeEncode(s: string)
    ensures Decode(Encode(s)) == Some(s)
  {
    if s != [] {
      var w := EncodeChar(s[0]);
      var rest := Encode(s[1..]);
      EncodeCharHead(s[0], rest);
      assert Encode(s) == w + rest;
      assert (w + rest)[|w|..] == rest;
      DecodeEncode(s[1..]);
      assert s == [s[0]] + s[1..];
    }
  }

  /** Strict decoding accepts only canonical encodings: what it decodes re-encodes
      to the very same bytes, so two byte strings that decode alike are equal. */
  lemma {:induction false} EncodeDecode(s: seq<Byte>, t: string)
    requires Decode(s) == Some(t)
    ensures Encode(t) == s
  {
    if s != [] {
      var k := LeadLength(s);
      DecodeCons(s, t);
      var t' := Decode(s[k..]).value;
      EncodeDecode(s[k..], t');
      ScalarEncodes(s, k);
      Rebuild(s, k, t);
    }
  }

  lemma Rebuild(s: seq<Byte>, k: nat, t: string)
    requires k <= |s| && t != []
    requires EncodeChar(t[0]) == s[..k] && Encode(t[1..]) == s[k..]
    ensures Encode(t) == s
  {
    EncodeCons(t);
    assert s == s[..k] + s[k..];
  }

  /** A decoded non-empty input is its head scalar followed by the decoded rest. */
  lemma DecodeCons(s: seq<Byte>, t: string)
    requires s != [] && Decode(s) == Some(t)
    ensures LeadLength(s) >= 1 && Decode(s[LeadLength(s)..]).Some?
    ensures t != [] && t[0] == Scalar(s, LeadLength(s))
    ensures t[1..] == Decode(s[LeadLength(s)..]).value
  {
  }

  lemma EncodeCons(t: string)
    requires t != []
    ensures Encode(t) == EncodeChar(t[0]) + Encode(t[1..])
  {
  }

  /** Bytes below 0x80 decode one-for-one to the characters with those codes. */
  lemma {:induction false} DecodeAscii(s: seq<Byte>)
    requires forall i :: 0 <= i < |s| ==> s[i] < 0x80
    ensures Decode(s).Some? && |Decode(s).value| == |s|
    ensures forall i :: 0 <= i < |s| ==> Decode(s).value[i] as int == s[i]
  {
    if s != [] {
      DecodeAscii(s[1..]);
      assert LeadLength(s) == 1 && Scalar(s, 1) == s[0] as char;
      assert Decode(s).value == [s[0] as char] + Decode(s[1..]).value;
    }
  }
}
