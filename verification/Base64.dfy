/**
 * The base64 alphabet and encoding of section 4 of RFC 4648, with `=` padding,
 * as Node's `Buffer.toString("base64")` writes it and `Buffer.from(s, "base64")`
 * reads it back. The tape keeps every body in this form.
 */
module Base64 {
  import opened Wrappers

  type byte = x: int | 0 <= x < 256

  /** A 6-bit value, the index of one character of the alphabet. */
  type sextet = x: int | 0 <= x < 64

  /** Table 1 of RFC 4648: A-Z, a-z, 0-9, '+', '/'. */
  function CharOf(v: sextet): (c: char)
    ensures IsAlphabetChar(c)
  {
    if v < 26 then ('A' as int + v) as char
    else if v < 52 then ('a' as int + (v - 26)) as char
    else if v < 62 then ('0' as int + (v - 52)) as char
    else if v == 62 then '+'
    else '/'
  }

  predicate IsAlphabetChar(c: char)
  {
    ('A' <= c <= 'Z') || ('a' <= c <= 'z') || ('0' <= c <= '9') || c == '+' || c == '/'
  }

  /** The inverse of CharOf on the alphabet. */
  function ValueOf(c: char): (v: sextet)
    requires IsAlphabetChar(c)
    ensures CharOf(v) == c
  {
    if 'A' <= c <= 'Z' then c as int - 'A' as int
    else if 'a' <= c <= 'z' then c as int - 'a' as int + 26
    else if '0' <= c <= '9' then c as int - '0' as int + 52
    else if c == '+' then 62
    else 63
  }

  lemma {:induction false} CharOfInAlphabet(v: sextet)
    ensures IsAlphabetChar(CharOf(v)) && ValueOf(CharOf(v)) == v
  {
  }

  /** Three bytes become four characters, most significant bits first. */
  function EncodeQuantum(b0: byte, b1: byte, b2: byte): string
  {
    [CharOf(b0 / 4), CharOf((b0 % 4) * 16 + b1 / 16), CharOf((b1 % 16) * 4 + b2 / 64), CharOf(b2 % 64)]
  }

  /** The encoding of a byte string; a final group of one or two bytes is padded with `=`. */
  function Encode(bs: seq<byte>): (s: string)
    ensures |s| % 4 == 0
    ensures |s| == 0 <==> |bs| == 0
    decreases |bs|
  {
    if |bs| == 0 then ""
    else if |bs| == 1 then [CharOf(bs[0] / 4), CharOf((bs[0] % 4) * 16), '=', '=']
    else if |bs| == 2 then
      [CharOf(bs[0] / 4), CharOf((bs[0] % 4) * 16 + bs[1] / 16), CharOf((bs[1] % 16) * 4), '=']
    else EncodeQuantum(bs[0], bs[1], bs[2]) + Encode(bs[3..])
  }

  /** Four alphabet characters become three bytes. */
  function DecodeQuantum(c0: char, c1: char, c2: char, c3: char): Option<seq<byte>>
  {
    if IsAlphabetChar(c0) && IsAlphabetChar(c1) && IsAlphabetChar(c2) && IsAlphabetChar(c3) then
      var v0, v1, v2, v3 := ValueOf(c0), ValueOf(c1), ValueOf(c2), ValueOf(c3);
      Some([v0 * 4 + v1 / 16, (v1 % 16) * 16 + v2 / 4, (v2 % 4) * 64 + v3])
    else None
  }

  /** The last group of four characters, which may end in one or two `=`. */
  function DecodeFinal(c0: char, c1: char, c2: char, c3: char): Option<seq<byte>>
  {
    if c2 == '=' && c3 == '=' then
      if IsAlphabetChar(c0) && IsAlphabetChar(c1) then
        Some([ValueOf(c0) * 4 + ValueOf(c1) / 16])
      else None
    else if c3 == '=' then
      if IsAlphabetChar(c0) && IsAlphabetChar(c1) && IsAlphabetChar(c2) then
        var v1, v2 := ValueOf(c1), ValueOf(c2);
        Some([ValueOf(c0) * 4 + v1 / 16, (v1 % 16) * 16 + v2 / 4])
      else None
    else DecodeQuantum(c0, c1, c2, c3)
  }

  /** Strict decoding: None unless the text is a sequence of complete, padded groups. */
  function Decode(s: string): (r: Option<seq<byte>>)
    ensures r.Some? ==> |s| % 4 == 0
    ensures r.Some? ==> |r.value| <= 3 * (|s| / 4)
    decreases |s|
  {
    if |s| == 0 then Some([])
    else if |s| < 4 then None
    else if |s| == 4 then DecodeFinal(s[0], s[1], s[2], s[3])
    else
      match DecodeQuantum(s[0], s[1], s[2], s[3])
      case None => None
      case Some(head) =>
        match Decode(s[4..])
        case None => None
        case Some(tail) => Some(head + tail)
  }

  /** Every byte string encodes to text four characters per started group of three. */
  lemma {:induction false} EncodeLength(bs: seq<byte>)
    ensures |Encode(bs)| == 4 * ((|bs| + 2) / 3)
    decreases |bs|
  {
    if |bs| >= 3 {
      EncodeLength(bs[3..]);
      assert |Encode(bs)| == 4 + |Encode(bs[3..])|;
      assert (|bs| + 2) / 3 == 1 + (|bs[3..]| + 2) / 3;
    }
  }

  /** The bit fields of three bytes, regrouped into four sextets, regroup back into the bytes. */
  lemma {:induction false} QuantumArithmetic(b0: byte, b1: byte, b2: byte)
    ensures var v0, v1, v2, v3 := b0 / 4, (b0 % 4) * 16 + b1 / 16, (b1 % 16) * 4 + b2 / 64, b2 % 64;
            v0 * 4 + v1 / 16 == b0 && (v1 % 16) * 16 + v2 / 4 == b1 && (v2 % 4) * 64 + v3 == b2
  {
    assert ((b0 % 4) * 16 + b1 / 16) / 16 == b0 % 4;
    assert ((b0 % 4) * 16 + b1 / 16) % 16 == b1 / 16;
    assert ((b1 % 16) * 4 + b2 / 64) / 4 == b1 % 16;
    assert ((b1 % 16) * 4 + b2 / 64) % 4 == b2 / 64;
  }

  lemma {:induction false} QuantumRoundTrip(b0: byte, b1: byte, b2: byte)
    ensures var q := EncodeQuantum(b0, b1, b2);
            DecodeQuantum(q[0], q[1], q[2], q[3]) == Some([b0, b1, b2])
  {
    var v0, v1, v2, v3 := b0 / 4, (b0 % 4) * 16 + b1 / 16, (b1 % 16) * 4 + b2 / 64, b2 % 64;
    CharOfInAlphabet(v0);
    CharOfInAlphabet(v1);
    CharOfInAlphabet(v2);
    CharOfInAlphabet(v3);
    QuantumArithmetic(b0, b1, b2);
    var q := EncodeQuantum(b0, b1, b2);
    assert q == [CharOf(v0), CharOf(v1), CharOf(v2), CharOf(v3)];
  }

  lemma {:induction false} OneByteRoundTrip(b0: byte)
    ensures Decode(Encode([b0])) == Some([b0])
  {
    CharOfInAlphabet(b0 / 4);
    CharOfInAlphabet((b0 % 4) * 16);
    assert Encode([b0]) == [CharOf(b0 / 4), CharOf((b0 % 4) * 16), '=', '='];
    DecodeFour(CharOf(b0 / 4), CharOf((b0 % 4) * 16), '=', '=');
    assert ((b0 % 4) * 16) / 16 == b0 % 4;
  }

  lemma {:induction false} TwoByteArithmetic(b0: byte, b1: byte)
    ensures var v0, v1, v2 := b0 / 4, (b0 % 4) * 16 + b1 / 16, (b1 % 16) * 4;
            v0 * 4 + v1 / 16 == b0 && (v1 % 16) * 16 + v2 / 4 == b1
  {
    assert ((b0 % 4) * 16 + b1 / 16) / 16 == b0 % 4;
    assert ((b0 % 4) * 16 + b1 / 16) % 16 == b1 / 16;
    assert ((b1 % 16) * 4) / 4 == b1 % 16;
  }

  lemma {:induction false} TwoByteRoundTrip(b0: byte, b1: byte)
    ensures Decode(Encode([b0, b1])) == Some([b0, b1])
  {
    var v0, v1, v2 := b0 / 4, (b0 % 4) * 16 + b1 / 16, (b1 % 16) * 4;
    CharOfInAlphabet(v0);
    CharOfInAlphabet(v1);
    CharOfInAlphabet(v2);
    TwoByteArithmetic(b0, b1);
    assert Encode([b0, b1]) == [CharOf(v0), CharOf(v1), CharOf(v2), '='];
    DecodeFour(CharOf(v0), CharOf(v1), CharOf(v2), '=');
  }

  lemma {:induction false} DecodeFour(c0: char, c1: char, c2: char, c3: char)
    ensures Decode([c0, c1, c2, c3]) == DecodeFinal(c0, c1, c2, c3)
  {
  }

  lemma {:induction false} ThreeByteRoundTrip(b0: byte, b1: byte, b2: byte)
    ensures Decode(Encode([b0, b1, b2])) == Some([b0, b1, b2])
  {
    var q := EncodeQuantum(b0, b1, b2);
    QuantumRoundTrip(b0, b1, b2);
    assert [b0, b1, b2][3..] == [];
    assert Encode([b0, b1, b2]) == q;
    assert q[2] != '=' && q[3] != '=';
  }

  lemma {:induction false} DecodePrefixQuantum(q: string, rest: string, head: seq<byte>, tail: seq<byte>)
    requires |q| == 4 && |rest| > 0
    requires DecodeQuantum(q[0], q[1], q[2], q[3]) == Some(head)
    requires Decode(rest) == Some(tail)
    ensures Decode(q + rest) == Some(head + tail)
  {
    var s := q + rest;
    assert s[0] == q[0] && s[1] == q[1] && s[2] == q[2] && s[3] == q[3];
    assert s[4..] == rest;
  }

  lemma {:induction false} ShortRoundTrip(bs: seq<byte>)
    requires 0 < |bs| <= 3
    ensures Decode(Encode(bs)) == Some(bs)
  {
    if |bs| == 1 {
      assert bs == [bs[0]];
      OneByteRoundTrip(bs[0]);
    } else if |bs| == 2 {
      assert bs == [bs[0], bs[1]];
      TwoByteRoundTrip(bs[0], bs[1]);
    } else {
      assert bs == [bs[0], bs[1], bs[2]];
      ThreeByteRoundTrip(bs[0], bs[1], bs[2]);
    }
  }

  /** A leading complete group decodes in front of whatever the rest decodes to. */
  lemma {:induction false} LongRoundTrip(b0: byte, b1: byte, b2: byte, tail: seq<byte>)
    requires |tail| > 0
    requires Decode(Encode(tail)) == Some(tail)
    ensures Decode(Encode([b0, b1, b2] + tail)) == Some([b0, b1, b2] + tail)
  {
    var bs := [b0, b1, b2] + tail;
    assert bs[0] == b0 && bs[1] == b1 && bs[2] == b2 && bs[3..] == tail;
    var q := EncodeQuantum(b0, b1, b2);
    QuantumRoundTrip(b0, b1, b2);
    var rest := Encode(tail);
    assert Encode(bs) == q + rest;
    EncodeLength(tail);
    DecodePrefixQuantum(q, rest, [b0, b1, b2], tail);
  }

  lemma {:induction false} SplitHead(bs: seq<byte>)
    requires |bs| >= 3
    ensures bs == [bs[0], bs[1], bs[2]] + bs[3..]
  {
  }

  /** Body fidelity: decoding the encoding of any byte string gives back the same bytes. */
  lemma {:induction false} DecodeEncode(bs: seq<byte>)
    ensures Decode(Encode(bs)) == Some(bs)
    decreases |bs|
  {
    if |bs| > 3 {
      DecodeEncode(bs[3..]);
      LongRoundTrip(bs[0], bs[1], bs[2], bs[3..]);
      SplitHead(bs);
    } else if |bs| > 0 {
      ShortRoundTrip(bs);
    }
  }

  /** Encoded text uses only the alphabet and the pad character. */
  lemma {:induction false} EncodeAlphabet(bs: seq<byte>)
    ensures forall i :: 0 <= i < |Encode(bs)| ==> IsAlphabetChar(Encode(bs)[i]) || Encode(bs)[i] == '='
    decreases |bs|
  {
    if |bs| >= 3 {
      EncodeAlphabet(bs[3..]);
      CharOfInAlphabet(bs[0] / 4);
      CharOfInAlphabet((bs[0] % 4) * 16 + bs[1] / 16);
      CharOfInAlphabet((bs[1] % 16) * 4 + bs[2] / 64);
      CharOfInAlphabet(bs[2] % 64);
    } else if |bs| == 2 {
      CharOfInAlphabet(bs[0] / 4);
      CharOfInAlphabet((bs[0] % 4) * 16 + bs[1] / 16);
      CharOfInAlphabet((bs[1] % 16) * 4);
    } else if |bs| == 1 {
      CharOfInAlphabet(bs[0] / 4);
      CharOfInAlphabet((bs[0] % 4) * 16);
    }
  }
}
