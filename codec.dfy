/** The octet codecs the core delegates to: Base 16 (section 8 of RFC 4648,
    Go's encoding/hex), Base 64 with padding (section 4 of RFC 4648, Go's
    base64.StdEncoding) and unsigned base-10 numbers (Go's strconv.ParseUint
    with base 10 and 64 bits). Go's streaming encoders are stated here as
    whole-string functions. */
module Codec {
  import opened Types
  import opened Chars

  // ---------------------------------------------------------------- Base 16

  predicate IsLowerHexDigit(c: char) {
    ('0' <= c <= '9') || ('a' <= c <= 'f')
  }

  /** The lower-case digit for a nibble, as the encoder emits it. */
  function LowerHexDigit(v: nat): (c: char)
    requires v < 16
    ensures IsLowerHexDigit(c) && IsHexadecimalRemainder(c)
  {
    if v < 10 then ('0' as int + v) as char else ('a' as int + v - 10) as char
  }

  /** The nibble of a hex digit of either case. */
  function HexDigitValue(c: char): (v: nat)
    requires IsHexadecimalRemainder(c)
    ensures v < 16
  {
    if '0' <= c <= '9' then c as int - '0' as int
    else if 'a' <= c <= 'f' then c as int - 'a' as int + 10
    else c as int - 'A' as int + 10
  }

  lemma HexDigitRoundTrip(v: nat)
    requires v < 16
    ensures HexDigitValue(LowerHexDigit(v)) == v
  {
  }

  /** Two lower-case digits per octet, high nibble first. */
  function HexEncode(b: seq<byte>): (t: string)
    ensures |t| == 2 * |b|
    ensures forall i :: 0 <= i < |t| ==> IsLowerHexDigit(t[i]) && IsHexadecimalRemainder(t[i])
  {
    if |b| == 0 then []
    else [LowerHexDigit(b[0] / 16), LowerHexDigit(b[0] % 16)] + HexEncode(b[1..])
  }

  function HexPairs(t: string): (b: seq<byte>)
    requires |t| % 2 == 0
    requires forall i :: 0 <= i < |t| ==> IsHexadecimalRemainder(t[i])
    ensures |b| == |t| / 2
  {
    if |t| == 0 then []
    else [16 * HexDigitValue(t[0]) + HexDigitValue(t[1])] + HexPairs(t[2..])
  }

  /** Go's hex.Decode on a string of hex digits: an odd count is hex.ErrLength. */
  function HexDecode(t: string): (r: Result<seq<byte>>)
    requires forall i :: 0 <= i < |t| ==> IsHexadecimalRemainder(t[i])
    ensures r.Ok? <==> |t| % 2 == 0
    ensures r.Err? ==> r.error == HexLength
    ensures r.Ok? ==> |r.value| == |t| / 2
  {
    if |t| % 2 == 1 then Err(HexLength) else Ok(HexPairs(t))
  }

  /** Decoding the encoder's output gives back the octets. */
  lemma {:induction false} HexRoundTrip(b: seq<byte>)
    ensures HexDecode(HexEncode(b)) == Ok(b)
  {
    if |b| > 0 {
      HexRoundTrip(b[1..]);
      var t := HexEncode(b);
      HexDigitRoundTrip(b[0] / 16);
      HexDigitRoundTrip(b[0] % 16);
      assert t[2..] == HexEncode(b[1..]);
      assert b == [b[0]] + b[1..];
    }
  }

  // ---------------------------------------------------------------- Base 64

  /** The standard alphabet: A-Z, a-z, 0-9, '+', '/'. */
  function Base64Digit(v: nat): (c: char)
    requires v < 64
    ensures IsBase64Remainder(c)
  {
    if v < 26 then ('A' as int + v) as char
    else if v < 52 then ('a' as int + v - 26) as char
    else if v < 62 then ('0' as int + v - 52) as char
    else if v == 62 then '+'
    else '/'
  }

  function Base64DigitValue(c: char): (v: nat)
    requires IsBase64Remainder(c)
    ensures v < 64
  {
    if 'A' <= c <= 'Z' then c as int - 'A' as int
    else if 'a' <= c <= 'z' then c as int - 'a' as int + 26
    else if '0' <= c <= '9' then c as int - '0' as int + 52
    else if c == '+' then 62
    else 63
  }

  lemma Base64DigitRoundTrip(v: nat)
    requires v < 64
    ensures Base64DigitValue(Base64Digit(v)) == v
  {
  }

  /** Four characters per three octets; a final group of one or two octets
      is padded with '=' to four characters. */
  function Base64Encode(b: seq<byte>): (t: string)
    ensures |t| == (|b| + 2) / 3 * 4
    ensures |t| % 4 == 0
  {
    if |b| == 0 then []
    else if |b| == 1 then
      [Base64Digit(b[0] / 4), Base64Digit(b[0] % 4 * 16), '=', '=']
    else if |b| == 2 then
      [Base64Digit(b[0] / 4), Base64Digit(b[0] % 4 * 16 + b[1] / 16), Base64Digit(b[1] % 16 * 4), '=']
    else
      QuantaLength(|b|);
      [Base64Digit(b[0] / 4), Base64Digit(b[0] % 4 * 16 + b[1] / 16),
       Base64Digit(b[1] % 16 * 4 + b[2] / 64), Base64Digit(b[2] % 64)]
      + Base64Encode(b[3..])
  }

  /** Each further group of three bytes adds one quantum of four digits. */
  lemma QuantaLength(n: nat)
    requires n >= 3
    ensures (n + 2) / 3 * 4 == 4 + (n - 1) / 3 * 4
    ensures ((n + 2) / 3 * 4) % 4 == 0
  {
    assert (n + 2) / 3 == 1 + (n - 1) / 3;
  }

  function Base64Quanta(t: string): (b: seq<byte>)
    requires |t| % 4 == 0
    requires forall i :: 0 <= i < |t| ==> IsBase64Remainder(t[i])
    ensures |b| == |t| / 4 * 3
  {
    if |t| == 0 then []
    else
      var v0, v1, v2, v3 := Base64DigitValue(t[0]), Base64DigitValue(t[1]),
                            Base64DigitValue(t[2]), Base64DigitValue(t[3]);
      [v0 * 4 + v1 / 16, v1 % 16 * 16 + v2 / 4, v2 % 4 * 64 + v3] + Base64Quanta(t[4..])
  }

  /** Go's base64.StdEncoding.Decode on a string of alphabet characters (no
      '=' ever reaches it): padding is required, so a count that is not a
      multiple of four fails at the start of the incomplete group. */
  function Base64Decode(t: string): (r: Result<seq<byte>>)
    requires forall i :: 0 <= i < |t| ==> IsBase64Remainder(t[i])
    ensures r.Ok? <==> |t| % 4 == 0
    ensures r.Err? ==> r.error == Base64Corrupt(|t| - |t| % 4)
    ensures r.Ok? ==> |r.value| == |t| / 4 * 3
  {
    if |t| % 4 != 0 then Err(Base64Corrupt(|t| - |t| % 4)) else Ok(Base64Quanta(t))
  }

  lemma Base64GroupRoundTrip(b0: byte, b1: byte, b2: byte)
    ensures var v0, v1, v2, v3 := b0 / 4, b0 % 4 * 16 + b1 / 16, b1 % 16 * 4 + b2 / 64, b2 % 64;
            v0 * 4 + v1 / 16 == b0 && v1 % 16 * 16 + v2 / 4 == b1 && v2 % 4 * 64 + v3 == b2
  {
  }

  /** Without padding the encoder's output is all alphabet characters. */
  lemma {:induction false} Base64UnpaddedDigits(b: seq<byte>)
    requires |b| % 3 == 0
    ensures forall i :: 0 <= i < |Base64Encode(b)| ==> IsBase64Remainder(Base64Encode(b)[i])
  {
    if |b| > 0 {
      Base64UnpaddedDigits(b[3..]);
    }
  }

  /** Decoding the encoder's output gives back the octets whenever the encoder
      needed no padding. */
  lemma {:induction false} Base64RoundTrip(b: seq<byte>)
    requires |b| % 3 == 0
    ensures forall i :: 0 <= i < |Base64Encode(b)| ==> IsBase64Remainder(Base64Encode(b)[i])
    ensures Base64Decode(Base64Encode(b)) == Ok(b)
  {
    Base64UnpaddedDigits(b);
    if |b| > 0 {
      Base64RoundTrip(b[3..]);
      var t := Base64Encode(b);
      assert t[4..] == Base64Encode(b[3..]);
      Base64FirstGroup(b);
      assert b == b[..3] + b[3..];
    }
  }

  /** The first group of four characters decodes to the first three octets. */
  lemma Base64FirstGroup(b: seq<byte>)
    requires |b| >= 3 && |b| % 3 == 0
    requires forall i :: 0 <= i < |Base64Encode(b)| ==> IsBase64Remainder(Base64Encode(b)[i])
    ensures Base64Quanta(Base64Encode(b)) == b[..3] + Base64Quanta(Base64Encode(b)[4..])
  {
    var t := Base64Encode(b);
    Base64DigitRoundTrip(b[0] / 4);
    Base64DigitRoundTrip(b[0] % 4 * 16 + b[1] / 16);
    Base64DigitRoundTrip(b[1] % 16 * 4 + b[2] / 64);
    Base64DigitRoundTrip(b[2] % 64);
    Base64GroupDecodes(t, b[0], b[1], b[2]);
    assert [b[0], b[1], b[2]] == b[..3];
  }

  /** A group of four digits carrying the values the encoder computes from
      b0, b1, b2 decodes to those octets. */
  lemma Base64GroupDecodes(t: string, b0: byte, b1: byte, b2: byte)
    requires |t| >= 4 && |t| % 4 == 0
    requires forall i :: 0 <= i < |t| ==> IsBase64Remainder(t[i])
    requires Base64DigitValue(t[0]) == b0 / 4 && Base64DigitValue(t[1]) == b0 % 4 * 16 + b1 / 16
    requires Base64DigitValue(t[2]) == b1 % 16 * 4 + b2 / 64 && Base64DigitValue(t[3]) == b2 % 64
    ensures Base64Quanta(t) == [b0, b1, b2] + Base64Quanta(t[4..])
  {
    Base64GroupRoundTrip(b0, b1, b2);
  }

  /** A character of padded base-64 text: a digit of the alphabet or '='. */
  predicate IsPaddedBase64Char(c: char) {
    IsBase64Remainder(c) || c == '='
  }

  /** The value a character carries in its quantum; '=' carries none. */
  function PaddedDigitValue(c: char): (v: nat)
    requires IsPaddedBase64Char(c)
    ensures v < 64
  {
    if c == '=' then 0 else Base64DigitValue(c)
  }

  /** The octets one quantum of padded text stands for: four digits give
      three octets, and a quantum that ends in "==" or "=" gives one or two. */
  function QuantumOctets(c0: char, c1: char, c2: char, c3: char): (b: seq<byte>)
    requires IsPaddedBase64Char(c0) && IsPaddedBase64Char(c1)
    requires IsPaddedBase64Char(c2) && IsPaddedBase64Char(c3)
    ensures |b| == if c2 == '=' then 1 else if c3 == '=' then 2 else 3
  {
    var v0, v1, v2, v3 := PaddedDigitValue(c0), PaddedDigitValue(c1), PaddedDigitValue(c2), PaddedDigitValue(c3);
    var octets: seq<byte> := [v0 * 4 + v1 / 16, v1 % 16 * 16 + v2 / 4, v2 % 4 * 64 + v3];
    if c2 == '=' then octets[..1] else if c3 == '=' then octets[..2] else octets
  }

  /** Decoding of padded text quantum by quantum, as section 4 of RFC 4648
      defines it. */
  function Base64DecodePadded(t: string): (b: seq<byte>)
    requires |t| % 4 == 0
    requires forall i :: 0 <= i < |t| ==> IsPaddedBase64Char(t[i])
    ensures |b| <= |t| / 4 * 3
  {
    if |t| == 0 then []
    else QuantumOctets(t[0], t[1], t[2], t[3]) + Base64DecodePadded(t[4..])
  }

  /** Every character the encoder writes is a digit or padding. */
  lemma Base64PaddedChars(b: seq<byte>)
    ensures forall i :: 0 <= i < |Base64Encode(b)| ==> IsPaddedBase64Char(Base64Encode(b)[i])
  {
    Base64Layout(b);
  }

  /** The encoding of any octets, a padded last quantum included, is padded
      base-64 text that decodes back to them. */
  lemma {:induction false} Base64PaddedRoundTrip(b: seq<byte>)
    ensures forall i :: 0 <= i < |Base64Encode(b)| ==> IsPaddedBase64Char(Base64Encode(b)[i])
    ensures Base64DecodePadded(Base64Encode(b)) == b
  {
    if |b| == 0 {
    } else if |b| < 3 {
      Base64PaddedChars(b);
      Base64PaddedTail(b);
    } else {
      Base64PaddedRoundTrip(b[3..]);
      Base64PaddedStep(b);
      FirstThree(b);
    }
  }

  /** One or two octets make a single padded quantum that decodes to them. */
  lemma Base64PaddedTail(b: seq<byte>)
    requires 1 <= |b| < 3
    requires forall i :: 0 <= i < |Base64Encode(b)| ==> IsPaddedBase64Char(Base64Encode(b)[i])
    ensures Base64DecodePadded(Base64Encode(b)) == b
  {
    if |b| == 1 {
      Base64PaddedOne(b);
    } else {
      Base64PaddedTwo(b);
    }
  }

  lemma Base64PaddedOne(b: seq<byte>)
    requires |b| == 1
    requires forall i :: 0 <= i < |Base64Encode(b)| ==> IsPaddedBase64Char(Base64Encode(b)[i])
    ensures Base64DecodePadded(Base64Encode(b)) == b
  {
    var t := Base64Encode(b);
    var c0, c1 := Base64Digit(b[0] / 4), Base64Digit(b[0] % 4 * 16);
    assert t == [c0, c1, '=', '='];
    assert t[4..] == [];
    Base64OneOctet(b[0]);
    assert b == [b[0]];
  }

  lemma Base64PaddedTwo(b: seq<byte>)
    requires |b| == 2
    requires forall i :: 0 <= i < |Base64Encode(b)| ==> IsPaddedBase64Char(Base64Encode(b)[i])
    ensures Base64DecodePadded(Base64Encode(b)) == b
  {
    var t := Base64Encode(b);
    var c0, c1 := Base64Digit(b[0] / 4), Base64Digit(b[0] % 4 * 16 + b[1] / 16);
    var c2 := Base64Digit(b[1] % 16 * 4);
    assert t == [c0, c1, c2, '='];
    assert t[4..] == [];
    Base64TwoOctets(b[0], b[1]);
    assert b == [b[0], b[1]];
  }

  /** The first three octets make the first quantum, and the rest of the
      encoding is the encoding of the rest. */
  lemma Base64PaddedStep(b: seq<byte>)
    requires |b| >= 3
    requires forall i :: 0 <= i < |Base64Encode(b[3..])| ==> IsPaddedBase64Char(Base64Encode(b[3..])[i])
    ensures forall i :: 0 <= i < |Base64Encode(b)| ==> IsPaddedBase64Char(Base64Encode(b)[i])
    ensures Base64DecodePadded(Base64Encode(b)) == [b[0], b[1], b[2]] + Base64DecodePadded(Base64Encode(b[3..]))
  {
    var c0, c1 := Base64Digit(b[0] / 4), Base64Digit(b[0] % 4 * 16 + b[1] / 16);
    var c2, c3 := Base64Digit(b[1] % 16 * 4 + b[2] / 64), Base64Digit(b[2] % 64);
    Base64EncodeCons(b);
    DecodePaddedCons(c0, c1, c2, c3, Base64Encode(b[3..]));
    Base64FullQuantum(b[0], b[1], b[2]);
  }

  /** Three or more octets are written as one full quantum followed by the
      encoding of the rest. */
  lemma Base64EncodeCons(b: seq<byte>)
    requires |b| >= 3
    ensures Base64Encode(b) == [Base64Digit(b[0] / 4), Base64Digit(b[0] % 4 * 16 + b[1] / 16),
                                Base64Digit(b[1] % 16 * 4 + b[2] / 64), Base64Digit(b[2] % 64)] + Base64Encode(b[3..])
  {
  }

  /** Padded text decodes quantum by quantum. */
  lemma DecodePaddedCons(c0: char, c1: char, c2: char, c3: char, u: string)
    requires IsPaddedBase64Char(c0) && IsPaddedBase64Char(c1)
    requires IsPaddedBase64Char(c2) && IsPaddedBase64Char(c3)
    requires |u| % 4 == 0 && forall i :: 0 <= i < |u| ==> IsPaddedBase64Char(u[i])
    ensures var t := [c0, c1, c2, c3] + u;
      (forall i :: 0 <= i < |t| ==> IsPaddedBase64Char(t[i])) &&
      Base64DecodePadded(t) == QuantumOctets(c0, c1, c2, c3) + Base64DecodePadded(u)
  {
    var t := [c0, c1, c2, c3] + u;
    assert t[4..] == u;
  }

  lemma FirstThree(b: seq<byte>)
    requires |b| >= 3
    ensures b == [b[0], b[1], b[2]] + b[3..]
  {
  }

  /** A digit of the alphabet carries its value in a padded quantum. */
  lemma PaddedDigitRoundTrip(v: nat)
    requires v < 64
    ensures Base64Digit(v) != '=' && PaddedDigitValue(Base64Digit(v)) == v
  {
    Base64DigitRoundTrip(v);
  }

  /** One octet is written as two digits and "==". */
  lemma Base64OneOctet(b0: byte)
    ensures QuantumOctets(Base64Digit(b0 / 4), Base64Digit(b0 % 4 * 16), '=', '=') == [b0]
  {
    PaddedDigitRoundTrip(b0 / 4);
    PaddedDigitRoundTrip(b0 % 4 * 16);
    QuantumOfValues(Base64Digit(b0 / 4), Base64Digit(b0 % 4 * 16), '=', '=', b0, 0, 0);
  }

  /** Two octets are written as three digits and "=". */
  lemma Base64TwoOctets(b0: byte, b1: byte)
    ensures QuantumOctets(Base64Digit(b0 / 4), Base64Digit(b0 % 4 * 16 + b1 / 16), Base64Digit(b1 % 16 * 4), '=')
            == [b0, b1]
  {
    PaddedDigitRoundTrip(b0 / 4);
    PaddedDigitRoundTrip(b0 % 4 * 16 + b1 / 16);
    PaddedDigitRoundTrip(b1 % 16 * 4);
    QuantumOfValues(Base64Digit(b0 / 4), Base64Digit(b0 % 4 * 16 + b1 / 16), Base64Digit(b1 % 16 * 4), '=', b0, b1, 0);
  }

  /** Three octets are written as four digits. */
  lemma Base64FullQuantum(b0: byte, b1: byte, b2: byte)
    ensures QuantumOctets(Base64Digit(b0 / 4), Base64Digit(b0 % 4 * 16 + b1 / 16),
                          Base64Digit(b1 % 16 * 4 + b2 / 64), Base64Digit(b2 % 64)) == [b0, b1, b2]
  {
    PaddedDigitRoundTrip(b0 / 4);
    PaddedDigitRoundTrip(b0 % 4 * 16 + b1 / 16);
    PaddedDigitRoundTrip(b1 % 16 * 4 + b2 / 64);
    PaddedDigitRoundTrip(b2 % 64);
    QuantumOfValues(Base64Digit(b0 / 4), Base64Digit(b0 % 4 * 16 + b1 / 16),
                    Base64Digit(b1 % 16 * 4 + b2 / 64), Base64Digit(b2 % 64), b0, b1, b2);
  }

  /** A quantum whose characters carry the values the encoder computes from
      b0, b1, b2 decodes to as many of them as it has digits beyond the
      first. */
  lemma QuantumOfValues(c0: char, c1: char, c2: char, c3: char, b0: byte, b1: byte, b2: byte)
    requires IsPaddedBase64Char(c0) && IsPaddedBase64Char(c1)
    requires IsPaddedBase64Char(c2) && IsPaddedBase64Char(c3)
    requires c0 != '=' && c1 != '=' && (c2 == '=' ==> c3 == '=')
    requires PaddedDigitValue(c0) == b0 / 4
    requires PaddedDigitValue(c1) == b0 % 4 * 16 + b1 / 16
    requires c2 != '=' ==> PaddedDigitValue(c2) == b1 % 16 * 4 + b2 / 64
    requires c3 != '=' ==> PaddedDigitValue(c3) == b2 % 64
    requires c2 == '=' ==> b1 == 0
    requires c3 == '=' ==> b2 == 0
    ensures QuantumOctets(c0, c1, c2, c3) == if c2 == '=' then [b0] else if c3 == '=' then [b0, b1] else [b0, b1, b2]
  {
    Base64GroupRoundTrip(b0, b1, b2);
  }

  /** On text without padding, the decoder the parser uses agrees with the
      padded decoding. */
  lemma {:induction false} Base64DecodeAgrees(t: string)
    requires |t| % 4 == 0
    requires forall i :: 0 <= i < |t| ==> IsBase64Remainder(t[i])
    ensures Base64Decode(t) == Ok(Base64DecodePadded(t))
  {
    if |t| > 0 {
      Base64DecodeAgrees(t[4..]);
      assert t[2] != '=' && t[3] != '=';
    }
  }

  /** The number of '=' the encoder appends for this many octets. */
  function PadCount(n: nat): nat {
    if n % 3 == 0 then 0 else 3 - n % 3
  }

  /** The encoder's output is alphabet characters followed by exactly
      PadCount(|b|) padding characters. */
  lemma {:induction false} Base64Layout(b: seq<byte>)
    ensures var t := Base64Encode(b);
            PadCount(|b|) <= |t| &&
            (forall i :: 0 <= i < |t| - PadCount(|b|) ==> IsBase64Remainder(t[i])) &&
            (forall i :: |t| - PadCount(|b|) <= i < |t| ==> t[i] == '=')
  {
    if |b| >= 3 {
      Base64Layout(b[3..]);
      Base64LayoutStep(b);
    } else {
      Base64LayoutShort(b);
    }
  }

  /** Fewer than three octets: no digits or two or three, then the padding. */
  lemma Base64LayoutShort(b: seq<byte>)
    requires |b| < 3
    ensures var t := Base64Encode(b);
            PadCount(|b|) <= |t| &&
            (forall i :: 0 <= i < |t| - PadCount(|b|) ==> IsBase64Remainder(t[i])) &&
            (forall i :: |t| - PadCount(|b|) <= i < |t| ==> t[i] == '=')
  {
  }

  /** A first quantum of digits keeps the layout of the rest. */
  lemma Base64LayoutStep(b: seq<byte>)
    requires |b| >= 3
    requires var u := Base64Encode(b[3..]);
            PadCount(|b| - 3) <= |u| &&
            (forall i :: 0 <= i < |u| - PadCount(|b| - 3) ==> IsBase64Remainder(u[i])) &&
            (forall i :: |u| - PadCount(|b| - 3) <= i < |u| ==> u[i] == '=')
    ensures var t := Base64Encode(b);
            PadCount(|b|) <= |t| &&
            (forall i :: 0 <= i < |t| - PadCount(|b|) ==> IsBase64Remainder(t[i])) &&
            (forall i :: |t| - PadCount(|b|) <= i < |t| ==> t[i] == '=')
  {
    var c0, c1 := Base64Digit(b[0] / 4), Base64Digit(b[0] % 4 * 16 + b[1] / 16);
    var c2, c3 := Base64Digit(b[1] % 16 * 4 + b[2] / 64), Base64Digit(b[2] % 64);
    assert Base64Encode(b) == [c0, c1, c2, c3] + Base64Encode(b[3..]);
    assert PadCount(|b|) == PadCount(|b| - 3);
    LayoutPrepend(c0, c1, c2, c3, Base64Encode(b[3..]), PadCount(|b|));
  }

  /** A quantum of digits put before digits-then-padding text keeps it so. */
  lemma LayoutPrepend(c0: char, c1: char, c2: char, c3: char, u: string, pad: nat)
    requires IsBase64Remainder(c0) && IsBase64Remainder(c1) && IsBase64Remainder(c2) && IsBase64Remainder(c3)
    requires pad <= |u|
    requires forall i :: 0 <= i < |u| - pad ==> IsBase64Remainder(u[i])
    requires forall i :: |u| - pad <= i < |u| ==> u[i] == '='
    ensures var t := [c0, c1, c2, c3] + u;
            (forall i :: 0 <= i < |t| - pad ==> IsBase64Remainder(t[i])) &&
            (forall i :: |t| - pad <= i < |t| ==> t[i] == '=')
  {
    var t := [c0, c1, c2, c3] + u;
    forall i | 0 <= i < |t| - pad
      ensures IsBase64Remainder(t[i])
    {
      if i >= 4 {
        assert t[i] == u[i - 4];
      }
    }
    forall i | |t| - pad <= i < |t|
      ensures t[i] == '='
    {
      assert t[i] == u[i - 4];
    }
  }


  // ---------------------------------------------------------------- base 10

  function DigitValue(c: char): (v: nat)
    requires IsDigit(c)
    ensures v < 10
  {
    c as int - '0' as int
  }

  /** The base-10 value of a digit string, most significant digit first. */
  function DecimalValue(t: string): nat
    requires forall i :: 0 <= i < |t| ==> IsDigit(t[i])
  {
    if |t| == 0 then 0 else 10 * DecimalValue(t[..|t| - 1]) + DigitValue(t[|t| - 1])
  }

  /** strconv.ParseUint(t, 10, 64) on a string of decimal digits. */
  function ParseUint(t: string): (r: Result<nat>)
    requires forall i :: 0 <= i < |t| ==> IsDigit(t[i])
    ensures r.Ok? ==> r.value <= MaxUint64 && r.value == DecimalValue(t)
    ensures r == Err(DecimalSyntax) <==> |t| == 0
    ensures r == Err(DecimalRange) <==> |t| > 0 && DecimalValue(t) > MaxUint64
    ensures |t| > 0 && DecimalValue(t) <= MaxUint64 ==> r == Ok(DecimalValue(t))
  {
    if |t| == 0 then Err(DecimalSyntax)
    else if DecimalValue(t) > MaxUint64 then Err(DecimalRange)
    else Ok(DecimalValue(t))
  }

  /** The shortest decimal rendering of a number (strconv.FormatUint). */
  function FormatDecimal(n: nat): (t: string)
    ensures |t| > 0 && forall i :: 0 <= i < |t| ==> IsDigit(t[i])
  {
    if n < 10 then [('0' as int + n) as char]
    else FormatDecimal(n / 10) + [('0' as int + n % 10) as char]
  }

  /** Reading a rendered number back gives the number. */
  lemma {:induction false} DecimalRoundTrip(n: nat)
    ensures DecimalValue(FormatDecimal(n)) == n
  {
    if n >= 10 {
      DecimalRoundTrip(n / 10);
      var t := FormatDecimal(n);
      assert t[..|t| - 1] == FormatDecimal(n / 10);
    }
  }

  lemma ParseUintOfFormat(n: nat)
    requires n <= MaxUint64
    ensures ParseUint(FormatDecimal(n)) == Ok(n)
  {
    DecimalRoundTrip(n);
  }
}
