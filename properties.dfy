/** What the grammar does with encoder output and with a few characteristic
    inputs, for either revision (any Dialect). The round trip holds only for
    trees of lists and non-empty valid tokens: an atom's closing delimiter is
    pushed back and read again as an opener, and the encoder pads base 64
    with '=', which no body accepts. */
module Properties {
  import opened Types
  import opened Chars
  import Codec
  import opened Encoder
  import opened Grammar

  /** The payload of a token the parser can read back: non-empty token text. */
  predicate IsTokenOctets(b: seq<byte>) {
    |b| > 0 && IsTokenText(BytesAsChars(b))
  }

  /** Trees built from lists and non-empty valid tokens. */
  predicate Simple(n: Node)
    decreases n
  {
    match n
    case List(cs) => forall i :: 0 <= i < |cs| ==> Simple(cs[i])
    case Token(b) => IsTokenOctets(b)
    case Hexadecimal(_) => false
    case Base64(_) => false
  }

  /** s holds t at position p. */
  predicate At(s: string, p: nat, t: string) {
    p + |t| <= |s| && forall i :: 0 <= i < |t| ==> s[p + i] == t[i]
  }

  /** What may follow an encoded child inside its list, or the end of input. */
  predicate Follows(s: string, e: nat) {
    e <= |s| && (e == |s| || s[e] == ' ' || s[e] == ')')
  }

  lemma AtSplit(s: string, p: nat, a: string, b: string)
    requires At(s, p, a + b)
    ensures At(s, p, a) && At(s, p + |a|, b)
  {
    forall i | 0 <= i < |a|
      ensures s[p + i] == a[i]
    {
      assert (a + b)[i] == a[i];
    }
    forall i | 0 <= i < |b|
      ensures s[p + |a| + i] == b[i]
    {
      assert (a + b)[|a| + i] == b[i];
      assert s[p + (|a| + i)] == (a + b)[|a| + i];
    }
  }

  lemma AtSeparated(s: string, p: nat, a: string, b: string)
    requires At(s, p, a + " " + b)
    ensures At(s, p, a) && s[p + |a|] == ' ' && At(s, p + |a| + 1, b)
  {
    assert a + " " + b == a + (" " + b);
    AtSplit(s, p, a, " " + b);
    AtSplit(s, p + |a|, " ", b);
    assert s[p + |a| + 0] == " "[0];
  }

  /** The first character of a simple encoding opens a list or starts a
      token, so it is significant in every mode. */
  lemma FirstCharSignificant(d: Dialect, n: Node)
    requires Simple(n)
    ensures |Encode(n)| > 0
    ensures Encode(n)[0] == '(' || (n.Token? && IsTokenStart(Encode(n)[0]))
    ensures Discard(d, Encode(n)[0]) == Ok(false)
  {
  }

  // --------------------------------------------------------------- tokens

  /** A token's text ends at the end of input or at any character that
      cannot continue a token, and reads back as that token. */
  lemma ReadTokenEncoded(d: Dialect, s: string, p: nat, b: seq<byte>)
    requires IsTokenOctets(b) && At(s, p, BytesAsChars(b))
    requires p + |b| == |s| || !IsTokenRemainder(s[p + |b|])
    ensures ReadNode(d, s, p) == (if p + |b| == |s| then ParsedAtEof(Token(b)) else Parsed(Token(b)), p + |b|)
  {
    var t := BytesAsChars(b);
    assert s[p] == t[0];
    assert IsTokenStart(s[p]);
    GrammarCharsAreSignificant(d.disallowNewlines, s[p]);
    assert forall i :: p <= i < p + |b| ==> IsTokenRemainder(s[i]) by {
      forall i | p <= i < p + |b|
        ensures IsTokenRemainder(s[i])
      {
        assert s[p + (i - p)] == t[i - p];
      }
    }
    var e := TokenEnd(s, p);
    assert e == p + |b|;
    var r := ReadToken(s, p);
    assert r.0.node.octets == b;
  }

  // --------------------------------------------------------- round trip

  lemma {:induction false} ReadNodeEncoded(d: Dialect, s: string, p: nat, n: Node)
    requires Simple(n) && At(s, p, Encode(n)) && Follows(s, p + |Encode(n)|)
    ensures ReadNode(d, s, p) ==
      (if n.Token? && p + |Encode(n)| == |s| then ParsedAtEof(n) else Parsed(n), p + |Encode(n)|)
    decreases n, 2
  {
    match n
    case Token(b) =>
      ReadTokenEncoded(d, s, p, b);
    case List(cs) =>
      ReadNodeEncodedList(d, s, p, cs);
  }

  lemma {:induction false} ReadNodeEncodedList(d: Dialect, s: string, p: nat, cs: seq<Node>)
    requires Simple(List(cs)) && At(s, p, Encode(List(cs)))
    ensures ReadNode(d, s, p) == (Parsed(List(cs)), p + |Encode(List(cs))|)
    decreases cs, 2
  {
    ListLayout(s, p, cs);
    ReadNodeAtOpen(d, s, p);
    ReadListEncoded(d, s, p + 1, [], cs);
    assert [] + cs == cs;
  }

  /** Where the parentheses and the children of an encoded list sit. */
  lemma ListLayout(s: string, p: nat, cs: seq<Node>)
    requires At(s, p, Encode(List(cs)))
    ensures |Encode(List(cs))| == |Children(cs)| + 2
    ensures s[p] == '(' && At(s, p + 1, Children(cs)) && s[p + 1 + |Children(cs)|] == ')'
  {
    assert Encode(List(cs)) == "(" + (Children(cs) + ")");
    AtSplit(s, p, "(", Children(cs) + ")");
    AtSplit(s, p + 1, Children(cs), ")");
    assert s[p + 1 + |Children(cs)| + 0] == ")"[0];
  }

  /** parseNode at '(' parses a list. */
  lemma ReadNodeAtOpen(d: Dialect, s: string, p: nat)
    requires p < |s| && s[p] == '('
    ensures ReadNode(d, s, p) == (Lift(ReadList(d, s, p + 1, [])), ReadList(d, s, p + 1, []).1)
  {
  }

  /** parseList over the encoded children of a list: with the closing
      parenthesis present it yields the list, and when the input stops right
      after the last child it reports io.ErrUnexpectedEOF. */
  lemma {:induction false} ReadListEncoded(d: Dialect, s: string, q: nat, acc: seq<Node>, cs: seq<Node>)
    requires forall i :: 0 <= i < |cs| ==> Simple(cs[i])
    requires At(s, q, Children(cs))
    requires q + |Children(cs)| == |s| || s[q + |Children(cs)|] == ')'
    ensures ReadList(d, s, q, acc) ==
      if q + |Children(cs)| == |s| then (Err(UnexpectedEof), |s|)
      else (Ok(List(acc + cs)), q + |Children(cs)| + 1)
    decreases cs, 1
  {
    if |cs| == 0 {
      ReadListAtClose(d, s, q, acc);
      assert acc + cs == acc;
    } else if |cs| == 1 {
      ReadListEncodedLast(d, s, q, acc, cs);
    } else {
      ReadListEncodedMore(d, s, q, acc, cs);
    }
  }

  lemma {:induction false} ReadListEncodedLast(d: Dialect, s: string, q: nat, acc: seq<Node>, cs: seq<Node>)
    requires |cs| == 1 && Simple(cs[0])
    requires At(s, q, Encode(cs[0]))
    requires q + |Encode(cs[0])| == |s| || s[q + |Encode(cs[0])|] == ')'
    ensures ReadList(d, s, q, acc) ==
      if q + |Encode(cs[0])| == |s| then (Err(UnexpectedEof), |s|)
      else (Ok(List(acc + cs)), q + |Encode(cs[0])| + 1)
    decreases cs, 0
  {
    var e0 := Encode(cs[0]);
    FirstCharSignificant(d, cs[0]);
    var q1 := q + |e0|;
    assert s[q] == e0[0];
    ReadNodeEncoded(d, s, q, cs[0]);
    ReadListAfterChild(d, s, q, acc);
    if !(q1 == |s| && cs[0].Token?) {
      assert cs == [cs[0]];
      ReadListAtClose(d, s, q1, acc + cs);
    }
  }

  lemma {:induction false} ReadListEncodedMore(d: Dialect, s: string, q: nat, acc: seq<Node>, cs: seq<Node>)
    requires |cs| > 1 && forall i :: 0 <= i < |cs| ==> Simple(cs[i])
    requires At(s, q, Encode(cs[0]) + " " + Children(cs[1..]))
    requires var n := q + |Encode(cs[0])| + 1 + |Children(cs[1..])|; n == |s| || s[n] == ')'
    ensures var n := q + |Encode(cs[0])| + 1 + |Children(cs[1..])|;
      ReadList(d, s, q, acc) == if n == |s| then (Err(UnexpectedEof), |s|) else (Ok(List(acc + cs)), n + 1)
    decreases cs, 0
  {
    var e0 := Encode(cs[0]);
    FirstCharSignificant(d, cs[0]);
    var q1 := q + |e0|;
    AtSeparated(s, q, e0, Children(cs[1..]));
    assert s[q] == e0[0];
    ReadNodeEncoded(d, s, q, cs[0]);
    ReadListSkipChild(d, s, q, acc, cs[0], q1);
    ReadListEncoded(d, s, q1 + 1, acc + [cs[0]], cs[1..]);
    AppendFirst(acc, cs);
  }

  /** Moving the first of cs onto acc keeps acc + cs. */
  lemma AppendFirst(acc: seq<Node>, cs: seq<Node>)
    requires |cs| > 0
    ensures acc + [cs[0]] + cs[1..] == acc + cs
  {
    assert cs == [cs[0]] + cs[1..];
  }

  /** parseList at ')' or at the end of input. */
  lemma ReadListAtClose(d: Dialect, s: string, q: nat, acc: seq<Node>)
    requires q == |s| || (q < |s| && s[q] == ')')
    ensures ReadList(d, s, q, acc) == if q == |s| then (Err(UnexpectedEof), q) else (Ok(List(acc)), q + 1)
  {
  }

  /** parseList at a significant character reads a child, then either goes
      on after it, or stops with io.ErrUnexpectedEOF when the child met the
      end of input. */
  lemma ReadListAfterChild(d: Dialect, s: string, q: nat, acc: seq<Node>)
    requires q < |s| && Discard(d, s[q]) == Ok(false)
    ensures ReadNode(d, s, q).0.Parsed? ==>
      ReadList(d, s, q, acc) == ReadList(d, s, ReadNode(d, s, q).1, acc + [ReadNode(d, s, q).0.node])
    ensures ReadNode(d, s, q).0.ParsedAtEof? ==> ReadList(d, s, q, acc) == (Err(UnexpectedEof), ReadNode(d, s, q).1)
  {
  }

  /** parseList reads a child followed by a space and goes on after both. */
  lemma ReadListSkipChild(d: Dialect, s: string, q: nat, acc: seq<Node>, c: Node, q1: nat)
    requires q < |s| && Discard(d, s[q]) == Ok(false)
    requires ReadNode(d, s, q) == (Parsed(c), q1) && q1 < |s| && s[q1] == ' '
    ensures ReadList(d, s, q, acc) == ReadList(d, s, q1 + 1, acc + [c])
  {
    ReadListAfterChild(d, s, q, acc);
    ReadListAtSpace(d, s, q1, acc + [c]);
  }

  /** parseList skips a space between children. */
  lemma ReadListAtSpace(d: Dialect, s: string, q: nat, acc: seq<Node>)
    requires q < |s| && s[q] == ' '
    ensures ReadList(d, s, q, acc) == ReadList(d, s, q + 1, acc)
  {
  }

  /** Parsing the encoding of a tree of lists and non-empty valid tokens
      gives the tree back, in either newline mode. */
  lemma RoundTrip(d: Dialect, n: Node)
    requires Simple(n)
    ensures Parse(d, Encode(n), 0) == Ok(Some(n))
  {
    ReadNodeEncoded(d, Encode(n), 0, n);
  }

  /** An encoded list cut short before its closing parenthesis fails with
      io.ErrUnexpectedEOF, also when its last child is a token that runs to
      the end of input. */
  lemma TruncatedList(d: Dialect, cs: seq<Node>)
    requires Simple(List(cs))
    ensures Parse(d, "(" + Children(cs), 0) == Err(UnexpectedEof)
  {
    var s := "(" + Children(cs);
    AtSplit(s, 0, "(", Children(cs));
    ReadListEncoded(d, s, 1, [], cs);
  }

  // ------------------------------------------------------------ atom bodies

  /** Digits of a body are collected without changing the outcome. */
  lemma {:induction false} ScanBodyDigits(d: Dialect, s: string, p: nat, k: Body, acc: string, t: string)
    requires forall i :: 0 <= i < |acc| ==> IsBodyDigit(k, acc[i])
    requires forall i :: 0 <= i < |t| ==> IsBodyDigit(k, t[i])
    requires At(s, p, t)
    ensures forall i :: 0 <= i < |acc + t| ==> IsBodyDigit(k, (acc + t)[i])
    ensures ScanBody(d, s, p, k, acc) == ScanBody(d, s, p + |t|, k, acc + t)
    decreases |t|
  {
    if |t| > 0 {
      assert IsBodyDigit(k, t[0]);
      GrammarCharsAreSignificant(d.disallowNewlines, t[0]);
      assert s[p] == t[0];
      assert At(s, p + 1, t[1..]) by {
        forall i | 0 <= i < |t[1..]|
          ensures s[p + 1 + i] == t[1..][i]
        {
          assert s[p + (1 + i)] == t[1 + i];
        }
      }
      ScanBodyDigits(d, s, p + 1, k, acc + [t[0]], t[1..]);
      assert acc + [t[0]] + t[1..] == acc + t;
    } else {
      assert acc + t == acc;
    }
  }

  /** The node an atom body decodes to. */
  function BodyNode(k: Body, octets: seq<byte>): Node {
    if k.HexBody? then Hexadecimal(octets) else Base64(octets)
  }

  /** An opening delimiter, body digits and a closing delimiter: the atom is
      the decoded body (or its decoding error), and the cursor is left on the
      closing delimiter. */
  lemma ReadAtomBody(d: Dialect, s: string, p: nat, k: Body, t: string, hint: Option<nat>)
    requires k.HexBody? || d.base64
    requires forall i :: 0 <= i < |t| ==> IsBodyDigit(k, t[i])
    requires p < |s| && s[p] == Delimiter(k) && At(s, p + 1, t)
    requires p + 1 + |t| < |s| && s[p + 1 + |t|] == Delimiter(k)
    ensures ReadAtom(d, s, p, hint) ==
      (if DecodeBody(k, t, hint).Ok? then Parsed(BodyNode(k, DecodeBody(k, t, hint).value))
       else Failed(DecodeBody(k, t, hint).error), p + 1 + |t|)
  {
    ScanBodyDigits(d, s, p + 1, k, [], t);
    assert [] + t == t;
    assert Discard(d, s[p + 1 + |t|]) == Ok(false);
    assert ScanBody(d, s, p + 1, k, []) == (Ok(t), p + 1 + |t|);
  }

  /** '#' and '|' at a node boundary go straight to the atom reader, with no
      length prefix. */
  lemma ReadNodeAtDelimiter(d: Dialect, s: string, p: nat)
    requires p < |s| && (s[p] == '#' || s[p] == '|')
    ensures ReadNode(d, s, p) == ReadAtom(d, s, p, None)
  {
  }

  /** A lone body atom spanning the whole input. */
  lemma LoneBody(d: Dialect, s: string, k: Body, t: string)
    requires k.HexBody? || d.base64
    requires forall i :: 0 <= i < |t| ==> IsBodyDigit(k, t[i])
    requires |s| == |t| + 2 && s[0] == Delimiter(k) && At(s, 1, t) && s[|t| + 1] == Delimiter(k)
    ensures Parse(d, s, 0) ==
      if DecodeBody(k, t, None).Ok? then Ok(Some(BodyNode(k, DecodeBody(k, t, None).value)))
      else Err(DecodeBody(k, t, None).error)
  {
    ReadNodeAtDelimiter(d, s, 0);
    ReadAtomBody(d, s, 0, k, t, None);
  }

  /** A hexadecimal atom at top level: an even number of digits of either
      case decodes pairwise, high nibble first, and an odd number is
      hex.ErrLength. */
  lemma HexAtom(d: Dialect, t: string)
    requires forall i :: 0 <= i < |t| ==> IsHexadecimalRemainder(t[i])
    ensures |t| % 2 == 0 ==> Parse(d, "#" + t + "#", 0) == Ok(Some(Hexadecimal(Codec.HexPairs(t))))
    ensures |t| % 2 == 1 ==> Parse(d, "#" + t + "#", 0) == Err(HexLength)
  {
    var s := "#" + t + "#";
    assert At(s, 1, t) by {
      forall i | 0 <= i < |t|
        ensures s[1 + i] == t[i]
      {
      }
    }
    assert forall i :: 0 <= i < |t| ==> IsBodyDigit(HexBody, t[i]);
    LoneBody(d, s, HexBody, t);
    assert DecodeBody(HexBody, t, None) == Codec.HexDecode(t);
  }

  /** The decoding step of parseHexadecimal / ParseHexadecimal, once the
      digits t are collected: an odd count fails; without a hint the node
      holds |t| / 2 octets; with a hint it holds them exactly when the hint
      equals that count, and otherwise the length prefix is invalid. */
  lemma HintedHexBody(d: Dialect, s: string, p: nat, hint: Option<nat>)
    requires p <= |s| && ScanBody(d, s, p, HexBody, []).0.Ok?
    ensures var t := ScanBody(d, s, p, HexBody, []).0.value;
      var r := ReadBody(d, s, p, HexBody, hint).0;
      && (|t| % 2 == 1 ==> r.Err? && (hint.None? ==> r == Err(HexLength)))
      && (|t| % 2 == 0 && (hint.None? || hint.value == |t| / 2) ==>
            r == Ok(Hexadecimal(Codec.HexPairs(t))) && |r.value.octets| == |t| / 2)
      && (|t| % 2 == 0 && hint.Some? && hint.value != |t| / 2 ==> r == Err(InvalidLengthPrefix))
  {
    var t := ScanBody(d, s, p, HexBody, []).0.value;
    assert Decode(HexBody, t) == Codec.HexDecode(t);
  }

  /** The encoding of a hexadecimal atom parses back when it stands alone. */
  lemma HexAtomRoundTrip(d: Dialect, b: seq<byte>)
    ensures Parse(d, Encode(Hexadecimal(b)), 0) == Ok(Some(Hexadecimal(b)))
  {
    var t := Codec.HexEncode(b);
    Codec.HexRoundTrip(b);
    HexAtom(d, t);
  }

  /** A digit at a node boundary starts a length prefix. */
  lemma ReadNodeAtDigit(d: Dialect, s: string, p: nat)
    requires p < |s| && IsDigit(s[p])
    ensures ReadDecimal(s, p).0.Err? ==> ReadNode(d, s, p) == (Failed(ReadDecimal(s, p).0.error), ReadDecimal(s, p).1)
    ensures ReadDecimal(s, p).0.Ok? ==> ReadNode(d, s, p) == ReadAtom(d, s, ReadDecimal(s, p).1, Some(ReadDecimal(s, p).0.value))
  {
    GrammarCharsAreSignificant(d.disallowNewlines, s[p]);
  }

  /** A rendered number followed by a non-digit reads back as that number,
      or as a range error beyond uint64. */
  lemma ReadFormattedDecimal(s: string, k: nat)
    requires At(s, 0, Codec.FormatDecimal(k))
    requires |Codec.FormatDecimal(k)| < |s| && !IsDigit(s[|Codec.FormatDecimal(k)|])
    ensures ReadDecimal(s, 0).1 == |Codec.FormatDecimal(k)|
    ensures ReadDecimal(s, 0).0 == if k <= MaxUint64 then Ok(k) else Err(DecimalRange)
  {
    var f := Codec.FormatDecimal(k);
    assert forall i :: 0 <= i < |f| ==> IsDigit(s[i]) by {
      forall i | 0 <= i < |f|
        ensures IsDigit(s[i])
      {
        assert s[0 + i] == f[i];
      }
    }
    assert DigitsEnd(s, 0) == |f|;
    assert s[0..|f|] == f;
    Codec.DecimalRoundTrip(k);
  }

  /** A length prefix followed by a body atom spanning the rest of the input. */
  lemma PrefixedBody(d: Dialect, s: string, k: Body, t: string, m: nat, v: nat)
    requires k.HexBody? || d.base64
    requires forall i :: 0 <= i < |t| ==> IsBodyDigit(k, t[i])
    requires 0 < m && |s| == m + |t| + 2 && IsDigit(s[0]) && ReadDecimal(s, 0) == (Ok(v), m)
    requires s[m] == Delimiter(k) && At(s, m + 1, t) && s[m + 1 + |t|] == Delimiter(k)
    ensures Parse(d, s, 0) ==
      if DecodeBody(k, t, Some(v)).Ok? then Ok(Some(BodyNode(k, DecodeBody(k, t, Some(v)).value)))
      else Err(DecodeBody(k, t, Some(v)).error)
  {
    ReadNodeAtDigit(d, s, 0);
    ReadAtomBody(d, s, m, k, t, Some(v));
  }

  /** Where the parts of a prefix followed by a framed body sit. */
  lemma FramedLayout(f: string, t: string, c: char)
    ensures var s := f + ([c] + t + [c]);
      && |s| == |f| + |t| + 2 && At(s, 0, f)
      && s[|f|] == c && At(s, |f| + 1, t) && s[|f| + 1 + |t|] == c
  {
    var s := f + ([c] + t + [c]);
    forall i | 0 <= i < |t|
      ensures s[|f| + 1 + i] == t[i]
    {
      assert ([c] + t + [c])[1 + i] == t[i];
    }
  }

  /** Where the parts of a length-prefixed hexadecimal encoding sit. */
  lemma PrefixedHexLayout(k: nat, b: seq<byte>)
    ensures var f, t, s := Codec.FormatDecimal(k), Codec.HexEncode(b), Codec.FormatDecimal(k) + Encode(Hexadecimal(b));
      && |s| == |f| + |t| + 2 && At(s, 0, f) && IsDigit(s[0])
      && s[|f|] == '#' && At(s, |f| + 1, t) && s[|f| + 1 + |t|] == '#'
  {
    var f := Codec.FormatDecimal(k);
    var t := Codec.HexEncode(b);
    assert Encode(Hexadecimal(b)) == ['#'] + t + ['#'];
    FramedLayout(f, t, '#');
    assert (f + Encode(Hexadecimal(b)))[0 + 0] == f[0];
  }

  /** A length prefix before a hexadecimal atom: accepted exactly when it
      equals the number of octets, rejected as out of range beyond uint64,
      and otherwise an invalid length prefix (a prefix below the octet count
      is where Go's decoder would overrun its buffer). */
  lemma LengthPrefixedHex(d: Dialect, k: nat, b: seq<byte>)
    ensures k > MaxUint64 ==> Parse(d, Codec.FormatDecimal(k) + Encode(Hexadecimal(b)), 0) == Err(DecimalRange)
    ensures k <= MaxUint64 && k == |b| ==> Parse(d, Codec.FormatDecimal(k) + Encode(Hexadecimal(b)), 0) == Ok(Some(Hexadecimal(b)))
    ensures k <= MaxUint64 && k != |b| ==> Parse(d, Codec.FormatDecimal(k) + Encode(Hexadecimal(b)), 0) == Err(InvalidLengthPrefix)
  {
    var f := Codec.FormatDecimal(k);
    var t := Codec.HexEncode(b);
    var s := f + Encode(Hexadecimal(b));
    PrefixedHexLayout(k, b);
    ReadFormattedDecimal(s, k);
    if k <= MaxUint64 {
      Codec.HexRoundTrip(b);
      assert forall i :: 0 <= i < |t| ==> IsBodyDigit(HexBody, t[i]);
      PrefixedBody(d, s, HexBody, t, |f|, k);
    } else {
      ReadNodeAtDigit(d, s, 0);
    }
  }

  /** A body whose scan meets an unexpected character makes the atom fail
      with it. */
  lemma BodyScanFails(d: Dialect, s: string, p: nat, k: Body, hint: Option<nat>)
    requires k.HexBody? || d.base64
    requires p < |s| && s[p] == Delimiter(k)
    requires ScanBody(d, s, p + 1, k, []).0 == Err(UnexpectedChar)
    ensures ReadAtom(d, s, p, hint).0 == Failed(UnexpectedChar)
  {
  }

  /** Scanning a padded base-64 body stops at the first '=' with an
      unexpected character. */
  lemma Base64PaddingRejected(d: Dialect, s: string, p: nat, b: seq<byte>)
    requires |b| % 3 != 0 && At(s, p, Codec.Base64Encode(b))
    ensures ScanBody(d, s, p, Base64Body, []).0 == Err(UnexpectedChar)
  {
    var t := Codec.Base64Encode(b);
    Codec.Base64Layout(b);
    var m := |t| - Codec.PadCount(|b|);
    var digits := t[..m];
    assert t == digits + t[m..];
    AtSplit(s, p, digits, t[m..]);
    ScanBodyDigits(d, s, p, Base64Body, [], digits);
    assert s[p + m] == t[m] == '=';
  }

  /** Where the parts of a base-64 encoding sit. */
  lemma Base64Layout(b: seq<byte>)
    ensures var t, s := Codec.Base64Encode(b), Encode(Base64(b));
      |s| == |t| + 2 && s[0] == '|' && At(s, 1, t) && s[1 + |t|] == '|'
  {
    var t := Codec.Base64Encode(b);
    assert Encode(Base64(b)) == [] + (['|'] + t + ['|']);
    FramedLayout([], t, '|');
  }

  /** A base-64 atom at top level: parsed back in the revision that has
      base-64 atoms when the encoder needed no padding; padding is rejected
      as an unexpected character, and so is '|' in the revision without
      base-64 atoms. */
  lemma Base64AtomTopLevel(d: Dialect, b: seq<byte>)
    ensures d.base64 && |b| % 3 == 0 ==> Parse(d, Encode(Base64(b)), 0) == Ok(Some(Base64(b)))
    ensures d.base64 && |b| % 3 != 0 ==> Parse(d, Encode(Base64(b)), 0) == Err(UnexpectedChar)
    ensures !d.base64 ==> Parse(d, Encode(Base64(b)), 0) == Err(UnexpectedChar)
  {
    var t := Codec.Base64Encode(b);
    var s := Encode(Base64(b));
    Base64Layout(b);
    ReadNodeAtDelimiter(d, s, 0);
    if d.base64 && |b| % 3 == 0 {
      Codec.Base64RoundTrip(b);
      assert forall i :: 0 <= i < |t| ==> IsBodyDigit(Base64Body, t[i]);
      LoneBody(d, s, Base64Body, t);
      assert DecodeBody(Base64Body, t, None) == Codec.Base64Decode(t);
    } else if d.base64 {
      Base64PaddingRejected(d, s, 1, b);
      BodyScanFails(d, s, 0, Base64Body, None);
    }
  }

  /** A list fails with the error of a child that fails, io.EOF turned into
      an unexpected end. */
  lemma ListChildFails(d: Dialect, s: string, q: nat, acc: seq<Node>)
    requires q < |s| && Discard(d, s[q]) == Ok(false)
    requires ReadNode(d, s, q).0.Failed?
    ensures var e := ReadNode(d, s, q).0.err;
      ReadList(d, s, q, acc).0 == Err(if e == Eof then UnexpectedEof else e)
  {
  }

  /** The input opens a list whose reading fails: Parse fails with the
      list's error. */
  lemma ParseOfFailedList(d: Dialect, s: string)
    requires 0 < |s| && s[0] == '('
    requires ReadList(d, s, 1, []).0.Err?
    ensures Parse(d, s, 0) == Err(ReadList(d, s, 1, []).0.error)
  {
  }

  /** A well-formed body followed by ')' inside a list: the pushed-back
      closing delimiter opens a second body, whose scan meets ')'. */
  lemma ReopenedBodyFails(d: Dialect, s: string, k: Body, t: string)
    requires k.HexBody? || d.base64
    requires forall i :: 0 <= i < |t| ==> IsBodyDigit(k, t[i])
    requires DecodeBody(k, t, None).Ok?
    requires |s| == |t| + 4 && s[1] == Delimiter(k) && At(s, 2, t)
    requires s[|t| + 2] == Delimiter(k) && s[|t| + 3] == ')'
    ensures ReadList(d, s, 1, []).0 == Err(UnexpectedChar)
  {
    var q := |t| + 2;
    var c := BodyNode(k, DecodeBody(k, t, None).value);
    FirstBodyParsed(d, s, k, t);
    ReadListAfterChild(d, s, 1, []);
    DelimiterBeforeClose(d, s, k, q, [c]);
  }

  /** The atom right after '(' is read up to its closing delimiter. */
  lemma FirstBodyParsed(d: Dialect, s: string, k: Body, t: string)
    requires k.HexBody? || d.base64
    requires forall i :: 0 <= i < |t| ==> IsBodyDigit(k, t[i])
    requires DecodeBody(k, t, None).Ok?
    requires |s| == |t| + 4 && s[1] == Delimiter(k) && At(s, 2, t)
    requires s[|t| + 2] == Delimiter(k)
    ensures ReadNode(d, s, 1) == (Parsed(BodyNode(k, DecodeBody(k, t, None).value)), |t| + 2)
  {
    ReadNodeAtDelimiter(d, s, 1);
    ReadAtomBody(d, s, 1, k, t, None);
  }

  /** A delimiter followed by ')' where a list expects its next child. */
  lemma DelimiterBeforeClose(d: Dialect, s: string, k: Body, q: nat, acc: seq<Node>)
    requires k.HexBody? || d.base64
    requires q + 2 == |s| && s[q] == Delimiter(k) && s[q + 1] == ')'
    ensures ReadList(d, s, q, acc).0 == Err(UnexpectedChar)
  {
    ReadNodeAtDelimiter(d, s, q);
    assert ScanBody(d, s, q + 1, k, []) == (Err(UnexpectedChar), q + 2);
    BodyScanFails(d, s, q, k, None);
    ListChildFails(d, s, q, acc);
  }

  /** Where the parts of a one-atom list encoding sit. */
  lemma AtomListLayout(k: Body, t: string, n: Node)
    requires Encode(n) == [Delimiter(k)] + t + [Delimiter(k)]
    ensures var s := Encode(List([n]));
      && |s| == |t| + 4 && s[0] == '(' && s[1] == Delimiter(k) && At(s, 2, t)
      && s[|t| + 2] == Delimiter(k) && s[|t| + 3] == ')'
  {
    var s0 := "(" + ([Delimiter(k)] + t + [Delimiter(k)]);
    SingletonEncoding(n);
    FramedLayout("(", t, Delimiter(k));
    AtExtend(s0, ")", 2, t);
  }

  /** A one-child list encodes as its child in parentheses. */
  lemma SingletonEncoding(n: Node)
    ensures Encode(List([n])) == "(" + Encode(n) + ")"
  {
    assert Children([n]) == Encode(n);
  }

  lemma AtExtend(s: string, x: string, p: nat, t: string)
    requires At(s, p, t)
    ensures At(s + x, p, t)
  {
    forall i | 0 <= i < |t|
      ensures (s + x)[p + i] == t[i]
    {
      assert (s + x)[p + i] == s[p + i];
    }
  }

  lemma AtomInListFails(d: Dialect, n: Node)
    requires n.Hexadecimal? || n.Base64?
    ensures Parse(d, Encode(List([n])), 0) == Err(UnexpectedChar)
  {
    var s := Encode(List([n]));
    var k := if n.Hexadecimal? then HexBody else Base64Body;
    var t := if n.Hexadecimal? then Codec.HexEncode(n.octets) else Codec.Base64Encode(n.octets);
    AtomListLayout(k, t, n);
    ReadNodeAtDelimiter(d, s, 1);
    if n.Base64? && !d.base64 {
      assert ReadNode(d, s, 1).0 == Failed(UnexpectedChar);
      ListChildFails(d, s, 1, []);
    } else if n.Base64? && |n.octets| % 3 != 0 {
      Base64PaddingRejected(d, s, 2, n.octets);
      BodyScanFails(d, s, 1, k, None);
      ListChildFails(d, s, 1, []);
    } else {
      if n.Base64? {
        Codec.Base64RoundTrip(n.octets);
        assert DecodeBody(k, t, None) == Codec.Base64Decode(t);
      } else {
        Codec.HexRoundTrip(n.octets);
        assert DecodeBody(k, t, None) == Codec.HexDecode(t);
      }
      ReopenedBodyFails(d, s, k, t);
    }
    ParseOfFailedList(d, s);
  }

  // -------------------------------------------------------- no node at all

  /** Input holding nothing but discardable whitespace from p on yields no
      node and no error. */
  lemma {:induction false} OnlyWhitespace(d: Dialect, s: string, p: nat)
    requires p <= |s|
    requires forall i :: p <= i < |s| ==> Discard(d, s[i]) == Ok(true)
    ensures ReadNode(d, s, p) == (Failed(Eof), |s|)
    ensures Parse(d, s, p) == Ok(None)
    decreases |s| - p
  {
    if p < |s| {
      OnlyWhitespace(d, s, p + 1);
    }
  }

  /** A bare run of digits is a length prefix that meets the end of input:
      parseDecimal reports io.EOF, so the input yields no node and no error. */
  lemma OnlyDigits(d: Dialect, s: string)
    requires |s| > 0 && forall i :: 0 <= i < |s| ==> IsDigit(s[i])
    ensures Parse(d, s, 0) == Ok(None)
  {
    GrammarCharsAreSignificant(d.disallowNewlines, s[0]);
    assert DigitsEnd(s, 0) == |s|;
  }
}
