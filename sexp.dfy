/** The strict revision of the package (sexp.go): newline characters are
    always rejected, and '|' opens a base-64 atom. The parse routines read a
    Cursor as the Go code reads its io.RuneScanner, and each is proved to
    return what the grammar function for the same routine returns and to leave
    the cursor where that function says. */
module Sexp {
  import opened Types
  import opened Chars
  import Codec
  import opened Cursors
  import opened Encoder
  import G = Grammar
  import P = Properties

  /** The grammar this revision implements. */
  const Strict := G.Dialect(true, true)

  /** shouldDiscard of this revision: CR and LF are always errors. */
  function ShouldDiscard(c: char): (r: Result<bool>)
    ensures r == Chars.ShouldDiscard(true, c)
  {
    if c as int > 0x7F then Err(NotAscii)
    else if c == '\r' || c == '\n' then Err(UnacceptableWhitespace)
    else if c as int <= 0x20 then Ok(true)
    else Ok(false)
  }

  // ------------------------------------------------------------- builders

  /** Token: the string must be empty or a token-start character followed by
      token-remainder characters; the payload is the string's octets. */
  function Token(s: string): (r: Result<Node>)
    ensures r.Ok? <==> IsTokenText(s)
    ensures r.Err? ==> r.error == InvalidTokenChar
    ensures r.Ok? ==> r.value.Token? && Encode(r.value) == s
    ensures r.Ok? ==> |r.value.octets| == |s| && forall i :: 0 <= i < |s| ==> r.value.octets[i] == s[i] as int
    ensures r.Ok? && |s| > 0 ==> G.Parse(Strict, Encode(r.value), 0) == Ok(Some(r.value))
  {
    if TokenCharsFrom(s, 0) then
      var n := Types.Token(AsciiBytes(s));
      assert BytesAsChars(n.octets) == s;
      assert |s| > 0 ==> P.Simple(n) by {
        if |s| > 0 {
          assert P.IsTokenOctets(n.octets);
        }
      }
      if |s| > 0 then P.RoundTrip(Strict, n); Ok(n) else Ok(n)
    else Err(InvalidTokenChar)
  }

  /** MustToken: the node Token builds, for a string Token accepts (Go
      panics otherwise). */
  function MustToken(s: string): (n: Node)
    requires IsTokenText(s)
    ensures Token(s) == Ok(n)
    ensures n.Token? && Encode(n) == s
  {
    Token(s).value
  }

  /** Hexadecimal: always succeeds and keeps the octets. Its encoding parses
      back on its own, but not as the only child of a list. */
  function Hexadecimal(b: seq<byte>): (n: Node)
    ensures n.Hexadecimal? && n.octets == b
    ensures G.Parse(Strict, Encode(n), 0) == Ok(Some(n))
    ensures G.Parse(Strict, Encode(List([n])), 0) == Err(UnexpectedChar)
  {
    P.HexAtomRoundTrip(Strict, b);
    P.AtomInListFails(Strict, Types.Hexadecimal(b));
    Types.Hexadecimal(b)
  }

  /** Base64: always succeeds and keeps the octets. Its encoding parses back
      on its own only when the encoder adds no padding. */
  function Base64(b: seq<byte>): (n: Node)
    ensures n.Base64? && n.octets == b
    ensures |b| % 3 == 0 ==> G.Parse(Strict, Encode(n), 0) == Ok(Some(n))
    ensures |b| % 3 != 0 ==> G.Parse(Strict, Encode(n), 0) == Err(UnexpectedChar)
  {
    P.Base64AtomTopLevel(Strict, b);
    Types.Base64(b)
  }

  /** List: the children in the given order. A list of lists and non-empty
      tokens parses back from its encoding. */
  function List(children: seq<Node>): (n: Node)
    ensures n.List? && n.children == children
    ensures P.Simple(n) ==> G.Parse(Strict, Encode(n), 0) == Ok(Some(n))
  {
    var n := Types.List(children);
    if P.Simple(n) then P.RoundTrip(Strict, n); n else n
  }

  // ---------------------------------------------------------------- parser

  /** Parse: one node from the cursor. A ')' with no list open is an
      unexpected character, an input with no node yields None without error,
      and no node accompanies an error. */
  method Parse(c: Cursor) returns (r: Result<Option<Node>>)
    requires c.Valid()
    modifies c
    ensures c.Valid() && r == G.Parse(Strict, c.data, old(c.pos))
    ensures c.pos == G.ReadNode(Strict, c.data, old(c.pos)).1
    ensures r.Err? ==> r.error != Eof
  {
    var o := ParseNode(c);
    if o.ListEnd? {
      r := Err(UnexpectedChar);
    } else if o.Failed? {
      r := if o.err == Eof then Ok(None) else Err(o.err);
    } else {
      r := Ok(Some(o.node));
    }
  }

  /** parseNode: skips whitespace, then dispatches on the first significant
      character. */
  method ParseNode(c: Cursor) returns (o: G.NodeOutcome)
    requires c.Valid()
    modifies c
    ensures c.Valid() && (o, c.pos) == G.ReadNode(Strict, c.data, old(c.pos))
    decreases |c.data| - c.pos, 1
  {
    while true
      invariant c.Valid() && old(c.pos) <= c.pos
      invariant G.ReadNode(Strict, c.data, c.pos) == G.ReadNode(Strict, c.data, old(c.pos))
      decreases |c.data| - c.pos
    {
      G.ReadNodeInsignificant(Strict, c.data, c.pos);
      var r := c.ReadRune();
      if r.None? {
        return G.Failed(Eof);
      }
      var discard := ShouldDiscard(r.value);
      if discard.Err? {
        return G.Failed(discard.error);
      }
      if !discard.value {
        o := DispatchNode(c, r.value);
        return;
      }
    }
  }

  /** The rest of parseNode's loop body, once it has read the significant
      character ch. */
  method DispatchNode(c: Cursor, ch: char) returns (o: G.NodeOutcome)
    requires c.Valid() && c.canUnread && c.data[c.pos - 1] == ch && ShouldDiscard(ch) == Ok(false)
    modifies c
    ensures c.Valid() && (o, c.pos) == G.ReadNode(Strict, c.data, old(c.pos) - 1)
    decreases |c.data| - c.pos + 1, 0
  {
    ghost var p := c.pos - 1;
    G.ReadNodeSignificant(Strict, c.data, p);
    if ch == ')' {
      return G.ListEnd;
    }
    if ch == '(' {
      var l := ParseList(c);
      return G.Lift((l, c.pos));
    }
    // tokens may not start with a digit
    if IsTokenStart(ch) {
      c.UnreadRune();
      o := ParseToken(c);
      return;
    }
    o := ParseAtom(c, ch);
  }

  /** The end of parseNode's loop body: an optional length prefix, then '|'
      or '#' opens an atom and anything else is unexpected. */
  method ParseAtom(c: Cursor, ch: char) returns (o: G.NodeOutcome)
    requires c.Valid() && c.canUnread && c.data[c.pos - 1] == ch && ShouldDiscard(ch) == Ok(false)
    requires ch != ')' && ch != '(' && !IsTokenStart(ch)
    modifies c
    ensures c.Valid() && (o, c.pos) == G.ReadNode(Strict, c.data, old(c.pos) - 1)
  {
    ghost var p := c.pos - 1;
    G.ReadNodeSignificant(Strict, c.data, p);
    var decimal: nat := 0;
    var hasDecimal := false;
    var atom := ch;
    if '0' <= ch <= '9' {
      c.UnreadRune();
      var v := ParseDecimal(c);
      if v.Err? {
        return G.Failed(v.error);
      }
      decimal, hasDecimal := v.value, true;
      var r := c.ReadRune();
      atom := r.value;
    }
    if atom == '|' {
      var b := ParseBase64(c, decimal, hasDecimal);
      return G.Lift((b, c.pos));
    }
    if atom == '#' {
      var b := ParseHexadecimal(c, decimal, hasDecimal);
      return G.Lift((b, c.pos));
    }
    return G.Failed(UnexpectedChar);
  }

  /** parseList, entered after '(': children are appended in read order until
      the matching ')'; io.EOF from any source becomes io.ErrUnexpectedEOF
      (Go does this in a deferred function). */
  method ParseList(c: Cursor) returns (r: Result<Node>)
    requires c.Valid()
    modifies c
    ensures c.Valid() && (r, c.pos) == G.ReadList(Strict, c.data, old(c.pos), [])
    decreases |c.data| - c.pos, 3
  {
    var children: seq<Node> := [];
    while true
      invariant c.Valid() && old(c.pos) <= c.pos
      invariant G.ReadList(Strict, c.data, c.pos, children) == G.ReadList(Strict, c.data, old(c.pos), [])
      decreases |c.data| - c.pos
    {
      var done, res, more := ParseListStep(c, children);
      if done {
        return res;
      }
      children := more;
    }
  }

  /** One round of parseList's loop: skip a discarded character, or read a
      child and either finish the list or go on with the child appended. */
  method ParseListStep(c: Cursor, children: seq<Node>) returns (done: bool, r: Result<Node>, more: seq<Node>)
    requires c.Valid()
    modifies c
    ensures c.Valid()
    ensures done ==> (r, c.pos) == G.ReadList(Strict, c.data, old(c.pos), children)
    ensures !done ==> old(c.pos) < c.pos && G.ReadList(Strict, c.data, c.pos, more) == G.ReadList(Strict, c.data, old(c.pos), children)
    decreases |c.data| - c.pos, 2
  {
    G.ReadListInsignificant(Strict, c.data, c.pos, children);
    more := children;
    r := Ok(Types.List(children));
    var ch := c.ReadRune();
    if ch.None? {
      return true, Err(UnexpectedEof), more;
    }
    var discard := ShouldDiscard(ch.value);
    if discard.Err? {
      return true, Err(discard.error), more;
    }
    if discard.value {
      return false, r, more;
    }
    c.UnreadRune();
    G.ReadListSignificant(Strict, c.data, c.pos, children);
    var child := ParseNode(c);
    if child.Failed? {
      return true, Err(if child.err == Eof then UnexpectedEof else child.err), more;
    }
    if child.ParsedAtEof? {
      return true, Err(UnexpectedEof), more;
    }
    if child.ListEnd? {
      return true, r, more;
    }
    return false, r, children + [child.node];
  }


  /** parseDecimal: the maximal run of digits, with the character after it
      pushed back. */
  method ParseDecimal(c: Cursor) returns (v: Result<nat>)
    requires c.Valid()
    modifies c
    ensures c.Valid() && (v, c.pos) == G.ReadDecimal(c.data, old(c.pos))
  {
    var sb: string := [];
    while true
      invariant c.Valid() && c.pos == old(c.pos) + |sb| && c.pos <= |c.data|
      invariant sb == c.data[old(c.pos)..c.pos]
      invariant forall i :: old(c.pos) <= i < c.pos ==> IsDigit(c.data[i])
      decreases |c.data| - c.pos
    {
      var r := c.ReadRune();
      if r.None? {
        G.ReadDecimalStopsAt(c.data, old(c.pos), c.pos);
        return Err(Eof);
      }
      if !IsDigit(r.value) {
        c.UnreadRune();
        G.ReadDecimalStopsAt(c.data, old(c.pos), c.pos);
        v := Codec.ParseUint(sb);
        return;
      }
      sb := sb + [r.value];
    }
  }

  /** parseToken: the maximal run of token characters; the character that
      stops it is pushed back, and reaching the end of input is reported
      beside the token. */
  method ParseToken(c: Cursor) returns (o: G.NodeOutcome)
    requires c.Valid()
    modifies c
    ensures c.Valid() && (o, c.pos) == G.ReadToken(c.data, old(c.pos))
  {
    var sb: seq<byte> := [];
    var eof := false;
    while !eof
      invariant c.Valid() && c.pos == old(c.pos) + |sb|
      invariant forall i :: 0 <= i < |sb| ==> sb[i] == c.data[old(c.pos) + i] as int
      invariant G.TokenEnd(c.data, c.pos) == G.TokenEnd(c.data, old(c.pos))
      decreases |c.data| - c.pos
    {
      var r := c.ReadRune();
      if r.None? {
        eof := true;
        break;
      }
      if !IsTokenRemainder(r.value) {
        break;
      }
      sb := sb + [r.value as int];
    }
    if !eof {
      c.UnreadRune();
    }
    assert c.pos == G.TokenEnd(c.data, old(c.pos));
    assert sb == AsciiBytes(c.data[old(c.pos)..c.pos]);
    o := if eof then G.ParsedAtEof(Types.Token(sb)) else G.Parsed(Types.Token(sb));
  }

  /** parseHexadecimal, entered after '#': digits are collected and
      whitespace skipped up to the closing '#', which is pushed back; then
      the digits are decoded into a buffer of the hinted size. */
  method ParseHexadecimal(c: Cursor, decimal: nat, hasDecimal: bool) returns (r: Result<Node>)
    requires c.Valid()
    modifies c
    ensures c.Valid()
    ensures (r, c.pos) == G.ReadBody(Strict, c.data, old(c.pos), G.HexBody, if hasDecimal then Some(decimal) else None)
  {
    var sb: string := [];
    var eof := false;
    while !eof
      invariant c.Valid() && old(c.pos) <= c.pos
      invariant forall i :: 0 <= i < |sb| ==> G.IsBodyDigit(G.HexBody, sb[i])
      invariant G.ScanBody(Strict, c.data, c.pos, G.HexBody, sb) == G.ScanBody(Strict, c.data, old(c.pos), G.HexBody, [])
      decreases |c.data| - c.pos
    {
      var ch := c.ReadRune();
      if ch.None? {
        eof := true;
        break;
      }
      var discard := ShouldDiscard(ch.value);
      if discard.Err? {
        return Err(discard.error);
      }
      if discard.value {
        continue;
      }
      if ch.value == '#' {
        break;
      }
      if !IsHexadecimalRemainder(ch.value) {
        return Err(UnexpectedChar);
      }
      sb := sb + [ch.value];
    }
    if eof {
      return Err(UnexpectedEof);
    }
    c.UnreadRune();
    // Go decodes into a buffer of the hinted size; a hint below the octet
    // count makes the decoder write past it (a panic), reported here as an
    // invalid length prefix.
    if hasDecimal && decimal < G.CompleteGroupBytes(G.HexBody, |sb|) {
      return Err(InvalidLengthPrefix);
    }
    var decoded := G.Decode(G.HexBody, sb);
    if decoded.Err? {
      return Err(decoded.error);
    }
    if hasDecimal && |decoded.value| != decimal {
      return Err(InvalidLengthPrefix);
    }
    r := Ok(Types.Hexadecimal(decoded.value));
  }

  /** parseBase64, entered after '|': as parseHexadecimal, with base-64
      digits (no '=') and '|' as the delimiter. */
  method ParseBase64(c: Cursor, decimal: nat, hasDecimal: bool) returns (r: Result<Node>)
    requires c.Valid()
    modifies c
    ensures c.Valid()
    ensures (r, c.pos) == G.ReadBody(Strict, c.data, old(c.pos), G.Base64Body, if hasDecimal then Some(decimal) else None)
  {
    var sb: string := [];
    var eof := false;
    while !eof
      invariant c.Valid() && old(c.pos) <= c.pos
      invariant forall i :: 0 <= i < |sb| ==> G.IsBodyDigit(G.Base64Body, sb[i])
      invariant G.ScanBody(Strict, c.data, c.pos, G.Base64Body, sb) == G.ScanBody(Strict, c.data, old(c.pos), G.Base64Body, [])
      decreases |c.data| - c.pos
    {
      var ch := c.ReadRune();
      if ch.None? {
        eof := true;
        break;
      }
      var discard := ShouldDiscard(ch.value);
      if discard.Err? {
        return Err(discard.error);
      }
      if discard.value {
        continue;
      }
      if ch.value == '|' {
        break;
      }
      if !IsBase64Remainder(ch.value) {
        return Err(UnexpectedChar);
      }
      sb := sb + [ch.value];
    }
    if eof {
      return Err(UnexpectedEof);
    }
    c.UnreadRune();
    // as in parseHexadecimal: a hint below what the decoder writes is a
    // panic in Go, an invalid length prefix here
    if hasDecimal && decimal < G.CompleteGroupBytes(G.Base64Body, |sb|) {
      return Err(InvalidLengthPrefix);
    }
    var decoded := G.Decode(G.Base64Body, sb);
    if decoded.Err? {
      return Err(decoded.error);
    }
    if hasDecimal && |decoded.value| != decimal {
      return Err(InvalidLengthPrefix);
    }
    r := Ok(Types.Base64(decoded.value));
  }
}
