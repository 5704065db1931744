/** The later, mode-carrying revision of the parser (parser.go): a parser
    value holds disallowNewlines, which decides whether CR and LF are
    rejected or skipped like spaces; a length prefix travels as a LengthHint;
    '|' opens nothing. Each routine is proved to return what the grammar
    function for the same routine returns in the parser's dialect, and to
    leave the cursor where that function says. */
module ModalParser {
  import opened Types
  import opened Chars
  import opened Cursors
  import G = Grammar
  import Sexp

  /** LengthHint: whether a length prefix was given, and its value. */
  datatype LengthHint = LengthHint(has: bool, length: nat)
  {
    /** The hint as the grammar takes it. */
    function AsOption(): (o: Option<nat>)
      ensures o.Some? <==> has
      ensures o.Some? ==> o.value == length
    {
      if has then Some(length) else None
    }
  }

  datatype Parser = Parser(disallowNewlines: bool)
  {
    /** The grammar this parser implements: its newline mode, no base 64. */
    function Dialect(): (d: G.Dialect)
      ensures d.disallowNewlines == disallowNewlines && !d.base64
    {
      G.Dialect(disallowNewlines, false)
    }

    /** shouldDiscard: CR and LF are errors or whitespace by the mode. */
    function ShouldDiscard(c: char): (r: Result<bool>)
      ensures r == Chars.ShouldDiscard(disallowNewlines, c)
    {
      if c as int > 0x7F then Err(NotAscii)
      else if c == '\r' || c == '\n' then
        (if disallowNewlines then Err(UnacceptableWhitespace) else Ok(true))
      else if c as int <= 0x20 then Ok(true)
      else Ok(false)
    }

    /** ParseNode: one node from the cursor. A list end where no list is
        open is an unexpected character, io.EOF before any node is no error
        and no node, and no node accompanies an error. */
    method ParseNode(c: Cursor) returns (r: Result<Option<Node>>)
      requires c.Valid()
      modifies c
      ensures c.Valid() && r == G.Parse(Dialect(), c.data, old(c.pos))
      ensures c.pos == G.ReadNode(Dialect(), c.data, old(c.pos)).1
      ensures r.Err? ==> r.error != Eof
    {
      var o := NextNode(c);
      if o.ListEnd? {
        r := Err(UnexpectedChar);
      } else if o.Failed? {
        r := if o.err == Eof then Ok(None) else Err(o.err);
      } else {
        r := Ok(Some(o.node));
      }
    }

    /** parseNode: skips whitespace, then dispatches on the first
        significant character. */
    method NextNode(c: Cursor) returns (o: G.NodeOutcome)
      requires c.Valid()
      modifies c
      ensures c.Valid() && (o, c.pos) == G.ReadNode(Dialect(), c.data, old(c.pos))
      decreases |c.data| - c.pos, 1
    {
      while true
        invariant c.Valid() && old(c.pos) <= c.pos
        invariant G.ReadNode(Dialect(), c.data, c.pos) == G.ReadNode(Dialect(), c.data, old(c.pos))
        decreases |c.data| - c.pos
      {
        G.ReadNodeInsignificant(Dialect(), c.data, c.pos);
        var r := c.ReadRune();
        if r.None? {
          return G.Failed(Eof);
        }
        var discard := ShouldDiscard(r.value);
        if discard.Err? {
          return G.Failed(discard.error);
        }
        if !discard.value {
          o := DispatchNode(c, r.value);
          return;
        }
      }
    }

    /** The rest of parseNode's loop body, once it has read the significant
        character ch. */
    method DispatchNode(c: Cursor, ch: char) returns (o: G.NodeOutcome)
      requires c.Valid() && c.canUnread && c.data[c.pos - 1] == ch && ShouldDiscard(ch) == Ok(false)
      modifies c
      ensures c.Valid() && (o, c.pos) == G.ReadNode(Dialect(), c.data, old(c.pos) - 1)
      decreases |c.data| - c.pos + 1, 0
    {
      G.ReadNodeSignificant(Dialect(), c.data, c.pos - 1);
      if ch == ')' {
        return G.ListEnd;
      }
      if ch == '(' {
        var l := ParseList(c);
        return G.Lift((l, c.pos));
      }
      // tokens may not start with a digit
      if IsTokenStart(ch) {
        c.UnreadRune();
        o := ParseToken(c);
        return;
      }
      o := ParseAtom(c, ch);
    }

    /** The end of parseNode's loop body: an optional length prefix, then
        '#' opens a hexadecimal atom and anything else is unexpected. */
    method ParseAtom(c: Cursor, ch: char) returns (o: G.NodeOutcome)
      requires c.Valid() && c.canUnread && c.data[c.pos - 1] == ch && ShouldDiscard(ch) == Ok(false)
      requires ch != ')' && ch != '(' && !IsTokenStart(ch)
      modifies c
      ensures c.Valid() && (o, c.pos) == G.ReadNode(Dialect(), c.data, old(c.pos) - 1)
    {
      G.ReadNodeSignificant(Dialect(), c.data, c.pos - 1);
      var h := LengthHint(false, 0);
      var atom := ch;
      if '0' <= ch <= '9' {
        c.UnreadRune();
        var v := ParseDecimal(c);
        if v.Err? {
          return G.Failed(v.error);
        }
        h := LengthHint(true, v.value);
        var r := c.ReadRune();
        atom := r.value;
      }
      if atom == '#' {
        var b := ParseHexadecimal(c, h);
        return G.Lift((b, c.pos));
      }
      return G.Failed(UnexpectedChar);
    }

    /** ParseList, entered after '(': children are appended in read order
        until the matching ')'; io.EOF from any source becomes
        io.ErrUnexpectedEOF (Go does this in a deferred function). */
    method ParseList(c: Cursor) returns (r: Result<Node>)
      requires c.Valid()
      modifies c
      ensures c.Valid() && (r, c.pos) == G.ReadList(Dialect(), c.data, old(c.pos), [])
      decreases |c.data| - c.pos, 3
    {
      var children: seq<Node> := [];
      while true
        invariant c.Valid() && old(c.pos) <= c.pos
        invariant G.ReadList(Dialect(), c.data, c.pos, children) == G.ReadList(Dialect(), c.data, old(c.pos), [])
        decreases |c.data| - c.pos
      {
        var done, res, more := ParseListStep(c, children);
        if done {
          return res;
        }
        children := more;
      }
    }

    /** One round of ParseList's loop: skip a discarded character, or read a
        child and either finish the list or go on with the child appended. */
    method ParseListStep(c: Cursor, children: seq<Node>) returns (done: bool, r: Result<Node>, more: seq<Node>)
      requires c.Valid()
      modifies c
      ensures c.Valid()
      ensures done ==> (r, c.pos) == G.ReadList(Dialect(), c.data, old(c.pos), children)
      ensures !done ==> old(c.pos) < c.pos && G.ReadList(Dialect(), c.data, c.pos, more) == G.ReadList(Dialect(), c.data, old(c.pos), children)
      decreases |c.data| - c.pos, 2
    {
      G.ReadListInsignificant(Dialect(), c.data, c.pos, children);
      more := children;
      r := Ok(Types.List(children));
      var ch := c.ReadRune();
      if ch.None? {
        return true, Err(UnexpectedEof), more;
      }
      var discard := ShouldDiscard(ch.value);
      if discard.Err? {
        return true, Err(discard.error), more;
      }
      if discard.value {
        return false, r, more;
      }
      c.UnreadRune();
      G.ReadListSignificant(Dialect(), c.data, c.pos, children);
      var child := NextNode(c);
      if child.Failed? {
        return true, Err(if child.err == Eof then UnexpectedEof else child.err), more;
      }
      if child.ParsedAtEof? {
        return true, Err(UnexpectedEof), more;
      }
      if child.ListEnd? {
        return true, r, more;
      }
      return false, r, children + [child.node];
    }

    /** ParseDecimal: the same routine as parseDecimal of the strict
        revision, and modelled by it. */
    method ParseDecimal(c: Cursor) returns (v: Result<nat>)
      requires c.Valid()
      modifies c
      ensures c.Valid() && (v, c.pos) == G.ReadDecimal(c.data, old(c.pos))
    {
      v := Sexp.ParseDecimal(c);
    }

    /** ParseToken: the same routine as parseToken of the strict revision,
        and modelled by it. */
    method ParseToken(c: Cursor) returns (o: G.NodeOutcome)
      requires c.Valid()
      modifies c
      ensures c.Valid() && (o, c.pos) == G.ReadToken(c.data, old(c.pos))
    {
      o := Sexp.ParseToken(c);
    }

    /** ParseHexadecimal, entered after '#': digits are collected and
        whitespace of this mode skipped up to the closing '#', which is pushed
        back; then the digits are decoded into a buffer of the hinted size. */
    method ParseHexadecimal(c: Cursor, h: LengthHint) returns (r: Result<Node>)
      requires c.Valid()
      modifies c
      ensures c.Valid()
      ensures (r, c.pos) == G.ReadBody(Dialect(), c.data, old(c.pos), G.HexBody, h.AsOption())
    {
      var sb: string := [];
      var eof := false;
      while !eof
        invariant c.Valid() && old(c.pos) <= c.pos
        invariant forall i :: 0 <= i < |sb| ==> G.IsBodyDigit(G.HexBody, sb[i])
        invariant G.ScanBody(Dialect(), c.data, c.pos, G.HexBody, sb) == G.ScanBody(Dialect(), c.data, old(c.pos), G.HexBody, [])
        decreases |c.data| - c.pos
      {
        var ch := c.ReadRune();
        if ch.None? {
          eof := true;
          break;
        }
        var discard := ShouldDiscard(ch.value);
        if discard.Err? {
          return Err(discard.error);
        }
        if discard.value {
          continue;
        }
        if ch.value == '#' {
          break;
        }
        if !IsHexadecimalRemainder(ch.value) {
          return Err(UnexpectedChar);
        }
        sb := sb + [ch.value];
      }
      if eof {
        return Err(UnexpectedEof);
      }
      c.UnreadRune();
      // Go decodes into a buffer of h.Length bytes; a hint below the octet
      // count makes the decoder write past it (a panic), reported here as an
      // invalid length prefix.
      if h.has && h.length < G.CompleteGroupBytes(G.HexBody, |sb|) {
        return Err(InvalidLengthPrefix);
      }
      var decoded := G.Decode(G.HexBody, sb);
      if decoded.Err? {
        return Err(decoded.error);
      }
      if h.has && |decoded.value| != h.length {
        return Err(InvalidLengthPrefix);
      }
      r := Ok(Types.Hexadecimal(decoded.value));
    }
  }

  /** In this revision '|' opens nothing: where a node begins, and where an
      atom follows a length prefix, it is an unexpected character. */
  lemma BarIsUnexpected(e: Parser, s: string, p: nat, hint: Option<nat>)
    requires p < |s| && s[p] == '|'
    ensures G.ReadNode(e.Dialect(), s, p) == (G.Failed(UnexpectedChar), p + 1)
    ensures G.ReadAtom(e.Dialect(), s, p, hint) == (G.Failed(UnexpectedChar), p + 1)
  {
    G.ReadNodeSignificant(e.Dialect(), s, p);
  }

  /** LimitedParser rejects CR and LF; FullParser skips them. */
  const LimitedParser := Parser(true)
  const FullParser := Parser(false)

  /** Parse: ParseNode of LimitedParser. */
  method Parse(c: Cursor) returns (r: Result<Option<Node>>)
    requires c.Valid()
    modifies c
    ensures c.Valid() && r == G.Parse(G.Dialect(true, false), c.data, old(c.pos))
    ensures c.pos == G.ReadNode(G.Dialect(true, false), c.data, old(c.pos)).1
  {
    r := LimitedParser.ParseNode(c);
  }
}
