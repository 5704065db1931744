/** The grammar both parser revisions implement, written as functions over the
    input string and a read position. Each function returns what the
    corresponding Go routine returns together with the position its cursor is
    left at, so the imperative parsers in Sexp and ModalParser are proved
    equal to these functions. The two revisions differ only in their newline
    policy and in whether '|' opens a base-64 atom, which is what a Dialect
    records. */
module Grammar {
  import opened Types
  import opened Chars
  import Codec

  datatype Dialect = Dialect(disallowNewlines: bool, base64: bool)

  /** The two octet-string bodies: hexadecimal between '#' and base-64
      between '|'. */
  datatype Body = HexBody | Base64Body

  function Delimiter(k: Body): char {
    if k.HexBody? then '#' else '|'
  }

  predicate IsBodyDigit(k: Body, c: char) {
    if k.HexBody? then IsHexadecimalRemainder(c) else IsBase64Remainder(c)
  }

  /** What parseNode reports: a node, a token that ran into the end of input
      (a node together with io.EOF), the closing parenthesis of an enclosing
      list, or an error (io.EOF among them when nothing but whitespace was
      left). */
  datatype NodeOutcome =
    | Parsed(node: Node)
    | ParsedAtEof(node: Node)
    | ListEnd
    | Failed(err: Error)

  function Discard(d: Dialect, c: char): Result<bool> {
    ShouldDiscard(d.disallowNewlines, c)
  }

  // ------------------------------------------------------------------ tokens

  /** The end of the run of token characters that starts at k. */
  function TokenEnd(s: string, k: nat): (e: nat)
    requires k <= |s|
    ensures k <= e <= |s|
    ensures forall i :: k <= i < e ==> IsTokenRemainder(s[i])
    ensures e < |s| ==> !IsTokenRemainder(s[e])
    decreases |s| - k
  {
    if k == |s| || !IsTokenRemainder(s[k]) then k else TokenEnd(s, k + 1)
  }

  /** parseToken: the maximal run of token characters; the character that
      stops it is left unread, and a run that reaches the end of input is
      still a token. */
  function ReadToken(s: string, p: nat): (r: (NodeOutcome, nat))
    requires p <= |s|
    ensures p <= r.1 <= |s|
    ensures forall i :: p <= i < r.1 ==> IsTokenRemainder(s[i])
    ensures r.1 < |s| ==> !IsTokenRemainder(s[r.1])
    ensures r.0.Parsed? || r.0.ParsedAtEof?
    ensures r.0.ParsedAtEof? <==> r.1 == |s|
    ensures r.0.node.Token? && |r.0.node.octets| == r.1 - p
    ensures forall i :: 0 <= i < r.1 - p ==> r.0.node.octets[i] == s[p + i] as int
  {
    var e := TokenEnd(s, p);
    var t := Token(AsciiBytes(s[p..e]));
    if e == |s| then (ParsedAtEof(t), e) else (Parsed(t), e)
  }

  // ---------------------------------------------------------- length prefix

  function DigitsEnd(s: string, k: nat): (e: nat)
    requires k <= |s|
    ensures k <= e <= |s|
    ensures forall i :: k <= i < e ==> IsDigit(s[i])
    ensures e < |s| ==> !IsDigit(s[e])
    decreases |s| - k
  {
    if k == |s| || !IsDigit(s[k]) then k else DigitsEnd(s, k + 1)
  }

  /** parseDecimal: the maximal run of digits and its value; the character
      after it is left unread. A run that reaches the end of input reports
      io.EOF before any conversion. */
  function ReadDecimal(s: string, p: nat): (r: (Result<nat>, nat))
    requires p <= |s|
    ensures p <= r.1 <= |s|
    ensures forall i :: p <= i < r.1 ==> IsDigit(s[i])
    ensures r.1 < |s| ==> !IsDigit(s[r.1])
    ensures r.0 == Err(Eof) <==> r.1 == |s|
    ensures r.0 == Err(DecimalSyntax) <==> r.1 == p < |s|
    ensures r.0.Ok? ==> p < r.1 && r.0.value <= MaxUint64 && r.0.value == Codec.DecimalValue(s[p..r.1])
  {
    var e := DigitsEnd(s, p);
    if e == |s| then (Err(Eof), e) else (Codec.ParseUint(s[p..e]), e)
  }

  /** parseDecimal stopped at q after a run of digits from p. */
  lemma ReadDecimalStopsAt(s: string, p: nat, q: nat)
    requires p <= q <= |s|
    requires forall i :: p <= i < q ==> IsDigit(s[i])
    requires q == |s| || !IsDigit(s[q])
    ensures ReadDecimal(s, p) == if q == |s| then (Err(Eof), q) else (Codec.ParseUint(s[p..q]), q)
  {
    var e := DigitsEnd(s, p);
    assert e == q;
  }

  // ------------------------------------------------------ hex / base-64 body

  /** The significant characters of t: those that are not discarded. */
  function Kept(d: Dialect, t: string): (u: string)
    ensures |u| <= |t|
  {
    if |t| == 0 then []
    else (if Discard(d, t[0]) == Ok(true) then [] else [t[0]]) + Kept(d, t[1..])
  }

  /** Characters that may stand inside a body before its delimiter. */
  predicate BodyChars(d: Dialect, k: Body, s: string, from: nat, to: nat)
    requires from <= to <= |s|
  {
    forall i :: from <= i < to ==> IsBodyDigit(k, s[i]) || Discard(d, s[i]) == Ok(true)
  }

  /** The collecting loop of parseHexadecimal and parseBase64: digits are
      appended to acc, discardable whitespace is skipped, and the closing
      delimiter is pushed back. */
  function ScanBody(d: Dialect, s: string, p: nat, k: Body, acc: string): (r: (Result<string>, nat))
    requires p <= |s|
    requires forall i :: 0 <= i < |acc| ==> IsBodyDigit(k, acc[i])
    ensures p <= r.1 <= |s|
    ensures r.0.Ok? ==>
      && r.1 < |s| && s[r.1] == Delimiter(k)
      && forall i :: 0 <= i < |r.0.value| ==> IsBodyDigit(k, r.0.value[i])
    ensures r.0.Err? ==> r.0.error in {UnexpectedEof, UnexpectedChar, NotAscii, UnacceptableWhitespace}
    decreases |s| - p
  {
    if p == |s| then (Err(UnexpectedEof), p)
    else
      match Discard(d, s[p])
      case Err(e) => (Err(e), p + 1)
      case Ok(discard) =>
        if discard then ScanBody(d, s, p + 1, k, acc)
        else if s[p] == Delimiter(k) then (Ok(acc), p)
        else if !IsBodyDigit(k, s[p]) then (Err(UnexpectedChar), p + 1)
        else ScanBody(d, s, p + 1, k, acc + [s[p]])
  }

  /** On success the collecting loop has passed over digits and discarded
      whitespace only. */
  lemma {:induction false} ScanBodyPasses(d: Dialect, s: string, p: nat, k: Body, acc: string)
    requires p <= |s|
    requires forall i :: 0 <= i < |acc| ==> IsBodyDigit(k, acc[i])
    requires ScanBody(d, s, p, k, acc).0.Ok?
    ensures BodyChars(d, k, s, p, ScanBody(d, s, p, k, acc).1)
    decreases |s| - p
  {
    if Discard(d, s[p]) == Ok(true) {
      ScanBodyPasses(d, s, p + 1, k, acc);
    } else if s[p] != Delimiter(k) {
      ScanBodyPasses(d, s, p + 1, k, acc + [s[p]]);
    }
  }

  /** On success the collecting loop has kept the digits it passed, in
      order, after those already in acc. */
  lemma {:induction false} ScanBodyKeeps(d: Dialect, s: string, p: nat, k: Body, acc: string)
    requires p <= |s|
    requires forall i :: 0 <= i < |acc| ==> IsBodyDigit(k, acc[i])
    requires ScanBody(d, s, p, k, acc).0.Ok?
    ensures var r := ScanBody(d, s, p, k, acc); r.0.value == acc + Kept(d, s[p..r.1])
    decreases |s| - p
  {
    var r := ScanBody(d, s, p, k, acc);
    if Discard(d, s[p]) == Ok(true) {
      assert r == ScanBody(d, s, p + 1, k, acc);
      ScanBodyKeeps(d, s, p + 1, k, acc);
      KeptStep(d, s, p, r.1);
    } else if s[p] == Delimiter(k) {
      assert s[p..p] == [];
    } else {
      var acc' := acc + [s[p]];
      assert r == ScanBody(d, s, p + 1, k, acc');
      ScanBodyKeeps(d, s, p + 1, k, acc');
      KeptStep(d, s, p, r.1);
      assert acc' + Kept(d, s[p + 1..r.1]) == acc + ([s[p]] + Kept(d, s[p + 1..r.1]));
    }
  }

  /** The collecting loop meets the end of input only after digits and
      discarded whitespace, and rejects a character only when it is
      significant and neither a digit nor the delimiter. */
  lemma {:induction false} ScanBodyStops(d: Dialect, s: string, p: nat, k: Body, acc: string)
    requires p <= |s|
    requires forall i :: 0 <= i < |acc| ==> IsBodyDigit(k, acc[i])
    ensures var r := ScanBody(d, s, p, k, acc);
      && (r.0 == Err(UnexpectedEof) ==> r.1 == |s| && BodyChars(d, k, s, p, r.1))
      && (r.0 == Err(UnexpectedChar) ==>
            && p < r.1 && BodyChars(d, k, s, p, r.1 - 1)
            && Discard(d, s[r.1 - 1]) == Ok(false) && s[r.1 - 1] != Delimiter(k) && !IsBodyDigit(k, s[r.1 - 1]))
    decreases |s| - p
  {
    if p < |s| && Discard(d, s[p]).Ok? {
      if Discard(d, s[p]) == Ok(true) {
        ScanBodyStops(d, s, p + 1, k, acc);
      } else if s[p] != Delimiter(k) && IsBodyDigit(k, s[p]) {
        ScanBodyStops(d, s, p + 1, k, acc + [s[p]]);
      }
    }
  }

  /** Kept over a span starting at p: the character at p, unless it is
      discarded, then the rest. */
  lemma KeptStep(d: Dialect, s: string, p: nat, q: nat)
    requires p < q <= |s|
    ensures Kept(d, s[p..q]) == (if Discard(d, s[p]) == Ok(true) then [] else [s[p]]) + Kept(d, s[p + 1..q])
  {
    assert s[p..q][1..] == s[p + 1..q];
  }

  /** How many octets Go's decoder writes for the complete groups of n
      digits before it looks at an incomplete last group. */
  function CompleteGroupBytes(k: Body, n: nat): nat {
    if k.HexBody? then n / 2 else n / 4 * 3
  }

  function Decode(k: Body, digits: string): (r: Result<seq<byte>>)
    requires forall i :: 0 <= i < |digits| ==> IsBodyDigit(k, digits[i])
  {
    if k.HexBody? then
      assert forall i :: 0 <= i < |digits| ==> IsHexadecimalRemainder(digits[i]) by {
        forall i | 0 <= i < |digits| ensures IsHexadecimalRemainder(digits[i]) {
          assert IsBodyDigit(k, digits[i]);
        }
      }
      Codec.HexDecode(digits)
    else
      assert forall i :: 0 <= i < |digits| ==> IsBase64Remainder(digits[i]) by {
        forall i | 0 <= i < |digits| ensures IsBase64Remainder(digits[i]) {
          assert IsBodyDigit(k, digits[i]);
        }
      }
      Codec.Base64Decode(digits)
  }

  /** The decoding step of parseHexadecimal and parseBase64. With a length
      hint Go allocates the destination at the hinted size; a hint smaller
      than what the decoder writes makes Go's decoder index past the
      destination and panic, which is reported here as an invalid length
      prefix instead. */
  function DecodeBody(k: Body, digits: string, hint: Option<nat>): (r: Result<seq<byte>>)
    requires forall i :: 0 <= i < |digits| ==> IsBodyDigit(k, digits[i])
    ensures hint.None? ==> r == Decode(k, digits)
    ensures r.Ok? ==> r == Decode(k, digits) && (hint.None? || |r.value| == hint.value)
    ensures hint.Some? && Decode(k, digits).Ok? && |Decode(k, digits).value| != hint.value ==> r == Err(InvalidLengthPrefix)
    ensures hint.Some? && Decode(k, digits).Err? ==> r.Err?
    ensures Decode(k, digits).Ok? && (hint.None? || |Decode(k, digits).value| == hint.value) ==> r == Decode(k, digits)
  {
    var decoded := Decode(k, digits);
    if hint.Some? && hint.value < CompleteGroupBytes(k, |digits|) then Err(InvalidLengthPrefix)
    else if decoded.Err? then decoded
    else if hint.Some? && |decoded.value| != hint.value then Err(InvalidLengthPrefix)
    else decoded
  }

  /** parseHexadecimal / parseBase64, entered just after the opening
      delimiter; on success the cursor is left ON the closing delimiter. */
  function ReadBody(d: Dialect, s: string, p: nat, k: Body, hint: Option<nat>): (r: (Result<Node>, nat))
    requires p <= |s|
    ensures p <= r.1 <= |s|
    ensures r.0.Ok? ==> r.1 < |s| && s[r.1] == Delimiter(k)
    ensures r.0.Ok? ==> (if k.HexBody? then r.0.value.Hexadecimal? else r.0.value.Base64?)
    ensures r.0.Ok? && hint.Some? ==> |r.0.value.octets| == hint.value
    ensures r.0.Err? ==> r.0.error != Eof
  {
    var (body, q) := ScanBody(d, s, p, k, []);
    if body.Err? then (Err(body.error), q)
    else
      match DecodeBody(k, body.value, hint)
      case Err(e) => (Err(e), q)
      case Ok(octets) => (Ok(if k.HexBody? then Hexadecimal(octets) else Base64(octets)), q)
  }

  function Lift(r: (Result<Node>, nat)): NodeOutcome {
    if r.0.Ok? then Parsed(r.0.value) else Failed(r.0.error)
  }

  /** The character at p has been read where an atom must begin (after an
      optional length prefix): '#' opens a hex body, '|' a base-64 body in
      the revision that has one, and anything else is unexpected. */
  function ReadAtom(d: Dialect, s: string, p: nat, hint: Option<nat>): (r: (NodeOutcome, nat))
    requires p < |s|
    ensures p < r.1 <= |s|
    ensures !r.0.ListEnd? && !r.0.ParsedAtEof? && r.0 != Failed(Eof)
    ensures s[p] != '#' && (s[p] != '|' || !d.base64) ==> r == (Failed(UnexpectedChar), p + 1)
  {
    if s[p] == '|' && d.base64 then
      var b := ReadBody(d, s, p + 1, Base64Body, hint); (Lift(b), b.1)
    else if s[p] == '#' then
      var b := ReadBody(d, s, p + 1, HexBody, hint); (Lift(b), b.1)
    else (Failed(UnexpectedChar), p + 1)
  }

  // ------------------------------------------------------------ node / list

  /** parseNode: skips whitespace, then dispatches on the first significant
      character. */
  function ReadNode(d: Dialect, s: string, p: nat): (r: (NodeOutcome, nat))
    requires p <= |s|
    ensures p <= r.1 <= |s|
    ensures r.0.Parsed? || r.0.ListEnd? ==> p < r.1
    ensures r.0.ListEnd? ==> s[r.1 - 1] == ')'
    decreases |s| - p, 0
  {
    if p == |s| then (Failed(Eof), p)
    else
      match Discard(d, s[p])
      case Err(e) => (Failed(e), p + 1)
      case Ok(discard) =>
        if discard then ReadNode(d, s, p + 1)
        else if s[p] == ')' then (ListEnd, p + 1)
        else if s[p] == '(' then
          var l := ReadList(d, s, p + 1, []); (Lift(l), l.1)
        else if IsTokenStart(s[p]) then ReadToken(s, p)
        else if IsDigit(s[p]) then
          var (v, q) := ReadDecimal(s, p);
          if v.Err? then (Failed(v.error), q) else ReadAtom(d, s, q, Some(v.value))
        else ReadAtom(d, s, p, None)
  }

  /** parseNode at the end of input, at a rejected character, and at a
      discarded one. */
  lemma ReadNodeInsignificant(d: Dialect, s: string, p: nat)
    requires p <= |s|
    ensures p == |s| ==> ReadNode(d, s, p) == (Failed(Eof), p)
    ensures p < |s| && Discard(d, s[p]).Err? ==> ReadNode(d, s, p) == (Failed(Discard(d, s[p]).error), p + 1)
    ensures p < |s| && Discard(d, s[p]) == Ok(true) ==> ReadNode(d, s, p) == ReadNode(d, s, p + 1)
  {
  }

  /** parseNode at a significant character, one case per dispatch branch. */
  lemma ReadNodeSignificant(d: Dialect, s: string, p: nat)
    requires p < |s| && Discard(d, s[p]) == Ok(false)
    ensures s[p] == ')' ==> ReadNode(d, s, p) == (ListEnd, p + 1)
    ensures s[p] == '(' ==> ReadNode(d, s, p) == (Lift(ReadList(d, s, p + 1, [])), ReadList(d, s, p + 1, []).1)
    ensures IsTokenStart(s[p]) ==> ReadNode(d, s, p) == ReadToken(s, p)
    ensures IsDigit(s[p]) && ReadDecimal(s, p).0.Err? ==>
      ReadNode(d, s, p) == (Failed(ReadDecimal(s, p).0.error), ReadDecimal(s, p).1)
    ensures IsDigit(s[p]) && ReadDecimal(s, p).0.Ok? ==>
      ReadNode(d, s, p) == ReadAtom(d, s, ReadDecimal(s, p).1, Some(ReadDecimal(s, p).0.value))
    ensures s[p] != ')' && s[p] != '(' && !IsTokenStart(s[p]) && !IsDigit(s[p]) ==>
      ReadNode(d, s, p) == ReadAtom(d, s, p, None)
  {
  }

  /** parseList, entered just after '(' with the children read so far: every
      child is appended in read order, ')' ends the list, and io.EOF from any
      source becomes io.ErrUnexpectedEOF. */
  function ReadList(d: Dialect, s: string, p: nat, acc: seq<Node>): (r: (Result<Node>, nat))
    requires p <= |s|
    ensures p <= r.1 <= |s|
    ensures r.0.Ok? ==> p < r.1 && s[r.1 - 1] == ')' && r.0.value.List? && acc <= r.0.value.children
    ensures r.0.Err? ==> r.0.error != Eof
    decreases |s| - p, 1
  {
    if p == |s| then (Err(UnexpectedEof), p)
    else
      match Discard(d, s[p])
      case Err(e) => (Err(e), p + 1)
      case Ok(discard) =>
        if discard then ReadList(d, s, p + 1, acc)
        else
          var (o, q) := ReadNode(d, s, p);
          match o
          case Parsed(n) => ReadList(d, s, q, acc + [n])
          case ListEnd => (Ok(List(acc)), q)
          case ParsedAtEof(_) => (Err(UnexpectedEof), q)
          case Failed(e) => (Err(if e == Eof then UnexpectedEof else e), q)
  }

  /** parseList at the end of input, at a rejected character, and at a
      discarded one. */
  lemma ReadListInsignificant(d: Dialect, s: string, p: nat, acc: seq<Node>)
    requires p <= |s|
    ensures p == |s| ==> ReadList(d, s, p, acc) == (Err(UnexpectedEof), p)
    ensures p < |s| && Discard(d, s[p]).Err? ==> ReadList(d, s, p, acc) == (Err(Discard(d, s[p]).error), p + 1)
    ensures p < |s| && Discard(d, s[p]) == Ok(true) ==> ReadList(d, s, p, acc) == ReadList(d, s, p + 1, acc)
  {
  }

  /** parseList at a significant character, by what parseNode read there. */
  lemma ReadListSignificant(d: Dialect, s: string, p: nat, acc: seq<Node>)
    requires p < |s| && Discard(d, s[p]) == Ok(false)
    ensures var (o, q) := ReadNode(d, s, p);
      && (o.Parsed? ==> ReadList(d, s, p, acc) == ReadList(d, s, q, acc + [o.node]))
      && (o.ListEnd? ==> ReadList(d, s, p, acc) == (Ok(List(acc)), q))
      && (o.ParsedAtEof? ==> ReadList(d, s, p, acc) == (Err(UnexpectedEof), q))
      && (o.Failed? ==> ReadList(d, s, p, acc) == (Err(if o.err == Eof then UnexpectedEof else o.err), q))
  {
  }

  /** The top-level entry: a ')' with no list open is an unexpected
      character, a benign io.EOF means no node at all, and every error comes
      without a node. */
  function Parse(d: Dialect, s: string, p: nat): (r: Result<Option<Node>>)
    requires p <= |s|
    ensures r.Err? ==> r.error != Eof
    ensures ReadNode(d, s, p).0.ListEnd? ==> r == Err(UnexpectedChar)
  {
    match ReadNode(d, s, p).0
    case Parsed(n) => Ok(Some(n))
    case ParsedAtEof(n) => Ok(Some(n))
    case ListEnd => Err(UnexpectedChar)
    case Failed(e) => if e == Eof then Ok(None) else Err(e)
  }
}
