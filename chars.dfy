/** The character classifier shared by both revisions: the character classes
    of the grammar and the whitespace policy. */
module Chars {
  import opened Types

  predicate IsAlpha(c: char) {
    ('A' <= c <= 'Z') || ('a' <= c <= 'z')
  }

  predicate IsDigit(c: char) {
    '0' <= c <= '9'
  }

  /** The eight punctuation characters allowed in tokens. */
  predicate IsGraphic(c: char) {
    c == '-' || c == '.' || c == '/' || c == '_' || c == ':' || c == '*' || c == '+' || c == '='
  }

  /** Tokens may not start with a digit. */
  predicate IsTokenStart(c: char) {
    IsAlpha(c) || IsGraphic(c)
  }

  predicate IsTokenRemainder(c: char) {
    IsAlpha(c) || IsDigit(c) || IsGraphic(c)
  }

  predicate IsHexadecimalRemainder(c: char) {
    ('0' <= c <= '9') || ('A' <= c <= 'F') || ('a' <= c <= 'f')
  }

  /** The base-64 alphabet without the padding character '='. */
  predicate IsBase64Remainder(c: char) {
    ('0' <= c <= '9') || ('A' <= c <= 'Z') || ('a' <= c <= 'z') || c == '+' || c == '/'
  }

  predicate IsNewline(c: char) {
    c == '\r' || c == '\n'
  }

  /** The text a token builder accepts: empty, or a token-start character
      followed by token-remainder characters. */
  predicate IsTokenText(t: string) {
    |t| == 0 || (IsTokenStart(t[0]) && forall i :: 1 <= i < |t| ==> IsTokenRemainder(t[i]))
  }

  /** The check of the token builders' loop from index i on: the first
      character must start a token and every later one continue it. */
  function TokenCharsFrom(s: string, i: nat): (ok: bool)
    requires i <= |s|
    ensures ok <==> forall j :: i <= j < |s| ==> if j == 0 then IsTokenStart(s[j]) else IsTokenRemainder(s[j])
    decreases |s| - i
  {
    if i == |s| then true
    else if i == 0 && !IsTokenStart(s[i]) then false
    else if i > 0 && !IsTokenRemainder(s[i]) then false
    else TokenCharsFrom(s, i + 1)
  }

  /** The classification of one character read between grammar elements, in
      the parser's newline mode: an error, discard (whitespace) or keep.
      Tab, vertical tab and form feed are all at most 0x20. */
  function ShouldDiscard(disallowNewlines: bool, c: char): (r: Result<bool>)
    ensures r == Err(NotAscii) <==> c as int > 0x7F
    ensures r == Err(UnacceptableWhitespace) <==> disallowNewlines && IsNewline(c)
    ensures r == Ok(true) <==> c as int <= 0x20 && !(disallowNewlines && IsNewline(c))
    ensures r == Ok(false) <==> 0x20 < c as int <= 0x7F
  {
    if c as int > 0x7F then Err(NotAscii)
    else if c == '\r' || c == '\n' then
      (if disallowNewlines then Err(UnacceptableWhitespace) else Ok(true))
    else if c as int <= 0x20 then Ok(true)
    else Ok(false)
  }

  /** Every character that can appear in a token, a decimal, or a hex or
      base-64 body is significant in either mode and is none of the
      structural characters. */
  lemma GrammarCharsAreSignificant(disallowNewlines: bool, c: char)
    requires IsTokenRemainder(c) || IsHexadecimalRemainder(c) || IsBase64Remainder(c)
    ensures ShouldDiscard(disallowNewlines, c) == Ok(false)
    ensures c != '(' && c != ')' && c != '#' && c != '|'
  {
  }

  /** The two newline modes classify every character alike except CR and LF. */
  lemma ModesDifferOnlyOnNewlines(c: char)
    ensures IsNewline(c) ==> ShouldDiscard(true, c) == Err(UnacceptableWhitespace) && ShouldDiscard(false, c) == Ok(true)
    ensures !IsNewline(c) ==> ShouldDiscard(true, c) == ShouldDiscard(false, c)
  {
  }

  /** The octets of an ASCII string, one per character (Go's []byte(s)). */
  function AsciiBytes(t: string): (b: seq<byte>)
    requires forall i :: 0 <= i < |t| ==> t[i] as int < 0x80
    ensures |b| == |t|
    ensures forall i :: 0 <= i < |t| ==> b[i] == t[i] as int
  {
    seq(|t|, i requires 0 <= i < |t| => t[i] as int)
  }

  /** The characters a string holding these octets reads back as. */
  function BytesAsChars(b: seq<byte>): (t: string)
    ensures |t| == |b|
    ensures forall i :: 0 <= i < |b| ==> t[i] as int == b[i]
  {
    seq(|b|, i requires 0 <= i < |b| => b[i] as char)
  }
}
