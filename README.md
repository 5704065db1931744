# sexp — a verified model of the S-expression codec

This project models the core of the Go package `sexp`. The package reads
and writes Rivest-style S-expressions, whose nodes are lists, tokens,
hexadecimal atoms (`#6869#`) and base-64 atoms (`|aGk=|`). A decimal length
prefix may stand before an atom. The repository holds two revisions of the
parser:

- `sexp.go` is the strict revision. CR and LF are always rejected, and `|`
  opens a base-64 atom.
- `parser.go` is the later revision. A parser value carries
  `disallowNewlines`: LimitedParser rejects CR and LF, while FullParser skips
  them like spaces. A length prefix travels as a `LengthHint`, and `|` opens
  nothing.

`producer.go` holds the node builders of the later revision.

The model is built in layers.

- `Types` holds the node, the error kinds and the results.
- `Chars` holds the character classes and `shouldDiscard`.
- `Codec` gives the hexadecimal (RFC 4648 section 8), base-64 (RFC 4648
  section 4) and decimal conversions as whole-string functions.
- `Encoder` gives the canonical text form. `Encode` defines it, and
  `Node.String` / `appendToBuilder` write it into a `strings.Builder`
  class.
- `Grammar` is the reference definition. It has one pure function per parse
  routine, taking a dialect: the newline mode, and whether base 64 is
  available.
- The parse routines of both revisions (`Sexp`, `ModalParser`) are
  imperative. They read a `Cursor` class (the `io.RuneScanner`), loop as
  the Go code does, and are proved to return what the grammar function
  returns and to leave the cursor where it says.
- `Properties` and `Newlines` prove what the grammar means:
  - the round trip through the encoder;
  - how atoms, length prefixes and padding behave;
  - how the two newline modes relate.

## Model

| member | source | states |
|---|---|---|
| Chars.ShouldDiscard | parser.go:52-74 | non-ASCII is NotAscii; CR/LF is UnacceptableWhitespace exactly in the disallowing mode, otherwise whitespace; other characters up to 0x20 are discarded; 0x21..0x7F are kept (each an if-and-only-if) |
| Chars.ModesDifferOnlyOnNewlines | parser.go:52-74 | the two modes classify every character alike except CR and LF, which one mode rejects and the other discards |
| Chars.GrammarCharsAreSignificant | sexp.go:333-367 | every token, hexadecimal or base-64 character is kept in both modes and is none of the characters `(`, `)`, `#` and the bar |
| Chars.TokenCharsFrom | sexp.go:126-140 | true exactly when the first character starts a token and every later one continues it |
| Codec.HexEncode | sexp.go:99-106 | two lower-case hexadecimal digits per octet |
| Codec.HexDecode | sexp.go:482-516 | succeeds exactly on an even digit count with half as many octets; otherwise the error is the odd-length error |
| Codec.HexRoundTrip | sexp.go:99-106 | decoding the encoding of any octets gives them back |
| Codec.Base64Encode | sexp.go:107-120 | padded standard encoding: 4 characters per started group of 3 octets; Codec.Base64PaddedRoundTrip is its inverse |
| Codec.Base64Layout | sexp.go:107-120 | the encoding is alphabet characters followed by exactly the padding the octet count needs |
| Codec.Base64Decode | sexp.go:582-604 | succeeds exactly on a multiple of 4 digits, with 3 octets per group; otherwise reports corruption at the last complete group's end |
| Codec.Base64RoundTrip | sexp.go:107-120 | for a multiple of 3 octets the encoding is unpadded and decodes back to the octets |
| Codec.Base64DecodePadded | sexp.go:107-120 | decoding of padded text by quanta of 4 characters: at most 3 octets per quantum, fewer when it ends in padding |
| Codec.Base64PaddedRoundTrip | sexp.go:107-120 | the encoding of any octets, a last quantum padded with one or two `=` included, is padded text that decodes back to the octets |
| Codec.Base64DecodeAgrees | sexp.go:582-604 | on unpadded text the decoder the parser uses succeeds with the padded decoding |
| Codec.ParseUint | sexp.go:369-391 | empty digits are a syntax error, a value above 2^64-1 is a range error, and any other digit string, leading zeros included, gives its decimal value (each an if-and-only-if) |
| Codec.ParseUintOfFormat | sexp.go:369-391 | the decimal form of any 64-bit value parses back to it |
| Encoder.Encode | sexp.go:80-124 | a list is framed by parentheses, a token is its octets, a hexadecimal atom is framed by `#` with two digits per octet, a base-64 atom is framed by the bar |
| Encoder.ChildrenSnoc | sexp.go:86-95 | appending a child extends the list text by one space and the child's encoding |
| Encoder.Builder.WriteRune | sexp.go:86-95 | the builder grows by one character |
| Encoder.Builder.Write | sexp.go:96-120 | the builder grows by the given text |
| Encoder.AppendList | sexp.go:86-95 | the loop writes `(`, the children separated by single spaces, then `)` |
| Encoder.AppendToBuilder | sexp.go:80-124 | appends exactly the encoding of the node |
| Encoder.String | sexp.go:69-78 | returns the encoding of the node |
| Grammar.ReadToken | sexp.go:393-432 | the maximal run of token characters from the start, as octets; end of input after it is reported with the node |
| Grammar.ReadDecimal | sexp.go:369-391 | the maximal run of digits and its value; end of input is io.EOF, no digit is a syntax error, and an overflow is a range error |
| Grammar.ScanBody | sexp.go:447-481 | stops on the closing delimiter (left unread) or fails with unexpected end, unexpected character, non-ASCII or rejected newline; all collected characters are body digits |
| Grammar.ScanBodyPasses | sexp.go:447-481 | on success every character passed is a body digit or discarded whitespace |
| Grammar.ScanBodyKeeps | sexp.go:447-481 | on success the collected digits are exactly the kept characters, in input order |
| Grammar.ScanBodyStops | sexp.go:447-481 | end of input is reported only after digits and whitespace, and an unexpected character is a non-digit that is not the delimiter |
| Grammar.DecodeBody | sexp.go:482-516 | a failed decoding fails, with its own error when there is no hint; a successful one gives its octets when there is no hint or the hint equals the octet count, and an invalid length prefix when the hint differs |
| Grammar.ReadBody | sexp.go:447-517 | on success the closing delimiter is next, the node has the body's kind, and it has as many octets as the hint says |
| Grammar.ReadAtom | sexp.go:268-275 | after a length prefix only `#` (and the bar in the strict revision) open an atom; anything else is an unexpected character |
| Grammar.ReadNode | sexp.go:211-280 | consumes at least one character for a node or a list end, and a list end is a `)` |
| Grammar.ReadNodeInsignificant | sexp.go:213-227 | at end of input, io.EOF; at a rejected character, its error; at whitespace, the same as from the next character |
| Grammar.ReadNodeSignificant | sexp.go:229-278 | one equation per dispatch branch: `)`, `(`, token start, digit (prefix then atom), and anything else |
| Grammar.ReadList | sexp.go:282-331 | on success ends after a `)` with the children read so far as a prefix; never reports io.EOF |
| Grammar.ReadListInsignificant | sexp.go:282-331 | end of input inside a list is an unexpected end; a rejected character fails; whitespace is skipped |
| Grammar.ReadListSignificant | sexp.go:282-331 | a parsed child is appended and reading goes on; a list end closes the list; a child at end of input or io.EOF is an unexpected end |
| Grammar.Parse | sexp.go:175-189 | a stray `)` is an unexpected character and io.EOF is never reported |
| Properties.FirstCharSignificant | sexp.go:211-280 | a list or non-empty token encoding starts with a kept character that opens it |
| Properties.ReadTokenEncoded | sexp.go:393-432 | a token's text followed by end of input or by any character that cannot continue a token reads back as that token, ending right after it |
| Properties.ReadNodeEncoded | sexp.go:211-331 | the encoding of a list of lists and non-empty tokens reads back as the node, ending right after it |
| Properties.ReadListEncoded | sexp.go:282-331 | the encoded children and the closing `)` read back as the list with those children appended |
| Properties.RoundTrip | sexp.go:80-124 | Parse of the encoding of a list of lists and non-empty tokens gives the node back |
| Properties.TruncatedList | sexp.go:282-331 | a list encoding without its `)` is an unexpected end |
| Properties.ScanBodyDigits | sexp.go:447-481 | a run of body digits is collected as it stands |
| Properties.ReadAtomBody | sexp.go:268-275 | an atom framed by its delimiters yields the decoded node or the decoding error, ending at the closing delimiter |
| Properties.LoneBody | sexp.go:175-189 | a framed atom alone on the input parses to its decoding, or fails with the decoding error |
| Properties.HexAtom | sexp.go:447-517 | `#` + hex digits + `#` parses to the digit pairs when the count is even and fails with the odd-length error otherwise |
| Properties.HintedHexBody | parser.go:307-377 | an odd digit count fails; an even count with no hint or a matching hint gives half as many octets; a differing hint is an invalid length prefix |
| Properties.HexAtomRoundTrip | sexp.go:99-106 | any hexadecimal atom's encoding parses back to it in every dialect |
| Properties.ReadFormattedDecimal | sexp.go:369-391 | a formatted decimal reads back to its value, or a range error above 2^64-1 |
| Properties.PrefixedBody | sexp.go:247-266 | a length prefix before a framed atom is passed to the decoder as its hint |
| Properties.LengthPrefixedHex | sexp.go:247-266 | a prefix equal to the octet count parses back, a different one is an invalid length prefix, and one above 2^64-1 is a range error |
| Properties.BodyScanFails | sexp.go:447-481 | an unexpected character inside a body makes the atom fail with it |
| Properties.Base64PaddingRejected | sexp.go:535-581 | a padded base-64 body stops at `=` as an unexpected character |
| Properties.Base64Layout | sexp.go:107-120 | a base-64 atom's encoding is its digits framed by the bar |
| Properties.Base64AtomTopLevel | sexp.go:535-605 | with base 64, an atom of a multiple of 3 octets parses back and any other fails on its padding; without base 64 it is an unexpected character |
| Properties.ListChildFails | sexp.go:282-331 | any child that fails makes the list fail with its error, io.EOF becoming an unexpected end |
| Properties.ParseOfFailedList | sexp.go:175-189 | a list that fails, with whatever error, fails Parse with that same error |
| Properties.ReopenedBodyFails | sexp.go:282-331 | because the closing delimiter is pushed back, a framed atom inside a list reopens a body that meets `)` |
| Properties.AtomInListFails | sexp.go:282-331 | a list whose only child is a hexadecimal or base-64 atom does not parse back: unexpected character |
| Properties.OnlyWhitespace | sexp.go:175-189 | input of discarded characters only gives io.EOF from parseNode and no node and no error from Parse |
| Properties.OnlyDigits | sexp.go:247-266 | input of digits only gives no node and no error, as the prefix parser sees io.EOF |
| Sexp.ShouldDiscard | sexp.go:191-209 | the strict classification, that of the disallowing mode |
| Sexp.Token | sexp.go:126-140 | accepts exactly empty text or a token start followed by token characters; the octets are the characters; a non-empty token's encoding parses back |
| Sexp.MustToken | sexp.go:142-149 | the node Token builds for text it accepts |
| Sexp.Hexadecimal | sexp.go:151-157 | keeps the octets; parses back alone but not as the only child of a list |
| Sexp.Base64 | sexp.go:159-165 | keeps the octets; parses back alone exactly when no padding is written |
| Sexp.List | sexp.go:167-173 | keeps the children in order; a list of lists and non-empty tokens parses back |
| Sexp.Parse | sexp.go:175-189 | returns the grammar's Parse of the input from the cursor and leaves the cursor where the grammar's parseNode stops; never io.EOF |
| Sexp.ParseNode | sexp.go:211-280 | the whitespace loop returns the grammar's parseNode outcome and position |
| Sexp.DispatchNode | sexp.go:229-278 | the dispatch on the first kept character agrees with the grammar |
| Sexp.ParseAtom | sexp.go:247-278 | the length prefix and the atom after it agree with the grammar |
| Sexp.ParseList | sexp.go:282-331 | the child loop returns the grammar's parseList result and position |
| Sexp.ParseListStep | sexp.go:297-328 | one round of the child loop either finishes as the grammar does or advances without changing the grammar's result |
| Sexp.ParseDecimal | sexp.go:369-391 | the digit loop returns the grammar's decimal and stops where it does |
| Sexp.ParseToken | sexp.go:393-432 | the token loop returns the grammar's token and pushes back the stopping character |
| Sexp.ParseHexadecimal | sexp.go:447-517 | the collecting loop and decoding return the grammar's hexadecimal body under the hint |
| Sexp.ParseBase64 | sexp.go:535-605 | the collecting loop and decoding return the grammar's base-64 body under the hint |
| ModalParser.LengthHint.AsOption | parser.go:19-22 | a hint is present exactly when Has is set, with its length |
| ModalParser.Parser.Dialect | parser.go:24-29 | the parser's newline mode, without base 64 |
| ModalParser.Parser.ShouldDiscard | parser.go:52-74 | the classification of the parser's mode |
| ModalParser.Parser.ParseNode | parser.go:36-50 | returns the grammar's Parse in the parser's mode and leaves the cursor where the grammar's parseNode stops; never io.EOF |
| ModalParser.Parser.NextNode | parser.go:76-140 | the whitespace loop returns the grammar's parseNode outcome and position |
| ModalParser.Parser.DispatchNode | parser.go:94-138 | the dispatch on the first kept character agrees with the grammar |
| ModalParser.Parser.ParseAtom | parser.go:112-138 | a length prefix, then only `#` opens an atom, as the grammar says |
| ModalParser.Parser.ParseList | parser.go:142-191 | the child loop returns the grammar's parseList result and position |
| ModalParser.Parser.ParseListStep | parser.go:157-188 | one round of the child loop finishes as the grammar does or advances without changing the grammar's result |
| ModalParser.Parser.ParseDecimal | parser.go:229-251 | the digit loop returns the grammar's decimal |
| ModalParser.Parser.ParseToken | parser.go:253-292 | the token loop returns the grammar's token |
| ModalParser.Parser.ParseHexadecimal | parser.go:307-377 | the collecting loop and decoding return the grammar's hexadecimal body under the LengthHint |
| ModalParser.BarIsUnexpected | parser.go:94-138 | the bar is an unexpected character where a node or an atom begins |
| ModalParser.Parse | parser.go:33-35 | ParseNode of LimitedParser: the grammar's Parse in the disallowing mode, with the cursor where parseNode stops |
| Producer.Producer.Token | producer.go:26-40 | fails with the invalid-token error exactly when the first character cannot start a token or a later one cannot continue it; same result as the strict Token |
| Producer.Producer.Hexadecimal | producer.go:50-56 | keeps the octets; the encoding parses back in the producer's mode |
| Producer.Producer.List | producer.go:66-75 | keeps the children; no children encode as `()`; a list of lists and non-empty tokens parses back |
| Producer.MustToken | producer.go:18-25 | the node LimitedProducer.Token builds for text it accepts |
| Producer.MustHexadecimal | producer.go:42-49 | the node LimitedProducer.Hexadecimal builds |
| Producer.MustList | producer.go:58-65 | the node LimitedProducer.List builds |
| Producer.ModeIrrelevant | producer.go:9-14 | the producer's newline mode changes no builder's result |
| Newlines.FullModeNewlinesAsSpaces | parser.go:52-74 | in the skipping mode, replacing every CR and LF by a space changes no parse result, no list, and no hexadecimal body |
| Newlines.ModesAgreeWithoutNewlines | parser.go:28-29 | on input without CR or LF, LimitedParser and FullParser parse alike |

## Left out

- The cursor stands for a `strings.Reader`. Other `io.RuneScanner`s, their read errors, and a refused `UnreadRune` are not modelled.
- The streaming `hex` and `base64` encoders and decoders, and `strconv.ParseUint`, are given as whole-string functions by their standards (RFC 4648 sections 8 and 4). Go's internal buffering is not modelled.
- `Node.String`'s `!!(err)!!` branch and nil children are not modelled. The model's nodes are always well formed, so `appendToBuilder` cannot fail.
- A nil and an empty child slice are not distinguished.
- The `uint64` width of a `LengthHint`, and the allocation of a buffer of the hinted size, are not modelled. A hint is a natural number; the decimal parser bounds it by 2^64-1.
- The Must* builders panic where their counterpart fails. This is modelled as a precondition.
- Input characters are Unicode scalar values, and every rune is classified as Go classifies it. Invalid UTF-8, which `strings.Reader` reads as U+FFFD, is not modelled, and neither is the UTF-8 encoding of token octets.
- ModalParser.Parser.ParseList: the partly built list that Go returns beside io.ErrUnexpectedEOF or a `shouldDiscard` error is not modelled. The model returns only the error; Go drops the list only when a child fails.
- Sexp.ParseList: the same partly built list is not modelled. Here no caller can see it, because `parseNode` returns it and `Parse` discards the node on error.
- Sexp.ParseHexadecimal: where Go panics because the hint is shorter than the decoded octets, the model reports an invalid length prefix.
- Sexp.ParseBase64: the same.
- ModalParser.Parser.ParseHexadecimal: the same.
- ModalParser.Parser.ParseDecimal and ModalParser.Parser.ParseToken: the code in `parser.go` is identical to that of `sexp.go`, so they call the strict revision's methods.
- ModalParser.Parser.ParseDecimal: the value the exported method returns beside its error is not modelled. That value is 2^64-1 beside the range error and 0 beside a syntax error or io.EOF. The model returns only the error. (In `sexp.go`, `parseNode` ignores the value on error.)
- Sexp.Token and Producer.Producer.Token: the character check is a recursive function (`TokenCharsFrom`) rather than Go's loop over the string.
- The older grammar that `doc.go` documents (odd digit counts, other whitespace rules) is not part of this model; the code is followed where it differs.
- The Lua test scripts and `sexp_test.go` are not part of this model. `sexp_test.go` parses only `()`, `)`, `(` and `abc`. The Lua tests encode lists of tokens with `String()` and read them back with the Lua decoder, not with Go's parser. The Go-side round trip for lists and non-empty tokens is proved as Properties.RoundTrip.
