/** The value types shared by both revisions of the package: the node tree,
    the error kinds and the small wrappers used for fallible results. */
module Types {

  /** One octet of an atom's payload. */
  type byte = x: int | 0 <= x < 256

  /** The largest value of a Go uint64. */
  const MaxUint64: nat := 0xFFFF_FFFF_FFFF_FFFF

  datatype Option<T> = None | Some(value: T)

  /** A node of the tree. Go keeps a Kind tag beside an octet string and a
      child list; here the tag is the constructor, so a node is never both a
      list and an atom. */
  datatype Node =
    | List(children: seq<Node>)
    | Token(octets: seq<byte>)
    | Hexadecimal(octets: seq<byte>)
    | Base64(octets: seq<byte>)

  /** Every error value the core can return. */
  datatype Error =
    | Eof                      // io.EOF: benign end of input at a node boundary
    | UnexpectedEof            // io.ErrUnexpectedEOF
    | NotAscii                 // ErrNotASCII
    | UnacceptableWhitespace   // ErrParseUnacceptableWhitespace
    | UnexpectedChar           // ErrUnexpectedChar
    | InvalidLengthPrefix      // ErrInvalidLengthPrefix
    | InvalidTokenChar         // ErrInvalidTokenChar
    | HexLength                // hex.ErrLength: odd number of hex digits
    | Base64Corrupt(offset: nat) // base64.CorruptInputError
    | DecimalSyntax            // strconv.ErrSyntax (empty digit string)
    | DecimalRange             // strconv.ErrRange (value beyond uint64)

  datatype Result<T> = Ok(value: T) | Err(error: Error)
}
