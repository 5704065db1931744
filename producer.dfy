/** The node builders of the later revision (producer.go). A producer value
    carries a newline mode like a parser, but no builder looks at it. The
    Must* wrappers use LimitedProducer and abort where their counterpart
    fails; the model states that as a precondition. */
module Producer {
  import opened Types
  import opened Chars
  import opened Encoder
  import G = Grammar
  import P = Properties
  import Sexp

  datatype Producer = Producer(disallowNewlines: bool)
  {
    /** Token: fails with ErrInvalidTokenChar exactly when the first
        character cannot start a token or a later one cannot continue it;
        otherwise the payload is the string's octets. */
    function Token(s: string): (r: Result<Node>)
      ensures r.Err? <==> (|s| > 0 && !IsTokenStart(s[0])) || exists i :: 1 <= i < |s| && !IsTokenRemainder(s[i])
      ensures r.Err? ==> r.error == InvalidTokenChar
      ensures r.Ok? ==> r.value.Token? && |r.value.octets| == |s|
      ensures r.Ok? ==> forall i :: 0 <= i < |s| ==> r.value.octets[i] == s[i] as int
      ensures r.Ok? ==> Encode(r.value) == s
      ensures r == Sexp.Token(s)
    {
      if TokenCharsFrom(s, 0) then
        var n := Types.Token(AsciiBytes(s));
        assert BytesAsChars(n.octets) == s;
        Ok(n)
      else Err(InvalidTokenChar)
    }

    /** Hexadecimal: always succeeds and keeps the octets; the parser of this
        revision reads its encoding back. */
    function Hexadecimal(b: seq<byte>): (r: Result<Node>)
      ensures r.Ok? && r.value.Hexadecimal? && r.value.octets == b
      ensures G.Parse(G.Dialect(disallowNewlines, false), Encode(r.value), 0) == Ok(Some(r.value))
    {
      P.HexAtomRoundTrip(G.Dialect(disallowNewlines, false), b);
      Ok(Types.Hexadecimal(b))
    }

    /** List: always succeeds with the children in the given order; no
        children give the empty list. A list of lists and non-empty tokens
        reads back through the parser of this revision. */
    function List(children: seq<Node>): (r: Result<Node>)
      ensures r.Ok? && r.value.List? && r.value.children == children
      ensures |children| == 0 ==> Encode(r.value) == "()"
      ensures P.Simple(r.value) ==> G.Parse(G.Dialect(disallowNewlines, false), Encode(r.value), 0) == Ok(Some(r.value))
    {
      var n := Types.List(children);
      if P.Simple(n) then P.RoundTrip(G.Dialect(disallowNewlines, false), n); Ok(n) else Ok(n)
    }
  }

  const LimitedProducer := Producer(true)
  const FullProducer := Producer(false)

  /** MustToken: the node LimitedProducer.Token builds, for a string it
      accepts. */
  function MustToken(s: string): (n: Node)
    requires IsTokenText(s)
    ensures LimitedProducer.Token(s) == Ok(n)
    ensures n.Token? && Encode(n) == s
  {
    LimitedProducer.Token(s).value
  }

  /** MustHexadecimal: the node LimitedProducer.Hexadecimal builds. */
  function MustHexadecimal(b: seq<byte>): (n: Node)
    ensures LimitedProducer.Hexadecimal(b) == Ok(n)
    ensures n.Hexadecimal? && n.octets == b
  {
    LimitedProducer.Hexadecimal(b).value
  }

  /** MustList: the node LimitedProducer.List builds. */
  function MustList(children: seq<Node>): (n: Node)
    ensures LimitedProducer.List(children) == Ok(n)
    ensures n.List? && n.children == children
  {
    LimitedProducer.List(children).value
  }

  /** The newline mode of a producer changes no builder's result. */
  lemma ModeIrrelevant(s: string, b: seq<byte>, children: seq<Node>)
    ensures LimitedProducer.Token(s) == FullProducer.Token(s)
    ensures LimitedProducer.Hexadecimal(b) == FullProducer.Hexadecimal(b)
    ensures LimitedProducer.List(children) == FullProducer.List(children)
  {
  }
}
