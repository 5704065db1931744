/** The canonical text form of a node, as Node.String in sexp.go produces it:
    lists in parentheses with one space between children, tokens verbatim,
    hexadecimal atoms as lower-case digits between '#', base-64 atoms as
    padded standard base 64 between '|'. */
module Encoder {
  import opened Types
  import opened Chars
  import Codec

  function Encode(n: Node): (t: string)
    ensures n.List? ==> 2 <= |t| && t[0] == '(' && t[|t| - 1] == ')'
    ensures n.Token? ==> |t| == |n.octets|
    ensures n.Hexadecimal? ==> |t| == 2 * |n.octets| + 2 && t[0] == '#' && t[|t| - 1] == '#'
    ensures n.Base64? ==> |t| % 4 == 2 && t[0] == '|' && t[|t| - 1] == '|'
    decreases n, 1
  {
    match n
    case List(cs) => "(" + Children(cs) + ")"
    case Token(b) => BytesAsChars(b)
    case Hexadecimal(b) => "#" + Codec.HexEncode(b) + "#"
    case Base64(b) => "|" + Codec.Base64Encode(b) + "|"
  }

  /** The children of a list, separated by single spaces, with no space
      before the first or after the last. */
  function Children(cs: seq<Node>): string
    decreases cs, 0
  {
    if |cs| == 0 then []
    else if |cs| == 1 then Encode(cs[0])
    else Encode(cs[0]) + " " + Children(cs[1..])
  }

  /** Appending a child extends the text by a separating space and the
      child's encoding: the order in which appendToBuilder writes them. */
  lemma {:induction false} ChildrenSnoc(cs: seq<Node>, c: Node)
    ensures Children(cs + [c]) == if |cs| == 0 then Encode(c) else Children(cs) + " " + Encode(c)
    decreases |cs|
  {
    if |cs| >= 2 {
      ChildrenSnoc(cs[1..], c);
      assert (cs + [c])[1..] == cs[1..] + [c];
    } else if |cs| == 1 {
      assert (cs + [c])[1..] == [c];
    }
  }

  /** strings.Builder: a growing string. */
  class Builder {
    var buf: string

    constructor ()
      ensures buf == []
    {
      buf := [];
    }

    method WriteRune(c: char)
      modifies this
      ensures buf == old(buf) + [c]
    {
      buf := buf + [c];
    }

    method Write(t: string)
      modifies this
      ensures buf == old(buf) + t
    {
      buf := buf + t;
    }
  }

  /** appendToBuilder: writes the encoding of n after what sb holds. */
  method AppendToBuilder(n: Node, sb: Builder)
    modifies sb
    ensures sb.buf == old(sb.buf) + Encode(n)
    decreases n, 1
  {
    match n
    case List(cs) =>
      AppendList(cs, sb);
    case Token(b) =>
      sb.Write(BytesAsChars(b));
    case Hexadecimal(b) =>
      sb.WriteRune('#');
      sb.Write(Codec.HexEncode(b));
      sb.WriteRune('#');
    case Base64(b) =>
      sb.WriteRune('|');
      sb.Write(Codec.Base64Encode(b));
      sb.WriteRune('|');
  }

  /** The list case of appendToBuilder: each child followed by a space unless
      it is the last. */
  method AppendList(cs: seq<Node>, sb: Builder)
    modifies sb
    ensures sb.buf == old(sb.buf) + "(" + Children(cs) + ")"
    decreases List(cs), 0
  {
    ghost var before := sb.buf + "(";
    sb.WriteRune('(');
    for i := 0 to |cs|
      invariant sb.buf == before + Children(cs[..i]) + Separator(i, |cs|)
    {
      AppendStep(before, cs, i);
      AppendToBuilder(cs[i], sb);
      if i < |cs| - 1 {
        sb.WriteRune(' ');
      }
    }
    assert cs[..|cs|] == cs;
    sb.WriteRune(')');
  }

  /** The space written after the i-th of n children, if any. */
  function Separator(i: nat, n: nat): string {
    if 0 < i < n then " " else ""
  }

  lemma AppendStep(before: string, cs: seq<Node>, i: nat)
    requires i < |cs|
    ensures before + Children(cs[..i]) + Separator(i, |cs|) + Encode(cs[i]) + Separator(i + 1, |cs|)
         == before + Children(cs[..i + 1]) + Separator(i + 1, |cs|)
  {
    ChildrenSnoc(cs[..i], cs[i]);
    assert cs[..i + 1] == cs[..i] + [cs[i]];
  }

  /** Node.String: the encoding of n. */
  method String(n: Node) returns (t: string)
    ensures t == Encode(n)
  {
    var sb := new Builder();
    AppendToBuilder(n, sb);
    t := sb.buf;
  }
}
