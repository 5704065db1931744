/** What the newline mode changes. Two inputs read in two dialects are
    "alike" when they have the same length and, position by position, hold
    the same character classified the same way, or two characters that are
    both discarded. Every grammar function gives the same result on alike
    inputs; from that follow the two facts about the modes of parser.go: in
    the full mode CR and LF are skipped exactly where a space is, and on input
    without CR and LF both modes parse alike. */
module Newlines {
  import opened Types
  import opened Chars
  import opened Grammar

  predicate AlikeChar(d1: Dialect, a: char, d2: Dialect, b: char) {
    (a == b && Discard(d1, a) == Discard(d2, b)) || (Discard(d1, a) == Ok(true) && Discard(d2, b) == Ok(true))
  }

  predicate Alike(d1: Dialect, s1: string, d2: Dialect, s2: string) {
    && d1.base64 == d2.base64 && |s1| == |s2|
    && forall i :: 0 <= i < |s1| ==> AlikeChar(d1, s1[i], d2, s2[i])
  }

  /** A discarded character is none of the characters the grammar looks
      for, so alike characters fall in the same classes. */
  lemma AlikeClasses(d1: Dialect, a: char, d2: Dialect, b: char)
    requires AlikeChar(d1, a, d2, b)
    ensures Discard(d1, a) == Discard(d2, b)
    ensures Discard(d1, a) != Ok(true) ==> a == b
    ensures IsTokenRemainder(a) <==> IsTokenRemainder(b)
    ensures IsDigit(a) <==> IsDigit(b)
    ensures IsHexadecimalRemainder(a) <==> IsHexadecimalRemainder(b)
    ensures IsBase64Remainder(a) <==> IsBase64Remainder(b)
    ensures (a == '#' <==> b == '#') && (a == '|' <==> b == '|')
  {
  }

  lemma AlikeAt(d1: Dialect, s1: string, d2: Dialect, s2: string, p: nat)
    requires Alike(d1, s1, d2, s2) && p < |s1|
    ensures AlikeChar(d1, s1[p], d2, s2[p])
  {
  }

  lemma {:induction false} TokenEndAlike(d1: Dialect, s1: string, d2: Dialect, s2: string, k: nat)
    requires Alike(d1, s1, d2, s2) && k <= |s1|
    ensures TokenEnd(s1, k) == TokenEnd(s2, k)
    decreases |s1| - k
  {
    if k < |s1| {
      AlikeAt(d1, s1, d2, s2, k);
      AlikeClasses(d1, s1[k], d2, s2[k]);
      if IsTokenRemainder(s1[k]) {
        TokenEndAlike(d1, s1, d2, s2, k + 1);
      }
    }
  }

  lemma {:induction false} DigitsEndAlike(d1: Dialect, s1: string, d2: Dialect, s2: string, k: nat)
    requires Alike(d1, s1, d2, s2) && k <= |s1|
    ensures DigitsEnd(s1, k) == DigitsEnd(s2, k)
    decreases |s1| - k
  {
    if k < |s1| {
      AlikeAt(d1, s1, d2, s2, k);
      AlikeClasses(d1, s1[k], d2, s2[k]);
      if IsDigit(s1[k]) {
        DigitsEndAlike(d1, s1, d2, s2, k + 1);
      }
    }
  }

  /** Alike inputs hold the same token characters. */
  lemma SameTokenSpan(d1: Dialect, s1: string, d2: Dialect, s2: string, p: nat, e: nat)
    requires Alike(d1, s1, d2, s2) && p <= e <= |s1|
    requires forall i :: p <= i < e ==> IsTokenRemainder(s1[i])
    ensures s1[p..e] == s2[p..e]
  {
    forall i | p <= i < e
      ensures s1[i] == s2[i]
    {
      AlikeAt(d1, s1, d2, s2, i);
      AlikeClasses(d1, s1[i], d2, s2[i]);
    }
  }

  lemma ReadTokenAlike(d1: Dialect, s1: string, d2: Dialect, s2: string, p: nat)
    requires Alike(d1, s1, d2, s2) && p <= |s1|
    ensures ReadToken(s1, p) == ReadToken(s2, p)
  {
    TokenEndAlike(d1, s1, d2, s2, p);
    SameTokenSpan(d1, s1, d2, s2, p, TokenEnd(s1, p));
  }

  lemma ReadDecimalAlike(d1: Dialect, s1: string, d2: Dialect, s2: string, p: nat)
    requires Alike(d1, s1, d2, s2) && p <= |s1|
    ensures ReadDecimal(s1, p) == ReadDecimal(s2, p)
  {
    DigitsEndAlike(d1, s1, d2, s2, p);
    SameTokenSpan(d1, s1, d2, s2, p, DigitsEnd(s1, p));
  }

  lemma {:induction false} ScanBodyAlike(d1: Dialect, s1: string, d2: Dialect, s2: string, p: nat, k: Body, acc: string)
    requires Alike(d1, s1, d2, s2) && p <= |s1|
    requires forall i :: 0 <= i < |acc| ==> IsBodyDigit(k, acc[i])
    ensures ScanBody(d1, s1, p, k, acc) == ScanBody(d2, s2, p, k, acc)
    decreases |s1| - p
  {
    if p < |s1| {
      AlikeAt(d1, s1, d2, s2, p);
      AlikeClasses(d1, s1[p], d2, s2[p]);
      if Discard(d1, s1[p]) == Ok(true) {
        ScanBodyAlike(d1, s1, d2, s2, p + 1, k, acc);
      } else if Discard(d1, s1[p]) == Ok(false) && s1[p] != Delimiter(k) && IsBodyDigit(k, s1[p]) {
        ScanBodyAlike(d1, s1, d2, s2, p + 1, k, acc + [s1[p]]);
      }
    }
  }

  lemma ReadAtomAlike(d1: Dialect, s1: string, d2: Dialect, s2: string, p: nat, hint: Option<nat>)
    requires Alike(d1, s1, d2, s2) && p < |s1|
    ensures ReadAtom(d1, s1, p, hint) == ReadAtom(d2, s2, p, hint)
  {
    AlikeAt(d1, s1, d2, s2, p);
    AlikeClasses(d1, s1[p], d2, s2[p]);
    ScanBodyAlike(d1, s1, d2, s2, p + 1, HexBody, []);
    ScanBodyAlike(d1, s1, d2, s2, p + 1, Base64Body, []);
  }

  lemma {:induction false} ReadNodeAlike(d1: Dialect, s1: string, d2: Dialect, s2: string, p: nat)
    requires Alike(d1, s1, d2, s2) && p <= |s1|
    ensures ReadNode(d1, s1, p) == ReadNode(d2, s2, p)
    decreases |s1| - p, 1
  {
    ReadNodeInsignificant(d1, s1, p);
    ReadNodeInsignificant(d2, s2, p);
    if p < |s1| {
      AlikeAt(d1, s1, d2, s2, p);
      AlikeClasses(d1, s1[p], d2, s2[p]);
      if Discard(d1, s1[p]) == Ok(true) {
        ReadNodeAlike(d1, s1, d2, s2, p + 1);
      } else if Discard(d1, s1[p]) == Ok(false) {
        ReadNodeSignificant(d1, s1, p);
        ReadNodeSignificant(d2, s2, p);
        SignificantAlike(d1, s1, d2, s2, p);
      }
    }
  }

  /** ReadNode's dispatch at a significant character. */
  lemma {:induction false} SignificantAlike(d1: Dialect, s1: string, d2: Dialect, s2: string, p: nat)
    requires Alike(d1, s1, d2, s2) && p < |s1| && s1[p] == s2[p] && Discard(d1, s1[p]) == Ok(false)
    ensures s1[p] == '(' ==> ReadList(d1, s1, p + 1, []) == ReadList(d2, s2, p + 1, [])
    ensures IsTokenStart(s1[p]) ==> ReadToken(s1, p) == ReadToken(s2, p)
    ensures IsDigit(s1[p]) ==> ReadDecimal(s1, p) == ReadDecimal(s2, p)
    ensures IsDigit(s1[p]) && ReadDecimal(s1, p).0.Ok? ==>
      ReadAtom(d1, s1, ReadDecimal(s1, p).1, Some(ReadDecimal(s1, p).0.value))
      == ReadAtom(d2, s2, ReadDecimal(s1, p).1, Some(ReadDecimal(s1, p).0.value))
    ensures ReadAtom(d1, s1, p, None) == ReadAtom(d2, s2, p, None)
    decreases |s1| - p, 0
  {
    if s1[p] == '(' {
      ReadListAlike(d1, s1, d2, s2, p + 1, []);
    }
    ReadTokenAlike(d1, s1, d2, s2, p);
    ReadDecimalAlike(d1, s1, d2, s2, p);
    var (v, q) := ReadDecimal(s1, p);
    if IsDigit(s1[p]) && v.Ok? {
      ReadAtomAlike(d1, s1, d2, s2, q, Some(v.value));
    }
    ReadAtomAlike(d1, s1, d2, s2, p, None);
  }

  lemma {:induction false} ReadListAlike(d1: Dialect, s1: string, d2: Dialect, s2: string, p: nat, acc: seq<Node>)
    requires Alike(d1, s1, d2, s2) && p <= |s1|
    ensures ReadList(d1, s1, p, acc) == ReadList(d2, s2, p, acc)
    decreases |s1| - p, 2
  {
    ReadListInsignificant(d1, s1, p, acc);
    ReadListInsignificant(d2, s2, p, acc);
    if p < |s1| {
      AlikeAt(d1, s1, d2, s2, p);
      AlikeClasses(d1, s1[p], d2, s2[p]);
      if Discard(d1, s1[p]) == Ok(true) {
        ReadListAlike(d1, s1, d2, s2, p + 1, acc);
      } else if Discard(d1, s1[p]) == Ok(false) {
        ReadNodeAlike(d1, s1, d2, s2, p);
        ReadListSignificant(d1, s1, p, acc);
        ReadListSignificant(d2, s2, p, acc);
        var (o, q) := ReadNode(d1, s1, p);
        if o.Parsed? {
          ReadListAlike(d1, s1, d2, s2, q, acc + [o.node]);
        }
      }
    }
  }

  /** The input with every CR and LF replaced by a space. */
  function Spaced(s: string): (t: string)
    ensures |t| == |s|
    ensures forall i :: 0 <= i < |s| ==> t[i] == if IsNewline(s[i]) then ' ' else s[i]
  {
    seq(|s|, i requires 0 <= i < |s| => if IsNewline(s[i]) then ' ' else s[i])
  }

  /** FullParser mode: CR and LF are skipped exactly like a space, before a
      node, between the elements of a list and inside a hexadecimal body. */
  lemma FullModeNewlinesAsSpaces(b: bool, s: string, p: nat, acc: seq<Node>)
    requires p <= |s|
    ensures var d := Dialect(false, b);
      && Parse(d, s, p) == Parse(d, Spaced(s), p)
      && ReadNode(d, s, p) == ReadNode(d, Spaced(s), p)
      && ReadList(d, s, p, acc) == ReadList(d, Spaced(s), p, acc)
      && ScanBody(d, s, p, HexBody, []) == ScanBody(d, Spaced(s), p, HexBody, [])
  {
    var d := Dialect(false, b);
    var t := Spaced(s);
    forall i | 0 <= i < |s|
      ensures AlikeChar(d, s[i], d, t[i])
    {
      ModesDifferOnlyOnNewlines(s[i]);
    }
    ReadNodeAlike(d, s, d, t, p);
    ReadListAlike(d, s, d, t, p, acc);
    ScanBodyAlike(d, s, d, t, p, HexBody, []);
  }

  /** On input with no CR or LF, LimitedParser and FullParser (and the two
      modes with base 64) parse alike. */
  lemma ModesAgreeWithoutNewlines(b: bool, s: string, p: nat)
    requires p <= |s|
    requires forall i :: 0 <= i < |s| ==> !IsNewline(s[i])
    ensures Parse(Dialect(true, b), s, p) == Parse(Dialect(false, b), s, p)
    ensures ReadNode(Dialect(true, b), s, p) == ReadNode(Dialect(false, b), s, p)
  {
    forall i | 0 <= i < |s|
      ensures AlikeChar(Dialect(true, b), s[i], Dialect(false, b), s[i])
    {
      ModesDifferOnlyOnNewlines(s[i]);
    }
    ReadNodeAlike(Dialect(true, b), s, Dialect(false, b), s, p);
  }
}
