/** The io.RuneScanner both parsers read from, as a strings.Reader would
    provide it: a fixed string, a read position and a single-step unread. */
module Cursors {
  import opened Types

  class Cursor {
    const data: string
    var pos: nat
    /** Whether the last operation was a successful read, the only state in
        which strings.Reader accepts UnreadRune. */
    var canUnread: bool

    ghost predicate Valid()
      reads this
    {
      pos <= |data| && (canUnread ==> 0 < pos)
    }

    constructor (s: string)
      ensures Valid() && data == s && pos == 0 && !canUnread
    {
      data := s;
      pos := 0;
      canUnread := false;
    }

    /** Reads the next character; None stands for io.EOF, which leaves the
        position where it is and forbids a following unread. */
    method ReadRune() returns (r: Option<char>)
      requires Valid()
      modifies this
      ensures Valid()
      ensures old(pos) < |data| ==> r == Some(data[old(pos)]) && pos == old(pos) + 1 && canUnread
      ensures old(pos) == |data| ==> r == None && pos == old(pos) && !canUnread
    {
      if pos < |data| {
        r := Some(data[pos]);
        pos := pos + 1;
        canUnread := true;
      } else {
        r := None;
        canUnread := false;
      }
    }

    /** Pushes back the character just read; a second unread in a row is
        refused by strings.Reader, so it is excluded here. */
    method UnreadRune()
      requires Valid() && canUnread
      modifies this
      ensures Valid() && pos == old(pos) - 1 && !canUnread
    {
      pos := pos - 1;
      canUnread := false;
    }
  }
}
