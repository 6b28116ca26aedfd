/** The reader's one-line lookahead over an iterable of lines. */
module LineSource {
  import opened Wrappers
  import opened Text
  import opened GmshErrors

  /** Wraps the lines of a file. `lines[pos..]` is what the underlying
      iterator has not yet produced; `nextLine` is a line it produced that
      `HasNextLine` peeked at and nobody has consumed. */
  class LineFeeder {
    const lines: seq<string>
    var pos: nat
    var nextLine: Option<string>

    ghost predicate Valid()
      reads this
    {
      pos <= |lines|
    }

    /** The lines still to be handed out, in order, unstripped. */
    function Remaining(): seq<string>
      reads this
      requires Valid()
    {
      (if nextLine.Some? then [nextLine.value] else []) + lines[pos..]
    }

    constructor (lines: seq<string>)
      ensures Valid() && this.lines == lines
      ensures nextLine == None && Remaining() == lines
    {
      this.lines := lines;
      pos := 0;
      nextLine := None;
    }

    /** Whether another line is available; peeks at it without consuming it. */
    method HasNextLine() returns (b: bool)
      requires Valid()
      modifies this
      ensures Valid() && Remaining() == old(Remaining())
      ensures b <==> Remaining() != []
      ensures b ==> nextLine.Some?
      ensures old(nextLine).Some? ==> nextLine == old(nextLine) && pos == old(pos)
    {
      if nextLine.Some? {
        return true;
      }
      if pos == |lines| {
        return false;
      }
      nextLine := Some(lines[pos]);
      pos := pos + 1;
      return true;
    }

    /** Consumes the next line and returns it stripped of surrounding
        whitespace; running out of lines is a format error. */
    method GetNextLine() returns (r: Result<string, FormatError>)
      requires Valid()
      modifies this
      ensures Valid() && nextLine == None
      ensures old(Remaining()) == [] <==> r == Err(UnexpectedEndOfFile)
      ensures old(Remaining()) == [] ==> Remaining() == []
      ensures old(Remaining()) != [] ==>
        r == Ok(Strip(old(Remaining())[0])) && Remaining() == old(Remaining())[1..]
      ensures old(nextLine).Some? ==> r == Ok(Strip(old(nextLine).value)) && pos == old(pos)
    {
      ghost var before := Remaining();
      if nextLine.Some? {
        var nl := nextLine.value;
        assert before == [nl] + lines[pos..];
        nextLine := None;
        assert Remaining() == before[1..];
        return Ok(Strip(nl));
      }
      assert before == lines[pos..];
      if pos == |lines| {
        return Err(UnexpectedEndOfFile);
      }
      var nl := lines[pos];
      pos := pos + 1;
      assert Remaining() == before[1..];
      return Ok(Strip(nl));
    }
  }
}
