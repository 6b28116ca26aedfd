/** How the sections of a file compose. The section machine works on
    stripped lines (`Parser.ParseLines` strips every line first, as the
    line feeder does), so the lines below are stripped ones. A listing
    section whose entry lines each read makes their calls in order and
    hands the lines after its end marker back to the section loop; an
    entry line that does not read stops the parse with its own error; an
    unknown section is skipped with a warning; `$MeshFormat` only checks
    the version and the file type. */
module SectionProperties {
  import opened Wrappers
  import opened Text
  import opened GmshErrors
  import opened ReceiverPort
  import opened Parser

  /** Lines that are already stripped are parsed as they are. */
  lemma {:induction false} StripAllStripped(lines: seq<string>)
    requires forall i :: 0 <= i < |lines| ==> Strip(lines[i]) == lines[i]
    ensures StripAll(lines) == lines
    decreases |lines|
  {
    if lines != [] {
      StripAllStripped(lines[1..]);
      assert [lines[0]] + lines[1..] == lines;
    }
  }

  /** Stripping a file line by line splits over concatenation. */
  lemma {:induction false} StripAllAppend(a: seq<string>, b: seq<string>)
    ensures StripAll(a + b) == StripAll(a) + StripAll(b)
    decreases |a|
  {
    if a != [] {
      assert (a + b)[0] == a[0] && (a + b)[1..] == a[1..] + b;
      StripAllAppend(a[1..], b);
    } else {
      assert a + b == b;
    }
  }

  /** A line `$<name>` between sections: the parse reads section `name`
      from the lines after it, then either stops with that section's error
      or goes on between sections with the lines the section left. */
  lemma SectionsNext(name: string, rest: seq<string>, opts: Options, calls: seq<Call>, warnings: seq<Warning>)
    ensures Sections(["$" + name] + rest, opts, calls, warnings) ==
      match Section(name, rest, opts, calls, warnings)
      case Stopped(e, calls', warnings') => Parse(Some(e), calls', warnings')
      case Finished(more, calls', warnings') => Sections(more, opts, calls', warnings')
  {
    var doc := ["$" + name] + rest;
    assert doc[0] == "$" + name && doc[1..] == rest;
    assert doc[0][..1] == "$" && doc[0][1..] == name;
  }

  /** A line that does not start with `$` where a section should open
      stops the parse, whatever follows. */
  lemma SectionsExpectStart(line: string, rest: seq<string>, opts: Options,
                            calls: seq<Call>, warnings: seq<Warning>)
    requires !StartsWith(line, "$")
    ensures Sections([line] + rest, opts, calls, warnings) ==
      Parse(Some(FileFormat(ExpectedSectionStart(line))), calls, warnings)
  {
    assert ([line] + rest)[0] == line;
  }

  // ---------------------------------------------------- listing sections

  /** The calls of entry lines that each read (the first as entry `idx`),
      none of them the end marker; `None` if one of them is the end marker
      or does not read. */
  function EntriesRead(lines: seq<string>, listing: Listing, read: EntryReader, idx: nat): Option<seq<Call>>
    requires idx >= 1
    decreases |lines|
  {
    if lines == [] then Some([])
    else if lines[0] == EndMarker(listing) then None
    else match read(lines[0], idx - 1)
      case Err(_) => None
      case Ok(call) =>
        match EntriesRead(lines[1..], listing, read, idx + 1)
        case None => None
        case Some(more) => Some([call] + more)
  }

  /** Entry lines that each read as the expected call, none of them the
      end marker, make exactly the expected calls. */
  lemma {:induction false} EntriesReadAll(lines: seq<string>, listing: Listing, read: EntryReader, idx: nat,
                                          expected: seq<Call>)
    requires idx >= 1 && |expected| == |lines|
    requires forall k :: 0 <= k < |lines| ==>
      lines[k] != EndMarker(listing) && read(lines[k], idx - 1 + k) == Ok(expected[k])
    ensures EntriesRead(lines, listing, read, idx) == Some(expected)
    decreases |lines|
  {
    if lines != [] {
      assert read(lines[0], idx - 1) == Ok(expected[0]);
      forall k | 0 <= k < |lines| - 1
        ensures lines[1..][k] != EndMarker(listing) && read(lines[1..][k], idx + k) == Ok(expected[1..][k])
      {
        assert lines[1..][k] == lines[k + 1] && expected[1..][k] == expected[k + 1];
      }
      EntriesReadAll(lines[1..], listing, read, idx + 1, expected[1..]);
      assert [expected[0]] + expected[1..] == expected;
    }
  }

  /** Entry lines that each read append their calls, one per line, and
      move the expected entry number past them. */
  lemma {:induction false} ListingBodyPrefix(lines: seq<string>, tail: seq<string>, listing: Listing,
                                             read: EntryReader, count: int, idx: nat,
                                             calls: seq<Call>, warnings: seq<Warning>)
    requires idx >= 1 && EntriesRead(lines, listing, read, idx).Some?
    ensures |EntriesRead(lines, listing, read, idx).value| == |lines|
    ensures ListingBody(lines + tail, listing, read, count, idx, calls, warnings) ==
      ListingBody(tail, listing, read, count, idx + |lines|,
                  calls + EntriesRead(lines, listing, read, idx).value, warnings)
    decreases |lines|
  {
    if lines == [] {
      assert lines + tail == tail;
      assert calls + [] == calls;
    } else {
      var call := read(lines[0], idx - 1).value;
      var made := EntriesRead(lines[1..], listing, read, idx + 1).value;
      assert (lines + tail)[0] == lines[0] && (lines + tail)[1..] == lines[1..] + tail;
      ListingBodyPrefix(lines[1..], tail, listing, read, count, idx + 1, calls + [call], warnings);
      assert calls + [call] + made == calls + ([call] + made);
    }
  }

  /** A listing whose entry lines all read, then the end marker: the calls
      of the entries then the finalizing call, with the lines after the
      marker, when the count matches; the count mismatch otherwise. */
  lemma ListingRead(lines: seq<string>, rest: seq<string>, listing: Listing, read: EntryReader, count: int,
                    calls: seq<Call>, warnings: seq<Warning>)
    requires EntriesRead(lines, listing, read, 1).Some?
    ensures var made := calls + EntriesRead(lines, listing, read, 1).value;
      ListingBody(lines + [EndMarker(listing)] + rest, listing, read, count, 1, calls, warnings) ==
      if count == |lines| then Finished(rest, made + [Finalizer(listing)], warnings)
      else Stopped(FileFormat(CountMismatch(listing, |lines| + 1, count + 1)), made, warnings)
  {
    var tail := [EndMarker(listing)] + rest;
    assert lines + [EndMarker(listing)] + rest == lines + tail;
    ListingBodyPrefix(lines, tail, listing, read, count, 1, calls, warnings);
    assert tail[0] == EndMarker(listing) && tail[1..] == rest;
  }

  /** An entry line that does not read stops the parse with its own error,
      after the calls of the lines before it. */
  lemma ListingStops(lines: seq<string>, bad: string, rest: seq<string>, listing: Listing, read: EntryReader,
                     count: int, calls: seq<Call>, warnings: seq<Warning>)
    requires EntriesRead(lines, listing, read, 1).Some?
    requires bad != EndMarker(listing) && read(bad, |lines|).Err?
    ensures ListingBody(lines + [bad] + rest, listing, read, count, 1, calls, warnings) ==
      Stopped(read(bad, |lines|).error, calls + EntriesRead(lines, listing, read, 1).value, warnings)
  {
    var tail := [bad] + rest;
    assert lines + [bad] + rest == lines + tail;
    ListingBodyPrefix(lines, tail, listing, read, count, 1, calls, warnings);
    assert tail[0] == bad;
  }

  /** A listing the file ends inside: the end of the file is a format
      error, after the calls of every line read. */
  lemma ListingUnterminated(lines: seq<string>, listing: Listing, read: EntryReader, count: int,
                            calls: seq<Call>, warnings: seq<Warning>)
    requires EntriesRead(lines, listing, read, 1).Some?
    ensures ListingBody(lines, listing, read, count, 1, calls, warnings) ==
      Stopped(FileFormat(UnexpectedEndOfFile), calls + EntriesRead(lines, listing, read, 1).value, warnings)
  {
    assert lines + [] == lines;
    ListingBodyPrefix(lines, [], listing, read, count, 1, calls, warnings);
  }

  /** Where the count line ends and the entry lines begin. */
  lemma SplitHead(head: string, lines: seq<string>, marker: string, rest: seq<string>)
    ensures var doc := [head] + lines + [marker] + rest;
      doc != [] && doc[0] == head && doc[1..] == lines + [marker] + rest
  {
    var doc := [head] + lines + [marker] + rest;
    assert doc == [head] + (lines + [marker] + rest);
  }

  /** A whole `$Nodes`, `$Elements` or `$PhysicalNames` section (after
      its opening line) whose entry lines all read: the set-up call, one
      call per line, then the finalizing call and the lines after the end
      marker when the count matches; a count mismatch otherwise. */
  lemma ListingSectionRead(countLine: string, count: int, lines: seq<string>, rest: seq<string>,
                           listing: Listing, read: EntryReader, calls: seq<Call>, warnings: seq<Warning>)
    requires ParseInt(countLine) == Some(count)
    requires EntriesRead(lines, listing, read, 1).Some?
    ensures var made := calls + SetUp(listing, count) + EntriesRead(lines, listing, read, 1).value;
      ListingSection([countLine] + lines + [EndMarker(listing)] + rest, listing, read, calls, warnings) ==
      if count == |lines| then Finished(rest, made + [Finalizer(listing)], warnings)
      else Stopped(FileFormat(CountMismatch(listing, |lines| + 1, count + 1)), made, warnings)
  {
    SplitHead(countLine, lines, EndMarker(listing), rest);
    ListingRead(lines, rest, listing, read, count, calls + SetUp(listing, count), warnings);
  }

  /** An entry line that does not read stops the section with its own
      error, after the set-up call and the calls of the lines before it. */
  lemma ListingSectionStops(countLine: string, count: int, lines: seq<string>, bad: string, rest: seq<string>,
                            listing: Listing, read: EntryReader, calls: seq<Call>, warnings: seq<Warning>)
    requires ParseInt(countLine) == Some(count)
    requires EntriesRead(lines, listing, read, 1).Some?
    requires bad != EndMarker(listing) && read(bad, |lines|).Err?
    ensures ListingSection([countLine] + lines + [bad] + rest, listing, read, calls, warnings) ==
      Stopped(read(bad, |lines|).error,
              calls + SetUp(listing, count) + EntriesRead(lines, listing, read, 1).value, warnings)
  {
    SplitHead(countLine, lines, bad, rest);
    ListingStops(lines, bad, rest, listing, read, count, calls + SetUp(listing, count), warnings);
  }

  /** A count line that is not an integer stops a listing section before
      any call. */
  lemma ListingCountNotInteger(countLine: string, rest: seq<string>, listing: Listing, read: EntryReader,
                               calls: seq<Call>, warnings: seq<Warning>)
    requires ParseInt(countLine).None?
    ensures ListingSection([countLine] + rest, listing, read, calls, warnings) ==
      Stopped(Host(NotAnInteger(countLine)), calls, warnings)
  {
    assert ([countLine] + rest)[0] == countLine;
  }

  // ------------------------------------------------ unrecognised sections

  /** Skipping passes over every line up to the end marker, changing
      nothing. */
  lemma {:induction false} SkipBodyPasses(lines: seq<string>, tail: seq<string>, name: string,
                                          calls: seq<Call>, warnings: seq<Warning>)
    requires "$End" + name !in lines
    ensures SkipBody(lines + tail, name, calls, warnings) == SkipBody(tail, name, calls, warnings)
    decreases |lines|
  {
    if lines == [] {
      assert lines + tail == tail;
    } else {
      assert lines[0] in lines;
      assert (lines + tail)[0] == lines[0] && (lines + tail)[1..] == lines[1..] + tail;
      SkipBodyPasses(lines[1..], tail, name, calls, warnings);
    }
  }

  /** A section of any other name is passed over whole, with one
      "unrecognised section" warning and no call. */
  lemma UnknownSectionSkipped(name: string, lines: seq<string>, rest: seq<string>,
                              opts: Options, calls: seq<Call>, warnings: seq<Warning>)
    requires name != "MeshFormat" && name != "Nodes" && name != "Elements" && name != "PhysicalNames"
    requires "$End" + name !in lines
    ensures Section(name, lines + ["$End" + name] + rest, opts, calls, warnings) ==
      Finished(rest, calls, warnings + [UnrecognizedSection(name)])
  {
    var tail := ["$End" + name] + rest;
    assert lines + ["$End" + name] + rest == lines + tail;
    SkipBodyPasses(lines, tail, name, calls, warnings + [UnrecognizedSection(name)]);
    assert tail[0] == "$End" + name && tail[1..] == rest;
  }

  /** A section of any other name that is never closed runs into the end
      of the file. */
  lemma UnknownSectionUnterminated(name: string, lines: seq<string>, opts: Options,
                                   calls: seq<Call>, warnings: seq<Warning>)
    requires name != "MeshFormat" && name != "Nodes" && name != "Elements" && name != "PhysicalNames"
    requires "$End" + name !in lines
    ensures Section(name, lines, opts, calls, warnings) ==
      Stopped(FileFormat(UnexpectedEndOfFile), calls, warnings + [UnrecognizedSection(name)])
  {
    assert lines + [] == lines;
    SkipBodyPasses(lines, [], name, calls, warnings + [UnrecognizedSection(name)]);
  }

  // -------------------------------------------------------- $MeshFormat

  /** A `$MeshFormat` section with one data line that passes the checks:
      its warnings are issued and the parse goes on after the end marker,
      with no receiver call. */
  lemma MeshFormatSectionRead(dataLine: string, rest: seq<string>, calls: seq<Call>, warnings: seq<Warning>)
    requires dataLine != "$EndMeshFormat" && MeshFormatLine(dataLine).error.None?
    ensures MeshFormatBody([dataLine, "$EndMeshFormat"] + rest, 0, calls, warnings) ==
      Finished(rest, calls, warnings + MeshFormatLine(dataLine).warnings)
  {
    var body := [dataLine, "$EndMeshFormat"] + rest;
    assert body[0] == dataLine && body[1..] == ["$EndMeshFormat"] + rest;
    assert body[1..][0] == "$EndMeshFormat" && body[1..][1..] == rest;
  }

  /** An empty `$MeshFormat` section is accepted and checks nothing. */
  lemma MeshFormatSectionEmpty(rest: seq<string>, calls: seq<Call>, warnings: seq<Warning>)
    ensures MeshFormatBody(["$EndMeshFormat"] + rest, 0, calls, warnings) == Finished(rest, calls, warnings)
  {
    assert (["$EndMeshFormat"] + rest)[0] == "$EndMeshFormat" && (["$EndMeshFormat"] + rest)[1..] == rest;
  }

  /** A second data line in `$MeshFormat` is an error, raised after the
      first line's warnings. */
  lemma MeshFormatSecondLine(dataLine: string, second: string, rest: seq<string>,
                             calls: seq<Call>, warnings: seq<Warning>)
    requires dataLine != "$EndMeshFormat" && second != "$EndMeshFormat"
    requires MeshFormatLine(dataLine).error.None?
    ensures MeshFormatBody([dataLine, second] + rest, 0, calls, warnings) ==
      Stopped(FileFormat(MoreThanOneMeshFormatLine), calls, warnings + MeshFormatLine(dataLine).warnings)
  {
    var body := [dataLine, second] + rest;
    assert body[0] == dataLine && body[1..] == [second] + rest;
    assert body[1..][0] == second;
  }
}
