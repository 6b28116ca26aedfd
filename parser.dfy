/** `parse_gmsh`: the section-by-section reader of the ASCII Gmsh v2 mesh
    format. The functions below say what a parse of a given list of lines
    produces; `ParseGmsh` is the reader's loop, proved to produce exactly
    that. */
module Parser {
  import opened Wrappers
  import opened Text
  import opened ElementTypes
  import opened GmshErrors
  import opened ReceiverPort
  import opened LineSource

  /** The reader's arguments besides the lines: `force_dimension`, and the
      receiver's code-to-element map (`InfoMap` for the receivers of this
      module, which do not override it). */
  datatype Options = Options(forceDimension: Option<int>, elementTypes: map<int, ElementInfo>)

  /** What `parse_gmsh` does: the exception it raises (`None` when it
      returns normally), the receiver calls it made up to that point, and
      the warnings it issued. */
  datatype Parse = Parse(error: Option<ParseError>, calls: seq<Call>, warnings: seq<Warning>)

  // ------------------------------------------------------ one line at a time

  /** The single data line of `$MeshFormat`: the warnings it raises, then
      the error it stops with, if any. */
  datatype FormatCheck = FormatCheck(warnings: seq<Warning>, error: Option<ParseError>)

  function MeshFormatLine(line: string): FormatCheck
  {
    var parts := SplitWs(line);
    if |parts| != 3 then FormatCheck([], Some(Host(WrongNumberOfFields(3, |parts|))))
    else
      var versionNumber, fileType := parts[0], parts[1];
      if !StartsWith(versionNumber, "2.") then FormatCheck([], Some(UnsupportedVersion(versionNumber)))
      else
        var warnings := if versionNumber == "2.1" || versionNumber == "2.2" then []
                        else [UnexpectedVersion(versionNumber)];
        if fileType != "0" then FormatCheck(warnings, Some(FileFormat(NotAsciiFileType(fileType))))
        else FormatCheck(warnings, None)
  }

  /** The coordinates of a node line: the tokens after the index, cut down
      to `forceDimension` of them when that is given. */
  function NodeCoordinates(parts: seq<string>, forceDimension: Option<int>): (r: Point)
    requires |parts| == 4
    ensures |r| <= 3
    ensures forceDimension.None? ==> r == parts[1..]
    ensures forceDimension.Some? && 0 <= forceDimension.value <= 3 ==>
      r == parts[1..1 + forceDimension.value]
  {
    if forceDimension.Some? then PySlice(parts, 1, forceDimension.value + 1) else parts[1..]
  }

  /** One line of `$Nodes`, the `nodeIdx`-th (counting from 1). */
  function NodeLine(line: string, nodeIdx: int, forceDimension: Option<int>): Result<Call, ParseError>
    requires nodeIdx >= 1
  {
    NodeFields(SplitWs(line), nodeIdx, forceDimension)
  }

  /** The fields of a node line: its number, then its coordinates. */
  function NodeFields(parts: seq<string>, nodeIdx: int, forceDimension: Option<int>): Result<Call, ParseError>
    requires nodeIdx >= 1
  {
    if |parts| != 4 then Err(FileFormat(NotFourComponents(parts)))
    else match ParseInt(parts[0])
      case None => Err(Host(NotAnInteger(parts[0])))
      case Some(readNodeIdx) =>
        if readNodeIdx != nodeIdx then Err(FileFormat(OutOfOrderNode(readNodeIdx, nodeIdx)))
        else Ok(AddNode(nodeIdx - 1, NodeCoordinates(parts, forceDimension)))
  }

  /** Gmsh's one-based node numbers made zero-based. */
  function Decremented(xs: seq<int>): (r: seq<int>)
    ensures |r| == |xs|
    ensures forall i :: 0 <= i < |xs| ==> r[i] + 1 == xs[i]
  {
    seq(|xs|, i requires 0 <= i < |xs| => xs[i] - 1)
  }

  predicate AllBelow(perm: seq<nat>, n: nat) {
    forall i :: 0 <= i < |perm| ==> perm[i] < n
  }

  /** NumPy's `values[perm]`. */
  function Gather(values: seq<int>, perm: seq<nat>): (r: seq<int>)
    requires AllBelow(perm, |values|)
    ensures |r| == |perm|
    ensures forall i :: 0 <= i < |perm| ==> r[i] == values[perm[i]]
  {
    seq(|perm|, i requires 0 <= i < |perm| => values[perm[i]])
  }

  /** `[x for x in xs if x != 0]`: the non-zero entries, in order. */
  function NonZero(xs: seq<int>): (r: seq<int>)
    ensures |r| <= |xs|
    ensures forall i :: 0 <= i < |r| ==> r[i] != 0 && r[i] in xs
    ensures forall i :: 0 <= i < |xs| && xs[i] != 0 ==> xs[i] in r
  {
    if xs == [] then []
    else (if xs[0] != 0 then [xs[0]] else []) + NonZero(xs[1..])
  }

  /** The element's markers, `[tag for tag in tags[:1] if tag != 0]`: its
      first tag, unless that is 0. */
  function TagNumbers(tags: seq<int>): (r: seq<int>)
    ensures |r| <= 1
    ensures r == [] <==> tags == [] || tags[0] == 0
    ensures r != [] ==> r[0] == tags[0]
  {
    NonZero(PySlice(tags, 0, 1))
  }

  /** One line of `$Elements`, the `elementIdx`-th (counting from 1). */
  function ElementLine(line: string, elementIdx: int, elementTypes: map<int, ElementInfo>): Result<Call, ParseError>
    requires elementIdx >= 1
  {
    match ParseInts(SplitWs(line))
    case Err(bad) => Err(Host(NotAnInteger(bad)))
    case Ok(parts) => ElementEntries(parts, elementIdx, elementTypes)
  }

  /** The integers of an element line: number, type code, tag count, tags,
      then the one-based node numbers. */
  function ElementEntries(parts: seq<int>, elementIdx: int, elementTypes: map<int, ElementInfo>): Result<Call, ParseError>
    requires elementIdx >= 1
  {
    if |parts| < 4 then Err(FileFormat(TooFewElementEntries(parts)))
    else if parts[0] != elementIdx then Err(FileFormat(OutOfOrderElement(parts[0], elementIdx)))
    else if parts[1] !in elementTypes then Err(FileFormat(UnexpectedElementType(parts[1])))
    else
      var elementType := elementTypes[parts[1]].elementType;
      var tagCount := parts[2];
      var tags := PySlice(parts, 3, 3 + tagCount);
      var nodeIndices := Decremented(PySliceFrom(parts, 3 + tagCount));
      if NodeCount(elementType) != |nodeIndices| then
        Err(FileFormat(ElementNodeCountMismatch(|nodeIndices|, NodeCount(elementType))))
      else match elementTypes[parts[1]].lexicographicGmshNodeIndices
        case None => Err(Host(MissingNodeTuple(parts[1])))
        case Some(perm) =>
          if !AllBelow(perm, |nodeIndices|) then Err(Host(NodeIndexOutOfRange(parts[1])))
          else
            Ok(AddElement(elementIdx - 1, elementType,
                          PySlice(nodeIndices, 0, VertexCount(elementType)),
                          Gather(nodeIndices, perm), TagNumbers(tags)))
  }

  /** Python's `name[1:-1]`. */
  function Unquoted(name: string): (r: string)
    ensures |name| >= 2 ==> r == name[1..|name| - 1]
    ensures |name| < 2 ==> r == []
  {
    PySlice(name, 1, |name| - 1)
  }

  /** One line of `$PhysicalNames`: dimension, number and a quoted name,
      split at the first two single spaces. */
  function PhysicalNameLine(line: string): Result<Call, ParseError>
  {
    PhysicalNameFields(SplitOnSpace(line, 2))
  }

  /** The three fields of a physical-name line. */
  function PhysicalNameFields(parts: seq<string>): Result<Call, ParseError>
  {
    if |parts| != 3 then Err(Host(WrongNumberOfFields(3, |parts|)))
    else match ParseInt(parts[0])
      case None => Err(Host(NotAnInteger(parts[0])))
      case Some(dimension) =>
        match ParseInt(parts[1])
        case None => Err(Host(NotAnInteger(parts[1])))
        case Some(number) =>
          var name := parts[2];
          if name == [] then Err(Host(EmptyPhysicalName))
          else if name[0] != '"' || name[|name| - 1] != '"' then
            Err(FileFormat(UnquotedPhysicalName(name)))
          else Ok(AddTag(Unquoted(name), number, dimension))
  }

  // ----------------------------------------------------- the section machine

  /** How reading one section ends: with the exception it raises, or past
      its end marker with the lines after it. Either way, with the calls
      and warnings produced up to that point. */
  datatype SectionRead =
    | Stopped(error: ParseError, calls: seq<Call>, warnings: seq<Warning>)
    | Finished(rest: seq<string>, calls: seq<Call>, warnings: seq<Warning>)

  /** Every line as `LineFeeder.get_next_line` hands it out: stripped. */
  function StripAll(lines: seq<string>): (r: seq<string>)
    ensures |r| == |lines|
  {
    if lines == [] then [] else [Strip(lines[0])] + StripAll(lines[1..])
  }

  /** The whole parse of a file's lines. The reader only ever looks at a
      line once it is stripped, so the machine below is stated on the
      stripped lines. */
  function ParseLines(lines: seq<string>, opts: Options): Parse
  {
    Sections(StripAll(lines), opts, [], [])
  }

  /** Between sections: the next line must open one. `calls` and
      `warnings` are what the parse has produced so far. */
  function Sections(rest: seq<string>, opts: Options, calls: seq<Call>, warnings: seq<Warning>): Parse
    decreases |rest|
  {
    if rest == [] then Parse(None, calls, warnings)
    else if !StartsWith(rest[0], "$") then Parse(Some(FileFormat(ExpectedSectionStart(rest[0]))), calls, warnings)
    else match Section(rest[0][1..], rest[1..], opts, calls, warnings)
      case Stopped(e, calls', warnings') => Parse(Some(e), calls', warnings')
      case Finished(more, calls', warnings') => Sections(more, opts, calls', warnings')
  }

  /** The section opened by `$<name>`, read from the lines after that. */
  function Section(name: string, rest: seq<string>, opts: Options,
                   calls: seq<Call>, warnings: seq<Warning>): (r: SectionRead)
    ensures r.Finished? ==> |r.rest| < |rest|
  {
    if name == "MeshFormat" then MeshFormatBody(rest, 0, calls, warnings)
    else if name == "Nodes" then ListingSection(rest, NodeListing, NodeReader(opts.forceDimension), calls, warnings)
    else if name == "Elements" then ListingSection(rest, ElementListing, ElementReader(opts.elementTypes), calls, warnings)
    else if name == "PhysicalNames" then ListingSection(rest, NameListing, NameReader(), calls, warnings)
    else SkipBody(rest, name, calls, warnings + [UnrecognizedSection(name)])
  }

  /** Inside `$MeshFormat`, after `lineCount` data lines. */
  function MeshFormatBody(rest: seq<string>, lineCount: nat, calls: seq<Call>, warnings: seq<Warning>): (r: SectionRead)
    ensures r.Finished? ==> |r.rest| < |rest|
    decreases |rest|
  {
    if rest == [] then Stopped(FileFormat(UnexpectedEndOfFile), calls, warnings)
    else if rest[0] == "$EndMeshFormat" then Finished(rest[1..], calls, warnings)
    else if lineCount > 0 then Stopped(FileFormat(MoreThanOneMeshFormatLine), calls, warnings)
    else
      var check := MeshFormatLine(rest[0]);
      if check.error.Some? then Stopped(check.error.value, calls, warnings + check.warnings)
      else MeshFormatBody(rest[1..], lineCount + 1, calls, warnings + check.warnings)
  }

  /** The three sections that give a count and then one entry per line. */
  datatype Listing = NodeListing | ElementListing | NameListing

  function EndMarker(listing: Listing): string {
    match listing
    case NodeListing => "$EndNodes"
    case ElementListing => "$EndElements"
    case NameListing => "$EndPhysicalNames"
  }

  /** The receiver call made once the end marker is reached. */
  function Finalizer(listing: Listing): Call {
    match listing
    case NodeListing => FinalizeNodes
    case ElementListing => FinalizeElements
    case NameListing => FinalizeTags
  }

  /** The error for `got` entries (plus one) where the count said
      `expected` (plus one). */
  function CountMismatch(listing: Listing, got: int, expected: int): FormatError {
    match listing
    case NodeListing => NodeCountMismatch(got, expected)
    case ElementListing => ElementCountMismatch(got, expected)
    case NameListing => PhysicalNameCountMismatch(got, expected)
  }

  /** Reads one entry line: the line, and how many entries came before it. */
  type EntryReader = (string, nat) -> Result<Call, ParseError>

  function NodeReader(forceDimension: Option<int>): EntryReader {
    (line: string, before: nat) => NodeLine(line, before + 1, forceDimension)
  }

  function ElementReader(elementTypes: map<int, ElementInfo>): EntryReader {
    (line: string, before: nat) => ElementLine(line, before + 1, elementTypes)
  }

  function NameReader(): EntryReader {
    (line: string, before: nat) => PhysicalNameLine(line)
  }

  /** Inside a listing section that declared `count` entries, expecting
      entry `idx` (counting from 1, as the reader's `node_idx`,
      `element_idx` and `name_idx` do). */
  function ListingBody(rest: seq<string>, listing: Listing, read: EntryReader, count: int, idx: nat,
                       calls: seq<Call>, warnings: seq<Warning>): (r: SectionRead)
    requires idx >= 1
    ensures r.Finished? ==> |r.rest| < |rest|
    decreases |rest|
  {
    if rest == [] then Stopped(FileFormat(UnexpectedEndOfFile), calls, warnings)
    else if rest[0] == EndMarker(listing) then
      if count + 1 != idx then Stopped(FileFormat(CountMismatch(listing, idx, count + 1)), calls, warnings)
      else Finished(rest[1..], calls + [Finalizer(listing)], warnings)
    else match read(rest[0], idx - 1)
      case Err(e) => Stopped(e, calls, warnings)
      case Ok(call) => ListingBody(rest[1..], listing, read, count, idx + 1, calls + [call], warnings)
  }

  /** The receiver calls announcing a listing of `count` entries: nodes
      and elements are set up, names are announced to no call. */
  function SetUp(listing: Listing, count: int): seq<Call> {
    match listing
    case NodeListing => [SetUpNodes(count)]
    case ElementListing => [SetUpElements(count)]
    case NameListing => []
  }

  /** After `$Nodes`, `$Elements` or `$PhysicalNames`: the entry count,
      the set-up call, then the entry lines. */
  function ListingSection(rest: seq<string>, listing: Listing, read: EntryReader,
                          calls: seq<Call>, warnings: seq<Warning>): (r: SectionRead)
    ensures r.Finished? ==> |r.rest| < |rest|
  {
    if rest == [] then Stopped(FileFormat(UnexpectedEndOfFile), calls, warnings)
    else match ParseInt(rest[0])
      case None => Stopped(Host(NotAnInteger(rest[0])), calls, warnings)
      case Some(count) => ListingBody(rest[1..], listing, read, count, 1, calls + SetUp(listing, count), warnings)
  }

  /** Inside an unrecognised section `name`, looking for `$End<name>`. */
  function SkipBody(rest: seq<string>, name: string, calls: seq<Call>, warnings: seq<Warning>): (r: SectionRead)
    ensures r.Finished? ==> |r.rest| < |rest|
    decreases |rest|
  {
    if rest == [] then Stopped(FileFormat(UnexpectedEndOfFile), calls, warnings)
    else if rest[0] == "$End" + name then Finished(rest[1..], calls, warnings)
    else SkipBody(rest[1..], name, calls, warnings)
  }

  /** Stripping the lines one at a time, as the feeder does. */
  lemma StripAllCons(lines: seq<string>)
    requires lines != []
    ensures StripAll(lines)[0] == Strip(lines[0]) && StripAll(lines)[1..] == StripAll(lines[1..])
  {
    assert StripAll(lines) == [Strip(lines[0])] + StripAll(lines[1..]);
  }

  /** One step of a listing body. */
  lemma ListingStep(rest: seq<string>, listing: Listing, read: EntryReader, count: int, idx: nat,
                    calls: seq<Call>, warnings: seq<Warning>)
    requires idx >= 1 && rest != []
    ensures ListingBody(rest, listing, read, count, idx, calls, warnings) ==
      if rest[0] == EndMarker(listing) then
        if count + 1 != idx then Stopped(FileFormat(CountMismatch(listing, idx, count + 1)), calls, warnings)
        else Finished(rest[1..], calls + [Finalizer(listing)], warnings)
      else match read(rest[0], idx - 1)
        case Err(e) => Stopped(e, calls, warnings)
        case Ok(call) => ListingBody(rest[1..], listing, read, count, idx + 1, calls + [call], warnings)
  {
  }

  // ------------------------------------------------------------ the reader

  /** `parse_gmsh`: feeds the lines to a `LineFeeder` and reads them
      section by section. */
  method ParseGmsh(lines: seq<string>, opts: Options) returns (result: Parse)
    ensures result == ParseLines(lines, opts)
  {
    var feeder := new LineFeeder(lines);
    var calls: seq<Call> := [];
    var warnings: seq<Warning> := [];
    while true
      invariant feeder.Valid()
      invariant Sections(StripAll(feeder.Remaining()), opts, calls, warnings) == ParseLines(lines, opts)
      decreases |feeder.Remaining()|
    {
      var more := feeder.HasNextLine();
      if !more {
        return Parse(None, calls, warnings);
      }
      StripAllCons(feeder.Remaining());
      var got := feeder.GetNextLine();
      var nextLine := got.value;
      if !StartsWith(nextLine, "$") {
        return Parse(Some(FileFormat(ExpectedSectionStart(nextLine))), calls, warnings);
      }
      var section := ReadSection(feeder, nextLine[1..], opts, calls, warnings);
      match section
      case Stopped(e, calls', warnings') =>
        return Parse(Some(e), calls', warnings');
      case Finished(_, calls', warnings') =>
        calls, warnings := calls', warnings';
    }
  }

  /** The branches of the reader's loop, chosen by the section's name. */
  method ReadSection(feeder: LineFeeder, name: string, opts: Options, calls: seq<Call>, warnings: seq<Warning>)
    returns (r: SectionRead)
    requires feeder.Valid()
    modifies feeder
    ensures feeder.Valid() && r == Section(name, StripAll(old(feeder.Remaining())), opts, calls, warnings)
    ensures r.Finished? ==> StripAll(feeder.Remaining()) == r.rest
  {
    if name == "MeshFormat" {
      r := ReadMeshFormat(feeder, calls, warnings);
    } else if name == "Nodes" {
      r := ReadListingSection(feeder, NodeListing, NodeReader(opts.forceDimension), calls, warnings);
    } else if name == "Elements" {
      r := ReadListingSection(feeder, ElementListing, ElementReader(opts.elementTypes), calls, warnings);
    } else if name == "PhysicalNames" {
      r := ReadListingSection(feeder, NameListing, NameReader(), calls, warnings);
    } else {
      r := SkipSection(feeder, name, calls, warnings + [UnrecognizedSection(name)]);
    }
  }

  /** Takes the next line from the feeder: the stripped line, or the
      end-of-file error, and what is left. */
  method NextLine(feeder: LineFeeder) returns (r: Result<string, FormatError>)
    requires feeder.Valid()
    modifies feeder
    ensures feeder.Valid()
    ensures old(feeder.Remaining()) == [] ==> r == Err(UnexpectedEndOfFile)
    ensures old(feeder.Remaining()) != [] ==>
      r == Ok(StripAll(old(feeder.Remaining()))[0]) &&
      StripAll(feeder.Remaining()) == StripAll(old(feeder.Remaining()))[1..]
  {
    if feeder.Remaining() != [] {
      StripAllCons(feeder.Remaining());
    }
    r := feeder.GetNextLine();
  }

  /** The `$MeshFormat` branch of the reader's loop. */
  method ReadMeshFormat(feeder: LineFeeder, calls: seq<Call>, warnings: seq<Warning>) returns (r: SectionRead)
    requires feeder.Valid()
    modifies feeder
    ensures feeder.Valid() && r == MeshFormatBody(StripAll(old(feeder.Remaining())), 0, calls, warnings)
    ensures r.Finished? ==> StripAll(feeder.Remaining()) == r.rest
  {
    var lineCount := 0;
    var seen := warnings;
    while true
      invariant feeder.Valid()
      invariant MeshFormatBody(StripAll(feeder.Remaining()), lineCount, calls, seen) ==
        MeshFormatBody(StripAll(old(feeder.Remaining())), 0, calls, warnings)
      decreases |feeder.Remaining()|
    {
      var got := NextLine(feeder);
      if got.Err? {
        return Stopped(FileFormat(got.error), calls, seen);
      }
      var nextLine := got.value;
      if nextLine == "$EndMeshFormat" {
        return Finished(StripAll(feeder.Remaining()), calls, seen);
      }
      if lineCount > 0 {
        return Stopped(FileFormat(MoreThanOneMeshFormatLine), calls, seen);
      }
      var check := MeshFormatLine(nextLine);
      seen := seen + check.warnings;
      if check.error.Some? {
        return Stopped(check.error.value, calls, seen);
      }
      lineCount := lineCount + 1;
    }
  }

  /** The loop shared by the `$Nodes`, `$Elements` and `$PhysicalNames`
      branches: read entry lines until the end marker, handing each
      entry's call on, then check the count and finalize. */
  method ReadListing(feeder: LineFeeder, listing: Listing, read: EntryReader, count: int,
                     calls: seq<Call>, warnings: seq<Warning>) returns (r: SectionRead)
    requires feeder.Valid()
    modifies feeder
    ensures feeder.Valid() && r == ListingBody(StripAll(old(feeder.Remaining())), listing, read, count, 1, calls, warnings)
    ensures r.Finished? ==> StripAll(feeder.Remaining()) == r.rest
  {
    var out := calls;
    var idx := 1;
    while true
      invariant feeder.Valid() && idx >= 1
      invariant ListingBody(StripAll(feeder.Remaining()), listing, read, count, idx, out, warnings) ==
        ListingBody(StripAll(old(feeder.Remaining())), listing, read, count, 1, calls, warnings)
      decreases |feeder.Remaining()|
    {
      if feeder.Remaining() != [] {
        ListingStep(StripAll(feeder.Remaining()), listing, read, count, idx, out, warnings);
      }
      var got := NextLine(feeder);
      if got.Err? {
        return Stopped(FileFormat(got.error), out, warnings);
      }
      var nextLine := got.value;
      if nextLine == EndMarker(listing) {
        if count + 1 != idx {
          return Stopped(FileFormat(CountMismatch(listing, idx, count + 1)), out, warnings);
        }
        return Finished(StripAll(feeder.Remaining()), out + [Finalizer(listing)], warnings);
      }
      var added := read(nextLine, idx - 1);
      if added.Err? {
        return Stopped(added.error, out, warnings);
      }
      out := out + [added.value];
      idx := idx + 1;
    }
  }

  /** The `$Nodes`, `$Elements` and `$PhysicalNames` branches of the
      reader's loop: the count line, the set-up call, then the entries. */
  method ReadListingSection(feeder: LineFeeder, listing: Listing, read: EntryReader,
                            calls: seq<Call>, warnings: seq<Warning>) returns (r: SectionRead)
    requires feeder.Valid()
    modifies feeder
    ensures feeder.Valid() && r == ListingSection(StripAll(old(feeder.Remaining())), listing, read, calls, warnings)
    ensures r.Finished? ==> StripAll(feeder.Remaining()) == r.rest
  {
    var got := NextLine(feeder);
    if got.Err? {
      return Stopped(FileFormat(got.error), calls, warnings);
    }
    var count := ParseInt(got.value);
    if count.None? {
      return Stopped(Host(NotAnInteger(got.value)), calls, warnings);
    }
    r := ReadListing(feeder, listing, read, count.value, calls + SetUp(listing, count.value), warnings);
  }

  /** The branch for any other section: skip to its end marker. */
  method SkipSection(feeder: LineFeeder, name: string, calls: seq<Call>, warnings: seq<Warning>)
    returns (r: SectionRead)
    requires feeder.Valid()
    modifies feeder
    ensures feeder.Valid() && r == SkipBody(StripAll(old(feeder.Remaining())), name, calls, warnings)
    ensures r.Finished? ==> StripAll(feeder.Remaining()) == r.rest
  {
    while true
      invariant feeder.Valid()
      invariant SkipBody(StripAll(feeder.Remaining()), name, calls, warnings) ==
        SkipBody(StripAll(old(feeder.Remaining())), name, calls, warnings)
      decreases |feeder.Remaining()|
    {
      var got := NextLine(feeder);
      if got.Err? {
        return Stopped(FileFormat(got.error), calls, warnings);
      }
      if got.value == "$End" + name {
        return Finished(StripAll(feeder.Remaining()), calls, warnings);
      }
    }
  }
}
