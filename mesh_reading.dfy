/** Whole files read end to end: a `$Nodes` section as Gmsh writes it is
    parsed without error into exactly the calls it describes, and the
    reference receiver then holds every point in the slot of its node. */
module MeshReading {
  import opened Wrappers
  import opened Text
  import opened ElementTypes
  import opened GmshErrors
  import opened ReceiverPort
  import opened Parser
  import opened SectionProperties
  import opened ParserProperties
  import opened NumPyReceiver

  /** Coordinates Gmsh can write on a node line: three tokens. */
  predicate Writable(point: Point) {
    |point| == 3 && forall j :: 0 <= j < 3 ==> IsToken(point[j])
  }

  /** The node lines of `points`, numbered from 1. */
  function NodeTexts(points: seq<Point>): (r: seq<string>)
    ensures |r| == |points|
    ensures forall i :: 0 <= i < |r| ==> r[i] == NodeText(i, points[i])
  {
    seq(|points|, i requires 0 <= i < |points| => NodeText(i, points[i]))
  }

  /** `add_node(i, points[i])` for every node, in order. */
  function NodeAddsOf(points: seq<Point>): (r: seq<Call>)
    ensures |r| == |points|
    ensures forall i :: 0 <= i < |r| ==> r[i] == AddNode(i, points[i])
  {
    seq(|points|, i requires 0 <= i < |points| => AddNode(i, points[i]))
  }

  /** A file holding one `$Nodes` section with the given points. */
  function NodesFile(points: seq<Point>): seq<string> {
    ["$Nodes", ShowInt(|points|)] + NodeTexts(points) + ["$EndNodes"]
  }

  /** The node lines are already stripped. */
  lemma NodeTextsStripped(points: seq<Point>)
    requires forall i :: 0 <= i < |points| ==> Writable(points[i])
    ensures StripAll(NodeTexts(points)) == NodeTexts(points)
  {
    var texts := NodeTexts(points);
    forall k | 0 <= k < |texts| ensures Strip(texts[k]) == texts[k] {
      NodeLineRoundTrip(k, points[k], k + 1, None);
    }
    StripAllStripped(texts);
  }

  /** The node lines read back, in order, as the nodes they were written
      from. */
  lemma NodeTextsRead(points: seq<Point>)
    requires forall i :: 0 <= i < |points| ==> Writable(points[i])
    ensures EntriesRead(NodeTexts(points), NodeListing, NodeReader(None), 1) == Some(NodeAddsOf(points))
  {
    var lines := NodeTexts(points);
    forall k | 0 <= k < |lines|
      ensures lines[k] != EndMarker(NodeListing)
      ensures NodeReader(None)(lines[k], 1 - 1 + k) == Ok(NodeAddsOf(points)[k])
    {
      NodeLineRoundTrip(k, points[k], k + 1, None);
      assert "$EndNodes"[..1] == "$";
    }
    EntriesReadAll(lines, NodeListing, NodeReader(None), 1, NodeAddsOf(points));
  }

  /** The lines of a `$Nodes` section after its opening line. */
  function NodesBody(points: seq<Point>): seq<string> {
    [ShowInt(|points|)] + NodeTexts(points) + [EndMarker(NodeListing)]
  }

  /** A section of stripped lines is left as it is by stripping. */
  lemma FramedStripped(opening: string, countLine: string, texts: seq<string>, closing: string)
    requires Strip(opening) == opening && Strip(countLine) == countLine && Strip(closing) == closing
    requires StripAll(texts) == texts
    ensures StripAll([opening, countLine] + texts + [closing]) == [opening, countLine] + texts + [closing]
  {
    StripAllStripped([opening, countLine]);
    StripAllStripped([closing]);
    StripAllAppend([opening, countLine] + texts, [closing]);
    StripAllAppend([opening, countLine], texts);
  }

  /** A `$Nodes` section with stripped node lines is left as it is by
      stripping. */
  lemma NodesSectionStripped(count: int, texts: seq<string>)
    requires StripAll(texts) == texts
    ensures StripAll(["$Nodes", ShowInt(count)] + texts + ["$EndNodes"]) ==
      ["$Nodes", ShowInt(count)] + texts + ["$EndNodes"]
  {
    ParseStripShowInt(count);
    StripUnpadded("$Nodes");
    StripUnpadded("$EndNodes");
    FramedStripped("$Nodes", ShowInt(count), texts, "$EndNodes");
  }

  /** Every line of the file is already stripped. */
  lemma NodesFileStripped(points: seq<Point>)
    requires forall i :: 0 <= i < |points| ==> Writable(points[i])
    ensures StripAll(NodesFile(points)) == NodesFile(points)
  {
    NodeTextsStripped(points);
    NodesSectionStripped(|points|, NodeTexts(points));
  }

  /** The file is the opening line followed by the section body. */
  lemma NodesFileOpens(points: seq<Point>)
    ensures NodesFile(points) == ["$" + "Nodes"] + NodesBody(points)
  {
    assert "$" + "Nodes" == "$Nodes";
  }

  /** The section body reads as the set-up call, one `add_node` per
      point, and the finalizing call, with nothing left over. */
  lemma NodesBodyRead(points: seq<Point>)
    requires forall i :: 0 <= i < |points| ==> Writable(points[i])
    ensures ListingSection(NodesBody(points), NodeListing, NodeReader(None), [], []) ==
      Finished([], [SetUpNodes(|points|)] + NodeAddsOf(points) + [FinalizeNodes], [])
  {
    var n := |points|;
    assert NodesBody(points) == [ShowInt(n)] + NodeTexts(points) + [EndMarker(NodeListing)] + [];
    NodeTextsRead(points);
    ParseShowInt(n);
    ListingSectionRead(ShowInt(n), n, NodeTexts(points), [], NodeListing, NodeReader(None), [], []);
    assert [] + SetUp(NodeListing, n) == [SetUpNodes(n)];
  }

  /** The file parses without error or warning: `set_up_nodes` with the
      number of points, one `add_node` per point in order, then
      `finalize_nodes`. */
  lemma NodesFileParse(points: seq<Point>, elementTypes: map<int, ElementInfo>)
    requires forall i :: 0 <= i < |points| ==> Writable(points[i])
    ensures ParseLines(NodesFile(points), Options(None, elementTypes)) ==
      Parse(None, [SetUpNodes(|points|)] + NodeAddsOf(points) + [FinalizeNodes], [])
  {
    var opts := Options(None, elementTypes);
    NodesFileStripped(points);
    NodesFileOpens(points);
    SectionsNext("Nodes", NodesBody(points), opts, [], []);
    NodesBodyRead(points);
  }

  /** Read into the reference receiver, the file leaves the point of node
      `i` in slot `i` for every node, and nothing else set. */
  lemma NodesFileIntoNumPy(points: seq<Point>, elementTypes: map<int, ElementInfo>)
    requires forall i :: 0 <= i < |points| ==> Writable(points[i])
    ensures var p := ParseLines(NodesFile(points), Options(None, elementTypes));
      p.error.None? && Replay(Initial(), p.calls) == Some(Initial().(points := Some(Filled(points))))
  {
    NodesFileParse(points, elementTypes);
    var adds := NodeAddsOf(points);
    ReplayNodesSection(Initial(), adds);
    assert PointsOf(adds) == points;
  }

  // ------------------------------------------------- a small whole mesh

  /** A small ASCII file: the header's version and data size, one node,
      one point element given under the code `pointCode`, and one physical
      name. */
  datatype SmallFile = SmallFile(version: string, dataSize: string, point: Point, pointCode: int,
                                 dimension: int, number: int, name: string)

  /** The versions the reader accepts without a warning. */
  predicate QuietVersion(version: string) {
    version == "2.1" || version == "2.2"
  }

  /** A small file Gmsh could write, with a version read without warning. */
  predicate WellFormed(f: SmallFile) {
    QuietVersion(f.version) && IsToken(f.dataSize) && Writable(f.point)
  }

  /** A `$MeshFormat` section for an ASCII file (type 0); Gmsh writes
      version 2.2 with data size 8. */
  function FormatHeader(version: string, dataSize: string): seq<string> {
    ["$MeshFormat", JoinSpace([version, "0", dataSize]), "$EndMeshFormat"]
  }

  /** A listing section `$<name>` holding the single entry line `entry`. */
  function OneEntry(name: string, entry: string, listing: Listing): seq<string> {
    ["$" + name, ShowInt(1), entry, EndMarker(listing)]
  }

  /** The entry of the point element in the code-to-type map. */
  function PointInfo(): ElementInfo {
    ElementInfo(ElementType(Point, 0), Some([0]))
  }

  /** The line of a point element: number 1, the given code, no tag, node 1. */
  function PointElementText(code: int): string {
    ElementText(0, code, [], [1])
  }

  /** The call that line makes. */
  function PointElementCall(): Call {
    AddElement(0, ElementType(Point, 0), [0], [0], [])
  }

  /** The file's `$Nodes` section: its one node, numbered 1. */
  function NodesBlock(f: SmallFile): seq<string> {
    OneEntry("Nodes", NodeText(0, f.point), NodeListing)
  }

  /** The file's `$Elements` section: its one point element. */
  function ElementsBlock(f: SmallFile): seq<string> {
    OneEntry("Elements", PointElementText(f.pointCode), ElementListing)
  }

  /** The file's `$PhysicalNames` section: its one name. */
  function NamesBlock(f: SmallFile): seq<string> {
    OneEntry("PhysicalNames", PhysicalNameText(f.dimension, f.number, f.name), NameListing)
  }

  /** The lines of the small file. */
  function SmallMesh(f: SmallFile): seq<string> {
    FormatHeader(f.version, f.dataSize) + (NodesBlock(f) + (ElementsBlock(f) + NamesBlock(f)))
  }

  /** The eight calls the small file makes. */
  function SmallMeshCalls(f: SmallFile): seq<Call> {
    [SetUpNodes(1), AddNode(0, f.point), FinalizeNodes,
     SetUpElements(1), PointElementCall(), FinalizeElements,
     AddTag(f.name, f.number, f.dimension), FinalizeTags]
  }

  /** The reference receiver holding the small file's node, element and name. */
  function SmallMeshState(f: SmallFile): Snapshot {
    Snapshot(Some([Some(f.point)]), Some([Some([0])]), Some([Some(ElementType(Point, 0))]),
             Some([Some([])]), Some([(f.name, f.number, f.dimension)]))
  }

  /** The reader's own map sends code 15 to the point element and its
      identity permutation. */
  lemma PointRegistered(data: NodeTupleData)
    requires Complete(data) && CodesDistinct(data)
    ensures 15 in InfoMap(data) && InfoMap(data)[15] == PointInfo()
  {
    RegisteredInfo(data, ElementType(Point, 0));
    PointPermutation(data);
  }

  /** With `code` mapped to the point element, the entries of a point
      element of that code read as that point, at index 0, with vertex and
      node lists `[0]` and no marker. */
  lemma PointEntriesRead(code: int, elementTypes: map<int, ElementInfo>)
    requires code in elementTypes && elementTypes[code] == PointInfo()
    ensures ElementEntries([1, code, 0, 1], 1, elementTypes) == Ok(PointElementCall())
  {
    var et := ElementType(Point, 0);
    var noTags: seq<int> := [];
    var zeroBased := Decremented([1]);
    assert NodeCount(et) == 1 && VertexCount(et) == 1;
    assert [0 + 1, code, |noTags|] + noTags + [1] == [1, code, 0, 1];
    assert zeroBased == [0] && zeroBased[..1] == [0];
    assert Gather(zeroBased, [0]) == [0];
    assert TagNumbers(noTags) == [];
    ElementEntriesAccepted(0, code, noTags, [1], elementTypes, [0]);
  }

  /** The same for the written line, which is also stripped and opens no
      section. */
  lemma PointLineRead(code: int, elementTypes: map<int, ElementInfo>)
    requires code in elementTypes && elementTypes[code] == PointInfo()
    ensures var line := PointElementText(code);
      Strip(line) == line && !StartsWith(line, "$") &&
      ElementLine(line, 1, elementTypes) == Ok(PointElementCall())
  {
    ElementTextEntries(0, code, [], [1]);
    ElementTextLine(0, code, [], [1], elementTypes);
    var noTags: seq<int> := [];
    assert [0 + 1, code, |noTags|] + noTags + [1] == [1, code, 0, 1];
    PointEntriesRead(code, elementTypes);
  }

  /** A `$MeshFormat` section whose data line names version 2.1 or 2.2 and
      the ASCII file type makes no call and no warning. */
  lemma QuietHeaderSection(version: string, fileType: string, dataSize: string, rest: seq<string>,
                           opts: Options, calls: seq<Call>, warnings: seq<Warning>)
    requires IsToken(version) && IsToken(fileType) && IsToken(dataSize)
    requires QuietVersion(version) && fileType == "0"
    ensures Section("MeshFormat", [JoinSpace([version, fileType, dataSize]), "$EndMeshFormat"] + rest,
                    opts, calls, warnings) == Finished(rest, calls, warnings)
  {
    MeshFormatLineRead(version, fileType, dataSize);
    assert StartsWith(version, "2.");
    RenderedLine([version, fileType, dataSize]);
    assert version[0] == '2';
    assert "$EndMeshFormat"[..1] == "$";
    MeshFormatSectionRead(JoinSpace([version, fileType, dataSize]), rest, calls, warnings);
  }

  /** A listing whose count line reads 1 and whose one entry reads as `call`. */
  lemma OneEntryListing(countLine: string, entry: string, call: Call, rest: seq<string>, listing: Listing,
                        read: EntryReader, calls: seq<Call>, warnings: seq<Warning>)
    requires ParseInt(countLine) == Some(1)
    requires entry != EndMarker(listing) && read(entry, 0) == Ok(call)
    ensures ListingSection([countLine, entry, EndMarker(listing)] + rest, listing, read, calls, warnings) ==
      Finished(rest, calls + SetUp(listing, 1) + [call] + [Finalizer(listing)], warnings)
  {
    EntriesReadAll([entry], listing, read, 1, [call]);
    assert [countLine, entry, EndMarker(listing)] + rest == [countLine] + [entry] + [EndMarker(listing)] + rest;
    ListingSectionRead(countLine, 1, [entry], rest, listing, read, calls, warnings);
  }

  /** A one-entry nodes section whose line reads as `call`. */
  lemma NodeEntrySection(countLine: string, entry: string, call: Call, rest: seq<string>, opts: Options,
                         calls: seq<Call>, warnings: seq<Warning>)
    requires ParseInt(countLine) == Some(1)
    requires !StartsWith(entry, "$") && NodeLine(entry, 1, opts.forceDimension) == Ok(call)
    ensures Section("Nodes", [countLine, entry, "$EndNodes"] + rest, opts, calls, warnings) ==
      Finished(rest, calls + [SetUpNodes(1), call, FinalizeNodes], warnings)
  {
    assert "$EndNodes"[..1] == "$";
    OneEntryListing(countLine, entry, call, rest, NodeListing, NodeReader(opts.forceDimension), calls, warnings);
  }

  /** A one-entry elements section whose line reads as `call`. */
  lemma ElementEntrySection(countLine: string, entry: string, call: Call, rest: seq<string>, opts: Options,
                            calls: seq<Call>, warnings: seq<Warning>)
    requires ParseInt(countLine) == Some(1)
    requires !StartsWith(entry, "$") && ElementLine(entry, 1, opts.elementTypes) == Ok(call)
    ensures Section("Elements", [countLine, entry, "$EndElements"] + rest, opts, calls, warnings) ==
      Finished(rest, calls + [SetUpElements(1), call, FinalizeElements], warnings)
  {
    var read := ElementReader(opts.elementTypes);
    assert entry != "$EndElements" by {
      assert "$EndElements"[..1] == "$";
    }
    assert read(entry, 0) == Ok(call);
    OneEntryListing(countLine, entry, call, rest, ElementListing, read, calls, warnings);
  }

  /** A one-entry physical-names section whose line reads as `call`. */
  lemma NameEntrySection(countLine: string, entry: string, call: Call, rest: seq<string>, opts: Options,
                         calls: seq<Call>, warnings: seq<Warning>)
    requires ParseInt(countLine) == Some(1)
    requires !StartsWith(entry, "$") && PhysicalNameLine(entry) == Ok(call)
    ensures Section("PhysicalNames", [countLine, entry, "$EndPhysicalNames"] + rest, opts, calls, warnings) ==
      Finished(rest, calls + [call, FinalizeTags], warnings)
  {
    assert "$EndPhysicalNames"[..1] == "$";
    OneEntryListing(countLine, entry, call, rest, NameListing, NameReader(), calls, warnings);
  }

  /** The opening line of a one-entry section, and what follows it. */
  lemma OneEntryOpens(name: string, entry: string, listing: Listing, rest: seq<string>)
    ensures OneEntry(name, entry, listing) + rest == ["$" + name] + ([ShowInt(1), entry, EndMarker(listing)] + rest)
  {
  }

  /** A one-entry section with a stripped entry line is already stripped. */
  lemma OneEntryStripped(name: string, entry: string, listing: Listing)
    requires name != [] && !IsSpace(name[|name| - 1]) && Strip(entry) == entry
    ensures StripAll(OneEntry(name, entry, listing)) == OneEntry(name, entry, listing)
  {
    StripUnpadded("$" + name);
    ParseStripShowInt(1);
    match listing {
      case NodeListing => StripUnpadded("$EndNodes");
      case ElementListing => StripUnpadded("$EndElements");
      case NameListing => StripUnpadded("$EndPhysicalNames");
    }
    StripAllStripped(OneEntry(name, entry, listing));
  }

  /** The header is already stripped. */
  lemma FormatHeaderStripped(version: string, dataSize: string)
    requires IsToken(version) && IsToken(dataSize)
    ensures StripAll(FormatHeader(version, dataSize)) == FormatHeader(version, dataSize)
  {
    assert IsToken("0");
    RenderedLine([version, "0", dataSize]);
    StripUnpadded("$MeshFormat");
    StripUnpadded("$EndMeshFormat");
    StripAllStripped(FormatHeader(version, dataSize));
  }

  /** Four stripped blocks make a stripped file. */
  lemma StrippedBlocks(a: seq<string>, b: seq<string>, c: seq<string>, d: seq<string>)
    requires StripAll(a) == a && StripAll(b) == b && StripAll(c) == c && StripAll(d) == d
    ensures StripAll(a + (b + (c + d))) == a + (b + (c + d))
  {
    StripAllAppend(a, b + (c + d));
    StripAllAppend(b, c + d);
    StripAllAppend(c, d);
  }

  /** The quiet versions are single tokens. */
  lemma QuietVersionToken(version: string)
    requires QuietVersion(version)
    ensures IsToken(version)
  {
    if version == "2.1" {
      assert IsToken("2.1");
    } else {
      assert IsToken("2.2");
    }
  }

  /** Every line of the small file is already stripped. */
  lemma SmallMeshStripped(f: SmallFile)
    requires WellFormed(f)
    ensures StripAll(SmallMesh(f)) == SmallMesh(f)
  {
    QuietVersionToken(f.version);
    FormatHeaderStripped(f.version, f.dataSize);
    NodeLineRoundTrip(0, f.point, 1, None);
    OneEntryStripped("Nodes", NodeText(0, f.point), NodeListing);
    ElementTextEntries(0, f.pointCode, [], [1]);
    OneEntryStripped("Elements", PointElementText(f.pointCode), ElementListing);
    PhysicalNameRoundTrip(f.dimension, f.number, f.name);
    OneEntryStripped("PhysicalNames", PhysicalNameText(f.dimension, f.number, f.name), NameListing);
    StrippedBlocks(FormatHeader(f.version, f.dataSize), NodesBlock(f), ElementsBlock(f), NamesBlock(f));
  }

  /** The header opens the file and is passed over quietly. */
  lemma HeaderPassed(version: string, dataSize: string, rest: seq<string>, opts: Options)
    requires QuietVersion(version) && IsToken(dataSize)
    ensures Sections(FormatHeader(version, dataSize) + rest, opts, [], []) == Sections(rest, opts, [], [])
  {
    var body := [JoinSpace([version, "0", dataSize]), "$EndMeshFormat"];
    assert "$" + "MeshFormat" == "$MeshFormat";
    assert FormatHeader(version, dataSize) + rest == ["$" + "MeshFormat"] + (body + rest);
    QuietVersionToken(version);
    assert IsToken("0");
    SectionsNext("MeshFormat", body + rest, opts, [], []);
    QuietHeaderSection(version, "0", dataSize, rest, opts, [], []);
  }

  /** The one-node section, between others. */
  lemma NodesPassed(f: SmallFile, rest: seq<string>, opts: Options, calls: seq<Call>)
    requires Writable(f.point) && opts.forceDimension.None?
    ensures Sections(NodesBlock(f) + rest, opts, calls, []) ==
      Sections(rest, opts, calls + [SetUpNodes(1), AddNode(0, f.point), FinalizeNodes], [])
  {
    var entry := NodeText(0, f.point);
    OneEntryOpens("Nodes", entry, NodeListing, rest);
    SectionsNext("Nodes", [ShowInt(1), entry, "$EndNodes"] + rest, opts, calls, []);
    NodeLineRoundTrip(0, f.point, 1, None);
    ParseShowInt(1);
    NodeEntrySection(ShowInt(1), entry, AddNode(0, f.point), rest, opts, calls, []);
  }

  /** The one-element section, between others. */
  lemma ElementsPassed(f: SmallFile, rest: seq<string>, opts: Options, calls: seq<Call>)
    requires f.pointCode in opts.elementTypes && opts.elementTypes[f.pointCode] == PointInfo()
    ensures Sections(ElementsBlock(f) + rest, opts, calls, []) ==
      Sections(rest, opts, calls + [SetUpElements(1), PointElementCall(), FinalizeElements], [])
  {
    var entry := PointElementText(f.pointCode);
    OneEntryOpens("Elements", entry, ElementListing, rest);
    SectionsNext("Elements", [ShowInt(1), entry, "$EndElements"] + rest, opts, calls, []);
    PointLineRead(f.pointCode, opts.elementTypes);
    ParseShowInt(1);
    ElementEntrySection(ShowInt(1), entry, PointElementCall(), rest, opts, calls, []);
  }

  /** The one-name section, last in the file. */
  lemma NamesPassed(f: SmallFile, opts: Options, calls: seq<Call>)
    ensures Sections(NamesBlock(f), opts, calls, []) ==
      Parse(None, calls + [AddTag(f.name, f.number, f.dimension), FinalizeTags], [])
  {
    var entry := PhysicalNameText(f.dimension, f.number, f.name);
    OneEntryOpens("PhysicalNames", entry, NameListing, []);
    assert NamesBlock(f) + [] == NamesBlock(f);
    SectionsNext("PhysicalNames", [ShowInt(1), entry, "$EndPhysicalNames"] + [], opts, calls, []);
    PhysicalNameRoundTrip(f.dimension, f.number, f.name);
    ParseShowInt(1);
    NameEntrySection(ShowInt(1), entry, AddTag(f.name, f.number, f.dimension), [], opts, calls, []);
  }

  /** Lines that are already stripped are read as they are. */
  lemma StrippedRead(lines: seq<string>, opts: Options)
    requires StripAll(lines) == lines
    ensures ParseLines(lines, opts) == Sections(lines, opts, [], [])
  {
  }

  /** Reading the small file starts from its lines as written. */
  lemma SmallMeshLines(f: SmallFile, opts: Options)
    requires WellFormed(f)
    ensures ParseLines(SmallMesh(f), opts) == Sections(SmallMesh(f), opts, [], [])
  {
    SmallMeshStripped(f);
    StrippedRead(SmallMesh(f), opts);
  }

  /** The four sections of the small file, one after the other. */
  lemma SmallMeshSections(f: SmallFile, opts: Options)
    requires WellFormed(f) && opts.forceDimension.None?
    requires f.pointCode in opts.elementTypes && opts.elementTypes[f.pointCode] == PointInfo()
    ensures Sections(SmallMesh(f), opts, [], []) ==
      Parse(None, [SetUpNodes(1), AddNode(0, f.point), FinalizeNodes]
                  + [SetUpElements(1), PointElementCall(), FinalizeElements]
                  + [AddTag(f.name, f.number, f.dimension), FinalizeTags], [])
  {
    HeaderPassed(f.version, f.dataSize, NodesBlock(f) + (ElementsBlock(f) + NamesBlock(f)), opts);
    var c1: seq<Call> := [SetUpNodes(1), AddNode(0, f.point), FinalizeNodes];
    NodesPassed(f, ElementsBlock(f) + NamesBlock(f), opts, []);
    assert [] + c1 == c1;
    var c2 := c1 + [SetUpElements(1), PointElementCall(), FinalizeElements];
    ElementsPassed(f, NamesBlock(f), opts, c1);
    NamesPassed(f, opts, c2);
  }

  /** The small file parses without error or warning into its eight calls:
      each count is matched, each listing is set up, filled and finalized
      once, and the physical name reaches the receiver unquoted. */
  lemma SmallMeshParse(f: SmallFile, elementTypes: map<int, ElementInfo>)
    requires WellFormed(f)
    requires f.pointCode in elementTypes && elementTypes[f.pointCode] == PointInfo()
    ensures ParseLines(SmallMesh(f), Options(None, elementTypes)) == Parse(None, SmallMeshCalls(f), [])
  {
    var opts := Options(None, elementTypes);
    SmallMeshLines(f, opts);
    SmallMeshSections(f, opts);
    SmallMeshCallsSplit(f);
  }

  /** The small file's calls, section by section. */
  lemma SmallMeshCallsSplit(f: SmallFile)
    ensures SmallMeshCalls(f) ==
      [SetUpNodes(1), AddNode(0, f.point), FinalizeNodes]
      + [SetUpElements(1), PointElementCall(), FinalizeElements]
      + [AddTag(f.name, f.number, f.dimension), FinalizeTags]
  {
  }

  /** Replayed on the reference receiver, the eight calls leave the point
      in slot 0, the point element with its vertex and no marker in slot 0,
      and the one physical name as the only tag. */
  lemma SmallMeshReplay(f: SmallFile)
    ensures Replay(Initial(), SmallMeshCalls(f)) == Some(SmallMeshState(f))
  {
    var adds := [AddNode(0, f.point)];
    var elementAdds := [PointElementCall()];
    var tagAdds := [AddTag(f.name, f.number, f.dimension)];
    var nodePart := [SetUpNodes(|adds|)] + adds + [FinalizeNodes];
    var elementPart := [SetUpElements(|elementAdds|)] + elementAdds + [FinalizeElements];
    var tagPart := tagAdds + [FinalizeTags];
    assert SmallMeshCalls(f) == nodePart + elementPart + tagPart;

    ReplayNodesSection(Initial(), adds);
    assert Filled(PointsOf(adds)) == [Some(f.point)];
    var s1 := Initial().(points := Some([Some(f.point)]));
    assert Replay(Initial(), nodePart) == Some(s1);

    ReplayElementsSection(s1, elementAdds);
    assert Filled(VertexListsOf(elementAdds)) == [Some([0])];
    assert Filled(TypesOf(elementAdds)) == [Some(ElementType(Point, 0))];
    assert Filled(MarkersOf(elementAdds)) == [Some([])];
    var s2 := s1.(elements := Some([Some([0])]), elementTypes := Some([Some(ElementType(Point, 0))]),
                  elementMarkers := Some([Some([])]), tags := Some([]));
    assert Replay(s1, elementPart) == Some(s2);

    ReplayTagAdds(s2, tagAdds);
    assert TagsOf(tagAdds) == [(f.name, f.number, f.dimension)];
    assert s2.tags.value + TagsOf(tagAdds) == [(f.name, f.number, f.dimension)];
    assert Replay(s2, tagPart) == Some(SmallMeshState(f));

    ReplayAppend(Initial(), nodePart, elementPart);
    assert Replay(Initial(), nodePart + elementPart) == Some(s2);
    ReplayAppend(Initial(), nodePart + elementPart, tagPart);
  }

  /** Read with the reader's own code-to-type map into the reference
      receiver, a small file whose element carries Gmsh's point code makes
      no error and no warning and leaves the receiver holding exactly its
      node, its element and its name. */
  lemma SmallMeshIntoNumPy(f: SmallFile, data: NodeTupleData)
    requires WellFormed(f) && f.pointCode == 15 && Complete(data) && CodesDistinct(data)
    ensures var p := ParseLines(SmallMesh(f), Options(None, InfoMap(data)));
      p.error.None? && p.warnings == [] && Replay(Initial(), p.calls) == Some(SmallMeshState(f))
  {
    PointRegistered(data);
    SmallMeshParse(f, InfoMap(data));
    SmallMeshReplay(f);
  }
}
