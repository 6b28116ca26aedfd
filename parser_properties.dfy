/** Single lines as Gmsh writes them: node, element and physical-name
    lines parse back to the calls they describe, and the lines the reader
    must reject are rejected. */
module ParserProperties {
  import opened Wrappers
  import opened Text
  import opened ElementTypes
  import opened GmshErrors
  import opened ReceiverPort
  import opened Parser

  // ------------------------------------------------------ rendered lines

  /** One field of a line: non-empty and free of white space. */
  predicate IsToken(t: string) {
    t != [] && NoSpace(t)
  }

  /** `[str(x) for x in xs]`. */
  function ShowInts(xs: seq<int>): seq<string> {
    seq(|xs|, i requires 0 <= i < |xs| => ShowInt(xs[i]))
  }

  /** Reading back integers that were written out parses them unchanged. */
  lemma ParseShowInts(xs: seq<int>)
    ensures ParseInts(ShowInts(xs)) == Ok(xs)
  {
    forall i | 0 <= i < |xs| ensures ParseInt(ShowInts(xs)[i]) == Some(xs[i]) {
      ParseShowInt(xs[i]);
    }
    ParseIntsAll(ShowInts(xs), xs);
  }

  /** A line of space-separated tokens is left alone by `strip()`, splits
      back into its tokens, and opens no section unless its first token
      starts with `$`. */
  lemma RenderedLine(tokens: seq<string>)
    requires |tokens| >= 1 && forall i :: 0 <= i < |tokens| ==> IsToken(tokens[i])
    ensures Strip(JoinSpace(tokens)) == JoinSpace(tokens)
    ensures SplitWs(JoinSpace(tokens)) == tokens
    ensures StartsWith(JoinSpace(tokens), "$") <==> tokens[0][0] == '$'
  {
    StripJoinSpace(tokens);
    SplitJoinSpace(tokens);
    OpensSection(tokens);
  }

  lemma OpensSection(tokens: seq<string>)
    requires |tokens| >= 1 && forall i :: 0 <= i < |tokens| ==> tokens[i] != []
    ensures StartsWith(JoinSpace(tokens), "$") <==> tokens[0][0] == '$'
  {
    JoinSpaceEnds(tokens);
    var line := JoinSpace(tokens);
    assert line[..1] == [line[0]];
  }

  /** An integer written out is a token that does not start with `$`. */
  lemma ShowIntIsToken(n: int)
    ensures IsToken(ShowInt(n)) && ShowInt(n)[0] != '$'
  {
    ShowIntToken(n);
  }

  // ---------------------------------------------------------- $MeshFormat

  /** The data line of `$MeshFormat`, written from three tokens: a major
      version other than 2 is refused before anything else, a 2.x version
      other than 2.1 and 2.2 only warns, a file type other than `0` (ASCII)
      is a format error, and nothing else stops the parse. */
  lemma MeshFormatLineRead(version: string, fileType: string, dataSize: string)
    requires IsToken(version) && IsToken(fileType) && IsToken(dataSize)
    ensures var c := MeshFormatLine(JoinSpace([version, fileType, dataSize]));
      (c.error.None? <==> StartsWith(version, "2.") && fileType == "0") &&
      (!StartsWith(version, "2.") ==> c == FormatCheck([], Some(UnsupportedVersion(version)))) &&
      (StartsWith(version, "2.") ==>
        (c.warnings == [] <==> version == "2.1" || version == "2.2") &&
        (c.warnings != [] ==> c.warnings == [UnexpectedVersion(version)]) &&
        (fileType != "0" ==> c.error == Some(FileFormat(NotAsciiFileType(fileType)))))
  {
    SplitJoinSpace([version, fileType, dataSize]);
  }

  /** A `$MeshFormat` data line without exactly three fields fails to
      unpack, before any check of its contents. */
  lemma MeshFormatLineFieldCount(tokens: seq<string>)
    requires |tokens| != 3 && forall i :: 0 <= i < |tokens| ==> IsToken(tokens[i])
    ensures MeshFormatLine(JoinSpace(tokens)) == FormatCheck([], Some(Host(WrongNumberOfFields(3, |tokens|))))
  {
    SplitJoinSpace(tokens);
  }

  // ---------------------------------------------------------------- $Nodes

  /** A node line as Gmsh writes it: the one-based number, then the three
      coordinates. */
  function NodeText(nodeNr: nat, coords: Point): string {
    JoinSpace([ShowInt(nodeNr + 1)] + coords)
  }

  /** A node line with other than four fields is rejected, whatever its
      fields hold. */
  lemma NodeLineWidth(tokens: seq<string>, nodeIdx: int, forceDimension: Option<int>)
    requires |tokens| != 4 && forall i :: 0 <= i < |tokens| ==> IsToken(tokens[i])
    requires nodeIdx >= 1
    ensures NodeLine(JoinSpace(tokens), nodeIdx, forceDimension) == Err(FileFormat(NotFourComponents(tokens)))
  {
    SplitJoinSpace(tokens);
  }

  /** The fields of a node line whose first field reads as `readNodeIdx`. */
  lemma NodeFieldsRead(first: string, readNodeIdx: int, coords: Point,
                       nodeIdx: int, forceDimension: Option<int>)
    requires |coords| == 3 && ParseInt(first) == Some(readNodeIdx) && nodeIdx >= 1
    ensures readNodeIdx != nodeIdx ==>
      NodeFields([first] + coords, nodeIdx, forceDimension) ==
      Err(FileFormat(OutOfOrderNode(readNodeIdx, nodeIdx)))
    ensures readNodeIdx == nodeIdx && forceDimension.None? ==>
      NodeFields([first] + coords, nodeIdx, forceDimension) == Ok(AddNode(nodeIdx - 1, coords))
    ensures readNodeIdx == nodeIdx && forceDimension.Some? && 0 <= forceDimension.value <= 3 ==>
      NodeFields([first] + coords, nodeIdx, forceDimension) ==
      Ok(AddNode(nodeIdx - 1, coords[..forceDimension.value]))
  {
    var parts := [first] + coords;
    assert parts[0] == first;
    if readNodeIdx == nodeIdx {
      assert NodeFields(parts, nodeIdx, forceDimension) ==
        Ok(AddNode(nodeIdx - 1, NodeCoordinates(parts, forceDimension)));
      if forceDimension.None? {
        assert parts[1..] == coords;
      } else if 0 <= forceDimension.value <= 3 {
        assert parts[1..1 + forceDimension.value] == coords[..forceDimension.value];
      }
    }
  }

  /** A written node line is read back as the node it describes, cut to
      `force_dimension` coordinates when that is given, provided it is the
      node expected next; any other number is reported as out of order. */
  lemma NodeLineRoundTrip(nodeNr: nat, coords: Point, nodeIdx: int, forceDimension: Option<int>)
    requires |coords| == 3 && forall i :: 0 <= i < 3 ==> IsToken(coords[i])
    requires nodeIdx >= 1
    ensures Strip(NodeText(nodeNr, coords)) == NodeText(nodeNr, coords)
    ensures !StartsWith(NodeText(nodeNr, coords), "$")
    ensures nodeIdx != nodeNr + 1 ==>
      NodeLine(NodeText(nodeNr, coords), nodeIdx, forceDimension) ==
      Err(FileFormat(OutOfOrderNode(nodeNr + 1, nodeIdx)))
    ensures nodeIdx == nodeNr + 1 && forceDimension.None? ==>
      NodeLine(NodeText(nodeNr, coords), nodeIdx, forceDimension) == Ok(AddNode(nodeNr, coords))
    ensures nodeIdx == nodeNr + 1 && forceDimension.Some? && 0 <= forceDimension.value <= 3 ==>
      NodeLine(NodeText(nodeNr, coords), nodeIdx, forceDimension) ==
      Ok(AddNode(nodeNr, coords[..forceDimension.value]))
  {
    var first := ShowInt(nodeNr + 1);
    var parts := [first] + coords;
    ShowIntIsToken(nodeNr + 1);
    assert forall i :: 0 <= i < |parts| ==> IsToken(parts[i]);
    RenderedLine(parts);
    ParseShowInt(nodeNr + 1);
    NodeFieldsRead(first, nodeNr + 1, coords, nodeIdx, forceDimension);
  }

  /** An element line as Gmsh writes it: the one-based number, the type
      code, the number of tags, the tags and the one-based node numbers. */
  function ElementText(elementNr: nat, code: int, tags: seq<int>, nodes: seq<int>): string {
    JoinSpace(ShowInts([elementNr + 1, code, |tags|] + tags + nodes))
  }

  /** The entries of a written element line are read back unchanged, and
      the tag and node slices recover the tags and the nodes. */
  lemma ElementTextEntries(elementNr: nat, code: int, tags: seq<int>, nodes: seq<int>)
    ensures var line := ElementText(elementNr, code, tags, nodes);
      var entries := [elementNr + 1, code, |tags|] + tags + nodes;
      Strip(line) == line && !StartsWith(line, "$") &&
      ParseInts(SplitWs(line)) == Ok(entries) &&
      PySlice(entries, 3, 3 + |tags|) == tags && PySliceFrom(entries, 3 + |tags|) == nodes
  {
    var entries := [elementNr + 1, code, |tags|] + tags + nodes;
    var tokens := ShowInts(entries);
    forall i | 0 <= i < |tokens| ensures IsToken(tokens[i]) {
      ShowIntIsToken(entries[i]);
    }
    ShowIntIsToken(elementNr + 1);
    RenderedLine(tokens);
    ParseShowInts(entries);
    assert entries[3..3 + |tags|] == tags;
    assert entries[3 + |tags|..] == nodes;
  }

  /** A written element line is read as its entries. */
  lemma ElementTextLine(elementNr: nat, code: int, tags: seq<int>, nodes: seq<int>,
                        elementTypes: map<int, ElementInfo>)
    ensures ElementLine(ElementText(elementNr, code, tags, nodes), elementNr + 1, elementTypes) ==
      ElementEntries([elementNr + 1, code, |tags|] + tags + nodes, elementNr + 1, elementTypes)
  {
    ElementTextEntries(elementNr, code, tags, nodes);
  }

  // ------------------------------------------------- node reordering

  /** A bijection of 0..n-1 with the position of n - 1 taken out is a
      bijection of 0..n-2. */
  lemma WithoutLast(perm: seq<nat>, n: nat, k: nat)
    requires IsBijection(perm, n) && k < n && perm[k] == n - 1
    ensures IsBijection(perm[..k] + perm[k + 1..], n - 1)
    ensures AllBelow(perm[..k], n - 1) && AllBelow(perm[k + 1..], n - 1)
    ensures perm == perm[..k] + [n - 1] + perm[k + 1..]
  {
    var rest := perm[..k] + perm[k + 1..];
    forall i | 0 <= i < n - 1
      ensures rest[i] == perm[if i < k then i else i + 1]
    {
    }
    forall i | 0 <= i < n - 1
      ensures rest[i] < n - 1
    {
      var p := if i < k then i else i + 1;
      assert p != k && perm[p] != perm[k];
    }
    forall i, j | 0 <= i < j < n - 1
      ensures rest[i] != rest[j]
    {
      var p := if i < k then i else i + 1;
      var q := if j < k then j else j + 1;
      assert p < q && perm[p] != perm[q];
    }
    forall j | 0 <= j < n - 1
      ensures j in rest
    {
      assert j in perm;
      var i :| 0 <= i < n && perm[i] == j;
      if i < k {
        assert rest[i] == j;
      } else {
        assert rest[i - 1] == j;
      }
    }
  }

  /** Gathering around the one position that picks the last value. */
  lemma GatherSplit(values: seq<int>, before: seq<nat>, after: seq<nat>)
    requires values != []
    requires AllBelow(before, |values| - 1) && AllBelow(after, |values| - 1)
    ensures var shorter := values[..|values| - 1];
      Gather(values, before + [|values| - 1] + after) ==
        Gather(shorter, before) + [values[|values| - 1]] + Gather(shorter, after) &&
      Gather(shorter, before + after) == Gather(shorter, before) + Gather(shorter, after)
  {
  }

  /** Gathering around the position that picks the last value adds that
      value to the multiset the other positions gather from the shorter
      sequence. */
  lemma GatherAroundLast(values: seq<int>, before: seq<nat>, after: seq<nat>)
    requires values != []
    requires AllBelow(before, |values| - 1) && AllBelow(after, |values| - 1)
    requires var shorter := values[..|values| - 1];
      multiset(Gather(shorter, before + after)) == multiset(shorter)
    ensures multiset(Gather(values, before + [|values| - 1] + after)) == multiset(values)
  {
    var n := |values|;
    var shorter := values[..n - 1];
    GatherSplit(values, before, after);
    var front, back := Gather(shorter, before), Gather(shorter, after);
    var last := values[n - 1];
    assert multiset(front + [last] + back) == multiset(front) + multiset{last} + multiset(back);
    assert multiset(front + back) == multiset(front) + multiset(back);
    assert values == shorter + [last];
    assert multiset(values) == multiset(shorter) + multiset{last};
  }

  /** Indexing by a bijection of the positions reorders the values: the
      lexicographic node list holds exactly the element's nodes, each as
      often as the file lists it. */
  lemma {:induction false} GatherPermutes(values: seq<int>, perm: seq<nat>)
    requires IsBijection(perm, |values|)
    ensures |Gather(values, perm)| == |values|
    ensures multiset(Gather(values, perm)) == multiset(values)
    decreases |values|
  {
    var n := |values|;
    if n == 0 {
      return;
    }
    assert n - 1 in perm;
    var k :| 0 <= k < n && perm[k] == n - 1;
    WithoutLast(perm, n, k);
    GatherPermutes(values[..n - 1], perm[..k] + perm[k + 1..]);
    GatherAroundLast(values, perm[..k], perm[k + 1..]);
  }

  /** The entries of an element whose type has a permutation and whose
      node numbers are all in range. */
  lemma ElementEntriesAccepted(elementNr: nat, code: int, tags: seq<int>, nodes: seq<int>,
                               elementTypes: map<int, ElementInfo>, perm: seq<nat>)
    requires code in elementTypes && elementTypes[code].lexicographicGmshNodeIndices == Some(perm)
    requires |nodes| == NodeCount(elementTypes[code].elementType) && AllBelow(perm, |nodes|)
    requires VertexCount(elementTypes[code].elementType) <= |nodes|
    ensures var et := elementTypes[code].elementType; var zeroBased := Decremented(nodes);
      ElementEntries([elementNr + 1, code, |tags|] + tags + nodes, elementNr + 1, elementTypes) ==
      Ok(AddElement(elementNr, et, zeroBased[..VertexCount(et)], Gather(zeroBased, perm), TagNumbers(tags)))
  {
    var entries := [elementNr + 1, code, |tags|] + tags + nodes;
    assert entries[0] == elementNr + 1 && entries[1] == code && entries[2] == |tags|;
    assert entries[3..3 + |tags|] == tags;
    assert entries[3 + |tags|..] == nodes;
    var zeroBased := Decremented(nodes);
    assert PySlice(zeroBased, 0, VertexCount(elementTypes[code].elementType)) ==
      zeroBased[..VertexCount(elementTypes[code].elementType)];
  }

  /** The entries of an element with the wrong number of nodes. */
  lemma ElementEntriesMiscounted(elementNr: nat, code: int, tags: seq<int>, nodes: seq<int>,
                                 elementTypes: map<int, ElementInfo>)
    requires code in elementTypes && |nodes| != NodeCount(elementTypes[code].elementType)
    requires |tags| + |nodes| >= 1
    ensures ElementEntries([elementNr + 1, code, |tags|] + tags + nodes, elementNr + 1, elementTypes) ==
      Err(FileFormat(ElementNodeCountMismatch(|nodes|, NodeCount(elementTypes[code].elementType))))
  {
    var entries := [elementNr + 1, code, |tags|] + tags + nodes;
    assert entries[0] == elementNr + 1 && entries[1] == code && entries[2] == |tags|;
    assert entries[3 + |tags|..] == nodes;
    assert PySliceFrom(entries, 3 + |tags|) == nodes;
  }

  /** The entries of an element whose type has no permutation. */
  lemma ElementEntriesUnmapped(elementNr: nat, code: int, tags: seq<int>, nodes: seq<int>,
                               elementTypes: map<int, ElementInfo>)
    requires code in elementTypes && elementTypes[code].lexicographicGmshNodeIndices.None?
    requires |nodes| == NodeCount(elementTypes[code].elementType) && |nodes| >= 1
    ensures ElementEntries([elementNr + 1, code, |tags|] + tags + nodes, elementNr + 1, elementTypes) ==
      Err(Host(MissingNodeTuple(code)))
  {
    var entries := [elementNr + 1, code, |tags|] + tags + nodes;
    assert entries[0] == elementNr + 1 && entries[1] == code && entries[2] == |tags|;
    assert entries[3 + |tags|..] == nodes;
    assert PySliceFrom(entries, 3 + |tags|) == nodes;
  }

  /** A written line of a registered element type (other than the
      incomplete triangles) with the right number of nodes is read back as
      that element: its vertices are its first `vertex_count` nodes, its
      lexicographic nodes are its nodes rearranged by a bijection, and its
      markers are its first nonzero tag. */
  lemma RegisteredElementLine(data: NodeTupleData, et: ElementType, elementNr: nat,
                              tags: seq<int>, nodes: seq<int>)
    requires Complete(data) && TablesAreReorderings(data) && CodesDistinct(data)
    requires Supported(et) && et.kind != IncompleteTriangle && |nodes| == NodeCount(et)
    ensures LexicographicGmshNodeIndices(et, data).Some?
    ensures var perm := LexicographicGmshNodeIndices(et, data).value;
      var zeroBased := Decremented(nodes);
      IsBijection(perm, |nodes|) && VertexCount(et) <= |nodes| &&
      ElementLine(ElementText(elementNr, TypeCode(et, data), tags, nodes), elementNr + 1, InfoMap(data)) ==
      Ok(AddElement(elementNr, et, zeroBased[..VertexCount(et)], Gather(zeroBased, perm), TagNumbers(tags)))
  {
    var code := TypeCode(et, data);
    RegisteredInfo(data, et);
    RegisteredPermutationsBijective(et, data);
    VerticesAmongNodes(et);
    var perm := LexicographicGmshNodeIndices(et, data).value;
    ElementTextLine(elementNr, code, tags, nodes, InfoMap(data));
    ElementEntriesAccepted(elementNr, code, tags, nodes, InfoMap(data), perm);
  }

  /** A written element line with the wrong number of nodes for its type
      (and at least one tag or node) is rejected with a node count
      mismatch. */
  lemma MiscountedElementLine(elementNr: nat, code: int, tags: seq<int>, nodes: seq<int>,
                              elementTypes: map<int, ElementInfo>)
    requires code in elementTypes && |nodes| != NodeCount(elementTypes[code].elementType)
    requires |tags| + |nodes| >= 1
    ensures ElementLine(ElementText(elementNr, code, tags, nodes), elementNr + 1, elementTypes) ==
      Err(FileFormat(ElementNodeCountMismatch(|nodes|, NodeCount(elementTypes[code].elementType))))
  {
    ElementTextLine(elementNr, code, tags, nodes, elementTypes);
    ElementEntriesMiscounted(elementNr, code, tags, nodes, elementTypes);
  }

  /** An element line with neither tags nor nodes has too few entries,
      whatever its type. */
  lemma BareElementLine(elementNr: nat, code: int, elementTypes: map<int, ElementInfo>)
    ensures ElementLine(ElementText(elementNr, code, [], []), elementNr + 1, elementTypes) ==
      Err(FileFormat(TooFewElementEntries([elementNr + 1, code, 0])))
  {
    ElementTextLine(elementNr, code, [], [], elementTypes);
    var none: seq<int> := [];
    assert [elementNr + 1, code, |none|] + none + none == [elementNr + 1, code, 0];
  }

  /** A written element line (with at least one tag or node) whose number
      is not the one expected next is out of order, and one whose type code
      the map does not hold is of an unexpected type; the number is checked
      before the type. */
  lemma ElementLineChecks(written: nat, expected: nat, code: int, tags: seq<int>, nodes: seq<int>,
                          elementTypes: map<int, ElementInfo>)
    requires |tags| + |nodes| >= 1
    ensures written != expected ==>
      ElementLine(ElementText(written, code, tags, nodes), expected + 1, elementTypes) ==
      Err(FileFormat(OutOfOrderElement(written + 1, expected + 1)))
    ensures code !in elementTypes ==>
      ElementLine(ElementText(written, code, tags, nodes), written + 1, elementTypes) ==
      Err(FileFormat(UnexpectedElementType(code)))
  {
    ElementTextEntries(written, code, tags, nodes);
    var entries := [written + 1, code, |tags|] + tags + nodes;
    assert |entries| >= 4 && entries[0] == written + 1 && entries[1] == code;
  }

  /** With distinct codes, the receiver's map sends a registered type's
      code to that type and its permutation. */
  lemma RegisteredInfo(data: NodeTupleData, et: ElementType)
    requires Complete(data) && CodesDistinct(data) && Supported(et)
    ensures TypeCode(et, data) in InfoMap(data)
    ensures InfoMap(data)[TypeCode(et, data)] == ElementInfo(et, LexicographicGmshNodeIndices(et, data))
  {
    TypeMapLookup(data, TypeCode(et, data));
  }

  /** No line of an incomplete triangle can be read, whatever its nodes:
      the permutation lookup fails. */
  lemma IncompleteTriangleLineRejected(data: NodeTupleData, order: nat, elementNr: nat,
                                       tags: seq<int>, nodes: seq<int>)
    requires Complete(data) && CodesDistinct(data) && 3 <= order <= 5
    requires |nodes| == NodeCount(ElementType(IncompleteTriangle, order))
    ensures var code := TypeCode(ElementType(IncompleteTriangle, order), data);
      ElementLine(ElementText(elementNr, code, tags, nodes), elementNr + 1, InfoMap(data)) ==
      Err(Host(MissingNodeTuple(code)))
  {
    var et := ElementType(IncompleteTriangle, order);
    var code := TypeCode(et, data);
    ElementTextLine(elementNr, code, tags, nodes, InfoMap(data));
    RegisteredInfo(data, et);
    IncompleteTrianglePermutationUndefined(order, data);
    ElementEntriesUnmapped(elementNr, code, tags, nodes, InfoMap(data));
  }

  /** A physical-name line as Gmsh writes it. */
  function PhysicalNameText(dimension: int, number: int, name: string): string {
    ShowInt(dimension) + " " + ShowInt(number) + " \"" + name + "\""
  }

  /** The three fields of a physical-name line whose numbers read as
      `dimension` and `number`. */
  lemma PhysicalNameFieldsRead(first: string, second: string, dimension: int, number: int, name: string)
    requires ParseInt(first) == Some(dimension) && ParseInt(second) == Some(number)
    ensures PhysicalNameFields([first, second, "\"" + name + "\""]) == Ok(AddTag(name, number, dimension))
  {
    var quoted := "\"" + name + "\"";
    assert quoted[0] == '"' && quoted[|quoted| - 1] == '"';
    assert quoted[1..|quoted| - 1] == name;
  }

  /** A written physical-name line is read back as the name, its number and
      its dimension, whatever the name holds (spaces and quotes included). */
  lemma PhysicalNameRoundTrip(dimension: int, number: int, name: string)
    ensures Strip(PhysicalNameText(dimension, number, name)) == PhysicalNameText(dimension, number, name)
    ensures !StartsWith(PhysicalNameText(dimension, number, name), "$")
    ensures PhysicalNameLine(PhysicalNameText(dimension, number, name)) == Ok(AddTag(name, number, dimension))
  {
    var a, b, c := ShowInt(dimension), ShowInt(number), "\"" + name + "\"";
    var line := PhysicalNameText(dimension, number, name);
    assert line == a + " " + b + " " + c;
    ShowIntToken(dimension);
    ShowIntToken(number);
    SplitOnSpaceThree(a, b, c);
    ParseShowInt(dimension);
    ParseShowInt(number);
    PhysicalNameFieldsRead(a, b, dimension, number, name);
    assert line[0] == a[0] && line[|line| - 1] == '"';
    assert line[..1] == [a[0]];
    StripUnpadded(line);
  }

  /** The third field of a physical-name line must be quoted at both ends:
      an empty one raises, one that is not quoted is a format error. */
  lemma PhysicalNameQuotesRequired(dimension: int, number: int, name: string)
    requires name == [] || name[0] != '"' || name[|name| - 1] != '"'
    ensures var line := ShowInt(dimension) + " " + ShowInt(number) + " " + name;
      PhysicalNameLine(line) ==
      if name == [] then Err(Host(EmptyPhysicalName)) else Err(FileFormat(UnquotedPhysicalName(name)))
  {
    var a, b := ShowInt(dimension), ShowInt(number);
    ShowIntToken(dimension);
    ShowIntToken(number);
    SplitOnSpaceThree(a, b, name);
    ParseShowInt(dimension);
    ParseShowInt(number);
  }
}
