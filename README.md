# gmsh_interop reader, modelled in Dafny

This project models the reader of `gmsh_interop`, found in
`gmsh_interop/reader.py`. The reader takes the ASCII text of a Gmsh MSH 2
mesh file and sends what it finds to a *receiver* object. The model covers:

- `LineFeeder`, the one-line lookahead over the file's lines. It is the
  class `LineSource.LineFeeder`.
- The element-type taxonomy: points, intervals, incomplete triangles,
  triangles, tetrahedra, quadrilaterals and hexahedra. For each one the
  model has the vertex and node counts, the node tuples in lexicographic
  order and in file order, the permutation between the two orders, the
  numeric type codes and the code-to-type map. This is module
  `ElementTypes`. The pytools tuple generators it uses are in `Tuples`.
- `parse_gmsh`, the section state machine for `$MeshFormat`, `$Nodes`,
  `$Elements`, `$PhysicalNames` and unknown sections:
  - `Parser` holds a functional description of a whole parse and the
    imperative reader loop `Parser.ParseGmsh`. The loop drives a
    `LineFeeder` and is proved to compute exactly that description.
  - `SectionProperties` and `ParserProperties` prove what each section
    and each kind of line does.
  - `ProtocolProperties` proves that every parse respects the receiver
    call protocol.
- The receiver interface, `GmshMeshReceiverBase`. It is the datatype
  `ReceiverPort.Call`. A parse is described by the errors it raises
  (`Parse.error`), the warnings it issues and the sequence of receiver
  calls it makes.
- `GmshMeshReceiverNumPy`. It is the class
  `NumPyReceiver.GmshMeshReceiverNumPy`, whose methods are proved to
  follow the value-level `Apply`/`Replay` description.
- `GmshFileFormatError` and the other exceptions the reader can raise.
  These are the datatypes in `GmshErrors`.
- `MeshReading` ties it all together for two families of whole files:
  - a file with only a `$Nodes` section;
  - a file with a format header, one node, one point element and one
    physical name.

  For both, it proves what the parse produces and what the NumPy receiver
  then holds.

Python's string operations (`strip()`, `split()`, `split(" ", 2)`, `int()`,
`startswith`, slicing) are written out in `Text` with Python's semantics. This
includes Unicode white space for `isspace`, and underscores and signs for
`int()`.

Where the library's written description and its code disagree, the model
follows the code:

- A line `$EndX` met between sections is not rejected. It opens an unknown
  section named `EndX`, which is skipped up to `$EndEndX`.
- `$PhysicalNames` makes no set-up call on the receiver. The NumPy receiver
  only creates its tag list in `set_up_elements`. So a physical name read
  before any `$Elements` section fails the receiver's
  `assert self.tags is not None` (`NumPyReceiver.NamesBeforeElementsRaise`).
- A `$Nodes` or `$Elements` listing with more entries than it declares
  stops the NumPy receiver with an `IndexError` before the reader's own
  count check is reached (`NumPyReceiver.ReplayOverfullNodes`,
  `NumPyReceiver.ReplayOverfullElements`). `add_tag` only appends
  (`NumPyReceiver.ReplayTagAdds`), so an overfull `$PhysicalNames` listing
  reaches the count check and raises `GmshFileFormatError` there.
- The node permutation of an incomplete triangle of order 3, 4 or 5 is
  undefined. Its interior tuple `(1, 1)` has no place among the file-order
  tuples, so the lookup raises `KeyError`
  (`ElementTypes.IncompleteTrianglePermutationUndefined`). An element line
  of such a type therefore stops the parse
  (`ParserProperties.IncompleteTriangleLineRejected`).
- An element line with a non-integer field raises `ValueError` before the
  "fewer than 4 entries" check.

## Model

| member | source | states |
|---|---|---|
| LineSource.LineFeeder.constructor | gmsh_interop/reader.py:122-124 | a new feeder has no peeked line and all the given lines still to hand out |
| LineSource.LineFeeder.HasNextLine | gmsh_interop/reader.py:126-135 | answers true exactly when lines remain; it never changes which lines remain; after true a line is peeked, and an already peeked line stays peeked |
| LineSource.LineFeeder.GetNextLine | gmsh_interop/reader.py:137-148 | raises "Unexpected end of file" exactly when no line remains; otherwise it returns the next line (the peeked one first) stripped of white space and drops it from the remaining lines |
| Parser.ParseGmsh | gmsh_interop/reader.py:622-816 | the reader loop over a `LineFeeder` produces exactly `ParseLines` of the file's lines: the same error, receiver calls and warnings |
| Parser.ReadSection | gmsh_interop/reader.py:643-816 | reading one section from the feeder gives `Section` of the stripped remaining lines, and afterwards the feeder holds exactly the lines the section left unread |
| Parser.NextLine | gmsh_interop/reader.py:137-148 | with no line left it yields the end-of-file format error; otherwise it yields the first stripped line and consumes exactly that line |
| Parser.ReadMeshFormat | gmsh_interop/reader.py:645-674 | the `$MeshFormat` loop computes `MeshFormatBody` of the stripped lines and leaves exactly its unread rest in the feeder |
| Parser.ReadListing | gmsh_interop/reader.py:682-715 | the entry loop shared by the three listings computes `ListingBody` from index 1 and leaves exactly its unread rest |
| Parser.ReadListingSection | gmsh_interop/reader.py:676-715 | a count line and then the entry loop compute `ListingSection` and leave exactly its unread rest |
| Parser.SkipSection | gmsh_interop/reader.py:807-816 | skipping an unknown section computes `SkipBody` and leaves exactly the lines after `$End<name>` |
| Parser.NodeCoordinates | gmsh_interop/reader.py:699-702 | a node keeps at most three coordinates: all three without `force_dimension`, and the first `force_dimension` of them when it is between 0 and 3 |
| ParserProperties.GatherPermutes | gmsh_interop/reader.py:767-768 | indexing the zero-based node list by a bijective permutation only reorders it: the lexicographic node list has the same length and holds every node exactly as often as the element line does |
| Parser.TagNumbers | gmsh_interop/reader.py:763 | the comprehension over `tags[:1]` that drops zeros keeps at most one marker: exactly the first tag when there is one and it is non-zero, and none otherwise |
| Parser.Unquoted | gmsh_interop/reader.py:797 | `name[1:-1]`: the name without its first and last character, empty when it is shorter than two |
| SectionProperties.SectionsNext | gmsh_interop/reader.py:637-643 | a line `$<name>` between sections runs that section; the parse stops with its error or carries on after it |
| SectionProperties.SectionsExpectStart | gmsh_interop/reader.py:639-641 | a line between sections that does not start with `$` stops the parse with "Expected start of section", keeping the calls made so far |
| SectionProperties.ListingBodyPrefix | gmsh_interop/reader.py:682-708 | a run of good entry lines yields one receiver call per line, in order, and the loop continues at the following index |
| SectionProperties.ListingRead | gmsh_interop/reader.py:682-715 | good entries then the end marker finish the listing with its finalize call when their number matches the count, and otherwise stop with the count-mismatch error, reporting count + 1 expected |
| SectionProperties.ListingStops | gmsh_interop/reader.py:682-708 | the first bad entry line stops the listing with that line's error, after the calls for the good lines before it |
| SectionProperties.ListingUnterminated | gmsh_interop/reader.py:682-685 | a listing without its end marker stops with "Unexpected end of file" after the calls for all its lines |
| SectionProperties.ListingSectionRead | gmsh_interop/reader.py:676-715 | an integer count line, then good entries and the end marker: the set-up call (none for names), one call per entry, and then either the finalize call or the count-mismatch error |
| SectionProperties.ListingSectionStops | gmsh_interop/reader.py:676-708 | after the count line, a bad entry stops the section with its own error after the set-up and the earlier entries' calls |
| SectionProperties.ListingCountNotInteger | gmsh_interop/reader.py:677-678 | a count line that is not an integer raises `ValueError` before any receiver call |
| SectionProperties.SkipBodyPasses | gmsh_interop/reader.py:813-816 | lines other than `$End<name>` are passed over without effect while skipping |
| SectionProperties.UnknownSectionSkipped | gmsh_interop/reader.py:807-816 | an unknown section adds the "Unrecognized section" warning, makes no call and resumes after `$End<name>` |
| SectionProperties.UnknownSectionUnterminated | gmsh_interop/reader.py:807-816 | an unknown section without its end marker warns and then stops with "Unexpected end of file" |
| SectionProperties.MeshFormatSectionRead | gmsh_interop/reader.py:645-674 | one acceptable format line then `$EndMeshFormat` finishes the section with that line's warnings and no call |
| SectionProperties.MeshFormatSectionEmpty | gmsh_interop/reader.py:647-650 | an empty `$MeshFormat` section is accepted |
| SectionProperties.MeshFormatSecondLine | gmsh_interop/reader.py:652-654 | a second data line stops with "More than one line found", keeping the first line's warnings |
| ParserProperties.ParseShowInts | gmsh_interop/reader.py:727 | integers written out in decimal are read back by `int()` as the same integers |
| ParserProperties.RenderedLine | gmsh_interop/reader.py:687 | a line of space-separated tokens is unchanged by `strip()`, `split()` gives the tokens back, and it opens a section exactly when its first token starts with `$` |
| ParserProperties.OpensSection | gmsh_interop/reader.py:639 | a joined line starts with `$` exactly when its first token does |
| ParserProperties.MeshFormatLineRead | gmsh_interop/reader.py:656-672 | a three-field format line is accepted exactly for a `2.x` version and file type `0`; another major version raises `NotImplementedError`; versions other than 2.1 and 2.2 warn; a non-ASCII file type raises the format error |
| ParserProperties.MeshFormatLineFieldCount | gmsh_interop/reader.py:656 | a format line with other than three fields raises `ValueError` from the unpacking |
| ParserProperties.NodeLineWidth | gmsh_interop/reader.py:687-691 | a node line without exactly four fields raises "Expected four-component line" |
| ParserProperties.NodeFieldsRead | gmsh_interop/reader.py:693-706 | a wrong node number raises "Out-of-order node index"; the right one yields `add_node(idx - 1, ...)` with all three coordinates, or the first `force_dimension` of them |
| ParserProperties.NodeLineRoundTrip | gmsh_interop/reader.py:683-706 | a written node line survives stripping, is not a section line, and reads back as its node (or as the out-of-order error) |
| ParserProperties.ElementTextEntries | gmsh_interop/reader.py:727-752 | a written element line splits into its integers, and the tag and node slices give back the tags and nodes written |
| ParserProperties.ElementTextLine | gmsh_interop/reader.py:723-727 | reading a written element line is reading its integer entries |
| ParserProperties.ElementEntriesAccepted | gmsh_interop/reader.py:729-769 | well-formed entries of a registered type yield `add_element` with zero-based index, the type, the leading vertex nodes, the nodes in lexicographic order and the tag numbers |
| ParserProperties.ElementEntriesMiscounted | gmsh_interop/reader.py:754-758 | a node count other than the type's raises "Unexpected number of nodes in element" |
| ParserProperties.ElementEntriesUnmapped | gmsh_interop/reader.py:767-768 | a type without a node permutation raises `KeyError` when the element is sent |
| ParserProperties.RegisteredElementLine | gmsh_interop/reader.py:722-769 | for every supported type but the incomplete triangles, a written element line with the right node count is accepted, with a bijective permutation and the vertices among the nodes |
| ParserProperties.MiscountedElementLine | gmsh_interop/reader.py:754-758 | a written element line with the wrong number of nodes is rejected with the node-count error |
| ParserProperties.BareElementLine | gmsh_interop/reader.py:729-732 | a line of only number, type and tag count raises "Too few entries in element line" |
| ParserProperties.ElementLineChecks | gmsh_interop/reader.py:734-746 | a wrong element number raises "Out-of-order element index"; an unregistered type code raises "Unexpected element type" |
| ParserProperties.RegisteredInfo | gmsh_interop/reader.py:438-439 | every supported type is found in the receiver's code map under its own code, with its permutation |
| ParserProperties.IncompleteTriangleLineRejected | gmsh_interop/reader.py:767-768 | an element line of an incomplete triangle, with the right node count, stops the parse with `KeyError` |
| ParserProperties.PhysicalNameFieldsRead | gmsh_interop/reader.py:789-797 | integer dimension and number and a quoted name yield `add_tag(name, number, dimension)` without the quotes |
| ParserProperties.PhysicalNameRoundTrip | gmsh_interop/reader.py:785-797 | a written physical-name line survives stripping, is not a section line and reads back as its tag |
| ParserProperties.PhysicalNameQuotesRequired | gmsh_interop/reader.py:793-795 | a name not enclosed in double quotes raises "Expected quotes around physical name", and an empty one `IndexError` |
| ProtocolProperties.NodeReaderFits | gmsh_interop/reader.py:693-706 | a node line, when accepted, yields `add_node` at the index being read |
| ProtocolProperties.ElementReaderFits | gmsh_interop/reader.py:734-769 | an element line, when accepted, yields `add_element` at the index being read |
| ProtocolProperties.NameReaderFits | gmsh_interop/reader.py:789-797 | a physical-name line, when accepted, yields `add_tag` |
| ProtocolProperties.ListingBodyProtocol | gmsh_interop/reader.py:682-715 | the entry loop never breaks the call protocol, and on success it closes the listing with the finalize call |
| ProtocolProperties.ListingSectionProtocol | gmsh_interop/reader.py:676-715 | a listing section, whatever it reads, keeps the protocol, and returns between sections when it finishes |
| ProtocolProperties.SkipBodyCalls | gmsh_interop/reader.py:807-816 | skipping a section makes no receiver call |
| ProtocolProperties.MeshFormatBodyCalls | gmsh_interop/reader.py:645-674 | `$MeshFormat` makes no receiver call |
| ProtocolProperties.SectionProtocol | gmsh_interop/reader.py:643-816 | every section keeps the protocol and ends between sections when it finishes |
| ProtocolProperties.SectionsProtocol | gmsh_interop/reader.py:637-643 | the section loop keeps the protocol, and a loop without error ends between sections |
| ProtocolProperties.ParseFollowsProtocol | gmsh_interop/reader.py:622-816 | any parse of any file keeps the receiver protocol (set-up, adds at indices 0, 1, 2, ..., finalize after exactly the declared count); a parse without error makes a complete protocol run |
| NumPyReceiver.Slots | gmsh_interop/reader.py:512 | `[None] * count`: `count` empty slots, none for a negative count |
| NumPyReceiver.GmshMeshReceiverNumPy.constructor | gmsh_interop/reader.py:496-502 | a new receiver has all five fields unset |
| NumPyReceiver.GmshMeshReceiverNumPy.SetUpNodes | gmsh_interop/reader.py:509-513 | replaces the points with `count` fresh empty slots and leaves the element fields alone |
| NumPyReceiver.GmshMeshReceiverNumPy.AddNode | gmsh_interop/reader.py:516-518 | stores the point at its index; it fails, changing nothing, exactly when the points are unset or the index is past their end |
| NumPyReceiver.GmshMeshReceiverNumPy.SetUpElements | gmsh_interop/reader.py:525-532 | fresh `count`-slot element, type and marker lists and an empty tag list; the points are untouched |
| NumPyReceiver.GmshMeshReceiverNumPy.AddElement | gmsh_interop/reader.py:535-546 | stores vertices, type and markers at the element's index and ignores the lexicographic nodes; it fails, changing nothing, when a list is unset or too short |
| NumPyReceiver.GmshMeshReceiverNumPy.AddTag | gmsh_interop/reader.py:554-556 | appends `(name, index, dimension)` to the tags; it fails, changing nothing, when the tags are unset |
| NumPyReceiver.GmshMeshReceiverNumPy.Receive | gmsh_interop/reader.py:509-560 | any one of the eight receiver calls changes the fields exactly as `Apply` says, or fails and changes nothing |
| NumPyReceiver.GmshMeshReceiverNumPy.ReceiveAll | gmsh_interop/reader.py:622-816 | the calls of a parse, delivered in order, leave the receiver as `Replay` of the delivered prefix, and delivery stops only at a call that raises |
| NumPyReceiver.ReplaySnoc | gmsh_interop/reader.py:509-560 | receiving one more call is applying it to the state the earlier calls left |
| NumPyReceiver.ReplayAppend | gmsh_interop/reader.py:509-560 | receiving two call sequences in turn is receiving the second from the state the first left |
| NumPyReceiver.ReplayNodesSection | gmsh_interop/reader.py:509-521 | a nodes section of n adds at indices 0 to n - 1 leaves every point stored at its own index and nothing else changed |
| NumPyReceiver.ReplayOverfullNodes | gmsh_interop/reader.py:516-518 | a nodes section with one more add than declared raises in the receiver (`IndexError`) |
| NumPyReceiver.ReplayOverfullElements | gmsh_interop/reader.py:535-546 | an elements section with one more add than declared raises in the receiver (`IndexError`) |
| NumPyReceiver.ReplayElementsSection | gmsh_interop/reader.py:525-551 | an elements section stores each element's vertices, type and markers at its index and resets the tags to an empty list |
| NumPyReceiver.ReplayTagAdds | gmsh_interop/reader.py:554-560 | a physical-names section appends its tags, in order, to the tags already there |
| NumPyReceiver.NamesBeforeElementsRaise | gmsh_interop/reader.py:554-556 | a physical name sent to a fresh receiver fails its `assert self.tags is not None` |
| ElementTypes.LexicographicNodeTuples | gmsh_interop/reader.py:232-240 | the element's lexicographic node tuples are as many as its node count, the assertion the source makes |
| ElementTypes.LexicographicNodeTuplesFacts | gmsh_interop/reader.py:232-240 | the lexicographic node tuples are colex-sorted and distinct: for a simplex exactly the tuples with sum at most the order, and for a tensor-product element exactly the tuples with entries at most the order |
| ElementTypes.CountsClosedForm | gmsh_interop/reader.py:217-343 | simplex: d + 1 vertices and d! times the node count equals (order+1)(order+2)...(order+d); tensor product: 2^d vertices and (order+1)^d nodes |
| ElementTypes.VerticesAmongNodes | gmsh_interop/reader.py:754-760 | a supported type never has more vertices than nodes, so the vertex slice is a true prefix |
| ElementTypes.TriangleEdgeTuples | gmsh_interop/reader.py:99-105 | a triangle of order p has 3(p - 1) edge tuples, each a pair with coordinates below p lying on one of the three edges and none of them a vertex |
| ElementTypes.IntervalGmshTuples | gmsh_interop/reader.py:271-272 | an interval of order p has p + 1 file-order tuples |
| ElementTypes.IndexMap | gmsh_interop/reader.py:206-208 | the tuple-to-index dictionary has exactly the file-order tuples as keys, each key maps to a position holding that tuple, and no later position holds it (the last duplicate wins) |
| ElementTypes.LexGmshPermutation | gmsh_interop/reader.py:205-212 | the permutation exists exactly when every lexicographic tuple is among the file-order tuples, and it then maps each position to a file-order position holding the same tuple |
| ElementTypes.PermutationBijective | gmsh_interop/reader.py:205-212 | when the two tuple lists are reorderings of each other, the permutation exists and is a bijection |
| ElementTypes.PermutationUnique | gmsh_interop/reader.py:205-212 | any index list matching the lexicographic tuples to file-order ones is the computed permutation |
| ElementTypes.PointPermutation | gmsh_interop/reader.py:243-256 | the point's permutation is `[0]` |
| ElementTypes.IntervalLexTuples | gmsh_interop/reader.py:232-240 | an interval's lexicographic tuples are (0), (1), ..., (order) |
| ElementTypes.IntervalReordering | gmsh_interop/reader.py:271-272 | an interval's file-order tuples (ends first, then interior) reorder the lexicographic ones, each at its stated position |
| ElementTypes.IntervalPermutation | gmsh_interop/reader.py:259-272 | the interval permutation, for orders 1 to 10, sends each node to its file position, and is a bijection |
| ElementTypes.InteriorNotOnBoundary | gmsh_interop/reader.py:93-105 | from order 3 on, the interior tuple (1, 1) is neither a triangle vertex nor an edge tuple |
| ElementTypes.IncompleteTrianglePermutationUndefined | gmsh_interop/reader.py:275-293 | an incomplete triangle of order 3 to 5 has 3p file-order tuples against (p+1)(p+2)/2 nodes, and its permutation is undefined |
| ElementTypes.SupportedElements | gmsh_interop/reader.py:411-419 | the supported list holds only supported types |
| ElementTypes.SupportedElementsComplete | gmsh_interop/reader.py:411-419 | a type is in the supported list exactly when it is supported (point, intervals 1-10, incomplete triangles 3-5, triangles, tetrahedra and quadrilaterals 1-10, hexahedra 1-9) |
| ElementTypes.BuildTypeMap | gmsh_interop/reader.py:421 | the dictionary comprehension maps each code to a listed type with that code, every listed type's code is a key, and a code maps to the last listed type with that code |
| ElementTypes.TypeMap | gmsh_interop/reader.py:410-421 | every entry of the code map is a supported type carrying that code |
| ElementTypes.InfoMap | gmsh_interop/reader.py:438-439 | the receiver's code map has the type map's codes; each entry is a supported type with that code, paired with its permutation |
| ElementTypes.TypeMapLookup | gmsh_interop/reader.py:410-421 | a code is in the map exactly when some supported type has it; with distinct codes the map gives that very type |
| ElementTypes.RegisteredPermutationsBijective | gmsh_interop/reader.py:204-212 | for every supported type but the incomplete triangles (given tables that reorder the lexicographic tuples) the permutation exists and is a bijection of the nodes |
| Tuples.SummingCount | gmsh_interop/reader.py:232-240 | the tuples of length d with sum at most n number (n+1)(n+2)...(n+d)/d! |
| Tuples.SummingMembers | gmsh_interop/reader.py:232-240 | the summing generator yields exactly the non-negative tuples of the length with sum at most n |
| Tuples.SummingSorted | gmsh_interop/reader.py:232-240 | the summing generator yields its tuples in strictly increasing colex order |
| Tuples.SummingLine | gmsh_interop/reader.py:232-240 | in one dimension it yields (0), (1), ..., (n) |
| Tuples.ColexSortedDistinct | gmsh_interop/reader.py:232-240 | a colex-sorted tuple list has no repeats |
| Tuples.BelowCount | gmsh_interop/reader.py:353-358 | the generator of tuples below m yields m^d tuples |
| Tuples.BelowMembers | gmsh_interop/reader.py:353-358 | it yields exactly the tuples of length d with entries in 0..m - 1 |
| Tuples.BelowSorted | gmsh_interop/reader.py:353-358 | it yields them in strictly increasing lexicographic order |
| Tuples.ReverseReverse | gmsh_interop/reader.py:358 | reversing a tuple twice gives it back |
| Tuples.ReverseLexColex | gmsh_interop/reader.py:355-358 | reversal turns lexicographic order into colex order, so the x-coordinate varies fastest |
| Tuples.TensorProductCount | gmsh_interop/reader.py:358-360 | the tensor-product tuples number (order+1)^d, the assertion the source makes |
| Tuples.TensorProductSorted | gmsh_interop/reader.py:355-358 | the reversed tuples are in strictly increasing colex order |
| Tuples.TensorProductMembers | gmsh_interop/reader.py:346-358 | the tensor-product tuples are exactly the tuples of length d with entries in 0..order |
| Text.Strip | gmsh_interop/reader.py:141 | `strip()` returns no longer a string that neither starts nor ends with white space |
| Text.StripPadded | gmsh_interop/reader.py:148 | `strip()` removes exactly the white space around a text that does not itself start or end with white space |
| Text.StripUnpadded | gmsh_interop/reader.py:148 | `strip()` leaves such a text unchanged |
| Text.SplitWs | gmsh_interop/reader.py:687 | `split()` yields only non-empty pieces free of white space, and yields nothing exactly when the line is all white space |
| Text.SplitWsWord | gmsh_interop/reader.py:727 | a word followed by any non-empty run of white space is `split()`'s first piece, and splitting resumes after the run |
| Text.SplitJoinSpace | gmsh_interop/reader.py:656 | `split()` of tokens joined by single spaces gives the tokens back |
| Text.SplitOnSpaceJoin | gmsh_interop/reader.py:789 | `split(" ", 2)` yields at most three pieces that rejoin with spaces to the line, and all but the last contain no space |
| Text.SplitOnSpaceThree | gmsh_interop/reader.py:789 | `a b c`, with no space in a or b, splits into exactly a, b and c, whatever c contains |
| Text.ParseInts | gmsh_interop/reader.py:727 | `[int(x) for x in parts]` succeeds with each token's value, or fails on a token that is not an integer |
| Text.ParseIntsAll | gmsh_interop/reader.py:727 | when every token is an integer, the list conversion yields exactly their values |
| Text.ParseShowInt | gmsh_interop/reader.py:677 | `int()` reads the decimal text of an integer back as that integer |
| Text.ParseStripShowInt | gmsh_interop/reader.py:677 | the decimal text of an integer survives stripping and still reads back as the integer |
| Text.ShowIntToken | gmsh_interop/reader.py:677 | the decimal text of an integer is a single non-empty token with a digit or sign first and a digit last |
| Text.StripJoinSpace | gmsh_interop/reader.py:687 | tokens joined by single spaces are unchanged by `strip()` |
| Text.SliceBound | gmsh_interop/reader.py:749 | a slice bound in range is kept, a negative one counts from the end, and one past either end is clamped to that end |
| Text.PySlice | gmsh_interop/reader.py:749 | `xs[start:stop]` is the ordinary slice whenever the bounds are in range, and runs to the end when only `stop` is past it |
| Text.PySliceCrossed | gmsh_interop/reader.py:749 | `xs[start:stop]` is empty whenever the normalised bounds cross, so a negative tag count gives no tags |
| Text.PySliceFrom | gmsh_interop/reader.py:752 | `xs[start:]` is the suffix from `start`, and empty past the end |
| Text.PySliceFromNegative | gmsh_interop/reader.py:752 | for a negative `start`, `xs[start:]` is the last `-start` entries, and the whole list when `-start` exceeds its length |
| MeshReading.NodesFileParse | gmsh_interop/reader.py:676-715 | a file made of one `$Nodes` section listing any number of points, each written as three tokens, parses without error or warning to set-up, one add per point at indices 0 to n - 1, and finalize |
| MeshReading.NodesFileIntoNumPy | gmsh_interop/reader.py:509-521 | parsing such a file into a fresh NumPy receiver stores every point at its own index |
| MeshReading.NodesBodyRead | gmsh_interop/reader.py:677-715 | the count line, the node lines and `$EndNodes` yield exactly those calls and leave nothing unread |
| MeshReading.NodeTextsRead | gmsh_interop/reader.py:683-708 | written node lines read back as the add calls for their points at indices 0, 1, 2, ... |
| MeshReading.QuietHeaderSection | gmsh_interop/reader.py:645-674 | a format line with version 2.1 or 2.2 and file type 0 finishes `$MeshFormat` with no warning and no call |
| MeshReading.OneEntryListing | gmsh_interop/reader.py:676-715 | a listing declaring 1 with one good entry yields set-up, the entry's call and finalize |
| MeshReading.NodeEntrySection | gmsh_interop/reader.py:676-715 | a `$Nodes` section with one good node line yields `set_up_nodes(1)`, the node and `finalize_nodes` |
| MeshReading.ElementEntrySection | gmsh_interop/reader.py:717-778 | an `$Elements` section with one good element line yields `set_up_elements(1)`, the element and `finalize_elements` |
| MeshReading.NameEntrySection | gmsh_interop/reader.py:780-806 | a `$PhysicalNames` section with one good name yields the tag and `finalize_tags`, with no set-up |
| MeshReading.PointRegistered | gmsh_interop/reader.py:243-256 | code 15 is the point, with permutation `[0]`, in the receiver's code map |
| MeshReading.PointLineRead | gmsh_interop/reader.py:722-769 | the line of element 1 of type point, with no tags and node 1, reads as `add_element(0, point, [0], [0], [])` |
| MeshReading.SmallMeshParse | gmsh_interop/reader.py:622-816 | a file with a quiet format header, one node, one point element and one physical name parses without error or warning to exactly the expected eight calls |
| MeshReading.SmallMeshReplay | gmsh_interop/reader.py:496-560 | those eight calls leave the NumPy receiver with the one point, the one element with its type and empty markers, and the one tag |
| MeshReading.SmallMeshIntoNumPy | gmsh_interop/reader.py:622-816 | reading such a file into a fresh NumPy receiver with the standard code map succeeds without warning and leaves exactly that state |

## Left out

- Coordinates are not converted with `float()`. A node keeps its coordinate
  fields as the text tokens of its line, and `np.array(..., dtype=np.float64)`
  is not modelled. A coordinate that is not a number raises `ValueError` in
  the source but is accepted by the model.
- `int()` is modelled for ASCII decimal digits with signs and underscores.
  Other Unicode decimal digits that Python accepts are not.
- Node numbers are unbounded integers. The overflow of `np.intp` for huge
  node numbers is not modelled.
- Receivers are modelled through the sequence of calls the reader makes (the
  reader never reads a receiver back). The state of a receiver after one of
  its methods raised is whatever `Apply` leaves, which is the state before
  the call.
- Warnings are not ordered against receiver calls. A parse keeps its calls and
  its warnings in two separate sequences, and a receiver that raises does
  not end the parse. In the source, a receiver method that raises ends
  `parse_gmsh` at that call, so no later "Unrecognized section" warning and
  no later format error happens. In the model, a receiver failure (for
  example `NumPyReceiver.NamesBeforeElementsRaise`) shows up only when the
  call sequence is replayed (`NumPyReceiver.Replay` gives `None`). The
  parse's warning list and error still include everything found after that
  call.
- The fancy indexing `node_indices[perm]` is modelled where the permutation's
  entries are in range. An out-of-range permutation entry is reported as
  `IndexError` (`NodeIndexOutOfRange`), which the supported types never
  produce.
- `read_gmsh`, `generate_gmsh` and the `GmshRunner` in `gmsh_interop/runner.py`
  start an external Gmsh process and read files. They are not part of this
  model.
- Warnings are recorded in order, without `stacklevel` or the warnings
  filter.
- The node-tuple tables for triangles, tetrahedra, quadrilaterals and
  hexahedra come from the module `node_tuples.py`, which is not part of this
  model. They are a parameter (`ElementTypes.NodeTupleData`). The parse only
  needs a row for every registered order (`ElementTypes.Complete`). The
  lemmas about permutations assume the tables reorder the lexicographic
  tuples.
- `generate_triangle_volume_tuples` and `generate_quad_vertex_tuples` are not
  used by the reader's code path and are not modelled.
- `Parser.ParseLines` strips every line up front, while the source strips
  each line as it is read. `Parser.ReadSection` and the other feeder methods
  are proved to agree with the stripped view.
- The three listing loops (`$Nodes`, `$Elements`, `$PhysicalNames`) are one
  generic loop, `Parser.ListingBody`, parametrised by the line reader. Its
  set-up, finalize and count-mismatch message depend on the listing.
- `memoize_method` caching is left out: the memoized methods are pure
  functions of the element type.
- `GmshMeshReceiverNumPy.add_element` ignores `lexicographic_nodes` (its own
  TODO), and so does the model.
- MeshReading.SmallMeshIntoNumPy: states the result for a point element with
  code 15 only, the code the standard map gives it.
- LineSource.LineFeeder.HasNextLine: models the iterator as a list with a
  position, so iterators that are exhausted and then yield more lines are
  not covered.
