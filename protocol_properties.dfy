/** The calls of every parse keep the receiver protocol: each listing
    section sets up, adds its entries with indices 0, 1, 2, ... in order
    and finalizes only with the declared count, and the other sections make
    no call. A parse that ends without an error leaves the receiver between
    sections. */
module ProtocolProperties {
  import opened Wrappers
  import opened Text
  import opened ElementTypes
  import opened GmshErrors
  import opened ReceiverPort
  import opened Parser

  /** The call an entry line of `listing` must make when `before` entries
      came before it. */
  predicate EntryFits(listing: Listing, call: Call, before: nat) {
    match listing
    case NodeListing => call.AddNode? && call.nodeNr == before
    case ElementListing => call.AddElement? && call.elementNr == before
    case NameListing => call.AddTag?
  }

  /** Every entry the reader accepts makes the call its listing expects. */
  ghost predicate Fits(listing: Listing, read: EntryReader) {
    forall line, before :: read(line, before).Ok? ==> EntryFits(listing, read(line, before).value, before)
  }

  /** A node line that reads adds the node its position names. */
  lemma NodeReaderFits(forceDimension: Option<int>)
    ensures Fits(NodeListing, NodeReader(forceDimension))
  {
    forall line: string, before: nat | NodeReader(forceDimension)(line, before).Ok?
      ensures EntryFits(NodeListing, NodeReader(forceDimension)(line, before).value, before)
    {
      assert NodeReader(forceDimension)(line, before) == NodeLine(line, before + 1, forceDimension);
    }
  }

  /** An element line that reads adds the element its position names. */
  lemma ElementReaderFits(elementTypes: map<int, ElementInfo>)
    ensures Fits(ElementListing, ElementReader(elementTypes))
  {
    forall line: string, before: nat | ElementReader(elementTypes)(line, before).Ok?
      ensures EntryFits(ElementListing, ElementReader(elementTypes)(line, before).value, before)
    {
      assert ElementReader(elementTypes)(line, before) == ElementLine(line, before + 1, elementTypes);
    }
  }

  /** A physical-name line that reads adds a tag. */
  lemma NameReaderFits()
    ensures Fits(NameListing, NameReader())
  {
    forall line: string, before: nat | NameReader()(line, before).Ok?
      ensures EntryFits(NameListing, NameReader()(line, before).value, before)
    {
      assert NameReader()(line, before) == PhysicalNameLine(line);
    }
  }

  /** Where the protocol is after a listing's set-up and `added` entries. */
  function ListingPhase(listing: Listing, count: int, added: nat): Phase {
    match listing
    case NodeListing => InNodes(count, added)
    case ElementListing => InElements(count, added)
    case NameListing => if added == 0 then Between else InTags(added)
  }

  /** The entry and finalizing calls of a listing keep the protocol, and
      the listing leaves it between sections when it is read to its end. */
  lemma {:induction false} ListingBodyProtocol(rest: seq<string>, listing: Listing, read: EntryReader,
                                               count: int, idx: nat, calls: seq<Call>, warnings: seq<Warning>)
    requires idx >= 1 && Fits(listing, read)
    requires RunFrom(Between, calls) == Some(ListingPhase(listing, count, idx - 1))
    ensures var r := ListingBody(rest, listing, read, count, idx, calls, warnings);
      RunFrom(Between, r.calls).Some? && (r.Finished? ==> RunFrom(Between, r.calls) == Some(Between))
    decreases |rest|
  {
    if rest != [] {
      if rest[0] == EndMarker(listing) {
        if count + 1 == idx {
          RunFromSnoc(Between, calls, Finalizer(listing));
        }
      } else {
        match read(rest[0], idx - 1)
        case Err(_) =>
        case Ok(call) =>
          assert EntryFits(listing, call, idx - 1);
          RunFromSnoc(Between, calls, call);
          ListingBodyProtocol(rest[1..], listing, read, count, idx + 1, calls + [call], warnings);
      }
    }
  }

  /** A whole listing section, from between sections. */
  lemma ListingSectionProtocol(rest: seq<string>, listing: Listing, read: EntryReader,
                               calls: seq<Call>, warnings: seq<Warning>)
    requires Fits(listing, read) && RunFrom(Between, calls) == Some(Between)
    ensures var r := ListingSection(rest, listing, read, calls, warnings);
      RunFrom(Between, r.calls).Some? && (r.Finished? ==> RunFrom(Between, r.calls) == Some(Between))
  {
    if rest != [] && ParseInt(rest[0]).Some? {
      var count := ParseInt(rest[0]).value;
      RunFromAppend(Between, calls, SetUp(listing, count));
      assert RunFrom(Between, calls + SetUp(listing, count)) == Some(ListingPhase(listing, count, 0));
      ListingBodyProtocol(rest[1..], listing, read, count, 1, calls + SetUp(listing, count), warnings);
    }
  }

  /** Skipping an unknown section makes no call. */
  lemma {:induction false} SkipBodyCalls(rest: seq<string>, name: string, calls: seq<Call>, warnings: seq<Warning>)
    ensures SkipBody(rest, name, calls, warnings).calls == calls
    decreases |rest|
  {
    if rest != [] && rest[0] != "$End" + name {
      SkipBodyCalls(rest[1..], name, calls, warnings);
    }
  }

  /** `$MeshFormat` makes no call. */
  lemma {:induction false} MeshFormatBodyCalls(rest: seq<string>, lineCount: nat, calls: seq<Call>, warnings: seq<Warning>)
    ensures MeshFormatBody(rest, lineCount, calls, warnings).calls == calls
    decreases |rest|
  {
    if rest != [] && rest[0] != "$EndMeshFormat" && lineCount == 0 {
      var check := MeshFormatLine(rest[0]);
      if check.error.None? {
        MeshFormatBodyCalls(rest[1..], lineCount + 1, calls, warnings + check.warnings);
      }
    }
  }

  /** Any one section, from between sections. */
  lemma SectionProtocol(name: string, rest: seq<string>, opts: Options, calls: seq<Call>, warnings: seq<Warning>)
    requires RunFrom(Between, calls) == Some(Between)
    ensures var r := Section(name, rest, opts, calls, warnings);
      RunFrom(Between, r.calls).Some? && (r.Finished? ==> RunFrom(Between, r.calls) == Some(Between))
  {
    if name == "MeshFormat" {
      MeshFormatBodyCalls(rest, 0, calls, warnings);
    } else if name == "Nodes" {
      NodeReaderFits(opts.forceDimension);
      ListingSectionProtocol(rest, NodeListing, NodeReader(opts.forceDimension), calls, warnings);
    } else if name == "Elements" {
      ElementReaderFits(opts.elementTypes);
      ListingSectionProtocol(rest, ElementListing, ElementReader(opts.elementTypes), calls, warnings);
    } else if name == "PhysicalNames" {
      NameReaderFits();
      ListingSectionProtocol(rest, NameListing, NameReader(), calls, warnings);
    } else {
      SkipBodyCalls(rest, name, calls, warnings + [UnrecognizedSection(name)]);
    }
  }

  lemma {:induction false} SectionsProtocol(rest: seq<string>, opts: Options, calls: seq<Call>, warnings: seq<Warning>)
    requires RunFrom(Between, calls) == Some(Between)
    ensures var p := Sections(rest, opts, calls, warnings);
      RunFrom(Between, p.calls).Some? && (p.error.None? ==> RunFrom(Between, p.calls) == Some(Between))
    decreases |rest|
  {
    if rest != [] && StartsWith(rest[0], "$") {
      var r := Section(rest[0][1..], rest[1..], opts, calls, warnings);
      SectionProtocol(rest[0][1..], rest[1..], opts, calls, warnings);
      if r.Finished? {
        SectionsProtocol(r.rest, opts, r.calls, r.warnings);
      }
    }
  }

  /** Every parse drives its receiver by the protocol, whether it ends in
      an error or not; one that ends without an error leaves the receiver
      between sections, every listing finalized. */
  lemma ParseFollowsProtocol(lines: seq<string>, opts: Options)
    ensures var p := ParseLines(lines, opts);
      RunFrom(Between, p.calls).Some? && (p.error.None? ==> FollowsProtocol(p.calls))
  {
    SectionsProtocol(StripAll(lines), opts, [], []);
  }
}
