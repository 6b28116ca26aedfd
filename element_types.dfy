/** The element-type taxonomy of the MSH 2 reader (gmsh_interop/reader.py):
    per kind and order, the vertex and node counts, the node tuples in the
    file's own order and in lexicographic order, the permutation between
    the two, the numeric type code, and the code-to-type map. */
module ElementTypes {
  import opened Wrappers
  import opened Tuples

  datatype ElementKind =
    | Point
    | Interval
    | IncompleteTriangle
    | Triangle
    | Tetrahedron
    | Quadrilateral
    | Hexahedron

  /** One element class instance: its kind and its polynomial order. */
  datatype ElementType = ElementType(kind: ElementKind, order: nat)

  function Dimensions(kind: ElementKind): nat {
    match kind
    case Point => 0
    case Interval => 1
    case IncompleteTriangle | Triangle | Quadrilateral => 2
    case Tetrahedron | Hexahedron => 3
  }

  predicate IsTensorProduct(kind: ElementKind) {
    kind == Quadrilateral || kind == Hexahedron
  }

  /** The kinds whose codes and file-order tuples come from the external
      node-tuple tables. */
  predicate IsTabulated(kind: ElementKind) {
    kind == Triangle || kind == Tetrahedron || kind == Quadrilateral || kind == Hexahedron
  }

  /** The (kind, order) pairs the reader registers. */
  predicate Supported(et: ElementType) {
    match et.kind
    case Point => et.order == 0
    case IncompleteTriangle => 3 <= et.order <= 5
    case Hexahedron => 1 <= et.order <= 9
    case _ => 1 <= et.order <= 10
  }

  // ---------------------------------------------------------------- counts

  function VertexCount(et: ElementType): nat {
    if IsTensorProduct(et.kind) then Pow(2, Dimensions(et.kind)) else Dimensions(et.kind) + 1
  }

  lemma DivNat(a: nat, b: nat)
    requires b >= 1
    ensures a / b >= 0
  {
  }

  /** Simplices: (order+1)...(order+dim) / dim!; tensor products:
      (order+1)^dim. */
  function NodeCount(et: ElementType): nat {
    var d := Dimensions(et.kind);
    if IsTensorProduct(et.kind) then Pow(et.order + 1, d)
    else
      DivNat(RisingProduct(et.order, d), Factorial(d));
      RisingProduct(et.order, d) / Factorial(d)
  }

  /** The lexicographic node tuples; their number is the node count (the
      source asserts this). */
  function LexicographicNodeTuples(et: ElementType): (r: seq<NodeTuple>)
    ensures |r| == NodeCount(et)
  {
    var d := Dimensions(et.kind);
    if IsTensorProduct(et.kind) then
      TensorProductCount(et.order, d);
      TensorProductTuples(et.order, d)
    else
      SummingCount(et.order, d);
      SummingToAtMost(et.order, d)
  }

  /** Every lexicographic tuple list is strictly increasing with the first
      coordinate varying fastest, holds each lattice point of the reference
      element exactly once, and nothing else. */
  lemma LexicographicNodeTuplesFacts(et: ElementType, t: NodeTuple)
    ensures ColexSorted(LexicographicNodeTuples(et))
    ensures Distinct(LexicographicNodeTuples(et))
    ensures !IsTensorProduct(et.kind) ==>
      (t in LexicographicNodeTuples(et) <==> InSimplex(t, et.order, Dimensions(et.kind)))
    ensures IsTensorProduct(et.kind) ==>
      (t in LexicographicNodeTuples(et) <==> InBox(t, et.order + 1, Dimensions(et.kind)))
  {
    var d := Dimensions(et.kind);
    if IsTensorProduct(et.kind) {
      TensorProductSorted(et.order, d);
      TensorProductMembers(et.order, d, t);
    } else {
      SummingSorted(et.order, d);
      SummingMembers(et.order, d, t);
    }
    ColexSortedDistinct(LexicographicNodeTuples(et));
  }

  /** Simplex kinds have dim + 1 vertices and C(order + dim, dim) nodes;
      tensor-product kinds 2^dim vertices and (order + 1)^dim nodes. */
  lemma CountsClosedForm(et: ElementType)
    ensures !IsTensorProduct(et.kind) ==>
      VertexCount(et) == Dimensions(et.kind) + 1 &&
      Factorial(Dimensions(et.kind)) * NodeCount(et) == RisingProduct(et.order, Dimensions(et.kind))
    ensures IsTensorProduct(et.kind) ==>
      VertexCount(et) == Pow(2, Dimensions(et.kind)) &&
      NodeCount(et) == Pow(et.order + 1, Dimensions(et.kind))
  {
    if !IsTensorProduct(et.kind) {
      SummingCount(et.order, Dimensions(et.kind));
      SummingCountTimesFactorial(et.order, Dimensions(et.kind));
    }
  }

  lemma {:induction false} RisingAtLeastFactorial(order: nat, d: nat)
    requires order >= 1
    ensures RisingProduct(order, d) >= Factorial(d + 1)
  {
    if d > 0 {
      RisingAtLeastFactorial(order, d - 1);
      MulLe(Factorial(d), RisingProduct(order, d - 1), d + 1, order + d);
    }
  }

  lemma MulLe(a: nat, b: nat, c: nat, e: nat)
    requires a <= b && c <= e
    ensures a * c <= b * e
  {
    assert a * c <= b * c;
  }

  lemma {:induction false} PowLe(a: nat, b: nat, e: nat)
    requires a <= b
    ensures Pow(a, e) <= Pow(b, e)
  {
    if e > 0 {
      PowLe(a, b, e - 1);
      MulLe(a, b, Pow(a, e - 1), Pow(b, e - 1));
    }
  }

  /** Every supported element has at least as many nodes as vertices, so the
      vertex numbers are a prefix of the node numbers. */
  lemma VerticesAmongNodes(et: ElementType)
    requires Supported(et)
    ensures VertexCount(et) <= NodeCount(et)
  {
    CountsClosedForm(et);
    var d := Dimensions(et.kind);
    if IsTensorProduct(et.kind) {
      PowLe(2, et.order + 1, d);
    } else if d > 0 {
      RisingAtLeastFactorial(et.order, d);
      var f := Factorial(d);
      if NodeCount(et) < d + 1 {
        MulLe(f, f, NodeCount(et), d);
        assert false;
      }
    }
  }

  // ------------------------------------------------ file-order node tuples

  function TriangleVertexTuples(order: nat): seq<NodeTuple> {
    [[0, 0], [order, 0], [0, order]]
  }

  /** The edge nodes: bottom edge left to right, hypotenuse, then the left
      edge top to bottom. */
  function TriangleEdgeTuples(order: nat): (r: seq<NodeTuple>)
    requires order >= 1
    ensures |r| == 3 * (order - 1)
    ensures forall j :: 0 <= j < |r| ==>
      |r[j]| == 2 && 0 <= r[j][0] < order && 0 <= r[j][1] < order
      && (r[j][1] == 0 || r[j][0] + r[j][1] == order || r[j][0] == 0)
      && r[j] !in TriangleVertexTuples(order)
  {
    seq(order - 1, i requires 0 <= i < order - 1 => [i + 1, 0])
    + seq(order - 1, i requires 0 <= i < order - 1 => [order - (i + 1), i + 1])
    + seq(order - 1, i requires 0 <= i < order - 1 => [0, order - (i + 1)])
  }

  /** The interval's file order: both endpoints, then the interior nodes. */
  function IntervalGmshTuples(order: nat): (r: seq<NodeTuple>)
    requires order >= 1
    ensures |r| == order + 1
  {
    [[0], [order]] + seq(order - 1, i requires 0 <= i < order - 1 => [i + 1])
  }

  /** One row of an external node-tuple table: the type code and the
      file-order tuples of one order of one kind. */
  datatype TableEntry = TableEntry(elementType: int, nodeTuples: seq<NodeTuple>)

  /** The external node-tuple tables, keyed by order. */
  datatype NodeTupleData = NodeTupleData(
    triangle: map<int, TableEntry>,
    tetrahedron: map<int, TableEntry>,
    quadrangle: map<int, TableEntry>,
    hexahedron: map<int, TableEntry>)

  function Table(kind: ElementKind, data: NodeTupleData): map<int, TableEntry>
    requires IsTabulated(kind)
  {
    match kind
    case Triangle => data.triangle
    case Tetrahedron => data.tetrahedron
    case Quadrilateral => data.quadrangle
    case Hexahedron => data.hexahedron
  }

  /** The tables hold a row for every order the reader registers. */
  predicate Complete(data: NodeTupleData) {
    (forall o :: 1 <= o <= 10 ==> o in data.triangle && o in data.tetrahedron && o in data.quadrangle) &&
    (forall o :: 1 <= o <= 9 ==> o in data.hexahedron)
  }

  function GmshNodeTuples(et: ElementType, data: NodeTupleData): seq<NodeTuple>
    requires Supported(et) && Complete(data)
  {
    match et.kind
    case Point => [[]]
    case Interval => IntervalGmshTuples(et.order)
    case IncompleteTriangle => TriangleVertexTuples(et.order) + TriangleEdgeTuples(et.order)
    case _ => Table(et.kind, data)[et.order].nodeTuples
  }

  /** The MSH 2 numeric type code. */
  function TypeCode(et: ElementType, data: NodeTupleData): int
    requires Supported(et) && Complete(data)
  {
    match et.kind
    case Point => 15
    case Interval => [1, 8, 26, 27, 28, 62, 63, 64, 65, 66][et.order - 1]
    case IncompleteTriangle => if et.order == 3 then 20 else if et.order == 4 then 22 else 24
    case _ => Table(et.kind, data)[et.order].elementType
  }

  // ----------------------------------------------------------- permutation

  /** `{tup: i for i, tup in enumerate(gmsh)}`: a later duplicate overwrites
      an earlier one. */
  function IndexMap(gmsh: seq<NodeTuple>): (r: map<NodeTuple, nat>)
    ensures forall t :: t in r <==> t in gmsh
    ensures forall t :: t in r ==> r[t] < |gmsh| && gmsh[r[t]] == t
    ensures forall t, j :: t in r && r[t] < j < |gmsh| ==> gmsh[j] != t
  {
    if gmsh == [] then map[]
    else
      var last := |gmsh| - 1;
      var init := IndexMap(gmsh[..last]);
      assert forall t :: t in gmsh <==> t in gmsh[..last] || t == gmsh[last];
      init[gmsh[last] := last]
  }

  /** `get_lexicographic_gmsh_node_indices`: for each lexicographic tuple,
      its position in the file order; `None` stands for the `KeyError`
      raised when a lexicographic tuple is missing from the file order. */
  function LexGmshPermutation(gmsh: seq<NodeTuple>, lex: seq<NodeTuple>): (r: Option<seq<nat>>)
    ensures r.Some? <==> forall i :: 0 <= i < |lex| ==> lex[i] in gmsh
    ensures r.Some? ==> (|r.value| == |lex| &&
      forall i :: 0 <= i < |lex| ==> r.value[i] < |gmsh| && gmsh[r.value[i]] == lex[i])
  {
    var index := IndexMap(gmsh);
    if forall i :: 0 <= i < |lex| ==> lex[i] in index then
      Some(seq(|lex|, i requires 0 <= i < |lex| => index[lex[i]]))
    else None
  }

  function LexicographicGmshNodeIndices(et: ElementType, data: NodeTupleData): Option<seq<nat>>
    requires Supported(et) && Complete(data)
  {
    LexGmshPermutation(GmshNodeTuples(et, data), LexicographicNodeTuples(et))
  }

  /** The file order lists the same tuples as the lexicographic order, each
      once. */
  ghost predicate IsReordering(gmsh: seq<NodeTuple>, lex: seq<NodeTuple>) {
    |gmsh| == |lex| && Distinct(gmsh) && Distinct(lex) &&
    (forall t :: t in gmsh <==> t in lex)
  }

  predicate IsBijection(perm: seq<nat>, n: nat) {
    |perm| == n &&
    (forall i :: 0 <= i < n ==> perm[i] < n) &&
    (forall i, j :: 0 <= i < j < n ==> perm[i] != perm[j]) &&
    (forall k :: 0 <= k < n ==> k in perm)
  }

  /** When the file order is a duplicate-free reordering of the
      lexicographic order, the permutation exists and is a bijection of
      0..n-1. */
  lemma PermutationBijective(gmsh: seq<NodeTuple>, lex: seq<NodeTuple>)
    requires IsReordering(gmsh, lex)
    ensures LexGmshPermutation(gmsh, lex).Some?
    ensures IsBijection(LexGmshPermutation(gmsh, lex).value, |lex|)
  {
    assert forall i :: 0 <= i < |lex| ==> lex[i] in gmsh;
    PositionsBijective(gmsh, lex, LexGmshPermutation(gmsh, lex).value);
  }

  /** Positions in the file order of each lexicographic tuple form a
      bijection when the two orders list the same tuples, each once. */
  lemma PositionsBijective(gmsh: seq<NodeTuple>, lex: seq<NodeTuple>, perm: seq<nat>)
    requires IsReordering(gmsh, lex) && |perm| == |lex|
    requires forall i :: 0 <= i < |lex| ==> perm[i] < |gmsh| && gmsh[perm[i]] == lex[i]
    ensures IsBijection(perm, |lex|)
  {
    var n := |lex|;
    forall i, j | 0 <= i < j < n ensures perm[i] != perm[j] {
      assert gmsh[perm[i]] == lex[i] && gmsh[perm[j]] == lex[j];
    }
    forall k | 0 <= k < n ensures k in perm {
      assert gmsh[k] in lex;
      var i :| 0 <= i < n && lex[i] == gmsh[k];
      assert gmsh[perm[i]] == gmsh[k];
      assert perm[i] == k;
    }
  }

  /** The point element: one node, identity permutation. */
  lemma PointPermutation(data: NodeTupleData)
    requires Complete(data)
    ensures LexicographicGmshNodeIndices(ElementType(Point, 0), data) == Some([0])
  {
    var et := ElementType(Point, 0);
    assert LexicographicNodeTuples(et) == [[]];
    assert GmshNodeTuples(et, data) == [[]];
    var index := IndexMap([[]]);
    assert [] in index && index[[]] == 0;
    var perm := LexGmshPermutation([[]], [[]]).value;
    assert |perm| == 1 && perm[0] == 0;
    assert perm == [0];
  }

  /** The interval's lexicographic order is (0,), (1,), ..., (order,). */
  lemma IntervalLexTuples(order: nat)
    ensures LexicographicNodeTuples(ElementType(Interval, order)) ==
      seq(order + 1, k requires 0 <= k <= order => [k])
  {
    SummingLine(order);
  }

  /** Position of lexicographic node i in the interval's file order. */
  function IntervalPosition(order: nat, i: nat): nat {
    if i == 0 then 0 else if i == order then 1 else i + 1
  }

  lemma IntervalReordering(order: nat)
    requires order >= 1
    ensures IsReordering(IntervalGmshTuples(order), seq(order + 1, k requires 0 <= k <= order => [k]))
    ensures forall i :: 0 <= i <= order ==> IntervalGmshTuples(order)[IntervalPosition(order, i)] == [i]
  {
    var gmsh := IntervalGmshTuples(order);
    var lex := seq(order + 1, k requires 0 <= k <= order => [k]);
    assert forall j :: 0 <= j < |gmsh| ==> gmsh[j] == [if j == 0 then 0 else if j == 1 then order else j - 1];
    forall i, j | 0 <= i < j < |gmsh| ensures gmsh[i] != gmsh[j] {
      assert gmsh[i][0] != gmsh[j][0];
    }
    forall i, j | 0 <= i < j < |lex| ensures lex[i] != lex[j] {
      assert lex[i][0] != lex[j][0];
    }
    forall t ensures t in gmsh <==> t in lex {
      if t in gmsh {
        var j :| 0 <= j < |gmsh| && gmsh[j] == t;
        assert t == lex[t[0]];
      }
      if t in lex {
        var i :| 0 <= i < |lex| && lex[i] == t;
        assert gmsh[IntervalPosition(order, i)] == t;
      }
    }
  }

  /** In a reordering, a position map that sends every lexicographic tuple
      to a file position holding it is the permutation. */
  lemma PermutationUnique(gmsh: seq<NodeTuple>, lex: seq<NodeTuple>, f: seq<nat>)
    requires IsReordering(gmsh, lex) && |f| == |lex|
    requires forall i :: 0 <= i < |lex| ==> f[i] < |gmsh| && gmsh[f[i]] == lex[i]
    ensures LexGmshPermutation(gmsh, lex) == Some(f)
  {
    PermutationBijective(gmsh, lex);
    var perm := LexGmshPermutation(gmsh, lex).value;
    forall i | 0 <= i < |lex| ensures perm[i] == f[i] {
      assert gmsh[perm[i]] == gmsh[f[i]];
    }
    assert perm == f;
  }

  /** The interval: the endpoints come first in the file, so lexicographic
      node 0 is file node 0, node `order` is file node 1 and every interior
      node i is file node i + 1; this is a bijection. */
  lemma IntervalPermutation(order: nat, data: NodeTupleData)
    requires 1 <= order <= 10 && Complete(data)
    ensures LexicographicGmshNodeIndices(ElementType(Interval, order), data) ==
      Some(seq(order + 1, i requires 0 <= i <= order => IntervalPosition(order, i)))
    ensures IsBijection(LexicographicGmshNodeIndices(ElementType(Interval, order), data).value, order + 1)
  {
    var et := ElementType(Interval, order);
    var gmsh := IntervalGmshTuples(order);
    var lex := seq(order + 1, k requires 0 <= k <= order => [k]);
    assert GmshNodeTuples(et, data) == gmsh;
    IntervalLexTuples(order);
    IntervalReordering(order);
    PermutationBijective(gmsh, lex);
    PermutationUnique(gmsh, lex, seq(order + 1, i requires 0 <= i <= order => IntervalPosition(order, i)));
  }

  lemma InteriorNotOnBoundary(order: nat)
    requires order >= 3
    ensures [1, 1] !in TriangleVertexTuples(order) + TriangleEdgeTuples(order)
  {
  }

  /** The incomplete triangles as written cannot be mapped: their node count
      is the complete simplex count (10, 15, 21) while the file order lists
      only the 3 * order boundary nodes, and the interior tuple (1, 1) has no
      file position, so the permutation lookup fails. */
  lemma IncompleteTrianglePermutationUndefined(order: nat, data: NodeTupleData)
    requires 3 <= order <= 5 && Complete(data)
    ensures |GmshNodeTuples(ElementType(IncompleteTriangle, order), data)| == 3 * order
    ensures NodeCount(ElementType(IncompleteTriangle, order)) == (order + 1) * (order + 2) / 2
    ensures LexicographicGmshNodeIndices(ElementType(IncompleteTriangle, order), data).None?
  {
    var et := ElementType(IncompleteTriangle, order);
    SummingMembers(order, 2, [1, 1]);
    assert Sum([1, 1]) == 2 by {
      assert [1, 1][..1] == [1];
      assert [1][..0] == [];
    }
    assert [1, 1] in LexicographicNodeTuples(et);
    InteriorNotOnBoundary(order);
    assert RisingProduct(order, 1) == order + 1;
    assert RisingProduct(order, 2) == (order + 1) * (order + 2);
    assert Factorial(2) == 2;
  }

  // ------------------------------------------------------ the type registry

  /** The registered element types, in registration order. */
  function SupportedElements(): (r: seq<ElementType>)
    ensures forall i :: 0 <= i < |r| ==> Supported(r[i])
  {
    [ElementType(Point, 0)]
    + seq(10, n requires 0 <= n < 10 => ElementType(Interval, n + 1))
    + [ElementType(IncompleteTriangle, 3), ElementType(IncompleteTriangle, 4), ElementType(IncompleteTriangle, 5)]
    + seq(10, n requires 0 <= n < 10 => ElementType(Triangle, n + 1))
    + seq(10, n requires 0 <= n < 10 => ElementType(Tetrahedron, n + 1))
    + seq(10, n requires 0 <= n < 10 => ElementType(Quadrilateral, n + 1))
    + seq(9, n requires 0 <= n < 9 => ElementType(Hexahedron, n + 1))
  }

  /** Every supported element type is registered. */
  lemma SupportedElementsComplete(et: ElementType)
    ensures et in SupportedElements() <==> Supported(et)
  {
    var r := SupportedElements();
    if Supported(et) {
      var i := match et.kind
        case Point => 0
        case Interval => et.order
        case IncompleteTriangle => 11 + (et.order - 3)
        case Triangle => 13 + et.order
        case Tetrahedron => 23 + et.order
        case Quadrilateral => 33 + et.order
        case Hexahedron => 43 + et.order;
      assert r[i] == et;
    }
  }

  /** No element after position `i` shares its type code. */
  predicate LastWithCode(elements: seq<ElementType>, i: nat, data: NodeTupleData)
    requires Complete(data)
    requires forall k :: 0 <= k < |elements| ==> Supported(elements[k])
    requires i < |elements|
  {
    forall j :: i < j < |elements| ==> TypeCode(elements[j], data) != TypeCode(elements[i], data)
  }

  /** `{el.element_type: el for el in elements}`: a later element with the
      same code overwrites an earlier one. */
  function BuildTypeMap(elements: seq<ElementType>, data: NodeTupleData): (r: map<int, ElementType>)
    requires Complete(data)
    requires forall i :: 0 <= i < |elements| ==> Supported(elements[i])
    ensures forall c :: c in r ==> r[c] in elements && TypeCode(r[c], data) == c
    ensures forall i :: 0 <= i < |elements| ==> TypeCode(elements[i], data) in r
    ensures forall i :: 0 <= i < |elements| && LastWithCode(elements, i, data) ==>
      r[TypeCode(elements[i], data)] == elements[i]
  {
    if elements == [] then map[]
    else
      var last := elements[|elements| - 1];
      var init := BuildTypeMap(elements[..|elements| - 1], data);
      assert forall i :: 0 <= i < |elements| - 1 ==> elements[i] == elements[..|elements| - 1][i];
      init[TypeCode(last, data) := last]
  }

  /** The reader's code-to-element map. */
  function TypeMap(data: NodeTupleData): (r: map<int, ElementType>)
    requires Complete(data)
    ensures forall c :: c in r ==> Supported(r[c]) && TypeCode(r[c], data) == c
  {
    BuildTypeMap(SupportedElements(), data)
  }

  /** An entry of the reader's code-to-element map: the element type and
      its (memoised) lexicographic-to-Gmsh node permutation. */
  datatype ElementInfo = ElementInfo(elementType: ElementType, lexicographicGmshNodeIndices: Option<seq<nat>>)

  /** `gmsh_element_type_to_info_map`, the class-level map every receiver
      inherits. */
  function InfoMap(data: NodeTupleData): (r: map<int, ElementInfo>)
    requires Complete(data)
    ensures forall c :: c in r <==> c in TypeMap(data)
    ensures forall c :: c in r ==>
      Supported(r[c].elementType) && TypeCode(r[c].elementType, data) == c &&
      r[c].lexicographicGmshNodeIndices == LexicographicGmshNodeIndices(r[c].elementType, data)
  {
    var types := TypeMap(data);
    map c | c in types :: ElementInfo(types[c], LexicographicGmshNodeIndices(types[c], data))
  }

  /** No two registered types share a code (the fixed codes of points,
      intervals and incomplete triangles are distinct; the tables must not
      reuse them or each other). */
  ghost predicate CodesDistinct(data: NodeTupleData)
    requires Complete(data)
  {
    forall a, b :: Supported(a) && Supported(b) && a != b ==> TypeCode(a, data) != TypeCode(b, data)
  }

  /** A code is in the map exactly when some registered type has it, the map
      only ever returns a type with the code asked for, and with distinct
      codes it returns the one type that has it. */
  lemma TypeMapLookup(data: NodeTupleData, code: int)
    requires Complete(data)
    ensures code in TypeMap(data) <==> exists et :: Supported(et) && TypeCode(et, data) == code
    ensures code in TypeMap(data) ==> Supported(TypeMap(data)[code]) && TypeCode(TypeMap(data)[code], data) == code
    ensures CodesDistinct(data) ==>
      forall et :: Supported(et) && TypeCode(et, data) == code ==> TypeMap(data)[code] == et
  {
    var r := TypeMap(data);
    forall et | Supported(et) && TypeCode(et, data) == code ensures code in r {
      SupportedElementsComplete(et);
    }
    if code in r {
      SupportedElementsComplete(r[code]);
    }
  }

  /** The tables list, for every registered order, a duplicate-free
      reordering of the lexicographic tuples. */
  ghost predicate TablesAreReorderings(data: NodeTupleData)
    requires Complete(data)
  {
    forall et :: Supported(et) && IsTabulated(et.kind) ==>
      IsReordering(GmshNodeTuples(et, data), LexicographicNodeTuples(et))
  }

  /** Every registered type except the incomplete triangles has a
      permutation, and it is a bijection of 0..node_count-1. */
  lemma RegisteredPermutationsBijective(et: ElementType, data: NodeTupleData)
    requires Supported(et) && Complete(data) && TablesAreReorderings(data)
    requires et.kind != IncompleteTriangle
    ensures LexicographicGmshNodeIndices(et, data).Some?
    ensures IsBijection(LexicographicGmshNodeIndices(et, data).value, NodeCount(et))
  {
    if et.kind == Point {
      PointPermutation(data);
    } else if et.kind == Interval {
      IntervalPermutation(et.order, data);
    } else {
      PermutationBijective(GmshNodeTuples(et, data), LexicographicNodeTuples(et));
    }
  }
}
