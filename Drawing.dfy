/** A polyhedron as a growable list of 3D vertices (Drawing/Polyhedron.cs).
    Coordinates are `float`s, which this model never computes with: a
    `Single` is only its 32-bit pattern, compared for identity. */
module Drawing {
  import opened Common

  /** A `float`, kept as its IEEE-754 bit pattern. */
  datatype Single = Single(bits: bv32)

  /** The `float` 0 (+0.0). */
  const Zero: Single := Single(0)

  /** `System.Numerics.Vector3`. */
  datatype Vector3 = Vector3(x: Single, y: Single, z: Single)

  /** `System.Drawing.Point`. */
  datatype Point = Point(x: Int32, y: Int32)

  /** `System.Drawing.PointF`. */
  datatype PointF = PointF(x: Single, y: Single)

  class Polyhedron {
    /** The private list `_vertices`. */
    var vertices: seq<Vector3>

    /** `new Polyhedron()`: no vertices. */
    constructor ()
      ensures vertices == []
    {
      vertices := [];
    }

    /** `new Polyhedron(vertices)` with a non-null argument: a new list holding
        the given vertices in order. */
    constructor OfVertices(vs: seq<Vector3>)
      ensures vertices == vs
    {
      vertices := vs;
    }

    /** `new Polyhedron(IEnumerable<Vector3>)`: null throws. */
    static method Create(vs: Option<seq<Vector3>>) returns (r: Result<Polyhedron>)
      ensures vs.None? <==> r == Failure(ArgumentNull)
      ensures vs.Some? ==> r.Success? && fresh(r.value) && r.value.vertices == vs.value
    {
      if vs.None? {
        return Failure(ArgumentNull);
      }
      var p := new Polyhedron.OfVertices(vs.value);
      return Success(p);
    }

    /** `new Polyhedron(Polyhedron)`: null throws; otherwise a new object
        with its own copy of the vertex list. */
    static method Copy(other: Polyhedron?) returns (r: Result<Polyhedron>)
      ensures other == null <==> r == Failure(ArgumentNull)
      ensures other != null ==> r.Success? && fresh(r.value) && r.value.vertices == other.vertices
    {
      if other == null {
        return Failure(ArgumentNull);
      }
      r := Create(Some(other.vertices));
    }

    /** `Empty`: a new polyhedron with no vertices on every read. */
    static method Empty() returns (p: Polyhedron)
      ensures fresh(p) && p.VertexCount() == 0
    {
      p := new Polyhedron();
    }

    /** `Vertices`: a read-only view of the list. */
    function Vertices(): seq<Vector3>
      reads this
    {
      vertices
    }

    /** `VertexCount`: the number of vertices, which is the length of
        `Vertices`. */
    function VertexCount(): (n: nat)
      reads this
      ensures n == |Vertices()|
    {
      |vertices|
    }

    /** `AddVertex`: appends one vertex at the end. */
    method AddVertex(vertex: Vector3)
      modifies this
      ensures vertices == old(vertices) + [vertex]
    {
      vertices := vertices + [vertex];
    }

    /** `AddVertices`: null throws and changes nothing; otherwise each
        vertex is appended in order. */
    method AddVertices(vs: Option<seq<Vector3>>) returns (r: Outcome)
      modifies this
      ensures vs.None? ==> r == Fail(ArgumentNull) && vertices == old(vertices)
      ensures vs.Some? ==> r == Pass && vertices == old(vertices) + vs.value
    {
      if vs.None? {
        return Fail(ArgumentNull);
      }
      var items := vs.value;
      for i := 0 to |items|
        invariant vertices == old(vertices) + items[..i]
      {
        AddVertex(items[i]);
        assert items[..i + 1] == items[..i] + [items[i]];
      }
      assert items[..|items|] == items;
      return Pass;
    }

    /** `ClearVertices`: no vertices are left. */
    method ClearVertices()
      modifies this
      ensures vertices == []
    {
      vertices := [];
    }

    /** `Equals(Polyhedron?)`: false for null; otherwise the two vertex
        lists have the same length and equal vertices at every position. */
    function Equals(other: Polyhedron?): (r: bool)
      reads this, other
      ensures r <==> other != null && |vertices| == |other.vertices| &&
                     forall i :: 0 <= i < |vertices| ==> vertices[i] == other.vertices[i]
    {
      other != null && vertices == other.vertices
    }

    /** `operator ==`: `object.Equals(left, right)`, which is true for the
        same reference (two nulls included), false when exactly one side is
        null, and `left.Equals(right)` otherwise. */
    static function Eq(left: Polyhedron?, right: Polyhedron?): (r: bool)
      reads left, right
      ensures left == null && right == null ==> r
      ensures (left == null) != (right == null) ==> !r
      ensures left != null ==> r == left.Equals(right)
    {
      left == right || (left != null && right != null && left.Equals(right))
    }

    /** `operator !=`: the negation of `==`. */
    static function Neq(left: Polyhedron?, right: Polyhedron?): (r: bool)
      reads left, right
      ensures r <==> !Eq(left, right)
    {
      !Eq(left, right)
    }
  }

  /** `==` is an equivalence on polyhedra, null included. */
  lemma EqIsEquivalence(a: Polyhedron?, b: Polyhedron?, c: Polyhedron?)
    ensures Polyhedron.Eq(a, a)
    ensures Polyhedron.Eq(a, b) == Polyhedron.Eq(b, a)
    ensures Polyhedron.Eq(a, b) && Polyhedron.Eq(b, c) ==> Polyhedron.Eq(a, c)
  {
  }

  /** A copy is a separate object: adding to it leaves the original alone. */
  method CopyIsIndependent(original: Polyhedron, vertex: Vector3) returns (copy: Polyhedron)
    ensures fresh(copy) && copy.vertices == original.vertices + [vertex]
    ensures original.vertices == old(original.vertices)
  {
    var r := Polyhedron.Copy(original);
    copy := r.value;
    copy.AddVertex(vertex);
  }

  /** `FromPolygon`: null throws; each point (x, y) becomes the vertex
      (x, y, 0) in the same order. Converting an `int` coordinate to `float`
      is the framework's and is the parameter `toSingle`. */
  method FromPolygon(polygon: Option<seq<Point>>, toSingle: Int32 -> Single) returns (r: Result<Polyhedron>)
    ensures polygon.None? <==> r == Failure(ArgumentNull)
    ensures polygon.Some? ==> r.Success? && fresh(r.value)
    ensures polygon.Some? ==> |r.value.vertices| == |polygon.value|
    ensures polygon.Some? ==> forall i :: 0 <= i < |polygon.value| ==>
      r.value.vertices[i] == Vector3(toSingle(polygon.value[i].x), toSingle(polygon.value[i].y), Zero)
  {
    if polygon.None? {
      return Failure(ArgumentNull);
    }
    var points := polygon.value;
    var vs: seq<Vector3> := [];
    for i := 0 to |points|
      invariant |vs| == i
      invariant forall j :: 0 <= j < i ==> vs[j] == Vector3(toSingle(points[j].x), toSingle(points[j].y), Zero)
    {
      vs := vs + [Vector3(toSingle(points[i].x), toSingle(points[i].y), Zero)];
    }
    r := Polyhedron.Create(Some(vs));
  }

  /** `FromPolygonF`: null throws; each point (x, y) becomes the vertex
      (x, y, 0) in the same order. */
  method FromPolygonF(polygon: Option<seq<PointF>>) returns (r: Result<Polyhedron>)
    ensures polygon.None? <==> r == Failure(ArgumentNull)
    ensures polygon.Some? ==> r.Success? && fresh(r.value)
    ensures polygon.Some? ==> |r.value.vertices| == |polygon.value|
    ensures polygon.Some? ==> forall i :: 0 <= i < |polygon.value| ==>
      r.value.vertices[i] == Vector3(polygon.value[i].x, polygon.value[i].y, Zero)
  {
    if polygon.None? {
      return Failure(ArgumentNull);
    }
    var points := polygon.value;
    var vs: seq<Vector3> := [];
    for i := 0 to |points|
      invariant |vs| == i
      invariant forall j :: 0 <= j < i ==> vs[j] == Vector3(points[j].x, points[j].y, Zero)
    {
      vs := vs + [Vector3(points[i].x, points[i].y, Zero)];
    }
    r := Polyhedron.Create(Some(vs));
  }

  /** The implicit conversion from `Polygon`: null gives null, anything else
      goes through `FromPolygon`. */
  method ImplicitFromPolygon(polygon: Option<seq<Point>>, toSingle: Int32 -> Single) returns (r: Polyhedron?)
    ensures polygon.None? <==> r == null
    ensures r != null ==> fresh(r) && |r.vertices| == |polygon.value|
    ensures r != null ==> forall i :: 0 <= i < |polygon.value| ==>
      r.vertices[i] == Vector3(toSingle(polygon.value[i].x), toSingle(polygon.value[i].y), Zero)
  {
    if polygon.None? {
      return null;
    }
    var converted := FromPolygon(polygon, toSingle);
    r := converted.value;
  }

  /** The implicit conversion from `PolygonF`: null gives null, anything
      else goes through `FromPolygonF`. */
  method ImplicitFromPolygonF(polygon: Option<seq<PointF>>) returns (r: Polyhedron?)
    ensures polygon.None? <==> r == null
    ensures r != null ==> fresh(r) && |r.vertices| == |polygon.value|
    ensures r != null ==> forall i :: 0 <= i < |polygon.value| ==>
      r.vertices[i] == Vector3(polygon.value[i].x, polygon.value[i].y, Zero)
  {
    if polygon.None? {
      return null;
    }
    var converted := FromPolygonF(polygon);
    r := converted.value;
  }
}
