/** `torus_obj` and `torus_knot_obj`: a doubly wrapped grid, two triangles a cell. */
module Torus {
  import opened Chains
  import opened Grid
  import Validators

  type Corner = (int, int)

  /** The source's `idx`. */
  function Idx(i: int, j: int, major: int, minor: int): int
    requires major > 0 && minor > 0
  {
    (i % major) * minor + (j % minor)
  }

  /** Corner `k` of triangle `t` of cell (i, j), as grid coordinates before wrapping. */
  function Offset(t: int, k: int): Corner {
    if k == 0 then (0, 0)
    else if t == 0 then (if k == 1 then (1, 0) else (1, 1))
    else (if k == 1 then (1, 1) else (0, 1))
  }

  function TriangleAt(i: int, j: int, t: int, major: int, minor: int): Face
    requires major > 0 && minor > 0
  {
    if t == 0 then
      [Idx(i, j, major, minor), Idx(i + 1, j, major, minor), Idx(i + 1, j + 1, major, minor)]
    else
      [Idx(i, j, major, minor), Idx(i + 1, j + 1, major, minor), Idx(i, j + 1, major, minor)]
  }

  /** Face number `x`: cell `x / 2` in row-major order, then its two triangles. */
  function TorusFace(x: nat, major: int, minor: int): Face
    requires major > 0 && minor > 0
  {
    TriangleAt(x / 2 / minor, x / 2 % minor, x % 2, major, minor)
  }

  function TorusFaces(major: int, minor: int): (r: seq<Face>)
    requires major > 0 && minor > 0
    ensures |r| == 2 * (major * minor)
    ensures forall x :: 0 <= x < |r| ==> r[x] == TorusFace(x, major, minor)
  {
    seq(2 * (major * minor), x requires 0 <= x => TorusFace(x, major, minor))
  }

  // ---------------------------------------------------------------- the generators

  /** The faces to emit, if any. */
  function Whole(major: nat, minor: nat): seq<Face> {
    if major == 0 || minor == 0 then [] else TorusFaces(major, minor)
  }

  method TorusObj(major: nat, minor: nat) returns (vertices: nat, faces: seq<Face>)
    ensures vertices == major * minor && faces == Whole(major, minor)
  {
    vertices := AppendGrid(major, minor, 0);
    faces := [];
    for i := 0 to major
      invariant Emitted(Whole(major, minor), faces, 2 * At(i, 0, minor))
    {
      for j := 0 to minor
        invariant Emitted(Whole(major, minor), faces, 2 * At(i, j, minor))
      {
        var low := [Idx(i, j, major, minor), Idx(i + 1, j, major, minor), Idx(i + 1, j + 1, major, minor)];
        var high := [Idx(i, j, major, minor), Idx(i + 1, j + 1, major, minor), Idx(i, j + 1, major, minor)];
        EmitCell(i, j, major, minor, faces, low, high);
        faces := faces + [low];
        faces := faces + [high];
      }
      RowDone(i, minor);
    }
    AllEmitted(major, minor, faces);
  }

  /** The knot's tube is indexed as the torus is: `n` rings of `tube` vertices, both wrapped. */
  method TorusKnotObj(n: nat, tube: nat) returns (vertices: nat, faces: seq<Face>)
    ensures vertices == n * tube && faces == Whole(n, tube)
  {
    vertices := AppendGrid(n, tube, 0);
    faces := [];
    for i := 0 to n
      invariant Emitted(Whole(n, tube), faces, 2 * At(i, 0, tube))
    {
      for j := 0 to tube
        invariant Emitted(Whole(n, tube), faces, 2 * At(i, j, tube))
      {
        var a, b, c, d := Idx(i, j, n, tube), Idx(i + 1, j, n, tube),
                          Idx(i + 1, j + 1, n, tube), Idx(i, j + 1, n, tube);
        EmitCell(i, j, n, tube, faces, [a, b, c], [a, c, d]);
        faces := faces + [[a, b, c]];
        faces := faces + [[a, c, d]];
      }
      RowDone(i, tube);
    }
    AllEmitted(n, tube, faces);
  }

  lemma EmitCell(i: nat, j: nat, major: nat, minor: nat, faces: seq<Face>, low: Face, high: Face)
    requires i < major && j < minor && Emitted(Whole(major, minor), faces, 2 * At(i, j, minor))
    requires low == TriangleAt(i, j, 0, major, minor) && high == TriangleAt(i, j, 1, major, minor)
    ensures Emitted(Whole(major, minor), faces + [low] + [high], 2 * At(i, j + 1, minor))
  {
    CellFace(i, j, 0, major, minor);
    CellFace(i, j, 1, major, minor);
    Emit(Whole(major, minor), faces, low);
    Emit(Whole(major, minor), faces + [low], high);
  }

  lemma RowDone(i: nat, minor: nat)
    ensures At(i, minor, minor) == At(i + 1, 0, minor)
  {
  }

  lemma AllEmitted(major: nat, minor: nat, faces: seq<Face>)
    requires Emitted(Whole(major, minor), faces, 2 * At(major, 0, minor))
    ensures faces == Whole(major, minor)
  {
  }

  // ---------------------------------------------------------------- corners in the wrapped grid

  /** Corner `k` of triangle `t` of cell (i, j), wrapped. */
  function Wrapped(i: int, j: int, t: int, k: int, major: int, minor: int): Corner {
    var o := Offset(t, k);
    (if o.0 == 0 then i else Succ(i, major), if o.1 == 0 then j else Succ(j, minor))
  }

  ghost predicate InGrid(c: Corner, major: int, minor: int) {
    0 <= c.0 < major && 0 <= c.1 < minor
  }

  function Number(c: Corner, minor: int): int {
    At(c.0, c.1, minor)
  }

  lemma NumberInjective(c: Corner, d: Corner, major: int, minor: int)
    requires InGrid(c, major, minor) && InGrid(d, major, minor)
    requires Number(c, minor) == Number(d, minor)
    ensures c == d
  {
    Decode(c.0, c.1, minor);
    Decode(d.0, d.1, minor);
  }

  lemma CornerNumbers(i: int, j: int, t: int, k: int, major: int, minor: int)
    requires 0 <= i < major && 0 <= j < minor && 0 <= t < 2 && 0 <= k < 3
    ensures |TriangleAt(i, j, t, major, minor)| == 3
    ensures TriangleAt(i, j, t, major, minor)[k] == Number(Wrapped(i, j, t, k, major, minor), minor)
    ensures InGrid(Wrapped(i, j, t, k, major, minor), major, minor)
  {
    ModSucc(i, major);
    ModSucc(j, minor);
  }

  /** The cell, triangle and corner that a directed edge between wrapped corners belongs to:
      the six directions around a vertex tell the corners of the six triangles apart. */
  function Locate(a: Corner, b: Corner, major: int, minor: int): (int, int, int, int) {
    if b == (Succ(a.0, major), a.1) then (a.0, a.1, 0, 0)
    else if b == (a.0, Succ(a.1, minor)) then (Pred(a.0, major), a.1, 0, 1)
    else if b == (Pred(a.0, major), Pred(a.1, minor)) then (b.0, b.1, 0, 2)
    else if b == (Succ(a.0, major), Succ(a.1, minor)) then (a.0, a.1, 1, 0)
    else if b == (Pred(a.0, major), a.1) then (b.0, Pred(a.1, minor), 1, 1)
    else (b.0, b.1, 1, 2)
  }

  lemma Located(i: int, j: int, t: int, k: int, major: int, minor: int)
    requires major >= 3 && minor >= 3 && 0 <= i < major && 0 <= j < minor && 0 <= t < 2 && 0 <= k < 3
    ensures Locate(Wrapped(i, j, t, k, major, minor), Wrapped(i, j, t, Next(k, 3), major, minor), major, minor)
            == (i, j, t, k)
  {
  }

  /** The corner that walks the same edge backwards. */
  function Twin(i: int, j: int, t: int, k: int, major: int, minor: int): (int, int, int, int) {
    if t == 0 then
      (if k == 0 then (i, Pred(j, minor), 1, 1)
       else if k == 1 then (Succ(i, major), j, 1, 2)
       else (i, j, 1, 0))
    else
      (if k == 0 then (i, j, 0, 2)
       else if k == 1 then (i, Succ(j, minor), 0, 0)
       else (Pred(i, major), j, 0, 1))
  }

  lemma TwinReverses(i: int, j: int, t: int, k: int, major: int, minor: int)
    requires 0 <= i < major && 0 <= j < minor && 0 <= t < 2 && 0 <= k < 3
    ensures var (p, q, u, l) := Twin(i, j, t, k, major, minor);
      && 0 <= p < major && 0 <= q < minor && 0 <= u < 2 && 0 <= l < 3
      && Wrapped(p, q, u, l, major, minor) == Wrapped(i, j, t, Next(k, 3), major, minor)
      && Wrapped(p, q, u, Next(l, 3), major, minor) == Wrapped(i, j, t, k, major, minor)
  {
  }

  // ---------------------------------------------------------------- faces

  lemma FaceCell(x: nat, major: int, minor: int)
    requires major > 0 && minor > 0 && x < 2 * (major * minor)
    ensures 0 <= x / 2 / minor < major && 0 <= x / 2 % minor < minor
    ensures x == 2 * At(x / 2 / minor, x / 2 % minor, minor) + x % 2
  {
    Encode(x / 2, major, minor);
  }

  lemma CellFace(i: int, j: int, t: int, major: int, minor: int)
    requires 0 <= i < major && 0 <= j < minor && 0 <= t < 2
    ensures 0 <= 2 * At(i, j, minor) + t < 2 * (major * minor)
    ensures TorusFace(2 * At(i, j, minor) + t, major, minor) == TriangleAt(i, j, t, major, minor)
    ensures var x := 2 * At(i, j, minor) + t;
      x / 2 / minor == i && x / 2 % minor == j && x % 2 == t
  {
    AtInRange(i, j, major, minor);
    Decode(i, j, minor);
  }

  lemma FaceCorners(x: nat, k: nat, major: int, minor: int)
    requires major > 0 && minor > 0 && x < 2 * (major * minor) && k < 3
    ensures var i, j, t := x / 2 / minor, x / 2 % minor, x % 2;
      && |TorusFace(x, major, minor)| == 3
      && InGrid(Wrapped(i, j, t, k, major, minor), major, minor)
      && TorusFace(x, major, minor)[k] == Number(Wrapped(i, j, t, k, major, minor), minor)
  {
    FaceCell(x, major, minor);
    CornerNumbers(x / 2 / minor, x / 2 % minor, x % 2, k, major, minor);
  }

  function TorusPlan(major: int, minor: int): Plan<Corner>
    requires major > 0 && minor > 0
  {
    Plan(TorusFaces(major, minor),
         (x, k) => Wrapped(x / 2 / minor, x / 2 % minor, x % 2, k, major, minor),
         c => Number(c, minor),
         (a, b) => Listed(Locate(a, b, major, minor), minor),
         (x, k) => Listed(Twin(x / 2 / minor, x / 2 % minor, x % 2, k, major, minor), minor))
  }

  /** The face and corner that a cell's triangle and corner are listed as. */
  function Listed(c: (int, int, int, int), minor: int): (int, int) {
    (2 * At(c.0, c.1, minor) + c.2, c.3)
  }

  lemma TorusNumbering(major: int, minor: int)
    requires major > 0 && minor > 0
    ensures Numbering(TorusPlan(major, minor))
  {
    var p := TorusPlan(major, minor);
    forall x, k | IsCorner(p.faces, x, k)
      ensures NumberedRight(p, x, k) && InGrid(p.vertex(x, k), major, minor)
    {
      FaceCorners(x, k, major, minor);
    }
    forall x, k, y, l | IsCorner(p.faces, x, k) && IsCorner(p.faces, y, l)
      ensures Apart(p, x, k, y, l)
    {
      if p.number(p.vertex(x, k)) == p.number(p.vertex(y, l)) {
        assert NumberedRight(p, x, k) && NumberedRight(p, y, l);
        NumberInjective(p.vertex(x, k), p.vertex(y, l), major, minor);
      }
    }
  }

  lemma TorusSide(x: nat, k: nat, major: int, minor: int)
    requires major >= 3 && minor >= 3 && IsCorner(TorusFaces(major, minor), x, k)
    ensures SideRight(TorusPlan(major, minor), x, k)
  {
    FaceCorners(x, k, major, minor);
    FaceCell(x, major, minor);
    var i, j, t := x / 2 / minor, x / 2 % minor, x % 2;
    Located(i, j, t, k, major, minor);
    TwinReverses(i, j, t, k, major, minor);
    var (p, q, u, l) := Twin(i, j, t, k, major, minor);
    CellFace(p, q, u, major, minor);
  }

  lemma TorusIsProper(major: int, minor: int)
    requires major >= 3 && minor >= 3
    ensures Proper(TorusFaces(major, minor))
    ensures forall x :: 0 <= x < |TorusFaces(major, minor)| ==> |TorusFaces(major, minor)[x]| == 3
  {
    var p := TorusPlan(major, minor);
    forall x | 0 <= x < |p.faces|
      ensures |p.faces[x]| == 3 && VerticesDiffer(p, x)
    {
      FaceCell(x, major, minor);
    }
    TorusNumbering(major, minor);
    ProperFromPlan(p);
  }

  /** Every directed edge of the torus is walked at most once, and then so is its reverse. */
  lemma TorusIsClosed(major: int, minor: int)
    requires major >= 3 && minor >= 3
    ensures ClosedOriented(TorusFaces(major, minor))
  {
    var p := TorusPlan(major, minor);
    TorusNumbering(major, minor);
    forall x, k | IsCorner(p.faces, x, k)
      ensures SideRight(p, x, k)
    {
      TorusSide(x, k, major, minor);
    }
    ClosedFromPlan(p);
  }

  /** The face that lists a cell's triangle. */
  lemma FaceOfCell(i: int, j: int, t: int, k: nat, major: int, minor: int) returns (x: nat)
    requires 0 <= i < major && 0 <= j < minor && 0 <= t < 2 && k < 3
    ensures IsCorner(TorusFaces(major, minor), x, k) && x % 2 == t
    ensures Side(TorusFaces(major, minor)[x], k) ==
            (Number(Wrapped(i, j, t, k, major, minor), minor), Number(Wrapped(i, j, t, Next(k, 3), major, minor), minor))
  {
    x := ListedFace(i, j, t, major, minor);
    CornerNumbers(i, j, t, k, major, minor);
    CornerNumbers(i, j, t, Next(k, 3), major, minor);
  }

  lemma ListedFace(i: int, j: int, t: int, major: int, minor: int) returns (x: nat)
    requires 0 <= i < major && 0 <= j < minor && 0 <= t < 2
    ensures x % 2 == t && x < |TorusFaces(major, minor)|
    ensures TorusFaces(major, minor)[x] == TriangleAt(i, j, t, major, minor)
  {
    x := 2 * At(i, j, minor) + t;
    CellFace(i, j, t, major, minor);
  }

  /** A lower and an upper triangle that walk one edge the same way refute closedness. */
  lemma SharedSide(k: nat, i: int, j: int, l: nat, major: int, minor: int)
    requires 0 <= i < major && 0 <= j < minor && k < 3 && l < 3
    requires Wrapped(0, 0, 0, k, major, minor) == Wrapped(i, j, 1, l, major, minor)
    requires Wrapped(0, 0, 0, Next(k, 3), major, minor) == Wrapped(i, j, 1, Next(l, 3), major, minor)
    ensures !ClosedOriented(TorusFaces(major, minor))
  {
    var x := FaceOfCell(0, 0, 0, k, major, minor);
    var y := FaceOfCell(i, j, 1, l, major, minor);
    DoubledEdgeIsNotClosed(TorusFaces(major, minor), x, k, y, l);
  }

  /** With fewer than three rings two faces walk the same edge around the torus. */
  lemma FewRingsDouble(major: int, minor: int)
    requires 0 < major < 3 && 0 < minor
    ensures !ClosedOriented(TorusFaces(major, minor))
  {
    SharedSide(0, Succ(0, major), minor - 1, 1, major, minor);
  }

  /** With fewer than three vertices a ring two faces walk the same edge of a ring. */
  lemma ThinRingsDouble(major: int, minor: int)
    requires 0 < major && 0 < minor < 3
    ensures !ClosedOriented(TorusFaces(major, minor))
  {
    SharedSide(1, Succ(0, major), Succ(0, minor), 2, major, minor);
  }

  /** So the sizes for which the torus is closed are exactly those from 3 x 3 on. */
  lemma TorusIsClosedIff(major: int, minor: int)
    requires 0 < major && 0 < minor
    ensures ClosedOriented(TorusFaces(major, minor)) <==> major >= 3 && minor >= 3
  {
    if major >= 3 && minor >= 3 {
      TorusIsClosed(major, minor);
    } else if major < 3 {
      FewRingsDouble(major, minor);
    } else {
      ThinRingsDouble(major, minor);
    }
  }

  lemma TorusSpans(major: int, minor: int)
    requires major >= 3 && minor >= 3
    ensures Spans(TorusFaces(major, minor), major * minor)
  {
    var faces, v := TorusFaces(major, minor), major * minor;
    forall x, k | IsCorner(faces, x, k)
      ensures 0 <= faces[x][k] < v
    {
      FaceCorners(x, k, major, minor);
      var c := Wrapped(x / 2 / minor, x / 2 % minor, x % 2, k, major, minor);
      AtInRange(c.0, c.1, major, minor);
    }
    forall w | 0 <= w < v
      ensures Uses(faces, w)
    {
      Encode(w, major, minor);
      CellFace(w / minor, w % minor, 0, major, minor);
      CornerNumbers(w / minor, w % minor, 0, 0, major, minor);
      assert IsCorner(faces, 2 * w, 0) && faces[2 * w][0] == w;
    }
  }

  /** The mesh uses exactly the vertices 0 up to major * minor, and V - E + F is 0. */
  lemma TorusEuler(major: int, minor: int)
    requires major >= 3 && minor >= 3
    ensures Spans(TorusFaces(major, minor), major * minor)
    ensures major * minor - |EdgeSet(TorusFaces(major, minor))| + |TorusFaces(major, minor)| == 0
  {
    TorusSpans(major, minor);
    TorusIsProper(major, minor);
    TorusIsClosed(major, minor);
    TriangleEdges(TorusFaces(major, minor));
  }

  /** What the validity check reports on the generated torus, and its Euler characteristic. */
  method CheckTorus(major: nat, minor: nat)
      returns (vertices: nat, faces: seq<Face>, nonmanifold: nat, boundary: nat, degenerate: nat)
    requires major >= 3 && minor >= 3
    ensures nonmanifold == boundary == degenerate == 0
    ensures Spans(faces, vertices) && vertices - |EdgeSet(faces)| + |faces| == 0
  {
    vertices, faces := TorusObj(major, minor);
    TorusIsProper(major, minor);
    TorusIsClosed(major, minor);
    TorusEuler(major, minor);
    ClosedIsTwoSided(faces);
    Validators.TwoSidedIsClean(faces);
    nonmanifold, boundary, degenerate := Validators.MeshValidity(faces, true);
  }
}
