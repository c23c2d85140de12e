/** `sphere_obj` and `blob`: rings of segments between two poles, triangulated. The two number
    their vertices and list their faces differently; both are layouts of the same cells. */
module Spheres {
  import opened Chains
  import opened Grid
  import Validators

  datatype Vertex = NorthPole | SouthPole | Ring(r: int, s: int)

  /** The triangles: two fans at the poles, and two triangles a cell between rings r and r + 1. */
  datatype Cell = North(s: int) | Low(r: int, s: int) | High(r: int, s: int) | South(s: int)

  datatype Layout = SphereLayout | BlobLayout

  ghost predicate ValidVertex(v: Vertex, rings: int, segments: int) {
    v.Ring? ==> 1 <= v.r < rings && 0 <= v.s < segments
  }

  ghost predicate ValidCell(c: Cell, rings: int, segments: int) {
    0 <= c.s < segments && (c.Low? || c.High? ==> 1 <= c.r < rings - 1)
  }

  function CellVertex(c: Cell, k: int, rings: int, segments: int): Vertex {
    match c
    case North(s) =>
      if k == 0 then NorthPole else if k == 1 then Ring(1, s) else Ring(1, Succ(s, segments))
    case Low(r, s) =>
      if k == 0 then Ring(r, s) else if k == 1 then Ring(r + 1, s) else Ring(r + 1, Succ(s, segments))
    case High(r, s) =>
      if k == 0 then Ring(r, s)
      else if k == 1 then Ring(r + 1, Succ(s, segments)) else Ring(r, Succ(s, segments))
    case South(s) =>
      if k == 0 then SouthPole
      else if k == 1 then Ring(rings - 1, Succ(s, segments)) else Ring(rings - 1, s)
  }

  // ---------------------------------------------------------------- layouts

  function Number(layout: Layout, v: Vertex, rings: int, segments: int): int {
    match layout
    case SphereLayout => (
      match v
      case NorthPole => 0
      case Ring(r, s) => 1 + At(r - 1, s, segments)
      case SouthPole => 1 + (rings - 1) * segments)
    case BlobLayout => (
      match v
      case Ring(r, s) => At(r - 1, s, segments)
      case NorthPole => (rings - 1) * segments
      case SouthPole => (rings - 1) * segments + 1)
  }

  /** Number of band triangles. */
  function Band(rings: int, segments: int): int {
    2 * ((rings - 2) * segments)
  }

  function CellAt(layout: Layout, x: int, rings: int, segments: int): Cell
    requires segments > 0
  {
    match layout
    case SphereLayout =>
      var y := x - segments;
      if x < segments then North(x)
      else if y < Band(rings, segments) then
        if y % 2 == 0 then Low(1 + y / 2 / segments, y / 2 % segments)
        else High(1 + y / 2 / segments, y / 2 % segments)
      else South(y - Band(rings, segments))
    case BlobLayout =>
      var y := x - Band(rings, segments);
      if y < 0 then
        if x % 2 == 0 then High(1 + x / 2 / segments, x / 2 % segments)
        else Low(1 + x / 2 / segments, x / 2 % segments)
      else if y % 2 == 0 then North(y / 2) else South(y / 2)
  }

  function IndexOf(layout: Layout, c: Cell, rings: int, segments: int): int {
    match layout
    case SphereLayout => (
      match c
      case North(s) => s
      case Low(r, s) => segments + 2 * At(r - 1, s, segments)
      case High(r, s) => segments + 2 * At(r - 1, s, segments) + 1
      case South(s) => segments + Band(rings, segments) + s)
    case BlobLayout => (
      match c
      case High(r, s) => 2 * At(r - 1, s, segments)
      case Low(r, s) => 2 * At(r - 1, s, segments) + 1
      case North(s) => Band(rings, segments) + 2 * s
      case South(s) => Band(rings, segments) + 2 * s + 1)
  }

  function CellFace(layout: Layout, c: Cell, rings: int, segments: int): (f: Face)
    ensures |f| == 3
    ensures forall k :: 0 <= k < 3 ==>
      f[k] == Number(layout, CellVertex(c, k, rings, segments), rings, segments)
  {
    [Number(layout, CellVertex(c, 0, rings, segments), rings, segments),
     Number(layout, CellVertex(c, 1, rings, segments), rings, segments),
     Number(layout, CellVertex(c, 2, rings, segments), rings, segments)]
  }

  function FaceTotal(rings: int, segments: int): int {
    2 * segments + Band(rings, segments)
  }

  function LayoutFaces(layout: Layout, rings: int, segments: int): (r: seq<Face>)
    requires rings >= 2 && segments > 0
    ensures |r| == FaceTotal(rings, segments)
    ensures forall x :: 0 <= x < |r| ==>
      r[x] == CellFace(layout, CellAt(layout, x, rings, segments), rings, segments)
  {
    MulBound(rings - 2, segments);
    seq(FaceTotal(rings, segments), x requires 0 <= x =>
        CellFace(layout, CellAt(layout, x, rings, segments), rings, segments))
  }

  lemma IndexedCell(layout: Layout, x: int, rings: int, segments: int)
    requires rings >= 2 && segments > 0 && 0 <= x < FaceTotal(rings, segments)
    ensures ValidCell(CellAt(layout, x, rings, segments), rings, segments)
    ensures IndexOf(layout, CellAt(layout, x, rings, segments), rings, segments) == x
  {
    var y := if layout.SphereLayout? then x - segments else x;
    if 0 <= y < Band(rings, segments) {
      Encode(y / 2, rings - 2, segments);
    }
  }

  lemma BandIndexed(layout: Layout, c: Cell, rings: int, segments: int)
    requires rings >= 2 && segments > 0 && ValidCell(c, rings, segments) && (c.Low? || c.High?)
    ensures 0 <= IndexOf(layout, c, rings, segments) < FaceTotal(rings, segments)
    ensures CellAt(layout, IndexOf(layout, c, rings, segments), rings, segments) == c
  {
    var p := At(c.r - 1, c.s, segments);
    AtInRange(c.r - 1, c.s, rings - 2, segments);
    Decode(c.r - 1, c.s, segments);
    assert 2 * p / 2 == p && (2 * p + 1) / 2 == p;
  }

  lemma CellIndexed(layout: Layout, c: Cell, rings: int, segments: int)
    requires rings >= 2 && segments > 0 && ValidCell(c, rings, segments)
    ensures 0 <= IndexOf(layout, c, rings, segments) < FaceTotal(rings, segments)
    ensures CellAt(layout, IndexOf(layout, c, rings, segments), rings, segments) == c
  {
    if c.Low? || c.High? {
      BandIndexed(layout, c, rings, segments);
    } else {
      MulBound(rings - 2, segments);
    }
  }

  lemma NumberInRange(layout: Layout, v: Vertex, rings: int, segments: int)
    requires rings >= 2 && segments > 0 && ValidVertex(v, rings, segments)
    ensures 0 <= Number(layout, v, rings, segments) < (rings - 1) * segments + 2
    ensures v.Ring? ==>
      var base := if layout.SphereLayout? then 1 else 0;
      base <= Number(layout, v, rings, segments) < base + (rings - 1) * segments
  {
    MulBound(rings - 1, segments);
    if v.Ring? {
      AtInRange(v.r - 1, v.s, rings - 1, segments);
    }
  }

  lemma NumberInjective(layout: Layout, v: Vertex, w: Vertex, rings: int, segments: int)
    requires rings >= 2 && segments > 0
    requires ValidVertex(v, rings, segments) && ValidVertex(w, rings, segments)
    requires Number(layout, v, rings, segments) == Number(layout, w, rings, segments)
    ensures v == w
  {
    NumberInRange(layout, v, rings, segments);
    NumberInRange(layout, w, rings, segments);
    if v.Ring? && w.Ring? {
      Decode(v.r - 1, v.s, segments);
      Decode(w.r - 1, w.s, segments);
    }
  }

  // ---------------------------------------------------------------- the generators

  function SphereRing(r: int, s: int, segments: int): int
    requires segments > 0
  {
    1 + (r - 1) * segments + s % segments
  }

  /** What the layout lists at a cell's index is the next face to emit. */
  lemma EmitCell(layout: Layout, c: Cell, rings: int, segments: int, faces: seq<Face>, face: Face)
    requires rings >= 2 && segments > 0 && ValidCell(c, rings, segments)
    requires Emitted(LayoutFaces(layout, rings, segments), faces, IndexOf(layout, c, rings, segments))
    requires face == CellFace(layout, c, rings, segments)
    ensures Emitted(LayoutFaces(layout, rings, segments), faces + [face], IndexOf(layout, c, rings, segments) + 1)
  {
    CellIndexed(layout, c, rings, segments);
  }

  predicate Regular(rings: int, segments: int) {
    rings >= 2 && segments > 0
  }

  /** The first `count` faces of the layout; below two rings the source emits other faces. */
  ghost predicate EmittedSoFar(layout: Layout, rings: int, segments: int, faces: seq<Face>, count: int) {
    Regular(rings, segments) ==> Emitted(LayoutFaces(layout, rings, segments), faces, count)
  }

  method SphereObj(rings: nat, segments: nat) returns (vertices: nat, faces: seq<Face>)
    ensures vertices == (if rings == 0 then 0 else rings - 1) * segments + 2
    ensures Regular(rings, segments) ==> faces == LayoutFaces(SphereLayout, rings, segments)
  {
    vertices := 1;
    vertices := AppendGrid(if rings == 0 then 0 else rings - 1, segments, vertices);
    var south := vertices;
    vertices := vertices + 1;
    faces := [];
    for s := 0 to segments
      invariant EmittedSoFar(SphereLayout, rings, segments, faces, s)
    {
      faces := NorthFace(rings, segments, s, faces);
    }
    var r := 1;
    while r < rings - 1
      invariant r >= 1 && (rings >= 2 ==> r <= rings - 1)
      invariant EmittedSoFar(SphereLayout, rings, segments, faces, segments + 2 * At(r - 1, 0, segments))
    {
      for s := 0 to segments
        invariant EmittedSoFar(SphereLayout, rings, segments, faces, segments + 2 * At(r - 1, s, segments))
      {
        faces := BandFaces(rings, segments, r, s, faces);
      }
      RowDone(r - 1, segments);
      r := r + 1;
    }
    for s := 0 to segments
      invariant EmittedSoFar(SphereLayout, rings, segments, faces, segments + 2 * At(rings - 2, 0, segments) + s)
    {
      faces := SouthFace(rings, segments, south, s, faces);
    }
    AllEmitted(SphereLayout, rings, segments, faces);
  }

  lemma RowDone(r: int, segments: int)
    ensures At(r, segments, segments) == At(r + 1, 0, segments)
  {
  }

  lemma AllEmitted(layout: Layout, rings: int, segments: int, faces: seq<Face>)
    requires EmittedSoFar(layout, rings, segments, faces, 2 * segments + 2 * At(rings - 2, 0, segments))
    ensures Regular(rings, segments) ==> faces == LayoutFaces(layout, rings, segments)
  {
  }

  /** The body of the first loop. */
  method NorthFace(rings: nat, segments: nat, s: nat, before: seq<Face>) returns (faces: seq<Face>)
    requires s < segments && EmittedSoFar(SphereLayout, rings, segments, before, s)
    ensures EmittedSoFar(SphereLayout, rings, segments, faces, s + 1)
  {
    ModSucc(s, segments);
    var face := [0, SphereRing(1, s, segments), SphereRing(1, s + 1, segments)];
    if Regular(rings, segments) {
      EmitCell(SphereLayout, North(s), rings, segments, before, face);
    }
    faces := before + [face];
  }

  /** The loop body of the band: the two triangles of one cell. */
  method BandFaces(rings: nat, segments: nat, r: nat, s: nat, before: seq<Face>) returns (faces: seq<Face>)
    requires 1 <= r < rings - 1 && s < segments
    requires EmittedSoFar(SphereLayout, rings, segments, before, segments + 2 * At(r - 1, s, segments))
    ensures EmittedSoFar(SphereLayout, rings, segments, faces, segments + 2 * At(r - 1, s + 1, segments))
  {
    ModSucc(s, segments);
    assert At(r, 0, segments) == r * segments == (r - 1) * segments + segments;
    var low := [SphereRing(r, s, segments), SphereRing(r + 1, s, segments), SphereRing(r + 1, s + 1, segments)];
    var high := [SphereRing(r, s, segments), SphereRing(r + 1, s + 1, segments), SphereRing(r, s + 1, segments)];
    EmitCell(SphereLayout, Low(r, s), rings, segments, before, low);
    EmitCell(SphereLayout, High(r, s), rings, segments, before + [low], high);
    faces := before + [low];
    faces := faces + [high];
  }

  /** The body of the last loop. */
  method SouthFace(rings: nat, segments: nat, south: nat, s: nat, before: seq<Face>) returns (faces: seq<Face>)
    requires s < segments && south == (if rings == 0 then 0 else rings - 1) * segments + 1
    requires EmittedSoFar(SphereLayout, rings, segments, before, segments + 2 * At(rings - 2, 0, segments) + s)
    ensures EmittedSoFar(SphereLayout, rings, segments, faces, segments + 2 * At(rings - 2, 0, segments) + s + 1)
  {
    ModSucc(s, segments);
    var face := [south, SphereRing(rings - 1, s + 1, segments), SphereRing(rings - 1, s, segments)];
    if Regular(rings, segments) {
      EmitCell(SphereLayout, South(s), rings, segments, before, face);
    }
    faces := before + [face];
  }

  method Blob(rings: nat, segments: nat) returns (vertices: nat, tris: seq<Face>)
    ensures vertices == (if rings == 0 then 0 else rings - 1) * segments + 2
    ensures Regular(rings, segments) ==> tris == LayoutFaces(BlobLayout, rings, segments)
  {
    vertices := AppendGrid(if rings == 0 then 0 else rings - 1, segments, 0);
    var north := vertices;
    vertices := vertices + 1;
    var south := vertices;
    vertices := vertices + 1;
    tris := [];
    var j := 0;
    while j < rings - 2
      invariant j >= 0 && (rings >= 2 ==> j <= rings - 2)
      invariant EmittedSoFar(BlobLayout, rings, segments, tris, 2 * At(j, 0, segments))
    {
      for i := 0 to segments
        invariant EmittedSoFar(BlobLayout, rings, segments, tris, 2 * At(j, i, segments))
      {
        tris := BlobCell(rings, segments, j, i, tris);
      }
      RowDone(j, segments);
      j := j + 1;
    }
    for i := 0 to segments
      invariant EmittedSoFar(BlobLayout, rings, segments, tris, 2 * At(rings - 2, 0, segments) + 2 * i)
    {
      tris := BlobPoles(rings, segments, north, south, i, tris);
    }
    AllEmitted(BlobLayout, rings, segments, tris);
  }

  method BlobCell(rings: nat, segments: nat, j: nat, i: nat, before: seq<Face>) returns (tris: seq<Face>)
    requires j < rings - 2 && i < segments
    requires EmittedSoFar(BlobLayout, rings, segments, before, 2 * At(j, i, segments))
    ensures EmittedSoFar(BlobLayout, rings, segments, tris, 2 * At(j, i + 1, segments))
  {
    ModSucc(i, segments);
    var nxt := (i + 1) % segments;
    var a, b := j * segments + i, j * segments + nxt;
    var c, d := (j + 1) * segments + nxt, (j + 1) * segments + i;
    EmitCell(BlobLayout, High(j + 1, i), rings, segments, before, [a, c, b]);
    EmitCell(BlobLayout, Low(j + 1, i), rings, segments, before + [[a, c, b]], [a, d, c]);
    tris := before + [[a, c, b]];
    tris := tris + [[a, d, c]];
  }

  /** The body of the last loop: one triangle at each pole. */
  method BlobPoles(rings: nat, segments: nat, north: nat, south: nat, i: nat, before: seq<Face>)
      returns (tris: seq<Face>)
    requires i < segments && north == (if rings == 0 then 0 else rings - 1) * segments && south == north + 1
    requires EmittedSoFar(BlobLayout, rings, segments, before, 2 * At(rings - 2, 0, segments) + 2 * i)
    ensures EmittedSoFar(BlobLayout, rings, segments, tris, 2 * At(rings - 2, 0, segments) + 2 * i + 2)
  {
    ModSucc(i, segments);
    var nxt := (i + 1) % segments;
    var last := (rings - 2) * segments;
    var top, bottom := [north, i, nxt], [south, last + nxt, last + i];
    if Regular(rings, segments) {
      EmitCell(BlobLayout, North(i), rings, segments, before, top);
      EmitCell(BlobLayout, South(i), rings, segments, before + [top], bottom);
    }
    tris := before + [top];
    tris := tris + [bottom];
  }

  // ---------------------------------------------------------------- edges between cells

  datatype Corner = Corner(cell: Cell, k: int)

  /** The corner that a directed edge between two vertices belongs to. */
  function Locate(a: Vertex, b: Vertex, rings: int, segments: int): Corner {
    if a.NorthPole? && b.Ring? then Corner(North(b.s), 0)
    else if a.SouthPole? && b.Ring? then Corner(South(Pred(b.s, segments)), 0)
    else if a.Ring? && b.NorthPole? then Corner(North(Pred(a.s, segments)), 2)
    else if a.Ring? && b.SouthPole? then Corner(South(a.s), 2)
    else if a.Ring? && b.Ring? then
      if b == Ring(a.r, Succ(a.s, segments)) then
        if a.r == 1 then Corner(North(a.s), 1) else Corner(Low(a.r - 1, a.s), 1)
      else if b == Ring(a.r, Pred(a.s, segments)) then
        if a.r == rings - 1 then Corner(South(b.s), 1) else Corner(High(a.r, b.s), 2)
      else if b == Ring(a.r + 1, a.s) then Corner(Low(a.r, a.s), 0)
      else if b == Ring(a.r - 1, Pred(a.s, segments)) then Corner(Low(b.r, b.s), 2)
      else if b == Ring(a.r + 1, Succ(a.s, segments)) then Corner(High(a.r, a.s), 0)
      else Corner(High(b.r, Pred(a.s, segments)), 1)
    else Corner(North(0), 0)
  }

  function Twin(c: Corner, rings: int, segments: int): Corner {
    match c.cell
    case North(s) =>
      if c.k == 0 then Corner(North(Pred(s, segments)), 2)
      else if c.k == 2 then Corner(North(Succ(s, segments)), 0)
      else if rings == 2 then Corner(South(s), 1) else Corner(High(1, s), 2)
    case South(s) =>
      if c.k == 0 then Corner(South(Succ(s, segments)), 2)
      else if c.k == 2 then Corner(South(Pred(s, segments)), 0)
      else if rings == 2 then Corner(North(s), 1) else Corner(Low(rings - 2, s), 1)
    case Low(r, s) =>
      if c.k == 0 then Corner(High(r, Pred(s, segments)), 1)
      else if c.k == 2 then Corner(High(r, s), 0)
      else if r == rings - 2 then Corner(South(s), 1) else Corner(High(r + 1, s), 2)
    case High(r, s) =>
      if c.k == 0 then Corner(Low(r, s), 2)
      else if c.k == 1 then Corner(Low(r, Succ(s, segments)), 0)
      else if r == 1 then Corner(North(s), 1) else Corner(Low(r - 1, s), 1)
  }

  lemma VerticesAreValid(c: Cell, k: int, rings: int, segments: int)
    requires rings >= 2 && segments > 0 && ValidCell(c, rings, segments)
    ensures ValidVertex(CellVertex(c, k, rings, segments), rings, segments)
  {
  }

  lemma Located(c: Cell, k: int, rings: int, segments: int)
    requires rings >= 2 && segments >= 3 && ValidCell(c, rings, segments) && 0 <= k < 3
    ensures Locate(CellVertex(c, k, rings, segments), CellVertex(c, Next(k, 3), rings, segments), rings, segments)
            == Corner(c, k)
  {
  }

  lemma TwinReverses(c: Cell, k: int, rings: int, segments: int)
    requires rings >= 2 && segments > 0 && ValidCell(c, rings, segments) && 0 <= k < 3
    ensures var t := Twin(Corner(c, k), rings, segments);
      && ValidCell(t.cell, rings, segments) && 0 <= t.k < 3
      && CellVertex(t.cell, t.k, rings, segments) == CellVertex(c, Next(k, 3), rings, segments)
      && CellVertex(t.cell, Next(t.k, 3), rings, segments) == CellVertex(c, k, rings, segments)
  {
  }

  // ---------------------------------------------------------------- closedness of both layouts

  function SpherePlan(layout: Layout, rings: int, segments: int): Plan<Vertex>
    requires rings >= 2 && segments > 0
  {
    Plan(LayoutFaces(layout, rings, segments),
         (x, k) => CellVertex(CellAt(layout, x, rings, segments), k, rings, segments),
         v => Number(layout, v, rings, segments),
         (a, b) => Listed(layout, Locate(a, b, rings, segments), rings, segments),
         (x, k) => Listed(layout, Twin(Corner(CellAt(layout, x, rings, segments), k), rings, segments), rings, segments))
  }

  /** The face and corner that a cell's corner is listed as. */
  function Listed(layout: Layout, c: Corner, rings: int, segments: int): (int, int) {
    (IndexOf(layout, c.cell, rings, segments), c.k)
  }

  lemma SphereNumbering(layout: Layout, rings: int, segments: int)
    requires rings >= 2 && segments > 0
    ensures Numbering(SpherePlan(layout, rings, segments))
  {
    var p := SpherePlan(layout, rings, segments);
    forall x, k | IsCorner(p.faces, x, k)
      ensures NumberedRight(p, x, k) && ValidVertex(p.vertex(x, k), rings, segments)
    {
      IndexedCell(layout, x, rings, segments);
      VerticesAreValid(CellAt(layout, x, rings, segments), k, rings, segments);
    }
    forall x, k, y, l | IsCorner(p.faces, x, k) && IsCorner(p.faces, y, l)
      ensures Apart(p, x, k, y, l)
    {
      if p.number(p.vertex(x, k)) == p.number(p.vertex(y, l)) {
        assert NumberedRight(p, x, k) && NumberedRight(p, y, l);
        NumberInjective(layout, p.vertex(x, k), p.vertex(y, l), rings, segments);
      }
    }
  }

  lemma SphereSide(layout: Layout, x: nat, k: nat, rings: int, segments: int)
    requires rings >= 2 && segments >= 3 && IsCorner(LayoutFaces(layout, rings, segments), x, k)
    ensures SideRight(SpherePlan(layout, rings, segments), x, k)
  {
    var c := CellAt(layout, x, rings, segments);
    IndexedCell(layout, x, rings, segments);
    Located(c, k, rings, segments);
    TwinReverses(c, k, rings, segments);
    CellIndexed(layout, Twin(Corner(c, k), rings, segments).cell, rings, segments);
  }

  lemma SphereIsProper(layout: Layout, rings: int, segments: int)
    requires rings >= 2 && segments >= 3
    ensures Proper(LayoutFaces(layout, rings, segments))
  {
    var p := SpherePlan(layout, rings, segments);
    forall x | 0 <= x < |p.faces|
      ensures VerticesDiffer(p, x)
    {
      IndexedCell(layout, x, rings, segments);
    }
    SphereNumbering(layout, rings, segments);
    ProperFromPlan(p);
  }

  lemma SphereIsClosed(layout: Layout, rings: int, segments: int)
    requires rings >= 2 && segments >= 3
    ensures ClosedOriented(LayoutFaces(layout, rings, segments))
  {
    var p := SpherePlan(layout, rings, segments);
    SphereNumbering(layout, rings, segments);
    forall x, k | IsCorner(p.faces, x, k)
      ensures SideRight(p, x, k)
    {
      SphereSide(layout, x, k, rings, segments);
    }
    ClosedFromPlan(p);
  }

  lemma SideOfCell(layout: Layout, c: Cell, k: nat, rings: int, segments: int)
    requires rings >= 2 && segments > 0 && ValidCell(c, rings, segments) && k < 3
    ensures var faces, x := LayoutFaces(layout, rings, segments), IndexOf(layout, c, rings, segments);
      && IsCorner(faces, x, k)
      && Side(faces[x], k) == (Number(layout, CellVertex(c, k, rings, segments), rings, segments),
                               Number(layout, CellVertex(c, Next(k, 3), rings, segments), rings, segments))
  {
    CellIndexed(layout, c, rings, segments);
  }

  /** With one or two segments a polar triangle and one below the ring walk the same edge. */
  lemma ThinSphereDoubles(layout: Layout, rings: int, segments: int)
    requires rings >= 2 && 0 < segments < 3
    ensures !ClosedOriented(LayoutFaces(layout, rings, segments))
  {
    var c := North(0);
    var t := Twin(Corner(North(Succ(0, segments)), 1), rings, segments);
    TwinReverses(North(Succ(0, segments)), 1, rings, segments);
    SideOfCell(layout, c, 1, rings, segments);
    SideOfCell(layout, t.cell, t.k, rings, segments);
    var x, y := IndexOf(layout, c, rings, segments), IndexOf(layout, t.cell, rings, segments);
    assert x != y by {
      CellIndexed(layout, c, rings, segments);
      CellIndexed(layout, t.cell, rings, segments);
    }
    DoubledEdgeIsNotClosed(LayoutFaces(layout, rings, segments), x, 1, y, t.k);
  }

  /** So three segments are exactly what it takes. */
  lemma SphereIsClosedIff(layout: Layout, rings: int, segments: int)
    requires rings >= 2 && segments > 0
    ensures ClosedOriented(LayoutFaces(layout, rings, segments)) <==> segments >= 3
  {
    if segments >= 3 {
      SphereIsClosed(layout, rings, segments);
    } else {
      ThinSphereDoubles(layout, rings, segments);
    }
  }

  /** The vertex with a given number. */
  function VertexAt(layout: Layout, w: int, rings: int, segments: int): Vertex
    requires segments > 0
  {
    var u := if layout.SphereLayout? then w - 1 else w;
    if 0 <= u < (rings - 1) * segments then Ring(1 + u / segments, u % segments)
    else if layout.SphereLayout? then (if w == 0 then NorthPole else SouthPole)
    else if w == (rings - 1) * segments then NorthPole else SouthPole
  }

  lemma VertexIsUsed(layout: Layout, w: int, rings: int, segments: int)
    requires rings >= 2 && segments >= 3 && 0 <= w < (rings - 1) * segments + 2
    ensures Uses(LayoutFaces(layout, rings, segments), w)
  {
    var faces, v := LayoutFaces(layout, rings, segments), VertexAt(layout, w, rings, segments);
    if v.Ring? {
      Encode(if layout.SphereLayout? then w - 1 else w, rings - 1, segments);
    }
    var c, k :=
      if v.NorthPole? then North(0) else if v.SouthPole? then South(0)
      else if v.r == 1 then North(v.s) else Low(v.r - 1, v.s),
      if v.Ring? then 1 else 0;
    CellIndexed(layout, c, rings, segments);
    var x := IndexOf(layout, c, rings, segments);
    assert CellVertex(c, k, rings, segments) == v;
    assert IsCorner(faces, x, k) && faces[x][k] == w;
  }

  /** The mesh uses exactly its (rings - 1) * segments + 2 vertices, and V - E + F is 2. */
  lemma SphereEuler(layout: Layout, rings: int, segments: int)
    requires rings >= 2 && segments >= 3
    ensures var faces, v := LayoutFaces(layout, rings, segments), (rings - 1) * segments + 2;
      Spans(faces, v) && v - |EdgeSet(faces)| + |faces| == 2
  {
    var faces, v := LayoutFaces(layout, rings, segments), (rings - 1) * segments + 2;
    forall x, k | IsCorner(faces, x, k)
      ensures 0 <= faces[x][k] < v
    {
      IndexedCell(layout, x, rings, segments);
      NumberInRange(layout, CellVertex(CellAt(layout, x, rings, segments), k, rings, segments), rings, segments);
    }
    forall w | 0 <= w < v
      ensures Uses(faces, w)
    {
      VertexIsUsed(layout, w, rings, segments);
    }
    SphereIsProper(layout, rings, segments);
    SphereIsClosed(layout, rings, segments);
    TriangleEdges(faces);
    assert (rings - 1) * segments == (rings - 2) * segments + segments;
  }

  /** What the validity check reports on the generated sphere or blob, and its Euler characteristic. */
  method CheckSphere(layout: Layout, rings: nat, segments: nat)
      returns (vertices: nat, faces: seq<Face>, nonmanifold: nat, boundary: nat, degenerate: nat)
    requires rings >= 2 && segments >= 3
    ensures nonmanifold == boundary == degenerate == 0
    ensures Spans(faces, vertices) && vertices - |EdgeSet(faces)| + |faces| == 2
  {
    if layout.SphereLayout? {
      vertices, faces := SphereObj(rings, segments);
    } else {
      vertices, faces := Blob(rings, segments);
    }
    SphereClean(layout, rings, segments);
    SphereEuler(layout, rings, segments);
    nonmanifold, boundary, degenerate := Validators.MeshValidity(faces, true);
  }

  lemma SphereClean(layout: Layout, rings: int, segments: int)
    requires rings >= 2 && segments >= 3
    ensures var faces := LayoutFaces(layout, rings, segments);
      && Validators.EdgesWith(faces, Validators.OverTwo) == {}
      && Validators.EdgesWith(faces, Validators.JustOne) == {}
      && Validators.Repeating(faces) == {}
  {
    SphereIsProper(layout, rings, segments);
    SphereIsClosed(layout, rings, segments);
    ClosedIsTwoSided(LayoutFaces(layout, rings, segments));
    Validators.TwoSidedIsClean(LayoutFaces(layout, rings, segments));
  }
}
