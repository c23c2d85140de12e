/** `thin_plate` and `thin_fin`: two square sheets of quads and a rim that joins their borders. */
module Slab {
  import opened Chains
  import opened Grid
  import Validators

  /** A grid point of the low or the high sheet. */
  datatype Vertex = Vertex(high: bool, i: int, j: int)

  datatype Cell = Bottom(i: int, j: int) | Top(i: int, j: int) | Rim(k: int)

  ghost predicate ValidVertex(v: Vertex, n: int) {
    0 <= v.i <= n && 0 <= v.j <= n
  }

  ghost predicate ValidCell(c: Cell, n: int) {
    if c.Rim? then 0 <= c.k < 4 * n else 0 <= c.i < n && 0 <= c.j < n
  }

  /** Entry `k` of the source's `border` list. */
  function Border(k: int, n: int): (int, int) {
    if k < n then (k, 0)
    else if k < 2 * n then (n, k - n)
    else if k < 3 * n then (n - (k - 2 * n), n)
    else (0, n - (k - 3 * n))
  }

  function BorderIndex(i: int, j: int, n: int): int {
    if j == 0 && i < n then i
    else if i == n && j < n then n + j
    else if j == n && i > 0 then 2 * n + (n - i)
    else 3 * n + (n - j)
  }

  /** Corner `l` of a quad; `flipped` turns the rim quads round. */
  function CellVertex(c: Cell, l: int, n: int, flipped: bool): Vertex {
    match c
    case Bottom(i, j) =>
      Vertex(false, if l == 2 || l == 3 then i + 1 else i, if l == 1 || l == 2 then j + 1 else j)
    case Top(i, j) =>
      Vertex(true, if l == 1 || l == 2 then i + 1 else i, if l == 2 || l == 3 then j + 1 else j)
    case Rim(k) =>
      var m := if flipped then 3 - l else l;
      var b := if m < 2 then Border(k, n) else Border(Succ(k, 4 * n), n);
      Vertex(m == 1 || m == 2, b.0, b.1)
  }

  function Number(v: Vertex, n: int): int {
    (if v.high then (n + 1) * (n + 1) else 0) + At(v.j, v.i, n + 1)
  }

  function CellFace(c: Cell, n: int, flipped: bool): (f: Face)
    ensures |f| == 4
    ensures forall l :: 0 <= l < 4 ==> f[l] == Number(CellVertex(c, l, n, flipped), n)
  {
    [Number(CellVertex(c, 0, n, flipped), n), Number(CellVertex(c, 1, n, flipped), n),
     Number(CellVertex(c, 2, n, flipped), n), Number(CellVertex(c, 3, n, flipped), n)]
  }

  function CellAt(x: int, n: int): Cell
    requires n > 0
  {
    if x < 2 * (n * n) then
      if x % 2 == 0 then Bottom(x / 2 % n, x / 2 / n) else Top(x / 2 % n, x / 2 / n)
    else Rim(x - 2 * (n * n))
  }

  function IndexOf(c: Cell, n: int): int {
    match c
    case Bottom(i, j) => 2 * At(j, i, n)
    case Top(i, j) => 2 * At(j, i, n) + 1
    case Rim(k) => 2 * (n * n) + k
  }

  function FaceTotal(n: int): int {
    2 * (n * n) + 4 * n
  }

  /** The faces the source lists, or the same with every rim quad turned round. */
  function SlabFaces(n: int, flipped: bool): (r: seq<Face>)
    requires n > 0
    ensures |r| == FaceTotal(n)
    ensures forall x :: 0 <= x < |r| ==> r[x] == CellFace(CellAt(x, n), n, flipped)
  {
    MulBound(n, n);
    seq(FaceTotal(n), x requires 0 <= x => CellFace(CellAt(x, n), n, flipped))
  }

  lemma IndexedCell(x: int, n: int)
    requires n > 0 && 0 <= x < FaceTotal(n)
    ensures ValidCell(CellAt(x, n), n) && IndexOf(CellAt(x, n), n) == x
  {
    if x < 2 * (n * n) {
      Encode(x / 2, n, n);
    }
  }

  lemma CellIndexed(c: Cell, n: int)
    requires n > 0 && ValidCell(c, n)
    ensures 0 <= IndexOf(c, n) < FaceTotal(n) && CellAt(IndexOf(c, n), n) == c
  {
    MulBound(n, n);
    if !c.Rim? {
      AtInRange(c.j, c.i, n, n);
      Decode(c.j, c.i, n);
    }
  }

  lemma NumberInRange(v: Vertex, n: int)
    requires n > 0 && ValidVertex(v, n)
    ensures var low := if v.high then (n + 1) * (n + 1) else 0;
      low <= Number(v, n) < low + (n + 1) * (n + 1)
  {
    AtInRange(v.j, v.i, n + 1, n + 1);
  }

  lemma NumberInjective(v: Vertex, w: Vertex, n: int)
    requires n > 0 && ValidVertex(v, n) && ValidVertex(w, n) && Number(v, n) == Number(w, n)
    ensures v == w
  {
    NumberInRange(v, n);
    NumberInRange(w, n);
    Decode(v.j, v.i, n + 1);
    Decode(w.j, w.i, n + 1);
  }

  // ---------------------------------------------------------------- the generators

  /** The cell listed next is emitted next. */
  lemma EmitCell(c: Cell, n: int, faces: seq<Face>, face: Face)
    requires n > 0 && ValidCell(c, n) && Emitted(SlabFaces(n, false), faces, IndexOf(c, n))
    requires face == CellFace(c, n, false)
    ensures Emitted(SlabFaces(n, false), faces + [face], IndexOf(c, n) + 1)
  {
    CellIndexed(c, n);
    Emit(SlabFaces(n, false), faces, face);
  }

  /** The list that both generators build, from the base numbers of the two sheets. */
  function QuadAt(lo: int, hi: int, n: int, i: int, j: int, top: bool): Face {
    if top then
      [hi + At(j, i, n + 1), hi + At(j, i + 1, n + 1), hi + At(j + 1, i + 1, n + 1), hi + At(j + 1, i, n + 1)]
    else
      [lo + At(j, i, n + 1), lo + At(j + 1, i, n + 1), lo + At(j + 1, i + 1, n + 1), lo + At(j, i + 1, n + 1)]
  }

  /** Appends one sheet of `(n + 1) * (n + 1)` vertices and returns the number of the first. */
  method AddGrid(n: nat, before: nat) returns (base: nat, vertices: nat)
    ensures base == before && vertices == before + (n + 1) * (n + 1)
  {
    base := before;
    vertices := AppendGrid(n + 1, n + 1, before);
  }

  /** `border` as the source concatenates it from four comprehensions. */
  method BuildBorder(n: nat) returns (border: seq<(int, int)>)
    ensures |border| == 4 * n && forall k :: 0 <= k < 4 * n ==> border[k] == Border(k, n)
  {
    border := seq(n, i => (i, 0)) + seq(n, j => (n, j)) +
              seq(n, i => (n - i, n)) + seq(n, j => (0, n - j));
  }

  method ThinPlate(n: nat) returns (vertices: nat, faces: seq<Face>)
    requires n > 0
    ensures vertices == 2 * ((n + 1) * (n + 1)) && faces == SlabFaces(n, false)
  {
    var lo, hi;
    lo, vertices := AddGrid(n, 0);
    hi, vertices := AddGrid(n, vertices);
    faces := BuildFaces(n, lo, hi);
  }

  /** The fin numbers its vertices `side * per + j * (n + 1) + i`. */
  method ThinFin(n: nat) returns (vertices: nat, faces: seq<Face>)
    requires n > 0
    ensures vertices == 2 * ((n + 1) * (n + 1)) && faces == SlabFaces(n, false)
  {
    vertices := 0;
    for side := 0 to 2
      invariant vertices == side * ((n + 1) * (n + 1))
    {
      var base;
      base, vertices := AddGrid(n, vertices);
    }
    var per := (n + 1) * (n + 1);
    faces := BuildFaces(n, 0 * per, 1 * per);
  }

  method BuildFaces(n: nat, lo: nat, hi: nat) returns (faces: seq<Face>)
    requires n > 0 && lo == 0 && hi == (n + 1) * (n + 1)
    ensures faces == SlabFaces(n, false)
  {
    MulBound(n, n);
    faces := [];
    for j := 0 to n
      invariant Emitted(SlabFaces(n, false), faces, 2 * (j * n))
    {
      for i := 0 to n
        invariant Emitted(SlabFaces(n, false), faces, 2 * At(j, i, n))
      {
        faces := AddSheetQuads(n, lo, hi, i, j, faces);
      }
      assert At(j, n, n) == (j + 1) * n;
    }
    var border := BuildBorder(n);
    for k := 0 to |border|
      invariant Emitted(SlabFaces(n, false), faces, 2 * (n * n) + k)
    {
      faces := AddRimQuad(n, lo, hi, border, k, faces);
    }
  }

  method AddSheetQuads(n: nat, lo: nat, hi: nat, i: nat, j: nat, before: seq<Face>) returns (faces: seq<Face>)
    requires n > 0 && lo == 0 && hi == (n + 1) * (n + 1) && i < n && j < n
    requires Emitted(SlabFaces(n, false), before, 2 * At(j, i, n))
    ensures Emitted(SlabFaces(n, false), faces, 2 * At(j, i + 1, n))
  {
    var low, high := QuadAt(lo, hi, n, i, j, false), QuadAt(lo, hi, n, i, j, true);
    EmitCell(Bottom(i, j), n, before, low);
    EmitCell(Top(i, j), n, before + [low], high);
    faces := before + [low];
    faces := faces + [high];
  }

  method AddRimQuad(n: nat, lo: nat, hi: nat, border: seq<(int, int)>, k: nat, before: seq<Face>)
      returns (faces: seq<Face>)
    requires n > 0 && lo == 0 && hi == (n + 1) * (n + 1)
    requires |border| == 4 * n && k < 4 * n && forall m :: 0 <= m < 4 * n ==> border[m] == Border(m, n)
    requires Emitted(SlabFaces(n, false), before, 2 * (n * n) + k)
    ensures Emitted(SlabFaces(n, false), faces, 2 * (n * n) + k + 1)
  {
    ModSucc(k, 4 * n);
    var (i0, j0) := border[k];
    var (i1, j1) := border[(k + 1) % |border|];
    var face := [lo + At(j0, i0, n + 1), hi + At(j0, i0, n + 1), hi + At(j1, i1, n + 1), lo + At(j1, i1, n + 1)];
    EmitCell(Rim(k), n, before, face);
    faces := before + [face];
  }

  // ---------------------------------------------------------------- edges with the rim turned round

  datatype Corner = Corner(cell: Cell, l: int)

  /** The corner of the flipped mesh that walks the edge from `a` to `b`. */
  function Locate(a: Vertex, b: Vertex, n: int): Corner {
    if !a.high && b.high then Corner(Rim(Pred(BorderIndex(a.i, a.j, n), 4 * n)), 0)
    else if a.high && !b.high then Corner(Rim(BorderIndex(a.i, a.j, n)), 2)
    else if !a.high then
      if b.j == a.j + 1 then
        if a.i < n then Corner(Bottom(a.i, a.j), 0) else Corner(Rim(n + a.j), 3)
      else if b.i == a.i + 1 then
        if a.j > 0 then Corner(Bottom(a.i, a.j - 1), 1) else Corner(Rim(a.i), 3)
      else if b.j == a.j - 1 then
        if a.i > 0 then Corner(Bottom(a.i - 1, b.j), 2) else Corner(Rim(3 * n + (n - a.j)), 3)
      else
        if a.j < n then Corner(Bottom(b.i, a.j), 3) else Corner(Rim(2 * n + (n - a.i)), 3)
    else
      if b.i == a.i + 1 then
        if a.j < n then Corner(Top(a.i, a.j), 0) else Corner(Rim(2 * n + (n - b.i)), 1)
      else if b.j == a.j + 1 then
        if a.i > 0 then Corner(Top(a.i - 1, a.j), 1) else Corner(Rim(3 * n + (n - b.j)), 1)
      else if b.i == a.i - 1 then
        if a.j > 0 then Corner(Top(b.i, a.j - 1), 2) else Corner(Rim(b.i), 1)
      else
        if a.i < n then Corner(Top(a.i, b.j), 3) else Corner(Rim(n + b.j), 1)
  }

  lemma VerticesAreValid(c: Cell, l: int, n: int, flipped: bool)
    requires n > 0 && ValidCell(c, n)
    ensures ValidVertex(CellVertex(c, l, n, flipped), n)
  {
  }

  lemma Located(c: Cell, l: int, n: int)
    requires n > 0 && ValidCell(c, n) && 0 <= l < 4
    ensures Locate(CellVertex(c, l, n, true), CellVertex(c, Next(l, 4), n, true), n) == Corner(c, l)
  {
    if c.Rim? {
      RimLocated(c.k, l, n);
    }
  }

  lemma RimLocated(k: int, l: int, n: int)
    requires n > 0 && 0 <= k < 4 * n && 0 <= l < 4
    ensures Locate(CellVertex(Rim(k), l, n, true), CellVertex(Rim(k), Next(l, 4), n, true), n) == Corner(Rim(k), l)
  {
    BorderStep(k, n);
    BorderStep(Succ(k, 4 * n), n);
  }

  /** `t` walks the edge from `b` to `a`. */
  predicate Walks(t: Corner, b: Vertex, a: Vertex, n: int) {
    0 <= t.l < 4 && CellVertex(t.cell, t.l, n, true) == b && CellVertex(t.cell, Next(t.l, 4), n, true) == a
  }

  lemma BottomReverse(c: Cell, l: int, n: int)
    requires n > 0 && ValidCell(c, n) && c.Bottom? && 0 <= l < 4
    ensures var a, b := CellVertex(c, l, n, true), CellVertex(c, Next(l, 4), n, true);
      ValidCell(Locate(b, a, n).cell, n) && Walks(Locate(b, a, n), b, a, n)
  {
  }

  lemma TopReverse(c: Cell, l: int, n: int)
    requires n > 0 && ValidCell(c, n) && c.Top? && 0 <= l < 4
    ensures var a, b := CellVertex(c, l, n, true), CellVertex(c, Next(l, 4), n, true);
      ValidCell(Locate(b, a, n).cell, n) && Walks(Locate(b, a, n), b, a, n)
  {
  }

  lemma BorderStep(k: int, n: int)
    requires n > 0 && 0 <= k < 4 * n
    ensures var (i, j) := Border(k, n);
      0 <= i <= n && 0 <= j <= n && (i == 0 || i == n || j == 0 || j == n) && BorderIndex(i, j, n) == k
    ensures var (i, j), (p, q) := Border(k, n), Border(Succ(k, 4 * n), n);
      (k < n ==> p == i + 1 && q == j == 0) && (n <= k < 2 * n ==> p == i == n && q == j + 1) &&
      (2 * n <= k < 3 * n ==> p == i - 1 && q == j == n) && (3 * n <= k ==> p == i == 0 && q == j - 1)
  {
  }

  /** The upright sides of the rim are shared with the rim quads before and after. */
  lemma RimUpright(k: int, n: int)
    requires n > 0 && 0 <= k < 4 * n
    ensures var a, b := CellVertex(Rim(k), 0, n, true), CellVertex(Rim(k), 1, n, true);
      ValidCell(Locate(b, a, n).cell, n) && Walks(Locate(b, a, n), b, a, n)
    ensures var a, b := CellVertex(Rim(k), 2, n, true), CellVertex(Rim(k), 3, n, true);
      ValidCell(Locate(b, a, n).cell, n) && Walks(Locate(b, a, n), b, a, n)
  {
    BorderStep(k, n);
    var m := Pred(k, 4 * n);
    BorderStep(Succ(k, 4 * n), n);
    assert Succ(m, 4 * n) == k;
  }

  /** The level sides of the rim are shared with the sheets. */
  lemma RimLevel(k: int, l: int, n: int)
    requires n > 0 && 0 <= k < 4 * n && (l == 1 || l == 3)
    ensures var a, b := CellVertex(Rim(k), l, n, true), CellVertex(Rim(k), Next(l, 4), n, true);
      ValidCell(Locate(b, a, n).cell, n) && Walks(Locate(b, a, n), b, a, n)
  {
    BorderStep(k, n);
  }

  /** The reverse of any side is walked by a corner too. */
  lemma ReverseLocated(c: Cell, l: int, n: int)
    requires n > 0 && ValidCell(c, n) && 0 <= l < 4
    ensures var a, b := CellVertex(c, l, n, true), CellVertex(c, Next(l, 4), n, true);
      ValidCell(Locate(b, a, n).cell, n) && Walks(Locate(b, a, n), b, a, n)
  {
    if c.Rim? {
      RimUpright(c.k, n);
      if l == 1 || l == 3 {
        RimLevel(c.k, l, n);
      }
    } else if c.Bottom? {
      BottomReverse(c, l, n);
    } else {
      TopReverse(c, l, n);
    }
  }

  function SlabPlan(n: int, flipped: bool): Plan<Vertex>
    requires n > 0
  {
    Plan(SlabFaces(n, flipped),
         (x, l) => CellVertex(CellAt(x, n), l, n, flipped),
         v => Number(v, n),
         (a, b) => Listed(Locate(a, b, n), n),
         (x, l) => Listed(Locate(CellVertex(CellAt(x, n), Next4(l), n, flipped),
                                 CellVertex(CellAt(x, n), l, n, flipped), n), n))
  }

  function Next4(l: int): int {
    if l == 3 then 0 else l + 1
  }

  /** The face and corner that a cell's corner is listed as. */
  function Listed(c: Corner, n: int): (int, int) {
    (IndexOf(c.cell, n), c.l)
  }

  lemma SlabNumbering(n: int, flipped: bool)
    requires n > 0
    ensures Numbering(SlabPlan(n, flipped))
  {
    var p := SlabPlan(n, flipped);
    forall x, l | IsCorner(p.faces, x, l)
      ensures NumberedRight(p, x, l) && ValidVertex(p.vertex(x, l), n)
    {
      IndexedCell(x, n);
      VerticesAreValid(CellAt(x, n), l, n, flipped);
    }
    forall x, k, y, l | IsCorner(p.faces, x, k) && IsCorner(p.faces, y, l)
      ensures Apart(p, x, k, y, l)
    {
      if p.number(p.vertex(x, k)) == p.number(p.vertex(y, l)) {
        assert NumberedRight(p, x, k) && NumberedRight(p, y, l);
        NumberInjective(p.vertex(x, k), p.vertex(y, l), n);
      }
    }
  }

  lemma FlippedSide(x: nat, l: nat, n: int)
    requires n > 0 && IsCorner(SlabFaces(n, true), x, l)
    ensures SideRight(SlabPlan(n, true), x, l)
  {
    var c := CellAt(x, n);
    IndexedCell(x, n);
    Located(c, l, n);
    ReverseLocated(c, l, n);
    CellIndexed(Locate(CellVertex(c, Next(l, 4), n, true), CellVertex(c, l, n, true), n).cell, n);
  }

  /** With the rim turned round the slab is closed and consistently oriented. */
  lemma FlippedIsClosed(n: int)
    requires n > 0
    ensures ClosedOriented(SlabFaces(n, true))
  {
    var p := SlabPlan(n, true);
    SlabNumbering(n, true);
    forall x, l | IsCorner(p.faces, x, l)
      ensures SideRight(p, x, l)
    {
      FlippedSide(x, l, n);
    }
    ClosedFromPlan(p);
  }

  lemma SlabIsProper(n: int, flipped: bool)
    requires n > 0
    ensures Proper(SlabFaces(n, flipped))
  {
    var p := SlabPlan(n, flipped);
    forall x | 0 <= x < |p.faces|
      ensures VerticesDiffer(p, x)
    {
      IndexedCell(x, n);
      CornersDiffer(CellAt(x, n), n, flipped);
    }
    SlabNumbering(n, flipped);
    ProperFromPlan(p);
  }

  lemma CornersDiffer(c: Cell, n: int, flipped: bool)
    requires n > 0 && ValidCell(c, n)
    ensures forall l, m :: 0 <= l < m < 4 ==> CellVertex(c, l, n, flipped) != CellVertex(c, m, n, flipped)
  {
  }

  // ---------------------------------------------------------------- the slab as the source lists it

  function TurnedRound(f: Face): Face
    requires |f| == 4
  {
    [f[3], f[2], f[1], f[0]]
  }

  /** Turning quads round changes no undirected edge. */
  lemma {:induction false} FlipKeepsKeys(a: seq<Face>, b: seq<Face>)
    requires |a| == |b|
    requires forall x :: 0 <= x < |a| ==> |a[x]| == 4 && (b[x] == a[x] || b[x] == TurnedRound(a[x]))
    ensures multiset(Keys(Edges(a))) == multiset(Keys(Edges(b)))
  {
    if a != [] {
      var last := |a| - 1;
      FlipKeepsKeys(a[..last], b[..last]);
      KeysAppend(Edges(a[..last]), Loop(a[last]));
      KeysAppend(Edges(b[..last]), Loop(b[last]));
      FlipKeepsFace(a[last]);
    }
  }

  lemma FlipKeepsFace(f: Face)
    requires |f| == 4
    ensures multiset(Keys(Loop(f))) == multiset(Keys(Loop(TurnedRound(f))))
  {
    var a, b, c, d := Key((f[0], f[1])), Key((f[1], f[2])), Key((f[2], f[3])), Key((f[3], f[0]));
    assert Keys(Loop(f)) == [a, b, c, d];
    assert Keys(Loop(TurnedRound(f))) == [c, b, a, d];
    SwapFirstThird(a, b, c, d);
  }

  lemma SwapFirstThird<T>(a: T, b: T, c: T, d: T)
    ensures multiset([a, b, c, d]) == multiset([c, b, a, d])
  {
    FourElements(a, b, c, d);
    FourElements(c, b, a, d);
    var x, y, z, w := multiset{a}, multiset{b}, multiset{c}, multiset{d};
    assert x + y + z + w == z + y + x + w;
  }

  lemma FourElements<T>(a: T, b: T, c: T, d: T)
    ensures multiset([a, b, c, d]) == multiset{a} + multiset{b} + multiset{c} + multiset{d}
  {
    var one, two, three := [a], [a, b], [a, b, c];
    assert two == one + [b] && three == two + [c] && [a, b, c, d] == three + [d];
    Append(one, b);
    Append(two, c);
    Append(three, d);
    assert multiset(one) == multiset{a};
  }

  lemma Append<T>(s: seq<T>, x: T)
    ensures multiset(s + [x]) == multiset(s) + multiset{x}
  {
  }

  lemma KeysAppend(s: seq<Edge>, t: seq<Edge>)
    ensures multiset(Keys(s + t)) == multiset(Keys(s)) + multiset(Keys(t))
  {
    assert Keys(s + t) == Keys(s) + Keys(t);
  }

  /** Every undirected edge of the slab is on exactly two corners. */
  lemma SlabIsTwoSided(n: int)
    requires n > 0
    ensures Proper(SlabFaces(n, false)) && TwoSided(SlabFaces(n, false))
  {
    var listed, turned := SlabFaces(n, false), SlabFaces(n, true);
    SlabIsProper(n, false);
    SlabIsProper(n, true);
    FlippedIsClosed(n);
    ClosedIsTwoSided(turned);
    FlipKeepsKeys(listed, turned);
    SameKeys(listed, turned);
  }

  lemma SameKeys(a: seq<Face>, b: seq<Face>)
    requires multiset(Keys(Edges(a))) == multiset(Keys(Edges(b))) && TwoSided(b)
    ensures TwoSided(a)
  {
    forall e | e in EdgeSet(a)
      ensures e.0 < e.1 && KeyCount(a, e) == 2
    {
      assert e in multiset(Keys(Edges(b)));
    }
  }

  lemma VertexIsUsed(w: int, n: int)
    requires n > 0 && 0 <= w < 2 * ((n + 1) * (n + 1))
    ensures Uses(SlabFaces(n, false), w)
  {
    var per := (n + 1) * (n + 1);
    var u := if w < per then w else w - per;
    Encode(u, n + 1, n + 1);
    var i, j := u % (n + 1), u / (n + 1);
    var p, q := if i < n then i else i - 1, if j < n then j else j - 1;
    var c := if w < per then Bottom(p, q) else Top(p, q);
    var l := if w < per then (if i == p then (if j == q then 0 else 1) else (if j == q then 3 else 2))
             else (if i == p then (if j == q then 0 else 3) else (if j == q then 1 else 2));
    CellIndexed(c, n);
    assert CellVertex(c, l, n, false) == Vertex(w >= per, i, j);
    assert IsCorner(SlabFaces(n, false), IndexOf(c, n), l);
  }

  /** The slab uses exactly its 2 (n + 1) (n + 1) vertices, and V - E + F is 2. */
  lemma SlabEuler(n: int)
    requires n > 0
    ensures var faces, v := SlabFaces(n, false), 2 * ((n + 1) * (n + 1));
      Spans(faces, v) && v - |EdgeSet(faces)| + |faces| == 2
  {
    var faces, v := SlabFaces(n, false), 2 * ((n + 1) * (n + 1));
    forall x, l | IsCorner(faces, x, l)
      ensures 0 <= faces[x][l] < v
    {
      IndexedCell(x, n);
      VerticesAreValid(CellAt(x, n), l, n, false);
      NumberInRange(CellVertex(CellAt(x, n), l, n, false), n);
    }
    forall w | 0 <= w < v
      ensures Uses(faces, w)
    {
      VertexIsUsed(w, n);
    }
    SlabIsTwoSided(n);
    TwoSidedEdges(faces);
    TotalCorners(faces, 4);
    assert (n + 1) * (n + 1) == n * n + 2 * n + 1;
  }

  /** The quad of the low sheet that lies on border step `k`, and which of its sides does. */
  function BesideRim(k: int, n: int): Corner {
    if k < n then Corner(Bottom(k, 0), 3)
    else if k < 2 * n then Corner(Bottom(n - 1, k - n), 2)
    else if k < 3 * n then Corner(Bottom(n - 1 - (k - 2 * n), n - 1), 1)
    else Corner(Bottom(0, n - 1 - (k - 3 * n)), 0)
  }

  /** The rim runs with the sheets, not against them: on every border step the rim quad and a
      quad of the low sheet walk the same directed edge. */
  lemma RimRunsWithSheet(n: int, k: int)
    requires n > 0 && 0 <= k < 4 * n
    ensures var faces, t := SlabFaces(n, false), BesideRim(k, n);
      var x := IndexOf(t.cell, n);
      && IsCorner(faces, x, t.l) && IsCorner(faces, 2 * (n * n) + k, 3) && x < 2 * (n * n)
      && Side(faces[x], t.l) == Side(faces[2 * (n * n) + k], 3)
  {
    var t := BesideRim(k, n);
    BorderStep(k, n);
    CellIndexed(Rim(k), n);
    CellIndexed(t.cell, n);
    AtInRange(t.cell.j, t.cell.i, n, n);
    assert CellVertex(t.cell, t.l, n, false) == CellVertex(Rim(k), 3, n, false);
    assert CellVertex(t.cell, Next(t.l, 4), n, false) == CellVertex(Rim(k), 0, n, false);
  }

  /** So the directed form of closedness fails for every size. */
  lemma SlabIsNotOriented(n: int)
    requires n > 0
    ensures !ClosedOriented(SlabFaces(n, false))
  {
    var faces := SlabFaces(n, false);
    RimRunsWithSheet(n, 0);
    var t := BesideRim(0, n);
    DoubledEdgeIsNotClosed(faces, IndexOf(t.cell, n), t.l, 2 * (n * n), 3);
  }

  /** What the validity check reports on the generated slab, and its Euler characteristic. */
  method CheckSlab(n: nat) returns (vertices: nat, faces: seq<Face>, nonmanifold: nat, boundary: nat, degenerate: nat)
    requires n > 0
    ensures nonmanifold == boundary == degenerate == 0
    ensures Spans(faces, vertices) && vertices - |EdgeSet(faces)| + |faces| == 2
  {
    vertices, faces := ThinPlate(n);
    SlabIsTwoSided(n);
    SlabEuler(n);
    Validators.TwoSidedIsClean(faces);
    nonmanifold, boundary, degenerate := Validators.MeshValidity(faces, true);
  }
}
