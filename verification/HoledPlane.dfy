/** `plane_with_hole_obj`: a square grid of quads without the 2 x 2 cells in its middle. */
module HoledPlane {
  import opened Chains
  import opened Grid
  import Validators

  predicate InHole(i: int, j: int, n: nat) {
    n / 2 - 1 <= i < n / 2 + 1 && n / 2 - 1 <= j < n / 2 + 1
  }

  predicate Solid(i: int, j: int, n: nat) {
    0 <= i < n && 0 <= j < n && !InHole(i, j, n)
  }

  function Quad(i: int, j: int, n: nat): (f: Face)
    ensures |f| == 4
  {
    [At(i, j, n + 1), At(i + 1, j, n + 1), At(i + 1, j + 1, n + 1), At(i, j + 1, n + 1)]
  }

  /** The faces of the first `x` cells in row-major order. */
  function FacesUpTo(n: nat, x: nat): seq<Face> {
    if x == 0 || n == 0 then []
    else
      FacesUpTo(n, x - 1) +
      if InHole((x - 1) / n, (x - 1) % n, n) then [] else [Quad((x - 1) / n, (x - 1) % n, n)]
  }

  function PlaneFaces(n: nat): seq<Face> {
    FacesUpTo(n, n * n)
  }

  method PlaneWithHoleObj(n: nat) returns (faces: seq<Face>)
    ensures faces == PlaneFaces(n)
  {
    var holeLo, holeHi := n / 2 - 1, n / 2 + 1;
    faces := [];
    for i := 0 to n
      invariant i * n >= 0 && faces == FacesUpTo(n, i * n)
    {
      for j := 0 to n
        invariant At(i, j, n) >= 0 && faces == FacesUpTo(n, At(i, j, n))
      {
        Decode(i, j, n);
        if holeLo <= i < holeHi && holeLo <= j < holeHi {
          continue;
        }
        faces := faces + [[At(i, j, n + 1), At(i + 1, j, n + 1), At(i + 1, j + 1, n + 1), At(i, j + 1, n + 1)]];
      }
      assert At(i, n, n) == (i + 1) * n;
    }
  }

  // ---------------------------------------------------------------- sides of cells

  /** Side `k` of a cell. */
  datatype Corner = Corner(i: int, j: int, k: int)

  predicate ValidCorner(c: Corner, n: nat) {
    Solid(c.i, c.j, n) && 0 <= c.k < 4
  }

  function SideOf(c: Corner, n: nat): Edge
    requires 0 <= c.k < 4
  {
    Side(Quad(c.i, c.j, n), c.k)
  }

  /** The cell on the other side, and the side of it that is shared. */
  function Across(c: Corner): Corner {
    if c.k == 0 then Corner(c.i, c.j - 1, 2)
    else if c.k == 1 then Corner(c.i + 1, c.j, 3)
    else if c.k == 2 then Corner(c.i, c.j + 1, 0)
    else Corner(c.i - 1, c.j, 1)
  }

  lemma AcrossReverses(c: Corner, n: nat)
    requires 0 <= c.k < 4
    ensures 0 <= Across(c).k < 4 && Across(Across(c)) == c
    ensures SideOf(Across(c), n) == Reverse(SideOf(c, n))
  {
  }

  lemma SamePoint(p: (int, int), q: (int, int), n: nat)
    requires 0 <= p.0 && 0 <= q.0 && 0 <= p.1 <= n && 0 <= q.1 <= n
    requires At(p.0, p.1, n + 1) == At(q.0, q.1, n + 1)
    ensures p == q
  {
    Decode(p.0, p.1, n + 1);
    Decode(q.0, q.1, n + 1);
  }

  /** A directed edge determines the cell and the side that walk it. */
  lemma SameSide(c: Corner, d: Corner, n: nat)
    requires 0 <= c.i < n && 0 <= c.j < n && 0 <= c.k < 4
    requires 0 <= d.i < n && 0 <= d.j < n && 0 <= d.k < 4
    requires SideOf(c, n) == SideOf(d, n)
    ensures c == d
  {
    SamePoint(Start(c), Start(d), n);
    SamePoint(Start(c.(k := Next(c.k, 4))), Start(d.(k := Next(d.k, 4))), n);
  }

  /** Grid coordinates of a corner. */
  function Start(c: Corner): (int, int) {
    (if c.k == 1 || c.k == 2 then c.i + 1 else c.i, if c.k == 2 || c.k == 3 then c.j + 1 else c.j)
  }

  // ---------------------------------------------------------------- which edges are walked

  ghost predicate WalkedBy(e: Edge, c: Corner, n: nat, x: nat) {
    ValidCorner(c, n) && At(c.i, c.j, n) < x && SideOf(c, n) == e
  }

  ghost predicate Walked(e: Edge, n: nat, x: nat) {
    exists c :: WalkedBy(e, c, n, x)
  }

  ghost predicate SideOfCell(e: Edge, i: int, j: int, n: nat) {
    exists k :: 0 <= k < 4 && SideOf(Corner(i, j, k), n) == e
  }

  lemma QuadCount(e: Edge, i: int, j: int, n: nat)
    requires 0 <= i < n && 0 <= j < n
    ensures multiset(Loop(Quad(i, j, n)))[e] == if SideOfCell(e, i, j, n) then 1 else 0
  {
    var loop := Loop(Quad(i, j, n));
    assert forall k :: 0 <= k < 4 ==> loop[k] == SideOf(Corner(i, j, k), n);
    forall k, l | 0 <= k < l < 4
      ensures loop[k] != loop[l]
    {
      if SideOf(Corner(i, j, k), n) == SideOf(Corner(i, j, l), n) {
        SameSide(Corner(i, j, k), Corner(i, j, l), n);
        assert false;
      }
    }
    DistinctCount(loop, e);
    if SideOfCell(e, i, j, n) {
      var k :| 0 <= k < 4 && SideOf(Corner(i, j, k), n) == e;
      assert loop[k] == e;
    }
  }

  lemma FacesStep(e: Edge, n: nat, x: nat)
    requires 0 < x <= n * n
    ensures var i, j := (x - 1) / n, (x - 1) % n;
      Count(FacesUpTo(n, x), e) ==
      Count(FacesUpTo(n, x - 1), e) + if InHole(i, j, n) then 0 else multiset(Loop(Quad(i, j, n)))[e]
  {
    var i, j := (x - 1) / n, (x - 1) % n;
    if !InHole(i, j, n) {
      CountAppend(FacesUpTo(n, x - 1), Quad(i, j, n), e);
    } else {
      assert FacesUpTo(n, x) == FacesUpTo(n, x - 1);
    }
  }

  /** The cell that is added walks none of the edges walked before. */
  lemma WalkedStep(e: Edge, n: nat, x: nat)
    requires 0 < x <= n * n
    ensures var i, j := (x - 1) / n, (x - 1) % n;
      var added := !InHole(i, j, n) && SideOfCell(e, i, j, n);
      (Walked(e, n, x) <==> Walked(e, n, x - 1) || added) && !(Walked(e, n, x - 1) && added)
  {
    var i, j := (x - 1) / n, (x - 1) % n;
    Encode(x - 1, n, n);
    if Walked(e, n, x) {
      var c :| WalkedBy(e, c, n, x);
      Decode(c.i, c.j, n);
      assert WalkedBy(e, c, n, x - 1) || (c.i == i && c.j == j && SideOf(Corner(i, j, c.k), n) == e);
    }
    if SideOfCell(e, i, j, n) && !InHole(i, j, n) {
      var k :| 0 <= k < 4 && SideOf(Corner(i, j, k), n) == e;
      assert WalkedBy(e, Corner(i, j, k), n, x);
      forall c: Corner | ValidCorner(c, n) && At(c.i, c.j, n) < x - 1
        ensures SideOf(c, n) != e
      {
        if SideOf(c, n) == e {
          SameSide(c, Corner(i, j, k), n);
          assert false;
        }
      }
    } else if Walked(e, n, x - 1) {
      var c :| WalkedBy(e, c, n, x - 1);
      assert WalkedBy(e, c, n, x);
    }
  }

  ghost predicate CountedRight(e: Edge, n: nat, x: nat) {
    Count(FacesUpTo(n, x), e) == if Walked(e, n, x) then 1 else 0
  }

  /** An edge is walked once if some solid cell has it for a side, and otherwise never. */
  lemma {:induction false} CountUpTo(e: Edge, n: nat, x: nat, total: nat)
    requires total == n * n && x <= total
    ensures CountedRight(e, n, x)
  {
    if x == 0 {
      NoneWalked(e, n);
    } else {
      CountUpTo(e, n, x - 1, total);
      CombineStep(e, n, x);
    }
  }

  lemma NoneWalked(e: Edge, n: nat)
    ensures !Walked(e, n, 0)
  {
    forall c: Corner | ValidCorner(c, n)
      ensures At(c.i, c.j, n) >= 0
    {
      AtInRange(c.i, c.j, n, n);
    }
  }

  lemma CombineStep(e: Edge, n: nat, x: nat)
    requires 0 < x <= n * n && CountedRight(e, n, x - 1)
    ensures CountedRight(e, n, x)
  {
    Encode(x - 1, n, n);
    FacesStep(e, n, x);
    WalkedStep(e, n, x);
    QuadCount(e, (x - 1) / n, (x - 1) % n, n);
  }

  lemma PlaneCount(e: Edge, n: nat)
    ensures Count(PlaneFaces(n), e) == if Walked(e, n, n * n) then 1 else 0
  {
    CountUpTo(e, n, n * n, n * n);
    assert CountedRight(e, n, n * n);
  }

  /** A side is on one face only exactly when there is no solid cell across it. */
  lemma OpenSide(c: Corner, n: nat)
    requires ValidCorner(c, n)
    ensures Key(SideOf(c, n)) in EdgeSet(PlaneFaces(n))
    ensures KeyCount(PlaneFaces(n), Key(SideOf(c, n))) == 1 <==> !Solid(Across(c).i, Across(c).j, n)
  {
    var faces, e := PlaneFaces(n), SideOf(c, n);
    AtInRange(c.i, c.j, n, n);
    assert WalkedBy(e, c, n, n * n);
    PlaneCount(e, n);
    var i :| 0 <= i < |Edges(faces)| && Edges(faces)[i] == e;
    assert Keys(Edges(faces))[i] == Key(e);
    PlaneCount(Reverse(e), n);
    AcrossReverses(c, n);
    var d := Across(c);
    if Solid(d.i, d.j, n) {
      AtInRange(d.i, d.j, n, n);
      assert WalkedBy(Reverse(e), d, n, n * n);
    } else {
      forall g | ValidCorner(g, n)
        ensures SideOf(g, n) != Reverse(e)
      {
        if SideOf(g, n) == Reverse(e) {
          AcrossReverses(g, n);
          BesideIsAcross(c, g, n);
          assert false;
        }
      }
    }
    SidesDiffer(c, n);
    KeyCountOf(Edges(faces), Key(e));
  }

  /** The cell that walks a side backwards is the one across it. */
  lemma BesideIsAcross(c: Corner, g: Corner, n: nat)
    requires ValidCorner(c, n) && ValidCorner(g, n) && SideOf(g, n) == Reverse(SideOf(c, n))
    ensures g == Across(c)
  {
    SamePoint(Start(c), Start(g.(k := Next(g.k, 4))), n);
    SamePoint(Start(c.(k := Next(c.k, 4))), Start(g), n);
  }

  lemma SidesDiffer(c: Corner, n: nat)
    requires ValidCorner(c, n)
    ensures SideOf(c, n).0 != SideOf(c, n).1
  {
  }

  // ---------------------------------------------------------------- the open edges, listed

  /** Open side number `x`: the outer border, then the hole. */
  function OpenCorner(x: int, n: nat): Corner {
    var lo := n / 2 - 1;
    if x < n then Corner(x, 0, 0)
    else if x < 2 * n then Corner(n - 1, x - n, 1)
    else if x < 3 * n then Corner(x - 2 * n, n - 1, 2)
    else if x < 4 * n then Corner(0, x - 3 * n, 3)
    else if x < 4 * n + 2 then Corner(lo + (x - 4 * n), lo - 1, 2)
    else if x < 4 * n + 4 then Corner(lo + (x - 4 * n - 2), lo + 2, 0)
    else if x < 4 * n + 6 then Corner(lo - 1, lo + (x - 4 * n - 4), 1)
    else Corner(lo + 2, lo + (x - 4 * n - 6), 3)
  }

  /** The number of an open side. */
  function Rank(c: Corner, n: nat): int {
    var lo := n / 2 - 1;
    if c.k == 0 then (if c.j == 0 then c.i else 4 * n + 2 + (c.i - lo))
    else if c.k == 1 then (if c.i == n - 1 then n + c.j else 4 * n + 4 + (c.j - lo))
    else if c.k == 2 then (if c.j == n - 1 then 2 * n + c.i else 4 * n + (c.i - lo))
    else (if c.i == 0 then 3 * n + c.j else 4 * n + 6 + (c.j - lo))
  }

  predicate OpenAt(c: Corner, n: nat) {
    ValidCorner(c, n) && !Solid(Across(c).i, Across(c).j, n)
  }

  lemma OpenListed(x: int, n: nat)
    requires n >= 4 && 0 <= x < 4 * n + 8
    ensures OpenAt(OpenCorner(x, n), n) && Rank(OpenCorner(x, n), n) == x
  {
  }

  lemma ListedOpen(c: Corner, n: nat)
    requires n >= 4 && OpenAt(c, n)
    ensures 0 <= Rank(c, n) < 4 * n + 8 && OpenCorner(Rank(c, n), n) == c
  {
  }

  ghost function OpenKeys(n: nat): (r: seq<Edge>)
    requires n >= 4
    ensures |r| == 4 * n + 8
    ensures forall x :: 0 <= x < |r| ==> OpenAt(OpenCorner(x, n), n) && r[x] == Key(SideOf(OpenCorner(x, n), n))
  {
    assert forall x :: 0 <= x < 4 * n + 8 ==> OpenAt(OpenCorner(x, n), n) by {
      forall x | 0 <= x < 4 * n + 8
        ensures OpenAt(OpenCorner(x, n), n)
      {
        OpenListed(x, n);
      }
    }
    seq(4 * n + 8, x requires 0 <= x < 4 * n + 8 && OpenAt(OpenCorner(x, n), n) => Key(SideOf(OpenCorner(x, n), n)))
  }

  lemma OpenKeysDiffer(x: int, y: int, n: nat)
    requires n >= 4 && 0 <= x < 4 * n + 8 && 0 <= y < 4 * n + 8
    requires OpenKeys(n)[x] == OpenKeys(n)[y]
    ensures x == y
  {
    var c, d := OpenCorner(x, n), OpenCorner(y, n);
    OpenListed(x, n);
    OpenListed(y, n);
    if SideOf(c, n) == SideOf(d, n) {
      SameSide(c, d, n);
    } else {
      assert SideOf(d, n) == Reverse(SideOf(c, n));
      BesideIsAcross(c, d, n);
      assert false;
    }
  }

  lemma {:induction false} DistinctSize<T>(s: seq<T>, members: set<T>)
    requires forall i, j :: 0 <= i < j < |s| ==> s[i] != s[j]
    requires forall x :: x in members <==> x in s
    ensures |members| == |s|
  {
    if s == [] {
      assert members == {};
    } else {
      var last := s[|s| - 1];
      assert s == s[..|s| - 1] + [last];
      DistinctSize(s[..|s| - 1], members - {last});
    }
  }

  lemma OpenEdgesAreListed(n: nat, e: Edge)
    requires n >= 4
    ensures e in Validators.EdgesWith(PlaneFaces(n), Validators.JustOne) <==> e in OpenKeys(n)
  {
    var faces := PlaneFaces(n);
    if e in Validators.EdgesWith(faces, Validators.JustOne) {
      var i :| 0 <= i < |Edges(faces)| && Key(Edges(faces)[i]) == e;
      var d := Edges(faces)[i];
      PlaneCount(d, n);
      var c :| WalkedBy(d, c, n, n * n);
      OpenSide(c, n);
      ListedOpen(c, n);
      assert OpenKeys(n)[Rank(c, n)] == e;
    }
    if e in OpenKeys(n) {
      var x :| 0 <= x < |OpenKeys(n)| && OpenKeys(n)[x] == e;
      OpenSide(OpenCorner(x, n), n);
    }
  }

  /** The plane's open edges are its 4n border edges and the 8 around the hole. */
  lemma OpenEdgeTotal(n: nat)
    requires n >= 4
    ensures |Validators.EdgesWith(PlaneFaces(n), Validators.JustOne)| == 4 * n + 8
  {
    var open := OpenKeys(n);
    forall x, y | 0 <= x < y < |open|
      ensures open[x] != open[y]
    {
      if open[x] == open[y] {
        OpenKeysDiffer(x, y, n);
        assert false;
      }
    }
    forall e: Edge
      ensures e in Validators.EdgesWith(PlaneFaces(n), Validators.JustOne) <==> e in open
    {
      OpenEdgesAreListed(n, e);
    }
    DistinctSize(open, Validators.EdgesWith(PlaneFaces(n), Validators.JustOne));
  }

  /** What `open_edges` reports on the generated plane. */
  method CheckPlane(n: nat) returns (open: nat)
    requires n >= 4
    ensures open == 4 * n + 8
  {
    var faces := PlaneWithHoleObj(n);
    OpenEdgeTotal(n);
    open := Validators.OpenEdges(faces);
  }
}
