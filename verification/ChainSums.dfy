/** Sums over directed edges: fan triangulation, Newell vectors and the shoelace area. */
module ChainSums {
  import opened Chains
  import Torus
  import Spheres

  // ---------------------------------------------------------------- antisymmetric sums

  type Weight = Edge -> real

  ghost predicate Antisymmetric(w: Weight) {
    forall e: Edge :: w(Reverse(e)) == -w(e)
  }

  function Total(edges: seq<Edge>, w: Weight): real {
    if edges == [] then 0.0 else Total(edges[..|edges| - 1], w) + w(edges[|edges| - 1])
  }

  lemma {:induction false} TotalAppend(a: seq<Edge>, b: seq<Edge>, w: Weight)
    ensures Total(a + b, w) == Total(a, w) + Total(b, w)
  {
    if b == [] {
      assert a + b == a;
    } else {
      assert (a + b)[..|a + b| - 1] == a + b[..|b| - 1];
      TotalAppend(a, b[..|b| - 1], w);
    }
  }

  lemma {:induction false} TotalRemove(edges: seq<Edge>, i: nat, w: Weight)
    requires i < |edges|
    ensures Total(edges, w) == Total(edges[..i] + edges[i + 1..], w) + w(edges[i])
  {
    var last := |edges| - 1;
    var removed := edges[..i] + edges[i + 1..];
    if i == last {
      assert removed == edges[..last];
    } else {
      var init := edges[..last];
      TotalRemove(init, i, w);
      assert removed[..last - 1] == init[..i] + init[i + 1..];
      assert removed[last - 1] == edges[last];
    }
  }

  lemma SingleTotal(e: Edge, w: Weight)
    ensures Total([e], w) == w(e)
  {
    assert [e][..0] == [];
  }

  /** Every edge is walked as often one way as the other. */
  ghost predicate Balanced(edges: seq<Edge>) {
    forall e: Edge :: multiset(edges)[e] == multiset(edges)[Reverse(e)]
  }

  lemma DropPair(edges: seq<Edge>, i: nat)
    requires i < |edges| - 1 && Balanced(edges) && edges[i] == Reverse(edges[|edges| - 1])
    ensures Balanced(edges[..i] + edges[i + 1..|edges| - 1])
  {
    var e, rest := edges[|edges| - 1], edges[..i] + edges[i + 1..|edges| - 1];
    assert edges == edges[..i] + [edges[i]] + edges[i + 1..|edges| - 1] + [e];
    assert multiset(edges) == multiset(rest) + multiset{e, Reverse(e)};
    forall d: Edge
      ensures multiset(rest)[d] == multiset(rest)[Reverse(d)]
    {
      assert multiset(edges)[d] == multiset(edges)[Reverse(d)];
    }
  }

  /** An antisymmetric sum over a balanced chain cancels. */
  lemma {:induction false} BalancedCancels(edges: seq<Edge>, w: Weight)
    requires Balanced(edges) && Antisymmetric(w)
    ensures Total(edges, w) == 0.0
    decreases |edges|
  {
    if edges != [] {
      var last := |edges| - 1;
      var e, init := edges[last], edges[..last];
      assert edges == init + [e];
      assert w(Reverse(e)) == -w(e);
      if e == Reverse(e) {
        assert Balanced(init) by {
          forall d: Edge
            ensures multiset(init)[d] == multiset(init)[Reverse(d)]
          {
            assert multiset(edges)[d] == multiset(edges)[Reverse(d)];
          }
        }
        BalancedCancels(init, w);
      } else {
        assert multiset(edges)[Reverse(e)] == multiset(edges)[e] > 0;
        var i :| 0 <= i < last && edges[i] == Reverse(e);
        DropPair(edges, i);
        assert init[..i] + init[i + 1..] == edges[..i] + edges[i + 1..last];
        TotalRemove(init, i, w);
        BalancedCancels(init[..i] + init[i + 1..], w);
      }
    }
  }

  lemma ClosedIsBalanced(faces: seq<Face>)
    requires ClosedOriented(faces)
    ensures Balanced(Edges(faces))
  {
    forall e: Edge
      ensures multiset(Edges(faces))[e] == multiset(Edges(faces))[Reverse(e)]
    {
      assert Count(faces, Reverse(e)) == Count(faces, e);
    }
  }

  // ---------------------------------------------------------------- fan triangulation

  function Fan(f: Face): (r: seq<Face>)
    ensures |r| == if |f| < 3 then 0 else |f| - 2
    ensures forall k :: 0 <= k < |r| ==> r[k] == [f[0], f[k + 1], f[k + 2]]
  {
    if |f| < 3 then [] else seq(|f| - 2, k requires 0 <= k < |f| - 2 => [f[0], f[k + 1], f[k + 2]])
  }

  function FanAll(faces: seq<Face>): seq<Face> {
    if faces == [] then [] else FanAll(faces[..|faces| - 1]) + Fan(faces[|faces| - 1])
  }

  /** `_triangles`, one face. */
  method FanTriangles(f: Face) returns (tris: seq<Face>)
    ensures tris == Fan(f)
  {
    tris := [];
    var k := 1;
    while k < |f| - 1
      invariant k >= 1 && (|f| >= 2 ==> k <= |f| - 1)
      invariant tris == if |f| < 3 then [] else Fan(f)[..k - 1]
    {
      assert Fan(f)[..k] == Fan(f)[..k - 1] + [Fan(f)[k - 1]];
      tris := tris + [[f[0], f[k], f[k + 1]]];
      k := k + 1;
    }
  }

  /** `_triangles`. */
  method Triangles(faces: seq<Face>) returns (tris: seq<Face>)
    ensures tris == FanAll(faces)
  {
    tris := [];
    for i := 0 to |faces|
      invariant tris == FanAll(faces[..i])
    {
      assert faces[..i + 1][..i] == faces[..i];
      var fan := FanTriangles(faces[i]);
      tris := tris + fan;
    }
    assert faces[..|faces|] == faces;
  }

  function TriangleTotal(faces: seq<Face>): nat {
    if faces == [] then 0
    else
      var f := faces[|faces| - 1];
      TriangleTotal(faces[..|faces| - 1]) + if |f| < 3 then 0 else |f| - 2
  }

  lemma {:induction false} FanAllSize(faces: seq<Face>)
    ensures |FanAll(faces)| == TriangleTotal(faces)
  {
    if faces != [] {
      FanAllSize(faces[..|faces| - 1]);
    }
  }

  lemma FanAllSnoc(init: seq<Face>, f: Face)
    ensures FanAll(init + [f]) == FanAll(init) + Fan(f)
  {
    assert (init + [f])[..|init|] == init;
  }

  ghost predicate AllTriangles(faces: seq<Face>) {
    forall i :: 0 <= i < |faces| ==> |faces[i]| == 3
  }

  lemma {:induction false} FanAllOfTriangles(faces: seq<Face>)
    requires AllTriangles(faces)
    ensures FanAll(faces) == faces
  {
    if faces != [] {
      var init, f := faces[..|faces| - 1], faces[|faces| - 1];
      FanAllOfTriangles(init);
      FanAllSnoc(init, f);
      FanOfTriangle(f);
      assert init + [f] == faces;
    }
  }

  lemma FanOfTriangle(f: Face)
    requires |f| == 3
    ensures Fan(f) == [f]
  {
    assert f == [f[0], f[1], f[2]];
  }

  lemma EdgesOfOne(f: Face)
    ensures Edges([f]) == Loop(f)
  {
    assert [f][..0] == [];
  }

  lemma TriangleSum(a: int, b: int, c: int, w: Weight)
    ensures Total(Loop([a, b, c]), w) == w((a, b)) + w((b, c)) + w((c, a))
  {
    assert Loop([a, b, c]) == [(a, b)] + [(b, c)] + [(c, a)];
    TotalAppend([(a, b)] + [(b, c)], [(c, a)], w);
    TotalAppend([(a, b)], [(b, c)], w);
    SingleTotal((a, b), w);
    SingleTotal((b, c), w);
    SingleTotal((c, a), w);
  }

  /** Growing a polygon by one corner adds one fan triangle, on the chain of edges too. */
  lemma LoopGrows(f: Face, v: int, w: Weight)
    requires |f| >= 2 && Antisymmetric(w)
    ensures Total(Loop(f + [v]), w) ==
            Total(Loop(f), w) + w((f[0], f[|f| - 1])) + w((f[|f| - 1], v)) + w((v, f[0]))
  {
    var n := |f|;
    var g, path := f + [v], Loop(f)[..n - 1];
    assert Loop(f) == path + [(f[n - 1], f[0])];
    assert Loop(g) == path + [(f[n - 1], v)] + [(v, f[0])];
    TotalAppend(path, [(f[n - 1], f[0])], w);
    TotalAppend(path + [(f[n - 1], v)], [(v, f[0])], w);
    TotalAppend(path, [(f[n - 1], v)], w);
    assert w(Reverse((f[0], f[n - 1]))) == -w((f[0], f[n - 1]));
    SingleTotal((f[n - 1], f[0]), w);
    SingleTotal((v, f[0]), w);
    SingleTotal((f[n - 1], v), w);
  }

  /** A polygon and its fan have the same antisymmetric sums, whatever its number of corners. */
  lemma {:induction false} FanKeepsSums(f: Face, w: Weight)
    requires Antisymmetric(w)
    ensures Total(Edges(Fan(f)), w) == Total(Loop(f), w)
    decreases |f|
  {
    if |f| < 3 {
      SmallLoopCancels(f, w);
    } else {
      var n := |f| - 1;
      FanKeepsSums(f[..n], w);
      assert f == f[..n] + [f[n]];
      LoopGrows(f[..n], f[n], w);
      FanGrows(f[..n], f[n], w);
    }
  }

  lemma FanGrows(g: Face, v: int, w: Weight)
    requires |g| >= 2
    ensures var last := g[|g| - 1];
      Total(Edges(Fan(g + [v])), w) ==
      Total(Edges(Fan(g)), w) + w((g[0], last)) + w((last, v)) + w((v, g[0]))
  {
    var triangle := [g[0], g[|g| - 1], v];
    assert Fan(g + [v]) == Fan(g) + [triangle];
    EdgesAppend(Fan(g), [triangle]);
    EdgesOfOne(triangle);
    TotalAppend(Edges(Fan(g)), Loop(triangle), w);
    TriangleSum(g[0], g[|g| - 1], v, w);
  }

  lemma SmallLoopCancels(f: Face, w: Weight)
    requires |f| < 3 && Antisymmetric(w)
    ensures Total(Loop(f), w) == 0.0
  {
    if |f| == 1 {
      assert Loop(f) == [(f[0], f[0])];
      SingleTotal((f[0], f[0]), w);
      assert w(Reverse((f[0], f[0]))) == -w((f[0], f[0]));
    } else if |f| == 2 {
      assert Loop(f) == [(f[0], f[1])] + [(f[1], f[0])];
      TotalAppend([(f[0], f[1])], [(f[1], f[0])], w);
      SingleTotal((f[0], f[1]), w);
      SingleTotal((f[1], f[0]), w);
      assert w(Reverse((f[0], f[1]))) == -w((f[0], f[1]));
    }
  }

  lemma {:induction false} FanAllKeepsSums(faces: seq<Face>, w: Weight)
    requires Antisymmetric(w)
    ensures Total(Edges(FanAll(faces)), w) == Total(Edges(faces), w)
  {
    if faces != [] {
      var init, f := faces[..|faces| - 1], faces[|faces| - 1];
      FanAllKeepsSums(init, w);
      EdgesAppend(FanAll(init), Fan(f));
      TotalAppend(Edges(FanAll(init)), Edges(Fan(f)), w);
      TotalAppend(Edges(init), Loop(f), w);
      FanKeepsSums(f, w);
    }
  }

  // ---------------------------------------------------------------- the boundary chain

  function NetOf(edges: seq<Edge>, e: Edge): int {
    multiset(edges)[e] as int - multiset(edges)[Reverse(e)] as int
  }

  /** How often an edge is walked one way more than the other. */
  function Net(faces: seq<Face>, e: Edge): int {
    NetOf(Edges(faces), e)
  }

  function Indicator(e: Edge): Weight {
    d => (if d == e then 1.0 else 0.0) - (if d == Reverse(e) then 1.0 else 0.0)
  }

  lemma {:induction false} NetIsASum(edges: seq<Edge>, e: Edge)
    ensures Antisymmetric(Indicator(e))
    ensures Total(edges, Indicator(e)) == NetOf(edges, e) as real
  {
    if edges != [] {
      var init := edges[..|edges| - 1];
      NetIsASum(init, e);
      assert edges == init + [edges[|edges| - 1]];
    }
  }

  /** Fan triangulation preserves the boundary chain of any polygon list. */
  lemma FanKeepsBoundary(faces: seq<Face>, e: Edge)
    ensures Net(FanAll(faces), e) == Net(faces, e)
  {
    NetIsASum(Edges(faces), e);
    NetIsASum(Edges(FanAll(faces)), e);
    FanAllKeepsSums(faces, Indicator(e));
  }

  /** So a mesh has no boundary exactly when its triangulation has none. */
  lemma FanKeepsClosed(faces: seq<Face>)
    ensures Balanced(Edges(FanAll(faces))) <==> Balanced(Edges(faces))
  {
    forall e: Edge
      ensures multiset(Edges(FanAll(faces)))[e] == multiset(Edges(FanAll(faces)))[Reverse(e)] <==>
              multiset(Edges(faces))[e] == multiset(Edges(faces))[Reverse(e)]
    {
      FanKeepsBoundary(faces, e);
    }
  }

  // ---------------------------------------------------------------- Newell vectors

  datatype Vec = Vec(x: real, y: real, z: real)

  type Positions = int -> Vec

  function Plus(a: Vec, b: Vec): Vec {
    Vec(a.x + b.x, a.y + b.y, a.z + b.z)
  }

  function Minus(a: Vec, b: Vec): Vec {
    Vec(a.x - b.x, a.y - b.y, a.z - b.z)
  }

  /** The determinant of two rows: one coordinate of a cross product. */
  function Minor(a: real, a': real, b: real, b': real): real {
    a * b' - a' * b
  }

  function Cross(a: Vec, b: Vec): Vec {
    Vec(Minor(a.y, a.z, b.y, b.z), Minor(a.z, a.x, b.z, b.x), Minor(a.x, a.y, b.x, b.y))
  }

  /** A coordinate of the cross product of an edge's two ends. */
  function CrossX(p: Positions): Weight {
    (e: Edge) => Cross(p(e.0), p(e.1)).x
  }

  function CrossY(p: Positions): Weight {
    (e: Edge) => Cross(p(e.0), p(e.1)).y
  }

  function CrossZ(p: Positions): Weight {
    (e: Edge) => Cross(p(e.0), p(e.1)).z
  }

  lemma CrossIsAntisymmetric(p: Positions)
    ensures Antisymmetric(CrossX(p)) && Antisymmetric(CrossY(p)) && Antisymmetric(CrossZ(p))
  {
    forall e: Edge
      ensures CrossX(p)(Reverse(e)) == -CrossX(p)(e)
      ensures CrossY(p)(Reverse(e)) == -CrossY(p)(e)
      ensures CrossZ(p)(Reverse(e)) == -CrossZ(p)(e)
    {
      CrossFlips(p(e.0), p(e.1));
    }
  }

  lemma CrossFlips(a: Vec, b: Vec)
    ensures Cross(b, a) == Vec(-Cross(a, b).x, -Cross(a, b).y, -Cross(a, b).z)
  {
  }

  /** The sum of the cross products along a chain. */
  function CrossSum(p: Positions, edges: seq<Edge>): Vec {
    Vec(Total(edges, CrossX(p)), Total(edges, CrossY(p)), Total(edges, CrossZ(p)))
  }

  function Newell(p: Positions, f: Face): Vec {
    CrossSum(p, Loop(f))
  }

  function NewellSum(p: Positions, faces: seq<Face>): Vec {
    if faces == [] then Vec(0.0, 0.0, 0.0)
    else Plus(NewellSum(p, faces[..|faces| - 1]), Newell(p, faces[|faces| - 1]))
  }

  function Dot(a: Vec, b: Vec): real {
    a.x * b.x + a.y * b.y + a.z * b.z
  }

  function Times(k: real, a: Vec): Vec {
    Vec(k * a.x, k * a.y, k * a.z)
  }

  /** `norm` is the Euclidean length. */
  ghost predicate IsNorm(norm: Vec -> real) {
    forall v :: norm(v) >= 0.0 && norm(v) * norm(v) == Dot(v, v)
  }

  /** `u` is `n` scaled to length one, or `n` itself when that is too short to scale. */
  predicate Normalised(u: Vec, n: Vec, norm: Vec -> real) {
    if norm(n) > 0.000000000001 then Times(norm(n), u) == n else u == n
  }

  const TINY: real := 0.000000000001

  /** A scaled normal has length one. */
  lemma NormalisedIsUnit(u: Vec, n: Vec, norm: Vec -> real)
    requires IsNorm(norm) && Normalised(u, n, norm) && norm(n) > 0.000000000001
    ensures norm(u) == 1.0
  {
    var k, r := norm(n), norm(u);
    assert k * k == Dot(n, n) && r * r == Dot(u, u) && r >= 0.0;
    DotOfScaled(k, u, n);
    CancelSquare(k, r * r);
    SquareRootOfOne(r);
  }

  lemma DotOfScaled(k: real, u: Vec, n: Vec)
    requires Times(k, u) == n
    ensures Dot(n, n) == (k * k) * Dot(u, u)
  {
    SquareOfProduct(k, u.x);
    SquareOfProduct(k, u.y);
    SquareOfProduct(k, u.z);
    assert (k * k) * Dot(u, u) == (k * k) * (u.x * u.x) + (k * k) * (u.y * u.y) + (k * k) * (u.z * u.z);
  }

  lemma SquareOfProduct(k: real, x: real)
    ensures (k * x) * (k * x) == (k * k) * (x * x)
  {
  }

  lemma CancelSquare(k: real, d: real)
    requires k > 0.0 && (k * k) * d == k * k
    ensures d == 1.0
  {
    assert (k * k) * (d - 1.0) == 0.0;
    assert k * k > 0.0;
  }

  lemma SquareRootOfOne(r: real)
    requires r >= 0.0 && r * r == 1.0
    ensures r == 1.0
  {
    if 0.0 < r < 1.0 {
      ProductGrows(r, 1.0, r);
    } else if r > 1.0 {
      ProductGrows(1.0, r, r);
    }
  }

  lemma ProductGrows(x: real, y: real, k: real)
    requires x < y && k > 0.0
    ensures x * k < y * k
  {
  }

  function Over(a: Vec, k: real): Vec
    requires k > 0.0
  {
    Vec(a.x / k, a.y / k, a.z / k)
  }

  lemma ScaledBack(n: Vec, k: real)
    requires k > 0.0
    ensures Times(k, Over(n, k)) == n
  {
    var x := Quotient(n.x, k);
    var y := Quotient(n.y, k);
    var z := Quotient(n.z, k);
    assert Over(n, k) == Vec(x, y, z);
  }

  lemma Quotient(x: real, k: real) returns (q: real)
    requires k > 0.0
    ensures q == x / k && k * q == x
  {
    q := x / k;
  }

  /** `_face_normals`. */
  method FaceNormals(p: Positions, faces: seq<Face>, norm: Vec -> real) returns (normals: seq<Vec>)
    ensures |normals| == |faces|
    ensures forall i :: 0 <= i < |faces| ==> Normalised(normals[i], Newell(p, faces[i]), norm)
  {
    normals := [];
    for i := 0 to |faces|
      invariant |normals| == i
      invariant forall h :: 0 <= h < i ==> Normalised(normals[h], Newell(p, faces[h]), norm)
    {
      var n := NewellOf(p, faces[i]);
      var length := norm(n);
      if length > TINY {
        ScaledBack(n, length);
        normals := normals + [Over(n, length)];
      } else {
        normals := normals + [n];
      }
    }
  }

  /** The inner loop, over the sides of one face. */
  method NewellOf(p: Positions, f: Face) returns (n: Vec)
    ensures n == Newell(p, f)
  {
    n := Vec(0.0, 0.0, 0.0);
    for k := 0 to |f|
      invariant n == CrossSum(p, Loop(f)[..k])
    {
      assert Loop(f)[..k + 1][..k] == Loop(f)[..k];
      n := Plus(n, Cross(p(f[k]), p(f[(k + 1) % |f|])));
    }
    assert Loop(f)[..|f|] == Loop(f);
  }

  lemma CrossSumAppend(p: Positions, a: seq<Edge>, b: seq<Edge>)
    ensures CrossSum(p, a + b) == Plus(CrossSum(p, a), CrossSum(p, b))
  {
    TotalAppend(a, b, CrossX(p));
    TotalAppend(a, b, CrossY(p));
    TotalAppend(a, b, CrossZ(p));
  }

  lemma {:induction false} NewellSumIsCrossSum(p: Positions, faces: seq<Face>)
    ensures NewellSum(p, faces) == CrossSum(p, Edges(faces))
  {
    if faces != [] {
      var init, loop := faces[..|faces| - 1], Loop(faces[|faces| - 1]);
      NewellSumIsCrossSum(p, init);
      CrossSumAppend(p, Edges(init), loop);
      assert Edges(faces) == Edges(init) + loop;
    }
  }

  /** The area vectors of a closed mesh cancel, wherever its vertices are. */
  lemma ClosedNewellIsZero(p: Positions, faces: seq<Face>)
    requires Balanced(Edges(faces))
    ensures NewellSum(p, faces) == Vec(0.0, 0.0, 0.0)
  {
    CrossIsAntisymmetric(p);
    NewellSumIsCrossSum(p, faces);
    BalancedCancels(Edges(faces), CrossX(p));
    BalancedCancels(Edges(faces), CrossY(p));
    BalancedCancels(Edges(faces), CrossZ(p));
  }

  /** The generated torus and spheres, bent in any way, have zero total area vector. */
  lemma GeneratedNewellIsZero(p: Positions, layout: Spheres.Layout, m: int, n: int)
    requires n >= 3
    ensures m >= 3 ==> NewellSum(p, Torus.TorusFaces(m, n)) == Vec(0.0, 0.0, 0.0)
    ensures m >= 2 ==> NewellSum(p, Spheres.LayoutFaces(layout, m, n)) == Vec(0.0, 0.0, 0.0)
  {
    if m >= 3 {
      Torus.TorusIsClosed(m, n);
      ClosedIsBalanced(Torus.TorusFaces(m, n));
      ClosedNewellIsZero(p, Torus.TorusFaces(m, n));
    }
    if m >= 2 {
      Spheres.SphereIsClosed(layout, m, n);
      ClosedIsBalanced(Spheres.LayoutFaces(layout, m, n));
      ClosedNewellIsZero(p, Spheres.LayoutFaces(layout, m, n));
    }
  }

  /** The cross product `_sample_surface` takes of a triangle's two edges at its first corner. */
  function CornerCross(p: Positions, t: Face): Vec
    requires |t| == 3
  {
    Cross(Minus(p(t[1]), p(t[0])), Minus(p(t[2]), p(t[0])))
  }

  lemma CornerCrossIsNewell(p: Positions, t: Face)
    requires |t| == 3
    ensures CornerCross(p, t) == Newell(p, t)
  {
    assert t == [t[0], t[1], t[2]];
    TriangleSum(t[0], t[1], t[2], CrossX(p));
    TriangleSum(t[0], t[1], t[2], CrossY(p));
    TriangleSum(t[0], t[1], t[2], CrossZ(p));
    CornerCrossExpands(p(t[0]), p(t[1]), p(t[2]));
  }

  lemma CornerCrossExpands(a: Vec, b: Vec, c: Vec)
    ensures Cross(Minus(b, a), Minus(c, a)) == Plus(Plus(Cross(a, b), Cross(b, c)), Cross(c, a))
  {
    MinorExpands(a.y, a.z, b.y, b.z, c.y, c.z);
    MinorExpands(a.z, a.x, b.z, b.x, c.z, c.x);
    MinorExpands(a.x, a.y, b.x, b.y, c.x, c.y);
  }

  lemma MinorExpands(a: real, a': real, b: real, b': real, c: real, c': real)
    ensures Minor(b - a, b' - a', c - a, c' - a') == Minor(a, a', b, b') + Minor(b, b', c, c') + Minor(c, c', a, a')
  {
    assert (b - a) * (c' - a') == b * c' - b * a' - a * c' + a * a';
    assert (b' - a') * (c - a) == b' * c - b' * a - a' * c + a' * a;
  }

  function CornerCrossSum(p: Positions, tris: seq<Face>): Vec
    requires forall i :: 0 <= i < |tris| ==> |tris[i]| == 3
  {
    if tris == [] then Vec(0.0, 0.0, 0.0)
    else Plus(CornerCrossSum(p, tris[..|tris| - 1]), CornerCross(p, tris[|tris| - 1]))
  }

  lemma {:induction false} CornerSumIsNewellSum(p: Positions, tris: seq<Face>)
    requires forall i :: 0 <= i < |tris| ==> |tris[i]| == 3
    ensures CornerCrossSum(p, tris) == NewellSum(p, tris)
  {
    if tris != [] {
      CornerSumIsNewellSum(p, tris[..|tris| - 1]);
      CornerCrossIsNewell(p, tris[|tris| - 1]);
    }
  }

  /** Newell's vector of a polygon is the sum of its fan triangles' cross products. */
  lemma NewellIsFanSum(p: Positions, f: Face)
    ensures Newell(p, f) == CornerCrossSum(p, Fan(f))
  {
    CrossIsAntisymmetric(p);
    CornerSumIsNewellSum(p, Fan(f));
    NewellSumIsCrossSum(p, Fan(f));
    FanKeepsSums(f, CrossX(p));
    FanKeepsSums(f, CrossY(p));
    FanKeepsSums(f, CrossZ(p));
  }

  function Translated(p: Positions, t: Vec): Positions {
    (v: int) => Plus(p(v), t)
  }

  lemma {:induction false} TranslatedCornerSum(p: Positions, t: Vec, tris: seq<Face>)
    requires forall i :: 0 <= i < |tris| ==> |tris[i]| == 3
    ensures CornerCrossSum(Translated(p, t), tris) == CornerCrossSum(p, tris)
  {
    if tris != [] {
      var c := tris[|tris| - 1];
      TranslatedCornerSum(p, t, tris[..|tris| - 1]);
      MinusTranslated(p(c[1]), p(c[0]), t);
      MinusTranslated(p(c[2]), p(c[0]), t);
    }
  }

  lemma MinusTranslated(a: Vec, b: Vec, t: Vec)
    ensures Minus(Plus(a, t), Plus(b, t)) == Minus(a, b)
  {
  }

  /** Moving the whole mesh does not change a polygon's Newell vector. */
  lemma NewellIsTranslationInvariant(p: Positions, t: Vec, f: Face)
    ensures Newell(Translated(p, t), f) == Newell(p, f)
  {
    NewellIsFanSum(p, f);
    NewellIsFanSum(Translated(p, t), f);
    TranslatedCornerSum(p, t, Fan(f));
  }

  // ---------------------------------------------------------------- the shoelace area

  type Point = (real, real)

  /** UV points in the plane z = 0: the shoelace sum is then Newell's z coordinate. */
  function Flat(uvs: seq<Point>): Positions {
    (v: int) => if 0 <= v < |uvs| then Vec(uvs[v].0, uvs[v].1, 0.0) else Vec(0.0, 0.0, 0.0)
  }

  function Abs(x: real): real {
    if x < 0.0 then -x else x
  }

  predicate Skipped(f: Face) {
    (exists k :: 0 <= k < |f| && f[k] < 0) || |f| < 3
  }

  function FaceArea(uvs: seq<Point>, f: Face): real {
    if Skipped(f) then 0.0 else Abs(Newell(Flat(uvs), f).z) * 0.5
  }

  function Coverage(uvs: seq<Point>, faces: seq<Face>): real {
    if faces == [] then 0.0
    else Coverage(uvs, faces[..|faces| - 1]) + FaceArea(uvs, faces[|faces| - 1])
  }

  /** `np.dot(a, np.roll(b, -1))` over one face's UVs. */
  method RolledDot(a: seq<real>, b: seq<real>) returns (d: real)
    requires |a| == |b|
    ensures d == RolledSum(a, b, |a|)
  {
    d := 0.0;
    for k := 0 to |a|
      invariant d == RolledSum(a, b, k)
    {
      d := d + a[k] * b[(k + 1) % |b|];
    }
  }

  function RolledSum(a: seq<real>, b: seq<real>, n: nat): real
    requires n <= |a| == |b|
  {
    if n == 0 then 0.0 else RolledSum(a, b, n - 1) + a[n - 1] * b[Next(n - 1, |b|)]
  }

  lemma {:induction false} ShoelaceIsNewell(uvs: seq<Point>, f: Face, x: seq<real>, y: seq<real>, n: nat)
    requires n <= |f| == |x| == |y|
    requires forall k :: 0 <= k < |f| ==> 0 <= f[k] < |uvs| && x[k] == uvs[f[k]].0 && y[k] == uvs[f[k]].1
    ensures RolledSum(x, y, n) - RolledSum(y, x, n) == Total(Loop(f)[..n], CrossZ(Flat(uvs)))
  {
    if n > 0 {
      ShoelaceIsNewell(uvs, f, x, y, n - 1);
      assert Loop(f)[..n][..n - 1] == Loop(f)[..n - 1];
      FlatCross(uvs, f[n - 1], f[Next(n - 1, |f|)]);
    }
  }

  lemma FlatCross(uvs: seq<Point>, a: int, b: int)
    requires 0 <= a < |uvs| && 0 <= b < |uvs|
    ensures CrossZ(Flat(uvs))((a, b)) == uvs[a].0 * uvs[b].1 - uvs[a].1 * uvs[b].0
  {
    var p, q := Flat(uvs)(a), Flat(uvs)(b);
    assert p == Vec(uvs[a].0, uvs[a].1, 0.0) && q == Vec(uvs[b].0, uvs[b].1, 0.0);
    assert CrossZ(Flat(uvs))((a, b)) == p.x * q.y - p.y * q.x;
  }

  /** No face that is measured has a UV index past the end of the list. */
  ghost predicate UvsInRange(uvs: seq<Point>, faces: seq<Face>) {
    forall i, k :: IsCorner(faces, i, k) && !Skipped(faces[i]) ==> faces[i][k] < |uvs|
  }

  /** `uv_coverage`: a UV index past the list raises, a negative one skips the face. */
  method UvCoverage(uvs: seq<Point>, faces: seq<Face>) returns (total: real)
    requires UvsInRange(uvs, faces)
    ensures total == Coverage(uvs, faces)
  {
    total := 0.0;
    for i := 0 to |faces|
      invariant total == Coverage(uvs, faces[..i])
    {
      CoverageStep(uvs, faces, i);
      if Skipped(faces[i]) {
        continue;
      }
      assert forall k :: 0 <= k < |faces[i]| ==> IsCorner(faces, i, k);
      var area := Shoelace(uvs, faces[i]);
      total := total + area;
    }
    assert faces[..|faces|] == faces;
  }

  lemma CoverageStep(uvs: seq<Point>, faces: seq<Face>, i: nat)
    requires i < |faces|
    ensures Coverage(uvs, faces[..i + 1]) == Coverage(uvs, faces[..i]) + FaceArea(uvs, faces[i])
  {
    assert faces[..i + 1][..i] == faces[..i];
  }

  /** One face's area, from its UV columns. */
  method Shoelace(uvs: seq<Point>, f: Face) returns (area: real)
    requires !Skipped(f) && forall k :: 0 <= k < |f| ==> f[k] < |uvs|
    ensures area == FaceArea(uvs, f)
  {
    var x := seq(|f|, k requires 0 <= k < |f| && 0 <= f[k] < |uvs| => uvs[f[k]].0);
    var y := seq(|f|, k requires 0 <= k < |f| && 0 <= f[k] < |uvs| => uvs[f[k]].1);
    var forth := RolledDot(x, y);
    var back := RolledDot(y, x);
    ShoelaceIsNewell(uvs, f, x, y, |f|);
    assert Loop(f)[..|f|] == Loop(f);
    area := Abs(forth - back) * 0.5;
  }

  /** Exactly the faces with three or more corners, all with a UV, are measured: by half the
      absolute sum of the signed areas of their fan triangles. */
  lemma FaceAreaIsFanArea(uvs: seq<Point>, f: Face)
    ensures var signed := CornerCrossSum(Flat(uvs), Fan(f)).z;
      FaceArea(uvs, f) ==
      if |f| >= 3 && forall k :: 0 <= k < |f| ==> f[k] >= 0
      then (if signed >= 0.0 then signed else -signed) * 0.5 else 0.0
  {
    NewellIsFanSum(Flat(uvs), f);
  }

  /** A rectangle's area is width times height, whichever way round it is walked. */
  lemma RectangleArea(uvs: seq<Point>, w: real, h: real)
    requires |uvs| == 4 && uvs[1] == (uvs[0].0 + w, uvs[0].1) && uvs[3] == (uvs[0].0, uvs[0].1 + h)
    requires uvs[2] == (uvs[0].0 + w, uvs[0].1 + h)
    ensures FaceArea(uvs, [0, 1, 2, 3]) == if w * h >= 0.0 then w * h else -(w * h)
  {
    var p := Flat(uvs);
    FaceAreaIsFanArea(uvs, [0, 1, 2, 3]);
    assert Fan([0, 1, 2, 3]) == [[0, 1, 2]] + [[0, 2, 3]];
    SumOfTwo(p, [0, 1, 2], [0, 2, 3]);
    RectangleSides(uvs, w, h);
    Halves(p, w, h);
  }

  lemma RectangleSides(uvs: seq<Point>, w: real, h: real)
    requires |uvs| == 4 && uvs[1] == (uvs[0].0 + w, uvs[0].1) && uvs[3] == (uvs[0].0, uvs[0].1 + h)
    requires uvs[2] == (uvs[0].0 + w, uvs[0].1 + h)
    ensures var p := Flat(uvs);
      && Minus(p(1), p(0)) == Vec(w, 0.0, 0.0) && Minus(p(2), p(0)) == Vec(w, h, 0.0)
      && Minus(p(3), p(0)) == Vec(0.0, h, 0.0)
  {
  }

  lemma Halves(p: Positions, w: real, h: real)
    requires Minus(p(1), p(0)) == Vec(w, 0.0, 0.0) && Minus(p(2), p(0)) == Vec(w, h, 0.0)
    requires Minus(p(3), p(0)) == Vec(0.0, h, 0.0)
    ensures CornerCross(p, [0, 1, 2]).z == w * h && CornerCross(p, [0, 2, 3]).z == w * h
  {
    var s, t := [0, 1, 2], [0, 2, 3];
    assert CornerCross(p, s) == Cross(Vec(w, 0.0, 0.0), Vec(w, h, 0.0));
    assert CornerCross(p, t) == Cross(Vec(w, h, 0.0), Vec(0.0, h, 0.0));
    assert Minor(w, 0.0, w, h) == w * h && Minor(w, h, 0.0, h) == w * h;
  }

  lemma SumOfTwo(p: Positions, s: Face, t: Face)
    requires |s| == 3 && |t| == 3
    ensures CornerCrossSum(p, [s] + [t]) == Plus(CornerCross(p, s), CornerCross(p, t))
  {
    assert ([s] + [t])[..1] == [s];
    SumOfOne(p, s);
  }

  lemma SumOfOne(p: Positions, s: Face)
    requires |s| == 3
    ensures CornerCrossSum(p, [s]) == CornerCross(p, s)
  {
    assert [s][..0] == [];
    assert CornerCrossSum(p, [s][..0]) == Vec(0.0, 0.0, 0.0);
  }

  /** On two axes the cross product is the signed area of the rectangle, along the third. */
  lemma CrossIsRightHanded(a: real, b: real)
    ensures Cross(Vec(a, 0.0, 0.0), Vec(0.0, b, 0.0)) == Vec(0.0, 0.0, a * b)
    ensures Cross(Vec(0.0, a, 0.0), Vec(0.0, 0.0, b)) == Vec(a * b, 0.0, 0.0)
    ensures Cross(Vec(0.0, 0.0, a), Vec(b, 0.0, 0.0)) == Vec(0.0, a * b, 0.0)
  {
  }

  function Moved(uvs: seq<Point>, t: Point): seq<Point> {
    seq(|uvs|, i requires 0 <= i < |uvs| => (uvs[i].0 + t.0, uvs[i].1 + t.1))
  }

  lemma {:induction false} CornerSumDependsOnCorners(p: Positions, q: Positions, tris: seq<Face>)
    requires forall i :: 0 <= i < |tris| ==> |tris[i]| == 3
    requires forall i, k :: IsCorner(tris, i, k) ==> p(tris[i][k]) == q(tris[i][k])
    ensures CornerCrossSum(p, tris) == CornerCrossSum(q, tris)
  {
    if tris != [] {
      var last := |tris| - 1;
      assert forall i, k :: IsCorner(tris[..last], i, k) ==> IsCorner(tris, i, k);
      CornerSumDependsOnCorners(p, q, tris[..last]);
      assert IsCorner(tris, last, 0) && IsCorner(tris, last, 1) && IsCorner(tris, last, 2);
    }
  }

  /** Moving the whole atlas does not change any face's area. */
  lemma FaceAreaIsTranslationInvariant(uvs: seq<Point>, t: Point, f: Face)
    requires !Skipped(f) ==> forall k :: 0 <= k < |f| ==> f[k] < |uvs|
    ensures FaceArea(Moved(uvs, t), f) == FaceArea(uvs, f)
  {
    if !Skipped(f) {
      var p, q := Flat(Moved(uvs, t)), Translated(Flat(uvs), Vec(t.0, t.1, 0.0));
      NewellIsFanSum(p, f);
      NewellIsFanSum(q, f);
      CornerSumDependsOnCorners(p, q, Fan(f));
      NewellIsTranslationInvariant(Flat(uvs), Vec(t.0, t.1, 0.0), f);
    }
  }

  /** Moving the whole atlas does not change the coverage. */
  lemma {:induction false} CoverageIsTranslationInvariant(uvs: seq<Point>, t: Point, faces: seq<Face>)
    requires UvsInRange(uvs, faces)
    ensures Coverage(Moved(uvs, t), faces) == Coverage(uvs, faces)
  {
    if faces != [] {
      var last := |faces| - 1;
      assert forall i, k :: IsCorner(faces[..last], i, k) ==> IsCorner(faces, i, k);
      CoverageIsTranslationInvariant(uvs, t, faces[..last]);
      forall k | 0 <= k < |faces[last]| && !Skipped(faces[last])
        ensures faces[last][k] < |uvs|
      {
        assert IsCorner(faces, last, k);
      }
      FaceAreaIsTranslationInvariant(uvs, t, faces[last]);
    }
  }
}
