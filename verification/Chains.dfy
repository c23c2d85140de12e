/** Polygon meshes as chains of directed edges. */
module Chains {

  type Face = seq<int>
  type Edge = (int, int)

  /** The corner after corner `k` of an `n`-gon. */
  function Next(k: nat, n: nat): (r: nat)
    requires k < n
    ensures r == if k == n - 1 then 0 else k + 1
  {
    (k + 1) % n
  }

  function Side(f: Face, k: nat): Edge
    requires k < |f|
  {
    (f[k], f[Next(k, |f|)])
  }

  function Reverse(e: Edge): Edge {
    (e.1, e.0)
  }

  /** The dictionary key `(min(a, b), max(a, b))`. */
  function Key(e: Edge): Edge {
    if e.0 <= e.1 then e else (e.1, e.0)
  }

  /** The directed boundary of a face. */
  function Loop(f: Face): (r: seq<Edge>)
    ensures |r| == |f| && forall k :: 0 <= k < |f| ==> r[k] == Side(f, k)
  {
    seq(|f|, k requires 0 <= k < |f| => Side(f, k))
  }

  function Edges(faces: seq<Face>): seq<Edge> {
    if faces == [] then [] else Edges(faces[..|faces| - 1]) + Loop(faces[|faces| - 1])
  }

  function Keys(edges: seq<Edge>): (r: seq<Edge>)
    ensures |r| == |edges| && forall i :: 0 <= i < |r| ==> r[i] == Key(edges[i])
  {
    seq(|edges|, i requires 0 <= i < |edges| => Key(edges[i]))
  }

  /** How many corners walk the directed edge. */
  function Count(faces: seq<Face>, e: Edge): nat {
    multiset(Edges(faces))[e]
  }

  /** How many corners walk the undirected edge. */
  function KeyCount(faces: seq<Face>, e: Edge): nat {
    multiset(Keys(Edges(faces)))[e]
  }

  ghost predicate IsCorner(faces: seq<Face>, f: int, k: int) {
    0 <= f < |faces| && 0 <= k < |faces[f]|
  }

  /** No directed edge is walked twice, and the reverse of every walked edge is walked. */
  ghost predicate ClosedOriented(faces: seq<Face>) {
    forall e: Edge :: Count(faces, e) <= 1 && Count(faces, Reverse(e)) == Count(faces, e)
  }

  /** No face repeats a vertex. */
  ghost predicate Distinct(f: Face) {
    forall i, j :: 0 <= i < j < |f| ==> f[i] != f[j]
  }

  ghost predicate Proper(faces: seq<Face>) {
    forall f :: 0 <= f < |faces| ==> |faces[f]| >= 2 && Distinct(faces[f])
  }

  ghost predicate Uses(faces: seq<Face>, v: int) {
    exists f, k :: IsCorner(faces, f, k) && faces[f][k] == v
  }

  /** The faces use exactly the vertices 0 up to `count`. */
  ghost predicate Spans(faces: seq<Face>, count: int) {
    && (forall f, k :: IsCorner(faces, f, k) ==> 0 <= faces[f][k] < count)
    && (forall v :: 0 <= v < count ==> Uses(faces, v))
  }

  // ---------------------------------------------------------------- multisets of sequences

  lemma {:induction false} DistinctCount<T>(s: seq<T>, x: T)
    requires forall i, j :: 0 <= i < j < |s| ==> s[i] != s[j]
    ensures multiset(s)[x] <= 1
  {
    if s != [] {
      var init := s[..|s| - 1];
      assert s == init + [s[|s| - 1]];
      DistinctCount(init, x);
      if s[|s| - 1] == x {
        assert x !in init;
      }
    }
  }

  /** A multiset that holds each member of a set exactly twice. */
  lemma {:induction false} TwiceEach<T>(m: multiset<T>, keys: set<T>)
    requires forall x :: m[x] == if x in keys then 2 else 0
    ensures |m| == 2 * |keys|
  {
    if keys == {} {
      assert m == multiset{};
    } else {
      var x :| x in keys;
      TwiceEach(m[x := 0], keys - {x});
    }
  }

  // ---------------------------------------------------------------- corners and counts

  lemma {:induction false} EdgesAppend(a: seq<Face>, b: seq<Face>)
    ensures Edges(a + b) == Edges(a) + Edges(b)
  {
    if b == [] {
      assert a + b == a;
    } else {
      var init, last := b[..|b| - 1], b[|b| - 1];
      var all := a + b;
      assert all[..|all| - 1] == a + init && all[|all| - 1] == last;
      EdgesAppend(a, init);
      assert Edges(a) + Edges(init) + Loop(last) == Edges(a) + (Edges(init) + Loop(last));
    }
  }

  lemma CountAppend(faces: seq<Face>, f: Face, e: Edge)
    ensures Count(faces + [f], e) == Count(faces, e) + multiset(Loop(f))[e]
  {
    assert (faces + [f])[..|faces|] == faces;
  }

  lemma {:induction false} EdgeHasCorner(faces: seq<Face>, e: Edge) returns (f: nat, k: nat)
    requires e in Edges(faces)
    ensures IsCorner(faces, f, k) && Side(faces[f], k) == e
  {
    var last := |faces| - 1;
    if e in Edges(faces[..last]) {
      f, k := EdgeHasCorner(faces[..last], e);
    } else {
      f := last;
      k :| 0 <= k < |faces[last]| && Loop(faces[last])[k] == e;
    }
  }

  lemma {:induction false} CornerHasEdge(faces: seq<Face>, f: nat, k: nat)
    requires IsCorner(faces, f, k)
    ensures Side(faces[f], k) in Edges(faces)
  {
    var last := |faces| - 1;
    if f < last {
      CornerHasEdge(faces[..last], f, k);
    } else {
      assert Loop(faces[last])[k] == Side(faces[f], k);
    }
  }

  /** Different corners walk different directed edges. */
  ghost predicate NoEdgeTwice(faces: seq<Face>) {
    forall f, k, g, l :: IsCorner(faces, f, k) && IsCorner(faces, g, l) ==>
      Side(faces[f], k) == Side(faces[g], l) ==> f == g && k == l
  }

  lemma {:induction false} NoEdgeTwiceCount(faces: seq<Face>, e: Edge)
    requires NoEdgeTwice(faces)
    ensures Count(faces, e) <= 1
  {
    if faces != [] {
      var last := |faces| - 1;
      var init, loop := faces[..last], Loop(faces[last]);
      NoEdgeTwiceCount(init, e);
      LoopRepeatsNothing(faces, last);
      DistinctCount(loop, e);
      if e in Edges(init) {
        LastLoopIsNew(faces, e);
      }
    }
  }

  lemma LoopRepeatsNothing(faces: seq<Face>, f: nat)
    requires NoEdgeTwice(faces) && f < |faces|
    ensures forall i, j :: 0 <= i < j < |Loop(faces[f])| ==> Loop(faces[f])[i] != Loop(faces[f])[j]
  {
    forall i, j | 0 <= i < j < |faces[f]|
      ensures Side(faces[f], i) != Side(faces[f], j)
    {
      assert IsCorner(faces, f, i) && IsCorner(faces, f, j);
    }
  }

  lemma LastLoopIsNew(faces: seq<Face>, e: Edge)
    requires NoEdgeTwice(faces) && faces != [] && e in Edges(faces[..|faces| - 1])
    ensures e !in Loop(faces[|faces| - 1])
  {
    var last := |faces| - 1;
    var f, k := EdgeHasCorner(faces[..last], e);
    assert IsCorner(faces, f, k) && Side(faces[f], k) == e;
    forall l | 0 <= l < |faces[last]|
      ensures Side(faces[last], l) != e
    {
      assert IsCorner(faces, last, l);
    }
  }

  lemma {:induction false} TwoCornersCount(faces: seq<Face>, f: nat, k: nat, g: nat, l: nat)
    requires IsCorner(faces, f, k) && IsCorner(faces, g, l) && f < g && Side(faces[f], k) == Side(faces[g], l)
    ensures Count(faces, Side(faces[f], k)) >= 2
  {
    var last := |faces| - 1;
    if g < last {
      TwoCornersCount(faces[..last], f, k, g, l);
    } else {
      CornerHasEdge(faces[..last], f, k);
      assert Loop(faces[last])[l] == Side(faces[f], k);
    }
  }

  /** One directed edge on two faces is enough to refute closedness. */
  lemma DoubledEdgeIsNotClosed(faces: seq<Face>, f: nat, k: nat, g: nat, l: nat)
    requires IsCorner(faces, f, k) && IsCorner(faces, g, l) && f != g && Side(faces[f], k) == Side(faces[g], l)
    ensures !ClosedOriented(faces)
  {
    if f < g {
      TwoCornersCount(faces, f, k, g, l);
    } else {
      TwoCornersCount(faces, g, l, f, k);
    }
  }

  /** Unique edges and a reversed partner for every corner make a closed oriented mesh. */
  lemma ClosedFromCorners(faces: seq<Face>)
    requires NoEdgeTwice(faces)
    requires forall f, k :: IsCorner(faces, f, k) ==> Reverse(Side(faces[f], k)) in Edges(faces)
    ensures ClosedOriented(faces)
  {
    forall e: Edge
      ensures Count(faces, e) <= 1 && Count(faces, Reverse(e)) == Count(faces, e)
    {
      NoEdgeTwiceCount(faces, e);
      NoEdgeTwiceCount(faces, Reverse(e));
      if e in Edges(faces) {
        var f, k := EdgeHasCorner(faces, e);
      }
      if Reverse(e) in Edges(faces) {
        var f, k := EdgeHasCorner(faces, Reverse(e));
      }
    }
  }

  // ---------------------------------------------------------------- undirected edges

  lemma {:induction false} KeyCountOf(edges: seq<Edge>, e: Edge)
    requires e.0 < e.1
    ensures multiset(Keys(edges))[e] == multiset(edges)[e] + multiset(edges)[Reverse(e)]
  {
    if edges != [] {
      var last := |edges| - 1;
      KeyCountOf(edges[..last], e);
      assert edges == edges[..last] + [edges[last]];
      assert Keys(edges) == Keys(edges[..last]) + [Key(edges[last])];
    }
  }

  lemma {:induction false} TotalCorners(faces: seq<Face>, n: nat)
    requires forall f :: 0 <= f < |faces| ==> |faces[f]| == n
    ensures |Edges(faces)| == n * |faces|
  {
    if faces != [] {
      var init := faces[..|faces| - 1];
      TotalCorners(init, n);
      assert n * |faces| == n * |init| + n;
    }
  }

  function EdgeSet(faces: seq<Face>): set<Edge> {
    set e | e in Keys(Edges(faces))
  }

  /** A side of a proper face joins two different vertices. */
  lemma SidesAreProper(faces: seq<Face>, e: Edge)
    requires Proper(faces) && e in Edges(faces)
    ensures e.0 != e.1
  {
    var f, k := EdgeHasCorner(faces, e);
    var l := Next(k, |faces[f]|);
    assert l != k;
  }

  /** On a mesh closed in the undirected sense every edge lies on exactly two corners. */
  ghost predicate TwoSided(faces: seq<Face>) {
    forall e :: e in EdgeSet(faces) ==> e.0 < e.1 && KeyCount(faces, e) == 2
  }

  lemma ClosedIsTwoSided(faces: seq<Face>)
    requires Proper(faces) && ClosedOriented(faces)
    ensures TwoSided(faces)
  {
    forall e | e in EdgeSet(faces)
      ensures e.0 < e.1 && KeyCount(faces, e) == 2
    {
      var i :| 0 <= i < |Edges(faces)| && Key(Edges(faces)[i]) == e;
      var d := Edges(faces)[i];
      SidesAreProper(faces, d);
      KeyCountOf(Edges(faces), e);
      assert Count(faces, d) == 1 && Count(faces, Reverse(d)) == 1;
    }
  }

  /** The edges of a two-sided mesh, counted by its corners. */
  lemma TwoSidedEdges(faces: seq<Face>)
    requires TwoSided(faces)
    ensures 2 * |EdgeSet(faces)| == |Edges(faces)|
  {
    var m := multiset(Keys(Edges(faces)));
    assert forall x :: x in m <==> x in EdgeSet(faces);
    TwiceEach(m, EdgeSet(faces));
  }

  /** A closed, proper triangle mesh has three edges for every two faces. */
  lemma TriangleEdges(faces: seq<Face>)
    requires Proper(faces) && ClosedOriented(faces)
    requires forall f :: 0 <= f < |faces| ==> |faces[f]| == 3
    ensures 2 * |EdgeSet(faces)| == 3 * |faces|
  {
    ClosedIsTwoSided(faces);
    TwoSidedEdges(faces);
    TotalCorners(faces, 3);
  }

  // ---------------------------------------------------------------- faces over vertices with numbers

  /** A face list as it was planned: the vertex at each corner, the number of each vertex, the
      corner that walks from one vertex to another, and the corner that walks a corner's side back. */
  datatype Plan<!V> = Plan(
    faces: seq<Face>,
    vertex: (int, int) -> V,
    number: V -> int,
    locate: (V, V) -> (int, int),
    twin: (int, int) -> (int, int))

  ghost predicate NumberedRight<V>(p: Plan<V>, f: int, k: int)
    requires IsCorner(p.faces, f, k)
  {
    p.faces[f][k] == p.number(p.vertex(f, k))
  }

  /** The two vertices of a side tell its corner, and its twin walks it back. */
  ghost predicate SideRight<V>(p: Plan<V>, f: int, k: int)
    requires IsCorner(p.faces, f, k)
  {
    var a, b := p.vertex(f, k), p.vertex(f, Next(k, |p.faces[f]|));
    var (g, l) := p.twin(f, k);
    && p.locate(a, b) == (f, k)
    && IsCorner(p.faces, g, l) && p.vertex(g, l) == b && p.vertex(g, Next(l, |p.faces[g]|)) == a
  }

  /** Equal numbers mean equal vertices. */
  ghost predicate Apart<V>(p: Plan<V>, f: int, k: int, g: int, l: int) {
    p.number(p.vertex(f, k)) == p.number(p.vertex(g, l)) ==> p.vertex(f, k) == p.vertex(g, l)
  }

  ghost predicate Numbering<V>(p: Plan<V>) {
    && (forall f, k :: IsCorner(p.faces, f, k) ==> NumberedRight(p, f, k))
    && (forall f, k, g, l :: IsCorner(p.faces, f, k) && IsCorner(p.faces, g, l) ==> Apart(p, f, k, g, l))
  }

  lemma SideOfPlan<V>(p: Plan<V>, f: int, k: int)
    requires Numbering(p) && IsCorner(p.faces, f, k)
    ensures IsCorner(p.faces, f, Next(k, |p.faces[f]|))
    ensures Side(p.faces[f], k) == (p.number(p.vertex(f, k)), p.number(p.vertex(f, Next(k, |p.faces[f]|))))
  {
    assert NumberedRight(p, f, k) && NumberedRight(p, f, Next(k, |p.faces[f]|));
  }

  lemma SameSideSameCorner<V>(p: Plan<V>, f: int, k: int, g: int, l: int)
    requires Numbering(p) && IsCorner(p.faces, f, k) && IsCorner(p.faces, g, l)
    requires SideRight(p, f, k) && SideRight(p, g, l)
    requires Side(p.faces[f], k) == Side(p.faces[g], l)
    ensures f == g && k == l
  {
    SideOfPlan(p, f, k);
    SideOfPlan(p, g, l);
    assert Apart(p, f, k, g, l) && Apart(p, f, Next(k, |p.faces[f]|), g, Next(l, |p.faces[g]|));
  }

  lemma TwinWalksBack<V>(p: Plan<V>, f: int, k: int)
    requires Numbering(p) && IsCorner(p.faces, f, k) && SideRight(p, f, k)
    ensures Reverse(Side(p.faces[f], k)) in Edges(p.faces)
  {
    var (g, l) := p.twin(f, k);
    SideOfPlan(p, f, k);
    SideOfPlan(p, g, l);
    CornerHasEdge(p.faces, g, l);
  }

  /** A planned face list in which every side is told apart and has a twin is closed. */
  lemma ClosedFromPlan<V>(p: Plan<V>)
    requires Numbering(p) && forall f, k :: IsCorner(p.faces, f, k) ==> SideRight(p, f, k)
    ensures ClosedOriented(p.faces)
  {
    forall f, k, g, l | IsCorner(p.faces, f, k) && IsCorner(p.faces, g, l) && Side(p.faces[f], k) == Side(p.faces[g], l)
      ensures f == g && k == l
    {
      SameSideSameCorner(p, f, k, g, l);
    }
    forall f, k | IsCorner(p.faces, f, k)
      ensures Reverse(Side(p.faces[f], k)) in Edges(p.faces)
    {
      TwinWalksBack(p, f, k);
    }
    ClosedFromCorners(p.faces);
  }

  ghost predicate VerticesDiffer<V>(p: Plan<V>, f: int)
    requires 0 <= f < |p.faces|
  {
    |p.faces[f]| >= 2 && forall k, l :: 0 <= k < l < |p.faces[f]| ==> p.vertex(f, k) != p.vertex(f, l)
  }

  /** A planned face repeats no number when it repeats no vertex. */
  lemma ProperFromPlan<V>(p: Plan<V>)
    requires Numbering(p) && forall f :: 0 <= f < |p.faces| ==> VerticesDiffer(p, f)
    ensures Proper(p.faces)
  {
    forall f | 0 <= f < |p.faces|
      ensures |p.faces[f]| >= 2 && Distinct(p.faces[f])
    {
      assert VerticesDiffer(p, f);
      forall k, l | 0 <= k < l < |p.faces[f]|
        ensures p.faces[f][k] != p.faces[f][l]
      {
        assert IsCorner(p.faces, f, k) && IsCorner(p.faces, f, l);
        assert NumberedRight(p, f, k) && NumberedRight(p, f, l) && Apart(p, f, k, f, l);
      }
    }
  }

  // ---------------------------------------------------------------- lists under construction

  /** `faces` is what a generator has emitted so far when it is to emit `whole`. */
  ghost predicate Emitted(whole: seq<Face>, faces: seq<Face>, count: int) {
    |faces| == count <= |whole| && faces == whole[..count]
  }

  lemma Emit(whole: seq<Face>, faces: seq<Face>, face: Face)
    requires Emitted(whole, faces, |faces|) && |faces| < |whole| && whole[|faces|] == face
    ensures Emitted(whole, faces + [face], |faces| + 1)
  {
  }
}
