/** UV charts: the partitions that `chart_ids` and `uv_charts` compute. */
module Charts {
  import opened Chains
  import opened Partition

  type Point = (real, real)

  // ---------------------------------------------------------------- chart_ids

  /** One face's use of an edge: the face and its UVs at the edge's lower and higher vertex. */
  datatype Entry = Entry(face: nat, lo: Point, hi: Point)

  /** The mesh as `chart_ids` takes it. */
  datatype Atlas = Atlas(uvs: seq<Point>, facesV: seq<seq<int>>, facesVt: seq<seq<int>>) {

    /** `zip` stops at the shorter list. */
    function Zipped(): nat {
      Partition.Min(|facesV|, |facesVt|)
    }

    /** Every UV lookup is in range, a negative index counting from the end as in Python. */
    ghost predicate Indexable() {
      forall f :: 0 <= f < Zipped() ==>
        && |facesVt[f]| >= |facesV[f]|
        && forall k :: 0 <= k < |facesV[f]| ==> -|uvs| <= facesVt[f][k] < |uvs|
    }

    predicate HasCorner(f: int, k: int) {
      0 <= f < Zipped() && 0 <= k < |facesV[f]|
    }

    function UvAt(f: int, k: int): Point
      requires Indexable() && HasCorner(f, k)
    {
      var vt := facesVt[f][k];
      uvs[if vt < 0 then |uvs| + vt else vt]
    }

    function EdgeAt(f: int, k: int): Edge
      requires HasCorner(f, k)
    {
      Key((facesV[f][k], facesV[f][Next(k, |facesV[f]|)]))
    }

    function EntryAt(f: int, k: int): Entry
      requires Indexable() && HasCorner(f, k)
    {
      var l := Next(k, |facesV[f]|);
      if facesV[f][k] < facesV[f][l] then Entry(f, UvAt(f, k), UvAt(f, l))
      else Entry(f, UvAt(f, l), UvAt(f, k))
    }

    /** The faces have an edge in common and give both its ends the same UVs, up to `eps`. */
    ghost predicate Continuous(f: int, g: int, eps: real)
      requires Indexable()
    {
      exists k, l :: HasCorner(f, k) && HasCorner(g, l) &&
        EdgeAt(f, k) == EdgeAt(g, l) && Match(EntryAt(f, k), EntryAt(g, l), eps)
    }

    ghost function Seamless(eps: real): Pairs
      requires Indexable()
    {
      set f: nat, g: nat | f < Zipped() && g < Zipped() && Continuous(f, g, eps) :: (f, g)
    }
  }

  predicate Close(x: real, y: real, eps: real) {
    (if x - y < 0.0 then y - x else x - y) < eps
  }

  predicate Match(a: Entry, b: Entry, eps: real) {
    Close(a.lo.0, b.lo.0, eps) && Close(a.lo.1, b.lo.1, eps) &&
    Close(a.hi.0, b.hi.0, eps) && Close(a.hi.1, b.hi.1, eps)
  }

  type EdgeMap = map<Edge, seq<Entry>>

  /** Every listed entry comes from a corner before corner `k` of face `f`. */
  ghost predicate OnlyFrom(a: Atlas, edges: EdgeMap, f: int, k: int)
    requires a.Indexable()
  {
    forall key, i :: key in edges && 0 <= i < |edges[key]| ==> FromCorner(a, key, edges[key][i], f, k)
  }

  ghost predicate FromCorner(a: Atlas, key: Edge, entry: Entry, f: int, k: int)
    requires a.Indexable()
  {
    exists g, l :: a.HasCorner(g, l) && Before(g, l, f, k) && a.EdgeAt(g, l) == key && a.EntryAt(g, l) == entry
  }

  /** Every corner before corner `k` of face `f` is listed under its edge. */
  ghost predicate AllOf(a: Atlas, edges: EdgeMap, f: int, k: int)
    requires a.Indexable()
  {
    forall g, l :: a.HasCorner(g, l) && Before(g, l, f, k) ==>
      a.EdgeAt(g, l) in edges && a.EntryAt(g, l) in edges[a.EdgeAt(g, l)]
  }

  predicate Before(g: int, l: int, f: int, k: int) {
    g < f || (g == f && l < k)
  }

  /** The `edges.setdefault(...).append(...)` loop. */
  method CollectEdges(a: Atlas) returns (edges: EdgeMap)
    requires a.Indexable()
    ensures OnlyFrom(a, edges, a.Zipped(), 0) && AllOf(a, edges, a.Zipped(), 0)
  {
    edges := map[];
    for f := 0 to a.Zipped()
      invariant OnlyFrom(a, edges, f, 0) && AllOf(a, edges, f, 0)
    {
      for k := 0 to |a.facesV[f]|
        invariant OnlyFrom(a, edges, f, k) && AllOf(a, edges, f, k)
      {
        var entry, key := a.EntryAt(f, k), a.EdgeAt(f, k);
        ghost var before := edges;
        edges := edges[key := (if key in edges then edges[key] else []) + [entry]];
        CollectStep(a, before, edges, f, k);
      }
    }
  }

  lemma CollectStep(a: Atlas, before: EdgeMap, edges: EdgeMap, f: int, k: int)
    requires a.Indexable() && a.HasCorner(f, k)
    requires OnlyFrom(a, before, f, k) && AllOf(a, before, f, k)
    requires var key := a.EdgeAt(f, k);
      edges == before[key := (if key in before then before[key] else []) + [a.EntryAt(f, k)]]
    ensures OnlyFrom(a, edges, f, k + 1) && AllOf(a, edges, f, k + 1)
  {
    var here, entry := a.EdgeAt(f, k), a.EntryAt(f, k);
    forall key, i | key in edges && 0 <= i < |edges[key]|
      ensures FromCorner(a, key, edges[key][i], f, k + 1)
    {
      if key in before && i < |before[key]| {
        assert FromCorner(a, key, before[key][i], f, k);
      }
    }
    forall g, l | a.HasCorner(g, l) && Before(g, l, f, k + 1)
      ensures a.EdgeAt(g, l) in edges && a.EntryAt(g, l) in edges[a.EdgeAt(g, l)]
    {
      if g == f && l == k {
        assert edges[here][|edges[here]| - 1] == entry;
      }
    }
  }

  /** The pairs of entries of one list before position (i, j) that match have been united. */
  ghost predicate PairsDone(list: seq<Entry>, eps: real, i: int, j: int, done: Pairs) {
    forall x, y :: 0 <= x < y < |list| && (x < i || (x == i && y < j)) && Match(list[x], list[y], eps) ==>
      (list[x].face, list[y].face) in done
  }

  /** The inner double loop over one edge's entries. */
  method UniteList(parent: array<nat>, list: seq<Entry>, eps: real, ghost before: Pairs, ghost all: Pairs)
      returns (ghost done: Pairs)
    requires Represents(parent[..], before) && before <= all
    requires forall x :: 0 <= x < |list| ==> list[x].face < parent.Length
    requires forall x, y :: 0 <= x < y < |list| && Match(list[x], list[y], eps) ==>
      (list[x].face, list[y].face) in all
    modifies parent
    ensures Represents(parent[..], done) && before <= done <= all
    ensures PairsDone(list, eps, |list|, 0, done)
  {
    done := before;
    for i := 0 to |list|
      invariant Represents(parent[..], done) && before <= done <= all
      invariant PairsDone(list, eps, i, 0, done)
    {
      for j := i + 1 to |list|
        invariant Represents(parent[..], done) && before <= done <= all
        invariant PairsDone(list, eps, i, j, done)
      {
        if Match(list[i], list[j], eps) {
          Unite(parent, list[i].face, list[j].face, done);
          done := done + {(list[i].face, list[j].face)};
        }
      }
    }
  }

  /** Unites the faces of every edge, the edges taken in any order. */
  method UniteEdges(a: Atlas, parent: array<nat>, edges: EdgeMap, eps: real) returns (ghost done: Pairs)
    requires a.Indexable() && parent.Length == |a.facesV|
    requires OnlyFrom(a, edges, a.Zipped(), 0) && AllOf(a, edges, a.Zipped(), 0)
    requires forall x :: 0 <= x < parent.Length ==> parent[x] == x
    modifies parent
    ensures Represents(parent[..], done) && done <= a.Seamless(eps)
    ensures forall key :: key in edges ==> PairsDone(edges[key], eps, |edges[key]|, 0, done)
  {
    done := {};
    SingletonsRepresentNothing(parent[..]);
    var todo := edges.Keys;
    while todo != {}
      invariant todo <= edges.Keys
      invariant Represents(parent[..], done) && done <= a.Seamless(eps)
      invariant forall key :: key in edges && key !in todo ==> PairsDone(edges[key], eps, |edges[key]|, 0, done)
      decreases todo
    {
      var key :| key in todo;
      ListIsSeamless(a, edges, key, eps);
      ghost var before := done;
      done := UniteList(parent, edges[key], eps, before, a.Seamless(eps));
      todo := todo - {key};
    }
  }

  lemma ListIsSeamless(a: Atlas, edges: EdgeMap, key: Edge, eps: real)
    requires a.Indexable() && OnlyFrom(a, edges, a.Zipped(), 0) && key in edges
    ensures forall x :: 0 <= x < |edges[key]| ==> edges[key][x].face < a.Zipped()
    ensures forall x, y :: 0 <= x < y < |edges[key]| && Match(edges[key][x], edges[key][y], eps) ==>
      (edges[key][x].face, edges[key][y].face) in a.Seamless(eps)
  {
    var list := edges[key];
    forall x | 0 <= x < |list|
      ensures FromCorner(a, key, list[x], a.Zipped(), 0) && list[x].face < a.Zipped()
    {
      assert FromCorner(a, key, list[x], a.Zipped(), 0);
    }
    forall x, y | 0 <= x < y < |list| && Match(list[x], list[y], eps)
      ensures (list[x].face, list[y].face) in a.Seamless(eps)
    {
      var g, l :| a.HasCorner(g, l) && a.EdgeAt(g, l) == key && a.EntryAt(g, l) == list[x];
      var h, m :| a.HasCorner(h, m) && a.EdgeAt(h, m) == key && a.EntryAt(h, m) == list[y];
      assert a.Continuous(g, h, eps);
    }
  }

  lemma MatchIsSymmetric(a: Entry, b: Entry, eps: real)
    ensures Match(a, b, eps) == Match(b, a, eps)
  {
  }

  lemma SeamlessPairIsDone(a: Atlas, edges: EdgeMap, eps: real, done: Pairs, f: nat, g: nat)
    requires a.Indexable() && AllOf(a, edges, a.Zipped(), 0)
    requires forall key :: key in edges ==> PairsDone(edges[key], eps, |edges[key]|, 0, done)
    requires f < a.Zipped() && g < a.Zipped() && a.Continuous(f, g, eps)
    ensures Connected(done, f, g)
  {
    var k, l :| a.HasCorner(f, k) && a.HasCorner(g, l) &&
      a.EdgeAt(f, k) == a.EdgeAt(g, l) && Match(a.EntryAt(f, k), a.EntryAt(g, l), eps);
    assert Before(f, k, a.Zipped(), 0) && Before(g, l, a.Zipped(), 0);
    MatchIsSymmetric(a.EntryAt(f, k), a.EntryAt(g, l), eps);
    ListedPairIsDone(edges[a.EdgeAt(f, k)], a.EntryAt(f, k), a.EntryAt(g, l), eps, done);
    LinkConnects(done, f, g);
  }

  lemma ListedPairIsDone(list: seq<Entry>, x: Entry, y: Entry, eps: real, done: Pairs)
    requires PairsDone(list, eps, |list|, 0, done) && x in list && y in list
    requires Match(x, y, eps) && Match(y, x, eps)
    ensures Linked(done, x.face, y.face)
  {
    var i :| 0 <= i < |list| && list[i] == x;
    var j :| 0 <= j < |list| && list[j] == y;
    assert i < j ==> (list[i].face, list[j].face) in done;
    assert j < i ==> (list[j].face, list[i].face) in done;
  }

  /** What was united connects exactly the faces that continuous edges connect. */
  lemma DoneIsSeamless(a: Atlas, edges: EdgeMap, eps: real, done: Pairs, x: nat, y: nat)
    requires a.Indexable() && AllOf(a, edges, a.Zipped(), 0) && done <= a.Seamless(eps)
    requires forall key :: key in edges ==> PairsDone(edges[key], eps, |edges[key]|, 0, done)
    ensures Connected(done, x, y) <==> Connected(a.Seamless(eps), x, y)
  {
    forall f: nat, g: nat | (f, g) in done
      ensures Connected(a.Seamless(eps), f, g)
    {
      LinkConnects(a.Seamless(eps), f, g);
    }
    forall f: nat, g: nat | (f, g) in a.Seamless(eps)
      ensures Connected(done, f, g)
    {
      SeamlessPairIsDone(a, edges, eps, done, f, g);
    }
    if Connected(done, x, y) {
      Coarser(done, a.Seamless(eps), x, y);
    }
    if Connected(a.Seamless(eps), x, y) {
      Coarser(a.Seamless(eps), done, x, y);
    }
  }

  method Singletons(n: nat) returns (parent: array<nat>)
    ensures fresh(parent) && parent.Length == n && forall x :: 0 <= x < n ==> parent[x] == x
  {
    parent := new nat[n];
    for i := 0 to n
      invariant forall x :: 0 <= x < i ==> parent[x] == x
    {
      parent[i] := i;
    }
  }

  /** The variant that returns raw roots: the least face of each face's chart. */
  method ChartRoots(a: Atlas, eps: real) returns (roots: seq<nat>)
    requires a.Indexable()
    ensures |roots| == |a.facesV| && AllLeast(a.Seamless(eps), roots)
  {
    var parent := Singletons(|a.facesV|);
    var edges := CollectEdges(a);
    ghost var done := UniteEdges(a, parent, edges, eps);
    roots := Roots(parent, done);
    LeastTransfers(a, edges, eps, done, roots);
  }

  lemma LeastTransfers(a: Atlas, edges: EdgeMap, eps: real, done: Pairs, roots: seq<nat>)
    requires a.Indexable() && AllOf(a, edges, a.Zipped(), 0) && done <= a.Seamless(eps)
    requires forall key :: key in edges ==> PairsDone(edges[key], eps, |edges[key]|, 0, done)
    requires AllLeast(done, roots)
    ensures AllLeast(a.Seamless(eps), roots)
  {
    forall x: nat, y: nat
      ensures Connected(done, x, y) <==> Connected(a.Seamless(eps), x, y)
    {
      DoneIsSeamless(a, edges, eps, done, x, y);
    }
    SameComponentsSameLeast(done, a.Seamless(eps), roots);
  }

  lemma SameComponentsSameLeast(r: Pairs, s: Pairs, roots: seq<nat>)
    requires AllLeast(r, roots) && forall x: nat, y: nat :: Connected(r, x, y) <==> Connected(s, x, y)
    ensures AllLeast(s, roots)
  {
    forall x | 0 <= x < |roots|
      ensures IsLeast(s, |roots|, x, roots[x]) && roots[x] < |roots|
    {
      assert IsLeast(r, |roots|, x, roots[x]);
    }
  }

  /** `chart_ids`: the labelling of the faces by chains of continuous edges. */
  method ChartIds(a: Atlas, eps: real) returns (labels: seq<nat>, k: nat)
    requires a.Indexable()
    ensures ComponentLabels(a.Seamless(eps), |a.facesV|, labels, k)
  {
    var least := ChartRoots(a, eps);
    labels, k := Relabel(least, a.Seamless(eps));
  }

  // ---------------------------------------------------------------- what continuity means

  /** The UV at corner `k` of face `f`; a negative index counts from the end. */
  function CornerUv(a: Atlas, f: int, k: int): Point
    requires a.Indexable() && a.HasCorner(f, k)
  {
    var vt := a.facesVt[f][k];
    if vt >= 0 then a.uvs[vt] else a.uvs[vt + |a.uvs|]
  }

  predicate Near(p: Point, q: Point, eps: real) {
    -eps < p.0 - q.0 < eps && -eps < p.1 - q.1 < eps
  }

  /** Corners `k` of `f` and `l` of `g` start sides between the same two vertices, in the same or
      in opposite directions, and at each of the two vertices the faces' UVs are near. A side from
      a vertex to itself has a direction all the same. */
  ghost predicate SidesMeet(a: Atlas, f: int, k: int, g: int, l: int, eps: real)
    requires a.Indexable()
  {
    && a.HasCorner(f, k) && a.HasCorner(g, l)
    && var k', l' := (k + 1) % |a.facesV[f]|, (l + 1) % |a.facesV[g]|;
    && var v, v', w, w' := a.facesV[f][k], a.facesV[f][k'], a.facesV[g][l], a.facesV[g][l'];
    || (v == w && v' == w' &&
        Near(CornerUv(a, f, k), CornerUv(a, g, l), eps) && Near(CornerUv(a, f, k'), CornerUv(a, g, l'), eps))
    || (v == w' && v' == w && v != v' &&
        Near(CornerUv(a, f, k), CornerUv(a, g, l'), eps) && Near(CornerUv(a, f, k'), CornerUv(a, g, l), eps))
  }

  /** The faces share an edge on which their UVs agree at both ends. */
  ghost predicate ShareEdge(a: Atlas, f: int, g: int, eps: real)
    requires a.Indexable()
  {
    exists k, l :: SidesMeet(a, f, k, g, l, eps)
  }

  lemma UvOfCorner(a: Atlas, f: int, k: int)
    requires a.Indexable() && a.HasCorner(f, k)
    ensures a.UvAt(f, k) == CornerUv(a, f, k)
  {
  }

  lemma CloseIsNear(p: Point, q: Point, eps: real)
    ensures Close(p.0, q.0, eps) && Close(p.1, q.1, eps) <==> Near(p, q, eps)
  {
  }

  /** What the dictionary compares on one pair of corners. */
  lemma SidesMeetIff(a: Atlas, f: int, k: int, g: int, l: int, eps: real)
    requires a.Indexable() && a.HasCorner(f, k) && a.HasCorner(g, l)
    ensures SidesMeet(a, f, k, g, l, eps) <==>
            a.EdgeAt(f, k) == a.EdgeAt(g, l) && Match(a.EntryAt(f, k), a.EntryAt(g, l), eps)
  {
    var k', l' := Next(k, |a.facesV[f]|), Next(l, |a.facesV[g]|);
    UvOfCorner(a, f, k);
    UvOfCorner(a, f, k');
    UvOfCorner(a, g, l);
    UvOfCorner(a, g, l');
    CloseIsNear(a.EntryAt(f, k).lo, a.EntryAt(g, l).lo, eps);
    CloseIsNear(a.EntryAt(f, k).hi, a.EntryAt(g, l).hi, eps);
  }

  /** Faces are continuous exactly when they share an edge with near UVs at both its ends. */
  lemma ContinuousIff(a: Atlas, f: int, g: int, eps: real)
    requires a.Indexable()
    ensures a.Continuous(f, g, eps) <==> ShareEdge(a, f, g, eps)
  {
    forall k, l | a.HasCorner(f, k) && a.HasCorner(g, l)
      ensures SidesMeet(a, f, k, g, l, eps) <==>
              a.EdgeAt(f, k) == a.EdgeAt(g, l) && Match(a.EntryAt(f, k), a.EntryAt(g, l), eps)
    {
      SidesMeetIff(a, f, k, g, l, eps);
    }
    if a.Continuous(f, g, eps) {
      var k, l :| a.HasCorner(f, k) && a.HasCorner(g, l) &&
        a.EdgeAt(f, k) == a.EdgeAt(g, l) && Match(a.EntryAt(f, k), a.EntryAt(g, l), eps);
      assert SidesMeet(a, f, k, g, l, eps);
    }
    if k, l :| SidesMeet(a, f, k, g, l, eps) {
      assert a.HasCorner(f, k) && a.HasCorner(g, l);
    }
  }

  /** Neighbours on the path are one face or two that share an edge with near UVs. */
  ghost predicate IsChain(a: Atlas, eps: real, path: seq<int>, f: int, g: int)
    requires a.Indexable()
  {
    && path != [] && path[0] == f && path[|path| - 1] == g
    && forall i :: 0 <= i < |path| - 1 ==> path[i] == path[i + 1] || ShareEdge(a, path[i], path[i + 1], eps)
  }

  /** Two faces get the same label exactly when a chain of faces leads from one to the other
      that share an edge, with the same UVs at its ends, step by step. */
  lemma ChartsAreSeamless(a: Atlas, eps: real, labels: seq<nat>, k: nat, f: nat, g: nat)
    requires a.Indexable() && ComponentLabels(a.Seamless(eps), |a.facesV|, labels, k)
    requires f < |a.facesV| && g < |a.facesV|
    ensures labels[f] == labels[g] <==> exists path :: IsChain(a, eps, path, f, g)
  {
    assert SameLabelIffConnected(a.Seamless(eps), labels, f, g);
    ConnectedIffChain(a, eps, f, g);
  }

  lemma ConnectedIffChain(a: Atlas, eps: real, f: nat, g: nat)
    requires a.Indexable()
    ensures Connected(a.Seamless(eps), f, g) <==> exists path :: IsChain(a, eps, path, f, g)
  {
    if Connected(a.Seamless(eps), f, g) {
      var path :| IsPath(a.Seamless(eps), path, f, g);
      PathIsChain(a, eps, path, f, g);
    }
    if path :| IsChain(a, eps, path, f, g) {
      ChainConnects(a, eps, path, f, g);
    }
  }

  lemma PathIsChain(a: Atlas, eps: real, path: seq<nat>, f: nat, g: nat)
    requires a.Indexable() && IsPath(a.Seamless(eps), path, f, g)
    ensures IsChain(a, eps, path, f, g)
  {
    forall i | 0 <= i < |path| - 1
      ensures path[i] == path[i + 1] || ShareEdge(a, path[i], path[i + 1], eps)
    {
      assert Linked(a.Seamless(eps), path[i], path[i + 1]);
      ContinuousIsSymmetric(a, path[i], path[i + 1], eps);
      ContinuousIff(a, path[i], path[i + 1], eps);
    }
  }

  lemma ContinuousIsSymmetric(a: Atlas, f: int, g: int, eps: real)
    requires a.Indexable()
    ensures a.Continuous(f, g, eps) <==> a.Continuous(g, f, eps)
  {
  }

  lemma {:induction false} ChainConnects(a: Atlas, eps: real, path: seq<int>, f: nat, g: nat)
    requires a.Indexable() && IsChain(a, eps, path, f, g)
    ensures Connected(a.Seamless(eps), f, g)
    decreases |path|
  {
    if |path| == 1 {
      LinkConnects(a.Seamless(eps), f, g);
    } else {
      assert path[0] == path[1] || ShareEdge(a, path[0], path[1], eps);
      ContinuousIff(a, path[0], path[1], eps);
      var h: nat := path[1];
      LinkConnects(a.Seamless(eps), f, h);
      forall i | 0 <= i < |path[1..]| - 1
        ensures path[1..][i] == path[1..][i + 1] || ShareEdge(a, path[1..][i], path[1..][i + 1], eps)
      {
        assert path[i + 1] == path[i + 2] || ShareEdge(a, path[i + 1], path[i + 2], eps);
      }
      ChainConnects(a, eps, path[1..], h, g);
      Transitive(a.Seamless(eps), f, h, g);
    }
  }

  // ---------------------------------------------------------------- uv_charts

  /** `round(x, 6)` in millionths: to nearest, ties to even. */
  function RoundMicro(x: real): int {
    var y := x * 1000000.0;
    var lower := y.Floor;
    var rest := y - lower as real;
    if rest < 0.5 || (rest == 0.5 && lower % 2 == 0) then lower else lower + 1
  }

  /** `r` millionths are nearest to `x`, and even where two are equally near. */
  predicate Nearest(x: real, r: int) {
    var d := x - r as real * 0.000001;
    -0.0000005 <= d <= 0.0000005 && (d == 0.0000005 || d == -0.0000005 ==> r % 2 == 0)
  }

  lemma RoundMicroIsNearest(x: real, r: int)
    ensures RoundMicro(x) == r <==> Nearest(x, r)
  {
    var y := x * 1000000.0;
    assert x == y * 0.000001;
    var lower := y.Floor;
    assert lower as real <= y < lower as real + 1.0;
  }

  type UvKey = (int, int)

  function KeyOf(uv: Point): UvKey {
    (RoundMicro(uv.0), RoundMicro(uv.1))
  }

  ghost predicate UvIndexable(uvs: seq<Point>, facesVt: seq<seq<int>>) {
    forall f, i :: 0 <= f < |facesVt| && 0 <= i < |facesVt[f]| ==> facesVt[f][i] < |uvs|
  }

  /** Corner `i` of face `f` has a UV, and it rounds to `key`. */
  predicate TouchesAt(uvs: seq<Point>, facesVt: seq<seq<int>>, f: int, i: int, key: UvKey) {
    0 <= f < |facesVt| && 0 <= i < |facesVt[f]| && 0 <= facesVt[f][i] < |uvs| &&
    KeyOf(uvs[facesVt[f][i]]) == key
  }

  ghost predicate Touches(uvs: seq<Point>, facesVt: seq<seq<int>>, f: int, key: UvKey) {
    exists i :: TouchesAt(uvs, facesVt, f, i, key)
  }

  ghost predicate ShareUv(uvs: seq<Point>, facesVt: seq<seq<int>>, f: int, g: int) {
    exists key :: Touches(uvs, facesVt, f, key) && Touches(uvs, facesVt, g, key)
  }

  /** Corners `i` of `f` and `j` of `g` have UVs that round to the same millionths in both
      coordinates. */
  predicate UvsMeet(uvs: seq<Point>, facesVt: seq<seq<int>>, f: int, i: int, g: int, j: int) {
    && 0 <= f < |facesVt| && 0 <= i < |facesVt[f]| && 0 <= facesVt[f][i] < |uvs|
    && 0 <= g < |facesVt| && 0 <= j < |facesVt[g]| && 0 <= facesVt[g][j] < |uvs|
    && var p, q := uvs[facesVt[f][i]], uvs[facesVt[g][j]];
    RoundTogether(p.0, q.0) && RoundTogether(p.1, q.1)
  }

  predicate RoundTogether(x: real, y: real) {
    Nearest(y, RoundMicro(x))
  }

  /** Faces share a UV exactly when they have corners whose UVs agree to the millionth. */
  lemma ShareUvIff(uvs: seq<Point>, facesVt: seq<seq<int>>, f: int, g: int)
    ensures ShareUv(uvs, facesVt, f, g) <==> exists i, j :: UvsMeet(uvs, facesVt, f, i, g, j)
  {
    if key :| Touches(uvs, facesVt, f, key) && Touches(uvs, facesVt, g, key) {
      var i :| TouchesAt(uvs, facesVt, f, i, key);
      var j :| TouchesAt(uvs, facesVt, g, j, key);
      RoundMicroIsNearest(uvs[facesVt[g][j]].0, key.0);
      RoundMicroIsNearest(uvs[facesVt[g][j]].1, key.1);
      assert UvsMeet(uvs, facesVt, f, i, g, j);
    }
    if i, j :| UvsMeet(uvs, facesVt, f, i, g, j) {
      var p, q := uvs[facesVt[f][i]], uvs[facesVt[g][j]];
      RoundMicroIsNearest(q.0, RoundMicro(p.0));
      RoundMicroIsNearest(q.1, RoundMicro(p.1));
      var key := KeyOf(p);
      assert TouchesAt(uvs, facesVt, f, i, key) && TouchesAt(uvs, facesVt, g, j, key);
      assert Touches(uvs, facesVt, f, key) && Touches(uvs, facesVt, g, key);
    }
  }

  /** Every pair of faces that share a rounded UV. */
  ghost function Sharing(uvs: seq<Point>, facesVt: seq<seq<int>>): Pairs {
    set f: nat, g: nat | f < |facesVt| && g < |facesVt| && ShareUv(uvs, facesVt, f, g) :: (f, g)
  }

  /** `seen` maps the keys met so far to a face that touches them, and each face met so far has
      been united with the face seen for each of its keys. */
  ghost predicate SeenOk(uvs: seq<Point>, facesVt: seq<seq<int>>, seen: map<UvKey, nat>, done: Pairs, f: int, i: int) {
    && (forall key :: key in seen ==> seen[key] < |facesVt| && Touches(uvs, facesVt, seen[key], key))
    && (forall g, j, key :: TouchesAt(uvs, facesVt, g, j, key) && Before(g, j, f, i) ==>
          key in seen && (seen[key], g) in done)
    && done <= Sharing(uvs, facesVt)
  }

  method UniteByUv(uvs: seq<Point>, facesVt: seq<seq<int>>, parent: array<nat>)
      returns (ghost seen: map<UvKey, nat>, ghost done: Pairs)
    requires UvIndexable(uvs, facesVt) && parent.Length == |facesVt|
    requires forall x :: 0 <= x < parent.Length ==> parent[x] == x
    modifies parent
    ensures Represents(parent[..], done) && SeenOk(uvs, facesVt, seen, done, |facesVt|, 0)
  {
    var first: map<UvKey, nat> := map[];
    done := {};
    SingletonsRepresentNothing(parent[..]);
    for f := 0 to |facesVt|
      invariant Represents(parent[..], done) && SeenOk(uvs, facesVt, first, done, f, 0)
    {
      for i := 0 to |facesVt[f]|
        invariant Represents(parent[..], done) && SeenOk(uvs, facesVt, first, done, f, i)
      {
        var vt := facesVt[f][i];
        if vt < 0 {
          continue;
        }
        var key := KeyOf(uvs[vt]);
        ghost var before := first;
        if key !in first {
          first := first[key := f];
        }
        var other := first[key];
        Unite(parent, other, f, done);
        SeenStep(uvs, facesVt, before, first, done, f, i, key);
        done := done + {(other, f)};
      }
    }
    seen := first;
  }

  lemma SeenStep(uvs: seq<Point>, facesVt: seq<seq<int>>, before: map<UvKey, nat>, seen: map<UvKey, nat>,
                 done: Pairs, f: nat, i: nat, key: UvKey)
    requires SeenOk(uvs, facesVt, before, done, f, i) && TouchesAt(uvs, facesVt, f, i, key)
    requires seen == if key in before then before else before[key := f]
    ensures SeenOk(uvs, facesVt, seen, done + {(seen[key], f)}, f, i + 1)
  {
    assert Touches(uvs, facesVt, f, key);
    assert forall other :: other in seen ==> seen[other] < |facesVt| && Touches(uvs, facesVt, seen[other], other);
    assert ShareUv(uvs, facesVt, seen[key], f);
    forall g, j, other | TouchesAt(uvs, facesVt, g, j, other) && Before(g, j, f, i + 1)
      ensures other in seen && (seen[other], g) in done + {(seen[key], f)}
    {
      StillSeen(uvs, facesVt, before, seen, done, f, i, key, g, j, other);
    }
  }

  lemma StillSeen(uvs: seq<Point>, facesVt: seq<seq<int>>, before: map<UvKey, nat>, seen: map<UvKey, nat>,
                  done: Pairs, f: nat, i: nat, key: UvKey, g: int, j: int, other: UvKey)
    requires forall g, j, key :: TouchesAt(uvs, facesVt, g, j, key) && Before(g, j, f, i) ==>
      key in before && (before[key], g) in done
    requires TouchesAt(uvs, facesVt, f, i, key)
    requires seen == if key in before then before else before[key := f]
    requires TouchesAt(uvs, facesVt, g, j, other) && Before(g, j, f, i + 1)
    ensures other in seen && (seen[other], g) in done + {(seen[key], f)}
  {
    if Before(g, j, f, i) {
      assert other in before;
    } else {
      assert g == f && j == i && other == key;
    }
  }

  /** Uniting each face with the first face seen per key gives the same charts as uniting every
      pair of faces that share a key. */
  lemma FirstSeenSuffices(uvs: seq<Point>, facesVt: seq<seq<int>>, seen: map<UvKey, nat>, done: Pairs, x: nat, y: nat)
    requires SeenOk(uvs, facesVt, seen, done, |facesVt|, 0)
    ensures Connected(done, x, y) <==> Connected(Sharing(uvs, facesVt), x, y)
  {
    var all := Sharing(uvs, facesVt);
    forall f: nat, g: nat | (f, g) in done
      ensures Connected(all, f, g)
    {
      LinkConnects(all, f, g);
    }
    forall f: nat, g: nat | (f, g) in all
      ensures Connected(done, f, g)
    {
      var key :| Touches(uvs, facesVt, f, key) && Touches(uvs, facesVt, g, key);
      var i :| TouchesAt(uvs, facesVt, f, i, key);
      var j :| TouchesAt(uvs, facesVt, g, j, key);
      assert Before(f, i, |facesVt|, 0) && Before(g, j, |facesVt|, 0);
      LinkConnects(done, f, seen[key]);
      LinkConnects(done, seen[key], g);
      Transitive(done, f, seen[key], g);
    }
    if Connected(done, x, y) {
      Coarser(done, all, x, y);
    }
    if Connected(all, x, y) {
      Coarser(all, done, x, y);
    }
  }

  /** `uv_charts`. */
  method UvCharts(uvs: seq<Point>, facesVt: seq<seq<int>>) returns (labels: seq<nat>, k: nat)
    requires UvIndexable(uvs, facesVt)
    ensures ComponentLabels(Sharing(uvs, facesVt), |facesVt|, labels, k)
  {
    var parent := Singletons(|facesVt|);
    ghost var seen, done := UniteByUv(uvs, facesVt, parent);
    var least := Roots(parent, done);
    forall x: nat, y: nat
      ensures Connected(done, x, y) <==> Connected(Sharing(uvs, facesVt), x, y)
    {
      FirstSeenSuffices(uvs, facesVt, seen, done, x, y);
    }
    SameComponentsSameLeast(done, Sharing(uvs, facesVt), least);
    labels, k := Relabel(least, Sharing(uvs, facesVt));
  }

  /** A face without any UV is a chart of its own. */
  lemma NoUvIsSingleton(uvs: seq<Point>, facesVt: seq<seq<int>>, f: nat, g: nat)
    requires f < |facesVt| && forall i :: 0 <= i < |facesVt[f]| ==> facesVt[f][i] < 0
    ensures Connected(Sharing(uvs, facesVt), f, g) <==> f == g
  {
    var all := Sharing(uvs, facesVt);
    if f == g {
      LinkConnects(all, f, g);
    }
    if Connected(all, f, g) {
      var path :| IsPath(all, path, f, g);
      AlongPath(all, path, f, g, (x: nat) => x == f);
    }
  }
}
