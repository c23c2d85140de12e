/** Union-find with path halving in an array, where the smaller index wins, and the partition
    it computes: the connected components of the pairs that were united. */
module Partition {

  type Pairs = set<(nat, nat)>

  // ---------------------------------------------------------------- connected components

  predicate Linked(r: Pairs, u: nat, v: nat) {
    u == v || (u, v) in r || (v, u) in r
  }

  predicate IsPath(r: Pairs, path: seq<nat>, u: nat, v: nat) {
    && path != [] && path[0] == u && path[|path| - 1] == v
    && forall i :: 0 <= i < |path| - 1 ==> Linked(r, path[i], path[i + 1])
  }

  /** A chain of linked elements leads from `u` to `v`. */
  ghost predicate Connected(r: Pairs, u: nat, v: nat) {
    exists path :: IsPath(r, path, u, v)
  }

  lemma LinkConnects(r: Pairs, u: nat, v: nat)
    requires Linked(r, u, v)
    ensures Connected(r, u, v)
  {
    assert IsPath(r, [u, v], u, v);
  }

  lemma Transitive(r: Pairs, u: nat, v: nat, w: nat)
    requires Connected(r, u, v) && Connected(r, v, w)
    ensures Connected(r, u, w)
  {
    var p :| IsPath(r, p, u, v);
    var q :| IsPath(r, q, v, w);
    assert IsPath(r, p + q, u, w);
  }

  lemma {:induction false} Symmetric(r: Pairs, u: nat, v: nat)
    requires Connected(r, u, v)
    ensures Connected(r, v, u)
  {
    var p :| IsPath(r, p, u, v);
    var q := seq(|p|, i requires 0 <= i < |p| => p[|p| - 1 - i]);
    assert IsPath(r, q, v, u);
  }

  /** Anything that holds along every link holds along every chain. */
  lemma {:induction false} AlongPath<T>(r: Pairs, path: seq<nat>, u: nat, v: nat, tag: nat -> T)
    requires IsPath(r, path, u, v)
    requires forall x, y :: (x, y) in r ==> tag(x) == tag(y)
    ensures tag(u) == tag(v)
    decreases |path|
  {
    if |path| > 1 {
      AlongPath(r, path[1..], path[1], v, tag);
    }
  }

  /** Two sets of pairs that connect each other's pairs connect the same elements. */
  lemma Coarser(r: Pairs, s: Pairs, u: nat, v: nat)
    requires forall x, y :: (x, y) in r ==> Connected(s, x, y)
    requires Connected(r, u, v)
    ensures Connected(s, u, v)
  {
    var path :| IsPath(r, path, u, v);
    CoarserPath(r, s, path, u, v);
  }

  lemma {:induction false} CoarserPath(r: Pairs, s: Pairs, path: seq<nat>, u: nat, v: nat)
    requires forall x, y :: (x, y) in r ==> Connected(s, x, y)
    requires IsPath(r, path, u, v)
    ensures Connected(s, u, v)
    decreases |path|
  {
    if |path| == 1 {
      LinkConnects(s, u, v);
    } else {
      var x := path[1];
      CoarserPath(r, s, path[1..], x, v);
      if u == x {
        LinkConnects(s, u, x);
      } else if (u, x) !in r {
        Symmetric(s, x, u);
      }
      Transitive(s, u, x, v);
    }
  }

  // ---------------------------------------------------------------- the parent array

  ghost predicate Forest(p: seq<nat>) {
    forall x :: 0 <= x < |p| ==> p[x] <= x
  }

  function Root(p: seq<nat>, x: nat): (r: nat)
    requires Forest(p) && x < |p|
    ensures r <= x && p[r] == r
  {
    if p[x] == x then x else Root(p, p[x])
  }

  /** Path halving leaves every root where it is. */
  lemma {:induction false} HalvingKeepsRoots(p: seq<nat>, x: nat, z: nat)
    requires Forest(p) && x < |p| && z < |p|
    ensures Forest(p[x := p[p[x]]]) && Root(p[x := p[p[x]]], z) == Root(p, z)
    decreases z
  {
    if p[z] != z {
      HalvingKeepsRoots(p, x, p[z]);
      HalvingKeepsRoots(p, x, p[p[z]]);
    }
  }

  /** Linking one root below a smaller one moves exactly the first root's class. */
  lemma {:induction false} LinkMovesClass(p: seq<nat>, lo: nat, hi: nat, z: nat)
    requires Forest(p) && lo < hi < |p| && p[lo] == lo && p[hi] == hi && z < |p|
    ensures Forest(p[hi := lo])
    ensures Root(p[hi := lo], z) == if Root(p, z) == hi then lo else Root(p, z)
    decreases z
  {
    if p[z] != z {
      LinkMovesClass(p, lo, hi, p[z]);
    }
  }

  /** The array represents the components of the pairs united so far. */
  ghost predicate Represents(p: seq<nat>, r: Pairs) {
    && Forest(p)
    && (forall u, v :: (u, v) in r ==> u < |p| && v < |p| && Root(p, u) == Root(p, v))
    && (forall x :: 0 <= x < |p| ==> Connected(r, x, Root(p, x)))
  }

  lemma SingletonsRepresentNothing(p: seq<nat>)
    requires forall x :: 0 <= x < |p| ==> p[x] == x
    ensures Represents(p, {})
  {
    forall x | 0 <= x < |p|
      ensures Connected({}, x, Root(p, x))
    {
      LinkConnects({}, x, x);
    }
  }

  /** Two elements have the same root exactly when a chain of united pairs joins them. */
  lemma SameRootIffConnected(p: seq<nat>, r: Pairs, u: nat, v: nat)
    requires Represents(p, r) && u < |p| && v < |p|
    ensures Root(p, u) == Root(p, v) <==> Connected(r, u, v)
  {
    if Root(p, u) == Root(p, v) {
      Symmetric(r, v, Root(p, v));
      Transitive(r, u, Root(p, u), v);
    }
    if Connected(r, u, v) {
      var path :| IsPath(r, path, u, v);
      AlongPath(r, path, u, v, (x: nat) => if x < |p| then Root(p, x) else 0);
    }
  }

  ghost predicate IsLeast(r: Pairs, n: nat, x: nat, least: nat) {
    Connected(r, x, least) && forall y :: 0 <= y < n && Connected(r, x, y) ==> least <= y
  }

  /** The root is the least element of its component. */
  lemma RootIsLeast(p: seq<nat>, r: Pairs, x: nat)
    requires Represents(p, r) && x < |p|
    ensures IsLeast(r, |p|, x, Root(p, x))
  {
    forall y | 0 <= y < |p| && Connected(r, x, y)
      ensures Root(p, x) <= y
    {
      SameRootIffConnected(p, r, x, y);
    }
  }

  lemma ComponentsOfMore(r: Pairs, a: nat, b: nat, u: nat, v: nat)
    requires Connected(r, u, v)
    ensures Connected(r + {(a, b)}, u, v)
  {
    forall x, y | (x, y) in r
      ensures Connected(r + {(a, b)}, x, y)
    {
      LinkConnects(r + {(a, b)}, x, y);
    }
    Coarser(r, r + {(a, b)}, u, v);
  }

  /** After linking the two roots, the array represents the enlarged set of pairs. */
  lemma UnionRepresents(p: seq<nat>, r: Pairs, a: nat, b: nat, q: seq<nat>)
    requires Represents(p, r) && a < |p| && b < |p| && Forest(q) && |q| == |p|
    requires forall z :: 0 <= z < |p| ==>
      Root(q, z) == if Root(p, z) == Root(p, a) || Root(p, z) == Root(p, b)
                    then Min(Root(p, a), Root(p, b)) else Root(p, z)
    ensures Represents(q, r + {(a, b)})
  {
    var s := r + {(a, b)};
    forall u, v | (u, v) in s
      ensures u < |q| && v < |q| && Root(q, u) == Root(q, v)
    {
      assert (u, v) in r || (u, v) == (a, b);
    }
    forall x | 0 <= x < |q|
      ensures Connected(s, x, Root(q, x))
    {
      ComponentsOfMore(r, a, b, x, Root(p, x));
      if Root(p, x) == Root(p, a) {
        ToEither(r, a, b, p, x, a, b);
      } else if Root(p, x) == Root(p, b) {
        ToEither(r, a, b, p, x, b, a);
      }
    }
  }

  /** What shares its root with one end of the new pair reaches both ends' roots. */
  lemma ToEither(r: Pairs, a: nat, b: nat, p: seq<nat>, x: nat, near: nat, far: nat)
    requires Represents(p, r) && a < |p| && b < |p| && x < |p|
    requires (near == a && far == b) || (near == b && far == a)
    requires Root(p, x) == Root(p, near)
    ensures Connected(r + {(a, b)}, x, Root(p, near)) && Connected(r + {(a, b)}, x, Root(p, far))
  {
    var s := r + {(a, b)};
    ComponentsOfMore(r, a, b, x, Root(p, x));
    SameRootIffConnected(p, r, x, near);
    ComponentsOfMore(r, a, b, x, near);
    LinkConnects(s, near, far);
    Transitive(s, x, near, far);
    ComponentsOfMore(r, a, b, far, Root(p, far));
    Transitive(s, x, far, Root(p, far));
  }

  // ---------------------------------------------------------------- the operations

  function Min(a: nat, b: nat): nat {
    if a < b then a else b
  }

  function Max(a: nat, b: nat): nat {
    if a < b then b else a
  }

  /** `find`: returns the root and halves the path to it; no element changes class. */
  method Find(parent: array<nat>, start: nat) returns (x: nat)
    requires Forest(parent[..]) && start < parent.Length
    modifies parent
    ensures Forest(parent[..]) && x == Root(old(parent[..]), start)
    ensures forall z :: 0 <= z < parent.Length ==> Root(parent[..], z) == Root(old(parent[..]), z)
  {
    x := start;
    while parent[x] != x
      invariant x < parent.Length && Forest(parent[..])
      invariant forall z :: 0 <= z < parent.Length ==> Root(parent[..], z) == Root(old(parent[..]), z)
      invariant Root(parent[..], x) == Root(old(parent[..]), start)
      decreases x
    {
      ghost var p := parent[..];
      forall z | 0 <= z < parent.Length
        ensures Forest(p[x := p[p[x]]]) && Root(p[x := p[p[x]]], z) == Root(p, z)
      {
        HalvingKeepsRoots(p, x, z);
      }
      parent[x] := parent[parent[x]];
      assert parent[..] == p[x := p[p[x]]];
      x := parent[x];
    }
  }

  /** `union`: the two classes become one, under the smaller of their roots. */
  method Union(parent: array<nat>, a: nat, b: nat)
    requires Forest(parent[..]) && a < parent.Length && b < parent.Length
    modifies parent
    ensures Forest(parent[..])
    ensures forall z :: 0 <= z < parent.Length ==>
      Root(parent[..], z) ==
      old(var p := parent[..];
          if Root(p, z) == Root(p, a) || Root(p, z) == Root(p, b)
          then Min(Root(p, a), Root(p, b)) else Root(p, z))
  {
    var ra := Find(parent, a);
    var rb := Find(parent, b);
    if ra != rb {
      ghost var p := parent[..];
      var lo, hi := Min(ra, rb), Max(ra, rb);
      assert p[ra] == ra && p[rb] == rb by {
        assert Root(p, a) == ra && Root(p, b) == rb;
      }
      forall z | 0 <= z < parent.Length
        ensures Forest(p[hi := lo]) && Root(p[hi := lo], z) == if Root(p, z) == hi then lo else Root(p, z)
      {
        LinkMovesClass(p, lo, hi, z);
      }
      parent[hi] := lo;
      assert parent[..] == p[hi := lo];
    }
  }

  /** One more pair is united. */
  method Unite(parent: array<nat>, a: nat, b: nat, ghost r: Pairs)
    requires Represents(parent[..], r) && a < parent.Length && b < parent.Length
    modifies parent
    ensures Represents(parent[..], r + {(a, b)})
  {
    ghost var p := parent[..];
    Union(parent, a, b);
    UnionRepresents(p, r, a, b, parent[..]);
  }

  method FindAll(parent: array<nat>) returns (roots: seq<nat>)
    requires Forest(parent[..])
    modifies parent
    ensures |roots| == parent.Length
    ensures forall x :: 0 <= x < |roots| ==> roots[x] == Root(old(parent[..]), x)
  {
    ghost var p := parent[..];
    roots := [];
    for i := 0 to parent.Length
      invariant Forest(parent[..])
      invariant forall z :: 0 <= z < parent.Length ==> Root(parent[..], z) == Root(p, z)
      invariant |roots| == i && forall x :: 0 <= x < i ==> roots[x] == Root(p, x)
    {
      var x := Find(parent, i);
      roots := roots + [x];
    }
  }

  ghost predicate AllLeast(r: Pairs, roots: seq<nat>) {
    forall x :: 0 <= x < |roots| ==> IsLeast(r, |roots|, x, roots[x]) && roots[x] < |roots|
  }

  lemma RootsAreLeast(p: seq<nat>, r: Pairs, roots: seq<nat>)
    requires Represents(p, r) && |roots| == |p|
    requires forall x :: 0 <= x < |roots| ==> roots[x] == Root(p, x)
    ensures AllLeast(r, roots)
  {
    forall x | 0 <= x < |roots|
      ensures IsLeast(r, |roots|, x, roots[x]) && roots[x] < |roots|
    {
      RootIsLeast(p, r, x);
    }
  }

  /** `[find(i) for i in range(n)]`: the least element of every component. */
  method Roots(parent: array<nat>, ghost r: Pairs) returns (roots: seq<nat>)
    requires Represents(parent[..], r)
    modifies parent
    ensures |roots| == parent.Length && AllLeast(r, roots)
  {
    ghost var p := parent[..];
    roots := FindAll(parent);
    RootsAreLeast(p, r, roots);
  }

  // ---------------------------------------------------------------- consecutive labels

  function Members(s: seq<nat>): set<nat> {
    set x | x in s
  }

  function Below(s: seq<nat>, bound: nat): set<nat> {
    set x | x in s && x < bound
  }

  ghost predicate Ascending(s: seq<nat>) {
    forall i, j :: 0 <= i < j < |s| ==> s[i] < s[j]
  }

  /** `sorted(set(roots))`, for values below the length of the list. */
  method SortedDistinct(roots: seq<nat>) returns (sorted: seq<nat>)
    requires forall i :: 0 <= i < |roots| ==> roots[i] < |roots|
    ensures Ascending(sorted) && Members(sorted) == Members(roots)
  {
    sorted := [];
    for x := 0 to |roots|
      invariant Ascending(sorted) && Members(sorted) == Below(roots, x)
    {
      assert Below(roots, x + 1) == Below(roots, x) + if x in roots then {x} else {};
      if x in roots {
        forall i | 0 <= i < |sorted|
          ensures sorted[i] < x
        {
          assert sorted[i] in Members(sorted);
          assert sorted[i] in Below(roots, x);
        }
        assert Members(sorted + [x]) == Members(sorted) + {x};
        sorted := sorted + [x];
      }
    }
  }

  /** A value's position in the ascending list is the number of smaller values. */
  lemma {:induction false} PositionCountsSmaller(s: seq<nat>, i: nat)
    requires Ascending(s) && i < |s|
    ensures |Below(s, s[i])| == i && |Members(s)| == |s|
  {
    AscendingSize(s);
    AscendingSize(s[..i]);
    assert Below(s, s[i]) == Members(s[..i]);
  }

  lemma {:induction false} AscendingSize(s: seq<nat>)
    requires Ascending(s)
    ensures |Members(s)| == |s|
  {
    if s != [] {
      var init, last := s[..|s| - 1], s[|s| - 1];
      AscendingSize(init);
      assert Members(s) == Members(init) + {last};
      assert last !in init;
    }
  }

  /** The labelling of a partition: `roots` holds each component's least element, and the label
      of an element is the number of components whose least element is smaller. */
  ghost predicate Labelling(r: Pairs, n: nat, roots: seq<nat>, labels: seq<nat>, k: nat) {
    && |roots| == |labels| == n && AllLeast(r, roots)
    && (forall x :: 0 <= x < n ==> labels[x] == |Below(roots, roots[x])|)
    && k == |Members(roots)|
  }

  method Relabel(roots: seq<nat>, ghost r: Pairs) returns (labels: seq<nat>, k: nat)
    requires AllLeast(r, roots)
    ensures Labelling(r, |roots|, roots, labels, k)
    ensures ComponentLabels(r, |roots|, labels, k)
  {
    var sorted := SortedDistinct(roots);
    var relabel: map<nat, nat> := map[];
    for i := 0 to |sorted|
      invariant forall x :: x in relabel <==> x in sorted[..i]
      invariant forall x :: x in relabel ==> relabel[x] == |Below(roots, x)|
    {
      PositionCountsSmaller(sorted, i);
      assert Below(sorted, sorted[i]) == Below(roots, sorted[i]) by {
        assert forall x :: x in sorted <==> x in Members(sorted);
        assert forall x :: x in roots <==> x in Members(roots);
      }
      relabel := relabel[sorted[i] := i];
    }
    labels := [];
    AscendingSize(sorted);
    k := |relabel|;
    assert relabel.Keys == Members(roots) by {
      assert sorted[..|sorted|] == sorted;
    }
    for x := 0 to |roots|
      invariant |labels| == x && forall y :: 0 <= y < x ==> labels[y] == |Below(roots, roots[y])|
    {
      assert roots[x] in Members(roots);
      labels := labels + [relabel[roots[x]]];
    }
    LabellingNumbersComponents(r, |roots|, roots, labels, k);
  }

  lemma ConnectedLeast(r: Pairs, n: nat, x: nat, y: nat, a: nat, b: nat)
    requires x < n && y < n && a < n && b < n && IsLeast(r, n, x, a) && IsLeast(r, n, y, b)
    ensures Connected(r, x, y) <==> a == b
  {
    if a == b {
      Symmetric(r, y, b);
      Transitive(r, x, a, y);
    }
    if Connected(r, x, y) {
      Transitive(r, x, y, b);
      Symmetric(r, x, y);
      Transitive(r, y, x, a);
    }
  }

  lemma SubsetSize<T>(s: set<T>, t: set<T>, x: T)
    requires s <= t && x in t && x !in s
    ensures |s| < |t|
  {
    var u := t - {x};
    assert s <= u;
    SubsetAtMost(s, u);
  }

  lemma {:induction false} SubsetAtMost<T>(s: set<T>, t: set<T>)
    requires s <= t
    ensures |s| <= |t|
  {
    if s != {} {
      var x :| x in s;
      SubsetAtMost(s - {x}, t - {x});
    }
  }

  lemma BelowOrders(roots: seq<nat>, a: nat, b: nat)
    requires a in roots && b in roots
    ensures |Below(roots, a)| < |Below(roots, b)| <==> a < b
    ensures |Below(roots, a)| < |Members(roots)|
  {
    SubsetSize(Below(roots, a), Members(roots), a);
    if a < b {
      SubsetSize(Below(roots, a), Below(roots, b), a);
    } else {
      SubsetAtMost(Below(roots, b), Below(roots, a));
    }
  }

  /** Same label exactly when connected; labels lie below `k` and are ordered by least element. */
  lemma LabelsAreComponents(r: Pairs, n: nat, roots: seq<nat>, labels: seq<nat>, k: nat, x: nat, y: nat)
    requires Labelling(r, n, roots, labels, k) && x < n && y < n
    ensures labels[x] == labels[y] <==> Connected(r, x, y)
    ensures labels[x] < labels[y] <==> roots[x] < roots[y]
    ensures labels[x] < k
  {
    ConnectedLeast(r, n, x, y, roots[x], roots[y]);
    BelowOrders(roots, roots[x], roots[y]);
    BelowOrders(roots, roots[y], roots[x]);
  }

  /** Every number below `k` is some element's label. */
  lemma LabelsAreConsecutive(r: Pairs, n: nat, roots: seq<nat>, labels: seq<nat>, k: nat, wanted: nat)
    requires Labelling(r, n, roots, labels, k) && wanted < k
    ensures wanted in labels
  {
    var a := NthSmallest(Members(roots), wanted);
    assert Below(roots, a) == Smaller(Members(roots), a);
    var x :| 0 <= x < n && roots[x] == a;
    assert labels[x] == wanted;
  }

  function Smaller(s: set<nat>, bound: nat): set<nat> {
    set x | x in s && x < bound
  }

  /** The member of a set that has exactly `m` members below it. */
  lemma {:induction false} NthSmallest(s: set<nat>, m: nat) returns (a: nat)
    requires m < |s|
    ensures a in s && |Smaller(s, a)| == m
  {
    var top := Greatest(s);
    var rest := s - {top};
    if m == |rest| {
      a := top;
      assert Smaller(s, a) == rest;
    } else {
      a := NthSmallest(rest, m);
      assert Smaller(s, a) == Smaller(rest, a);
    }
  }

  lemma {:induction false} Greatest(s: set<nat>) returns (top: nat)
    requires s != {}
    ensures top in s && forall x :: x in s ==> x <= top
  {
    var y :| y in s;
    if s == {y} {
      top := y;
    } else {
      var t := Greatest(s - {y});
      top := if t < y then y else t;
      assert forall x :: x in s ==> x == y || x in s - {y};
    }
  }

  /** The labels 0 up to `k` number the components of `r` in the order of their first elements:
      before any element, every smaller label has been used. */
  ghost predicate ComponentLabels(r: Pairs, n: nat, labels: seq<nat>, k: nat) {
    && |labels| == n
    && (forall x, y :: 0 <= x < n && 0 <= y < n ==> SameLabelIffConnected(r, labels, x, y))
    && (forall x :: 0 <= x < n ==> labels[x] < k && SmallerUsedBefore(labels, x))
    && (k > 0 ==> k - 1 in labels)
  }

  ghost predicate SameLabelIffConnected(r: Pairs, labels: seq<nat>, x: nat, y: nat)
    requires x < |labels| && y < |labels|
  {
    labels[x] == labels[y] <==> Connected(r, x, y)
  }

  predicate SmallerUsedBefore(labels: seq<nat>, x: nat)
    requires x < |labels|
  {
    forall w: nat :: w < labels[x] ==> w in labels[..x]
  }

  lemma LabellingNumbersComponents(r: Pairs, n: nat, roots: seq<nat>, labels: seq<nat>, k: nat)
    requires Labelling(r, n, roots, labels, k)
    ensures ComponentLabels(r, n, labels, k)
  {
    forall x, y | 0 <= x < n && 0 <= y < n
      ensures SameLabelIffConnected(r, labels, x, y)
    {
      LabelsAreComponents(r, n, roots, labels, k, x, y);
    }
    forall x | 0 <= x < n
      ensures labels[x] < k && SmallerUsedBefore(labels, x)
    {
      EarlierLabels(r, n, roots, labels, k, x);
    }
    if k > 0 {
      LabelsAreConsecutive(r, n, roots, labels, k, k - 1);
    }
  }

  lemma EarlierLabels(r: Pairs, n: nat, roots: seq<nat>, labels: seq<nat>, k: nat, x: nat)
    requires Labelling(r, n, roots, labels, k) && x < n
    ensures labels[x] < k && SmallerUsedBefore(labels, x)
  {
    LabelsAreComponents(r, n, roots, labels, k, x, x);
    forall w: nat | w < labels[x]
      ensures w in labels[..x]
    {
      SmallerLabelBefore(r, n, roots, labels, k, x, w);
    }
  }

  /** A smaller label's component has its least element before `x`. */
  lemma SmallerLabelBefore(r: Pairs, n: nat, roots: seq<nat>, labels: seq<nat>, k: nat, x: nat, w: nat)
    requires Labelling(r, n, roots, labels, k) && x < n && w < labels[x]
    ensures w in labels[..x]
  {
    LabelsAreComponents(r, n, roots, labels, k, x, x);
    LabelsAreConsecutive(r, n, roots, labels, k, w);
    var y :| 0 <= y < n && labels[y] == w;
    LabelsAreComponents(r, n, roots, labels, k, y, x);
    assert IsLeast(r, n, y, roots[y]) && IsLeast(r, n, x, roots[x]);
    LinkConnects(r, x, x);
    LabelsAreComponents(r, n, roots, labels, k, y, roots[y]);
    assert labels[..x][roots[y]] == w;
  }

  /** The numbering depends only on which elements are connected: neither on the pairs that
      were united nor on their order. */
  lemma LabelsAreUnique(r: Pairs, s: Pairs, n: nat, labels: seq<nat>, k: nat, labels': seq<nat>, k': nat)
    requires ComponentLabels(r, n, labels, k) && ComponentLabels(s, n, labels', k')
    requires forall x, y :: 0 <= x < n && 0 <= y < n ==> (Connected(r, x, y) <==> Connected(s, x, y))
    ensures labels == labels' && k == k'
  {
    SameUpTo(r, s, n, labels, k, labels', k', n);
    assert labels == labels[..n] == labels'[..n] == labels';
    if k > 0 {
      var x :| 0 <= x < n && labels[x] == k - 1;
      assert labels'[x] < k';
    }
    if k' > 0 {
      var x :| 0 <= x < n && labels'[x] == k' - 1;
      assert labels[x] < k;
    }
  }

  lemma {:induction false} SameUpTo(r: Pairs, s: Pairs, n: nat, labels: seq<nat>, k: nat, labels': seq<nat>, k': nat,
                                    m: nat)
    requires ComponentLabels(r, n, labels, k) && ComponentLabels(s, n, labels', k') && m <= n
    requires forall x, y :: 0 <= x < n && 0 <= y < n ==> (Connected(r, x, y) <==> Connected(s, x, y))
    ensures labels[..m] == labels'[..m]
  {
    if m > 0 {
      var x := m - 1;
      SameUpTo(r, s, n, labels, k, labels', k', x);
      forall y | 0 <= y < x
        ensures labels[y] == labels'[y]
        ensures labels[y] == labels[x] <==> labels'[y] == labels'[x]
      {
        assert labels[..x][y] == labels'[..x][y];
        assert SameLabelIffConnected(r, labels, y, x) && SameLabelIffConnected(s, labels', y, x);
      }
      NotSmaller(labels, labels', x);
      NotSmaller(labels', labels, x);
      assert labels[..m] == labels[..x] + [labels[x]];
      assert labels'[..m] == labels'[..x] + [labels'[x]];
    }
  }

  /** A label that has not been used is the least unused one; one that has been used is decided by
      the earlier element. */
  lemma NotSmaller(labels: seq<nat>, labels': seq<nat>, x: nat)
    requires x < |labels| == |labels'| && labels[..x] == labels'[..x]
    requires SmallerUsedBefore(labels, x) && SmallerUsedBefore(labels', x)
    requires forall y :: 0 <= y < x ==> (labels[y] == labels[x] <==> labels'[y] == labels'[x])
    ensures labels[x] <= labels'[x]
  {
    if labels'[x] in labels[..x] {
      var y :| 0 <= y < x && labels[..x][y] == labels'[x];
      assert labels'[..x][y] == labels'[x];
    }
  }
}
