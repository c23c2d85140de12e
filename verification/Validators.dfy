/** The dictionary-based mesh checks of the examples. */
module Validators {
  import opened Chains

  /** The dictionary holds exactly the keys of `s`, each with its number of occurrences. */
  ghost predicate Tally(m: map<Edge, nat>, s: seq<Edge>) {
    && (forall e :: e in m <==> e in s)
    && (forall e :: e in m ==> m[e] == multiset(s)[e])
  }

  /** The keys of the first `k` sides of face `f`, after all sides of the faces before it. */
  function KeysUpTo(faces: seq<Face>, f: nat, k: nat): seq<Edge>
    requires f < |faces| && k <= |faces[f]|
  {
    Keys(Edges(faces[..f]) + Loop(faces[f])[..k])
  }

  lemma KeysUpToStep(faces: seq<Face>, f: nat, k: nat)
    requires f < |faces|
    ensures k < |faces[f]| ==>
      KeysUpTo(faces, f, k + 1) == KeysUpTo(faces, f, k) + [Key(Side(faces[f], k))]
    ensures KeysUpTo(faces, f, 0) == Keys(Edges(faces[..f]))
    ensures KeysUpTo(faces, f, |faces[f]|) == Keys(Edges(faces[..f + 1]))
  {
    assert faces[..f + 1][..f] == faces[..f];
    if k < |faces[f]| {
      assert Loop(faces[f])[..k + 1] == Loop(faces[f])[..k] + [Side(faces[f], k)];
    }
  }

  /** Adds one face's sides to the dictionary. */
  method AddFace(faces: seq<Face>, f: nat, before: map<Edge, nat>) returns (counts: map<Edge, nat>)
    requires f < |faces| && Tally(before, Keys(Edges(faces[..f])))
    ensures Tally(counts, Keys(Edges(faces[..f + 1])))
  {
    var face := faces[f];
    counts := before;
    KeysUpToStep(faces, f, 0);
    for k := 0 to |face|
      invariant Tally(counts, KeysUpTo(faces, f, k))
    {
      var a, b := face[k], face[(k + 1) % |face|];
      var key := (if a <= b then a else b, if a <= b then b else a);
      KeysUpToStep(faces, f, k);
      counts := counts[key := (if key in counts then counts[key] else 0) + 1];
    }
    KeysUpToStep(faces, f, |face|);
  }

  method CountWhere(counts: map<Edge, nat>, wanted: nat -> bool) returns (n: nat)
    ensures n == |set e | e in counts && wanted(counts[e])|
  {
    n := 0;
    var todo := counts.Keys;
    while todo != {}
      invariant todo <= counts.Keys
      invariant n == |set e | e in counts && e !in todo && wanted(counts[e])|
      decreases todo
    {
      var e :| e in todo;
      ghost var done := set d | d in counts && d !in todo && wanted(counts[d]);
      todo := todo - {e};
      ghost var done' := set d | d in counts && d !in todo && wanted(counts[d]);
      if wanted(counts[e]) {
        assert done' == done + {e};
        n := n + 1;
      } else {
        assert done' == done;
      }
    }
    assert (set e | e in counts && e !in todo && wanted(counts[e])) ==
           (set e | e in counts && wanted(counts[e]));
  }

  predicate OverTwo(count: nat) {
    count > 2
  }

  predicate JustOne(count: nat) {
    count == 1
  }

  /** The edges whose number of corners satisfies `wanted`. */
  ghost function EdgesWith(faces: seq<Face>, wanted: nat -> bool): set<Edge> {
    set e | e in EdgeSet(faces) && wanted(KeyCount(faces, e))
  }

  lemma TallySelects(faces: seq<Face>, counts: map<Edge, nat>, wanted: nat -> bool)
    requires Tally(counts, Keys(Edges(faces[..|faces|])))
    ensures (set e | e in counts && wanted(counts[e])) == EdgesWith(faces, wanted)
  {
    assert faces[..|faces|] == faces;
  }

  /** The faces whose vertex set is smaller than their vertex list. */
  function Repeating(faces: seq<Face>): set<nat> {
    set f: nat | f < |faces| && |VertexSet(faces[f])| != |faces[f]|
  }

  lemma RepeatingStep(faces: seq<Face>, f: nat)
    requires f < |faces|
    ensures |Repeating(faces[..f + 1])| ==
            |Repeating(faces[..f])| + if |VertexSet(faces[f])| != |faces[f]| then 1 else 0
  {
    assert Repeating(faces[..f + 1]) ==
           Repeating(faces[..f]) + if |VertexSet(faces[f])| != |faces[f]| then {f} else {};
  }

  function VertexSet(f: Face): set<int> {
    set v | v in f
  }

  /** `len(set(f)) != len(f)` is what it means for a face to repeat a vertex. */
  lemma {:induction false} SetSizeTellsRepeats(f: Face)
    ensures |VertexSet(f)| <= |f|
    ensures |VertexSet(f)| == |f| <==> Distinct(f)
  {
    if f != [] {
      var init, last := f[..|f| - 1], f[|f| - 1];
      SetSizeTellsRepeats(init);
      assert VertexSet(f) == VertexSet(init) + {last};
      if last in init {
        var i :| 0 <= i < |init| && init[i] == last;
        assert f[i] == f[|f| - 1];
      } else {
        assert Distinct(f) <==> Distinct(init);
      }
    }
  }

  method MeshValidity(faces: seq<Face>, closedInput: bool)
      returns (nonmanifold: nat, boundary: nat, degenerate: nat)
    ensures nonmanifold == |EdgesWith(faces, OverTwo)|
    ensures boundary == if closedInput then |EdgesWith(faces, JustOne)| else 0
    ensures degenerate == |Repeating(faces)|
  {
    var counts: map<Edge, nat> := map[];
    degenerate := 0;
    for f := 0 to |faces|
      invariant Tally(counts, Keys(Edges(faces[..f])))
      invariant degenerate == |Repeating(faces[..f])|
    {
      RepeatingStep(faces, f);
      if |VertexSet(faces[f])| != |faces[f]| {
        degenerate := degenerate + 1;
      }
      counts := AddFace(faces, f, counts);
    }
    assert faces[..|faces|] == faces;
    TallySelects(faces, counts, OverTwo);
    TallySelects(faces, counts, JustOne);
    nonmanifold := CountWhere(counts, OverTwo);
    boundary := CountWhere(counts, JustOne);
    boundary := if closedInput then boundary else 0;
  }

  method OpenEdges(faces: seq<Face>) returns (open: nat)
    ensures open == |EdgesWith(faces, JustOne)|
  {
    var counts: map<Edge, nat> := map[];
    for f := 0 to |faces|
      invariant Tally(counts, Keys(Edges(faces[..f])))
    {
      counts := AddFace(faces, f, counts);
    }
    TallySelects(faces, counts, JustOne);
    open := CountWhere(counts, JustOne);
  }

  /** A proper two-sided mesh is what the checks call clean. */
  lemma TwoSidedIsClean(faces: seq<Face>)
    requires Proper(faces) && TwoSided(faces)
    ensures EdgesWith(faces, OverTwo) == {} && EdgesWith(faces, JustOne) == {}
    ensures Repeating(faces) == {}
  {
    forall f: nat | f < |faces|
      ensures |VertexSet(faces[f])| == |faces[f]|
    {
      SetSizeTellsRepeats(faces[f]);
    }
  }

  /** Conversely, on faces that join different vertices the three zeros mean exactly two corners
      on every edge: the check misses nothing. */
  lemma CleanIsTwoSided(faces: seq<Face>)
    requires forall f :: 0 <= f < |faces| ==> |faces[f]| >= 2
    requires EdgesWith(faces, OverTwo) == {} && EdgesWith(faces, JustOne) == {}
    requires Repeating(faces) == {}
    ensures Proper(faces) && TwoSided(faces)
  {
    forall f | 0 <= f < |faces|
      ensures Distinct(faces[f])
    {
      SetSizeTellsRepeats(faces[f]);
      assert f !in Repeating(faces);
    }
    forall e | e in EdgeSet(faces)
      ensures e.0 < e.1 && KeyCount(faces, e) == 2
    {
      var i :| 0 <= i < |Edges(faces)| && Key(Edges(faces)[i]) == e;
      SidesAreProper(faces, Edges(faces)[i]);
      assert Keys(Edges(faces))[i] == e;
      assert e !in EdgesWith(faces, OverTwo) && e !in EdgesWith(faces, JustOne);
    }
  }
}
