/** `save_obj` and `load_obj` of the bridge client, character by character. */
module ObjText {
  import opened Options
  import opened TextSplit

  /** Flat coordinates, and faces of 0-based vertex indices. */
  datatype Mesh<F> = Mesh(positions: seq<F>, faces: seq<seq<int>>)

  /** What one line of the file means to the loader; `Fail` is a ValueError. */
  datatype Item<F> = Vertex(x: F, y: F, z: F) | Polygon(face: seq<int>) | Skip | Fail

  /** `str` and `float` on coordinates. */
  datatype FloatText<!F> = FloatText(show: F -> string, read: string -> Option<F>)

  /** Printing gives a text without white space that reads back as the same number. */
  ghost predicate Faithful<F(!new)>(t: FloatText<F>) {
    forall x: F :: t.read(t.show(x)) == Some(x) && IsWord(t.show(x))
  }

  // ---------------------------------------------------------------- meshes as items

  function VertexItems<F>(p: seq<F>, i: nat): seq<Item<F>>
    requires i <= |p| && i % 3 == 0
  {
    if i == 0 then [] else VertexItems(p, i - 3) + [Vertex(p[i - 3], p[i - 2], p[i - 1])]
  }

  /** The items `before` the faces, then the first `k` faces. */
  function FaceItems<F>(before: seq<Item<F>>, faces: seq<seq<int>>, k: nat): seq<Item<F>>
    requires k <= |faces|
  {
    if k == 0 then before else FaceItems(before, faces, k - 1) + [Polygon(faces[k - 1])]
  }

  function MeshItems<F>(mesh: Mesh<F>): seq<Item<F>>
    requires |mesh.positions| % 3 == 0
  {
    FaceItems(VertexItems(mesh.positions, |mesh.positions|), mesh.faces, |mesh.faces|)
  }

  /** The mesh after one more item. */
  function AddItem<F>(mesh: Mesh<F>, item: Item<F>): Option<Mesh<F>> {
    match item
    case Vertex(x, y, z) => Some(mesh.(positions := mesh.positions + [x, y, z]))
    case Polygon(face) => Some(mesh.(faces := mesh.faces + [face]))
    case Skip => Some(mesh)
    case Fail => None
  }

  function Build<F>(items: seq<Item<F>>): Option<Mesh<F>> {
    if items == [] then Some(Mesh([], []))
    else
      var before := Build(items[..|items| - 1]);
      if before.None? then None else AddItem(before.value, items[|items| - 1])
  }

  lemma BuildSnoc<F>(items: seq<Item<F>>, item: Item<F>)
    ensures Build(items + [item]) ==
            if Build(items).None? then None else AddItem(Build(items).value, item)
  {
    assert (items + [item])[..|items|] == items;
  }

  lemma ThreeMore<F>(p: seq<F>, i: nat)
    requires i + 3 <= |p|
    ensures p[..i + 3] == p[..i] + [p[i], p[i + 1], p[i + 2]]
  {
  }

  lemma {:induction false} BuildVertices<F>(p: seq<F>, i: nat)
    requires i <= |p| && i % 3 == 0
    ensures Build(VertexItems(p, i)) == Some(Mesh(p[..i], []))
  {
    if i > 0 {
      BuildVertices(p, i - 3);
      BuildSnoc(VertexItems(p, i - 3), Vertex(p[i - 3], p[i - 2], p[i - 1]));
      ThreeMore(p, i - 3);
    }
  }

  /** Adding the first `k` faces one by one. */
  function AddFaces<S>(add: (S, seq<int>) -> S, start: S, faces: seq<seq<int>>, k: nat): S
    requires k <= |faces|
  {
    if k == 0 then start else add(AddFaces(add, start, faces, k - 1), faces[k - 1])
  }

  /** What grows with each face item grows with each face. */
  lemma {:induction false} AlongFaces<F, S>(f: seq<Item<F>> -> S, add: (S, seq<int>) -> S,
                                           before: seq<Item<F>>, faces: seq<seq<int>>, k: nat)
    requires k <= |faces| && forall items, face :: f(items + [Polygon(face)]) == add(f(items), face)
    ensures f(FaceItems(before, faces, k)) == AddFaces(add, f(before), faces, k)
  {
    if k > 0 {
      AlongFaces(f, add, before, faces, k - 1);
    }
  }

  function AddFace<F>(mesh: Option<Mesh<F>>, face: seq<int>): Option<Mesh<F>> {
    if mesh.None? then None else AddItem(mesh.value, Polygon(face))
  }

  lemma {:induction false} FacesAdded<F>(positions: seq<F>, faces: seq<seq<int>>, k: nat)
    requires k <= |faces|
    ensures AddFaces(AddFace, Some(Mesh(positions, [])), faces, k) == Some(Mesh(positions, faces[..k]))
  {
    if k > 0 {
      FacesAdded(positions, faces, k - 1);
      assert faces[..k] == faces[..k - 1] + [faces[k - 1]];
    }
  }

  lemma BuildFaces<F>(before: seq<Item<F>>, positions: seq<F>, faces: seq<seq<int>>)
    requires Build(before) == Some(Mesh(positions, []))
    ensures Build(FaceItems(before, faces, |faces|)) == Some(Mesh(positions, faces))
  {
    var build := (items: seq<Item<F>>) => Build(items);
    forall items: seq<Item<F>>, face
      ensures build(items + [Polygon(face)]) == AddFace(build(items), face)
    {
      BuildSnoc(items, Polygon(face));
    }
    AlongFaces(build, AddFace, before, faces, |faces|);
    FacesAdded(positions, faces, |faces|);
    assert faces[..|faces|] == faces;
  }

  lemma BuildMesh<F>(mesh: Mesh<F>)
    requires |mesh.positions| % 3 == 0
    ensures Build(MeshItems(mesh)) == Some(mesh)
  {
    var n := |mesh.positions|;
    BuildVertices(mesh.positions, n);
    assert mesh.positions[..n] == mesh.positions;
    BuildFaces(VertexItems(mesh.positions, n), mesh.positions, mesh.faces);
  }

  // ---------------------------------------------------------------- writing

  function IndexTexts(face: seq<int>): (r: seq<string>)
    ensures |r| == |face| && forall i :: 0 <= i < |face| ==> r[i] == PrintInt(face[i] + 1)
  {
    seq(|face|, i requires 0 <= i < |face| => PrintInt(face[i] + 1))
  }

  predicate IsWritten<F>(item: Item<F>) {
    item.Vertex? || item.Polygon?
  }

  function VertexLine<F>(t: FloatText<F>, x: F, y: F, z: F): string {
    "v " + t.show(x) + " " + t.show(y) + " " + t.show(z)
  }

  function FaceLine(face: seq<int>): string {
    "f " + Join(IndexTexts(face), ' ')
  }

  /** The line of a written item; there is none for the others. */
  function ItemLine<F>(t: FloatText<F>, item: Item<F>): string {
    match item
    case Vertex(x, y, z) => VertexLine(t, x, y, z)
    case Polygon(face) => FaceLine(face)
    case _ => ""
  }

  predicate AllWritten<F>(items: seq<Item<F>>) {
    forall i :: 0 <= i < |items| ==> IsWritten(items[i])
  }

  function ItemLines<F>(t: FloatText<F>, items: seq<Item<F>>): (r: seq<string>)
    ensures |r| == |items| && forall i :: 0 <= i < |r| ==> r[i] == ItemLine(t, items[i])
  {
    seq(|items|, i requires 0 <= i < |items| => ItemLine(t, items[i]))
  }

  /** Each line with its newline. */
  function Terminated(lines: seq<string>): string {
    if lines == [] then "" else Terminated(lines[..|lines| - 1]) + (lines[|lines| - 1] + "\n")
  }

  function TextOf<F>(t: FloatText<F>, items: seq<Item<F>>): string {
    Terminated(ItemLines(t, items))
  }

  lemma TextOfSnoc<F>(t: FloatText<F>, items: seq<Item<F>>, item: Item<F>)
    ensures TextOf(t, items + [item]) == TextOf(t, items) + (ItemLine(t, item) + "\n")
  {
    assert ItemLines(t, items + [item]) == ItemLines(t, items) + [ItemLine(t, item)];
    assert ItemLines(t, items + [item])[..|items|] == ItemLines(t, items);
  }

  lemma {:induction false} VerticesAreWritten<F>(p: seq<F>, i: nat)
    requires i <= |p| && i % 3 == 0
    ensures AllWritten(VertexItems(p, i))
  {
    if i > 0 {
      VerticesAreWritten(p, i - 3);
    }
  }

  lemma {:induction false} FacesAreWritten<F>(before: seq<Item<F>>, faces: seq<seq<int>>, k: nat)
    requires AllWritten(before) && k <= |faces|
    ensures AllWritten(FaceItems(before, faces, k))
  {
    if k > 0 {
      FacesAreWritten(before, faces, k - 1);
    }
  }

  function SaveText<F>(t: FloatText<F>, mesh: Mesh<F>): string
    requires |mesh.positions| % 3 == 0
  {
    TextOf(t, MeshItems(mesh))
  }

  method JoinIndices(face: seq<int>) returns (text: string)
    ensures text == Join(IndexTexts(face), ' ')
  {
    text := "";
    var i := |face|;
    ghost var all := IndexTexts(face);
    while i > 0
      invariant 0 <= i <= |face| && text == Join(all[i..], ' ')
    {
      i := i - 1;
      assert all[i..][1..] == all[i + 1..];
      text := if i == |face| - 1 then PrintInt(face[i] + 1) else PrintInt(face[i] + 1) + " " + text;
    }
    assert all[0..] == all;
  }

  /** What the loop over the positions has written before position `i`. */
  function VertexText<F>(t: FloatText<F>, p: seq<F>, i: nat): string
    requires i <= |p| && i % 3 == 0
  {
    if i == 0 then "" else VertexText(t, p, i - 3) + (VertexLine(t, p[i - 3], p[i - 2], p[i - 1]) + "\n")
  }

  function AddFaceLine(text: string, face: seq<int>): string {
    text + (FaceLine(face) + "\n")
  }

  lemma {:induction false} VertexTextIs<F>(t: FloatText<F>, p: seq<F>, i: nat)
    requires i <= |p| && i % 3 == 0
    ensures VertexText(t, p, i) == TextOf(t, VertexItems(p, i))
  {
    if i > 0 {
      VertexTextIs(t, p, i - 3);
      TextOfSnoc(t, VertexItems(p, i - 3), Vertex(p[i - 3], p[i - 2], p[i - 1]));
    }
  }

  lemma FaceTextIs<F>(t: FloatText<F>, vertices: seq<Item<F>>, faces: seq<seq<int>>)
    ensures AddFaces(AddFaceLine, TextOf(t, vertices), faces, |faces|) ==
            TextOf(t, FaceItems(vertices, faces, |faces|))
  {
    var textOf := (items: seq<Item<F>>) => TextOf(t, items);
    forall items: seq<Item<F>>, face
      ensures textOf(items + [Polygon(face)]) == AddFaceLine(textOf(items), face)
    {
      TextOfSnoc(t, items, Polygon(face));
    }
    AlongFaces(textOf, AddFaceLine, vertices, faces, |faces|);
  }

  method WriteVertices<F>(t: FloatText<F>, p: seq<F>) returns (text: string)
    requires |p| % 3 == 0
    ensures text == VertexText(t, p, |p|)
  {
    text := "";
    var i := 0;
    while i < |p|
      invariant 0 <= i <= |p| && i % 3 == 0
      invariant text == VertexText(t, p, i)
    {
      text := text + (VertexLine(t, p[i], p[i + 1], p[i + 2]) + "\n");
      i := i + 3;
    }
  }

  method WriteFaces(before: string, faces: seq<seq<int>>) returns (text: string)
    ensures text == AddFaces(AddFaceLine, before, faces, |faces|)
  {
    text := before;
    for k := 0 to |faces|
      invariant text == AddFaces(AddFaceLine, before, faces, k)
    {
      var indices := JoinIndices(faces[k]);
      text := text + ("f " + indices + "\n");
    }
  }

  /** A position list whose length is not a multiple of three raises IndexError. */
  method SaveObj<F>(t: FloatText<F>, mesh: Mesh<F>) returns (text: string)
    requires |mesh.positions| % 3 == 0
    ensures text == SaveText(t, mesh)
  {
    text := WriteVertices(t, mesh.positions);
    text := WriteFaces(text, mesh.faces);
    VertexTextIs(t, mesh.positions, |mesh.positions|);
    FaceTextIs(t, VertexItems(mesh.positions, |mesh.positions|), mesh.faces);
  }

  // ---------------------------------------------------------------- reading

  predicate IsBreak(c: char) {
    c == '\n' || c == '\r'
  }

  predicate IsSlash(c: char) {
    c == '/'
  }

  /** `int(p.split("/")[0])`. */
  function ParseIndex(part: string): Option<int> {
    ParseInt(Fields(part, IsSlash)[0])
  }

  /** `[int(p.split("/")[0]) - 1 for p in parts]`; None is the ValueError. */
  function ParseFace(parts: seq<string>): Option<seq<int>> {
    ParseEach(parts, |parts|, ParseIndex)
  }

  /** The first `k` parts as 0-based indices. */
  function ParseEach(parts: seq<string>, k: nat, parse: string -> Option<int>): Option<seq<int>>
    requires k <= |parts|
  {
    if k == 0 then Some([])
    else
      var init, index := ParseEach(parts, k - 1, parse), parse(parts[k - 1]);
      if init.None? || index.None? then None else Some(init.value + [index.value - 1])
  }

  function ParseLine<F>(t: FloatText<F>, line: string): Item<F> {
    var parts := Words(line);
    if parts == [] then Skip
    else if parts[0] == "v" && |parts| >= 4 then
      var x, y, z := t.read(parts[1]), t.read(parts[2]), t.read(parts[3]);
      if x.None? || y.None? || z.None? then Fail else Vertex(x.value, y.value, z.value)
    else if parts[0] == "f" then
      var face := ParseFace(parts[1..]);
      if face.None? then Fail else Polygon(face.value)
    else Skip
  }

  function ParseLines<F>(t: FloatText<F>, lines: seq<string>): (r: seq<Item<F>>)
    ensures |r| == |lines| && forall i :: 0 <= i < |r| ==> r[i] == ParseLine(t, lines[i])
  {
    seq(|lines|, i requires 0 <= i < |lines| => ParseLine(t, lines[i]))
  }

  function LoadText<F>(t: FloatText<F>, text: string): Option<Mesh<F>> {
    Build(ParseLines(t, Fields(text, IsBreak)))
  }

  lemma {:induction false} BuildFails<F>(items: seq<Item<F>>, k: nat)
    requires k <= |items| && Build(items[..k]).None?
    ensures Build(items).None?
    decreases |items|
  {
    if k < |items| {
      assert items[..|items| - 1][..k] == items[..k];
      BuildFails(items[..|items| - 1], k);
    } else {
      assert items[..k] == items;
    }
  }

  lemma BuildNext<F>(items: seq<Item<F>>, n: nat)
    requires n < |items| && Build(items[..n]).Some?
    ensures Build(items[..n + 1]) == AddItem(Build(items[..n]).value, items[n])
  {
    assert items[..n + 1] == items[..n] + [items[n]];
    BuildSnoc(items[..n], items[n]);
  }

  method LoadObj<F>(t: FloatText<F>, text: string) returns (mesh: Option<Mesh<F>>)
    ensures mesh == LoadText(t, text)
  {
    var lines := Fields(text, IsBreak);
    ghost var items := ParseLines(t, lines);
    var positions: seq<F>, faces: seq<seq<int>> := [], [];
    for n := 0 to |lines|
      invariant Build(items[..n]) == Some(Mesh(positions, faces))
    {
      var item := ParseLine(t, lines[n]);
      BuildNext(items, n);
      match item
      case Vertex(x, y, z) =>
        positions := positions + [x, y, z];
      case Polygon(face) =>
        faces := faces + [face];
      case Skip =>
      case Fail =>
        BuildFails(items, n + 1);
        return None;
    }
    assert items[..|lines|] == items;
    mesh := Some(Mesh(positions, faces));
  }

  // ---------------------------------------------------------------- the round trip

  /** Extending the last of the joined texts by one more. */
  lemma {:induction false} JoinLast(init: seq<string>, a: string, b: string, c: char)
    ensures Join(init + [a, b], c) == Join(init + [""], c) + a + [c] + b
  {
    if init == [] {
      assert [a, b][1..] == [b];
      assert init + [a, b] == [a, b] && init + [""] == [""];
    } else {
      JoinLast(init[1..], a, b, c);
      assert (init + [a, b])[1..] == init[1..] + [a, b];
      assert (init + [""])[1..] == init[1..] + [""];
    }
  }

  lemma WordHasNoBreak(s: string)
    requires Free(s, IsSpace)
    ensures Free(s, IsBreak)
  {
  }

  lemma VertexLineWords<F(!new)>(t: FloatText<F>, x: F, y: F, z: F)
    requires Faithful(t)
    ensures Words(VertexLine(t, x, y, z)) == ["v", t.show(x), t.show(y), t.show(z)]
    ensures Free(VertexLine(t, x, y, z), IsBreak)
  {
    var a, b, c := t.show(x), t.show(y), t.show(z);
    FourJoined("v", a, b, c);
    assert "v" + " " == "v ";
    WordsOfJoin(["v", a, b, c]);
    WordHasNoBreak(a);
    WordHasNoBreak(b);
    WordHasNoBreak(c);
  }

  lemma FourJoined(a: string, b: string, c: string, d: string)
    ensures Join([a, b, c, d], ' ') == a + " " + b + " " + c + " " + d
  {
    var l := [a, b, c, d];
    assert l[1..] == [b, c, d] && l[1..][1..] == [c, d] && l[1..][1..][1..] == [d];
    assert Join([c, d], ' ') == c + " " + d by { assert [c, d][1..] == [d]; }
    assert Join([b, c, d], ' ') == b + " " + (c + " " + d) by { assert [b, c, d][1..] == [c, d]; }
    assert Join(l, ' ') == a + " " + (b + " " + (c + " " + d));
    assert a + " " + (b + " " + (c + " " + d)) == a + " " + b + " " + c + " " + d;
  }

  lemma {:induction false} JoinHasNoBreak(tokens: seq<string>)
    requires forall i :: 0 <= i < |tokens| ==> Free(tokens[i], IsBreak)
    ensures Free(Join(tokens, ' '), IsBreak)
  {
    if |tokens| > 1 {
      JoinHasNoBreak(tokens[1..]);
    }
  }

  lemma FaceLineWords(face: seq<int>)
    ensures Words(FaceLine(face)) == ["f"] + IndexTexts(face)
    ensures Free(FaceLine(face), IsBreak)
  {
    IndexTextsAreWords(face);
    JoinHasNoBreak(IndexTexts(face));
    if face == [] {
      EmptyFaceWords();
      assert FaceLine(face) == "f " && ["f"] + IndexTexts(face) == ["f"];
    } else {
      FirstWord("f", IndexTexts(face));
      assert "f" + [' '] == "f ";
    }
  }

  lemma IndexTextsAreWords(face: seq<int>)
    ensures forall i :: 0 <= i < |face| ==> IsWord(IndexTexts(face)[i]) && Free(IndexTexts(face)[i], IsBreak)
  {
    forall i | 0 <= i < |face|
      ensures IsWord(IndexTexts(face)[i]) && Free(IndexTexts(face)[i], IsBreak)
    {
      IntIsWord(face[i] + 1);
      WordHasNoBreak(IndexTexts(face)[i]);
    }
  }

  lemma FirstWord(first: string, tokens: seq<string>)
    requires IsWord(first) && tokens != [] && forall i :: 0 <= i < |tokens| ==> IsWord(tokens[i])
    ensures Words(first + [' '] + Join(tokens, ' ')) == [first] + tokens
  {
    var all := [first] + tokens;
    forall i | 0 <= i < |all|
      ensures IsWord(all[i])
    {
      if i > 0 {
        assert all[i] == tokens[i - 1];
      }
    }
    JoinCons(first, tokens, ' ');
    WordsOfJoin(all);
  }

  /** An empty face is the line "f " and still one word. */
  lemma EmptyFaceWords()
    ensures Words("f ") == ["f"]
  {
    FieldsStep("f", ' ', "", IsSpace);
    FieldsOfOne("", IsSpace);
    assert "f" + [' '] + "" == "f ";
    assert ["f"] + [""] == ["f", ""];
    assert ["f", ""][1..] == [""] && [""][1..] == [];
  }

  lemma IndexParsesBack(v: int)
    ensures ParseIndex(PrintInt(v + 1)) == Some(v + 1)
  {
    IntChars(v + 1);
    FieldsOfOne(PrintInt(v + 1), IsSlash);
    IntPrintsBack(v + 1);
  }

  predicate AreIndices(parts: seq<string>, face: seq<int>, parse: string -> Option<int>) {
    |parts| == |face| && forall i :: 0 <= i < |parts| ==> parse(parts[i]) == Some(face[i] + 1)
  }

  lemma {:induction false} PartsParse(parts: seq<string>, face: seq<int>, k: nat, parse: string -> Option<int>)
    requires AreIndices(parts, face, parse) && k <= |parts|
    ensures ParseEach(parts, k, parse) == Some(face[..k])
  {
    if k > 0 {
      PartsParse(parts, face, k - 1, parse);
      PrefixGrows(face, k - 1);
    }
  }

  lemma PrefixGrows<T>(s: seq<T>, k: nat)
    requires k < |s|
    ensures s[..k + 1] == s[..k] + [s[k]]
  {
  }

  lemma WholeFaceParses(parts: seq<string>, face: seq<int>)
    requires AreIndices(parts, face, ParseIndex)
    ensures ParseFace(parts) == Some(face)
  {
    PartsParse(parts, face, |parts|, ParseIndex);
    assert face[..|face|] == face;
  }

  lemma FaceParsesBack(face: seq<int>)
    ensures ParseFace(IndexTexts(face)) == Some(face)
  {
    forall i | 0 <= i < |face|
      ensures ParseIndex(IndexTexts(face)[i]) == Some(face[i] + 1)
    {
      IndexParsesBack(face[i]);
    }
    WholeFaceParses(IndexTexts(face), face);
  }

  /** A written line says what it was written from, and is one line. */
  lemma LineParsesBack<F(!new)>(t: FloatText<F>, item: Item<F>)
    requires Faithful(t) && IsWritten(item)
    ensures ParseLine(t, ItemLine(t, item)) == item && Free(ItemLine(t, item), IsBreak)
  {
    match item
    case Vertex(x, y, z) =>
      VertexLineWords(t, x, y, z);
    case Polygon(face) =>
      FaceLineWords(face);
      FaceParsesBack(face);
      assert (["f"] + IndexTexts(face))[1..] == IndexTexts(face);
  }

  lemma {:induction false} TerminatedIsJoin(lines: seq<string>)
    ensures Terminated(lines) == Join(lines + [""], '\n')
  {
    if lines != [] {
      var init, last := lines[..|lines| - 1], lines[|lines| - 1];
      TerminatedIsJoin(init);
      JoinLast(init, last, "", '\n');
      assert lines + [""] == init + [last, ""];
      assert Join(init + [""], '\n') + last + ['\n'] + "" == Join(init + [""], '\n') + (last + "\n");
    }
  }

  lemma NoWordsInNothing()
    ensures Words("") == []
  {
    FieldsOfOne("", IsSpace);
    assert [""][1..] == [];
  }

  /** Written items read back as they were, with one empty line after them. */
  lemma ItemsParseBack<F(!new)>(t: FloatText<F>, items: seq<Item<F>>)
    requires Faithful(t) && AllWritten(items)
    ensures ParseLines(t, Fields(TextOf(t, items), IsBreak)) == items + [Skip]
  {
    var lines := ItemLines(t, items);
    forall i | 0 <= i < |lines|
      ensures Free(lines[i], IsBreak) && ParseLine(t, lines[i]) == items[i]
    {
      LineParsesBack(t, items[i]);
    }
    LinesParseBack(t, lines, items);
  }

  /** A text of lines reads line by line, with one empty line after them. */
  lemma LinesParseBack<F>(t: FloatText<F>, lines: seq<string>, items: seq<Item<F>>)
    requires |lines| == |items|
    requires forall i :: 0 <= i < |lines| ==> Free(lines[i], IsBreak) && ParseLine(t, lines[i]) == items[i]
    ensures ParseLines(t, Fields(Terminated(lines), IsBreak)) == items + [Skip]
  {
    TerminatedIsJoin(lines);
    FieldsOfJoin(lines + [""], '\n', IsBreak);
    NoWordsInNothing();
    LinesParse(t, lines, items);
  }

  /** So loading it builds the mesh from what its lines say. */
  lemma LoadLines<F>(t: FloatText<F>, lines: seq<string>, items: seq<Item<F>>)
    requires |lines| == |items|
    requires forall i :: 0 <= i < |lines| ==> Free(lines[i], IsBreak) && ParseLine(t, lines[i]) == items[i]
    ensures LoadText(t, Terminated(lines)) == Build(items)
  {
    LinesParseBack(t, lines, items);
    BuildSnoc(items, Skip);
  }

  lemma LinesParse<F>(t: FloatText<F>, lines: seq<string>, items: seq<Item<F>>)
    requires |lines| == |items| && forall i :: 0 <= i < |lines| ==> ParseLine(t, lines[i]) == items[i]
    requires ParseLine(t, "") == Skip
    ensures ParseLines(t, lines + [""]) == items + [Skip]
  {
  }

  /** A saved mesh loads back as the same mesh: any faces, empty ones included, any indices, and
      any number of whole vertices. */
  lemma LoadAfterSave<F(!new)>(t: FloatText<F>, mesh: Mesh<F>)
    requires Faithful(t) && |mesh.positions| % 3 == 0
    ensures LoadText(t, SaveText(t, mesh)) == Some(mesh)
  {
    MeshItemsAreWritten(mesh);
    LoadItems(t, MeshItems(mesh));
    BuildMesh(mesh);
  }

  /** Loading the text of written items builds the mesh from them. */
  lemma LoadItems<F(!new)>(t: FloatText<F>, items: seq<Item<F>>)
    requires Faithful(t) && AllWritten(items)
    ensures LoadText(t, TextOf(t, items)) == Build(items)
  {
    ItemsParseBack(t, items);
    BuildSnoc(items, Skip);
  }

  lemma MeshItemsAreWritten<F>(mesh: Mesh<F>)
    requires |mesh.positions| % 3 == 0
    ensures AllWritten(MeshItems(mesh))
  {
    VerticesAreWritten(mesh.positions, |mesh.positions|);
    FacesAreWritten(VertexItems(mesh.positions, |mesh.positions|), mesh.faces, |mesh.faces|);
  }

  // ---------------------------------------------------------------- what other writers add

  /** What may follow a vertex index: nothing, or a slash and more without white space. */
  predicate IsTail(s: string) {
    s == "" || (s[0] == '/' && Free(s, IsSpace))
  }

  predicate AreTails(face: seq<int>, tails: seq<string>) {
    |tails| == |face| && forall i :: 0 <= i < |tails| ==> IsTail(tails[i])
  }

  /** The part before the first slash is the vertex index. */
  lemma TupleIndex(v: int, rest: string)
    ensures ParseIndex(PrintInt(v + 1) + "/" + rest) == Some(v + 1)
  {
    IntChars(v + 1);
    FieldsStep(PrintInt(v + 1), '/', rest, IsSlash);
    IntPrintsBack(v + 1);
    assert PrintInt(v + 1) + ['/'] + rest == PrintInt(v + 1) + "/" + rest;
  }

  lemma TailIndex(v: int, tail: string)
    requires IsTail(tail)
    ensures ParseIndex(PrintInt(v + 1) + tail) == Some(v + 1)
    ensures IsWord(PrintInt(v + 1) + tail)
  {
    IntIsWord(v + 1);
    if tail == "" {
      assert PrintInt(v + 1) + tail == PrintInt(v + 1);
      IndexParsesBack(v);
    } else {
      assert tail == "/" + tail[1..];
      assert PrintInt(v + 1) + tail == PrintInt(v + 1) + "/" + tail[1..];
      TupleIndex(v, tail[1..]);
    }
  }

  function TupleTexts(face: seq<int>, tails: seq<string>): (r: seq<string>)
    requires |tails| == |face|
    ensures |r| == |face| && forall i :: 0 <= i < |face| ==> r[i] == PrintInt(face[i] + 1) + tails[i]
  {
    seq(|face|, i requires 0 <= i < |face| => PrintInt(face[i] + 1) + tails[i])
  }

  lemma TuplesParse(face: seq<int>, tails: seq<string>)
    requires AreTails(face, tails)
    ensures ParseFace(TupleTexts(face, tails)) == Some(face)
  {
    forall i | 0 <= i < |face|
      ensures ParseIndex(TupleTexts(face, tails)[i]) == Some(face[i] + 1)
    {
      TailIndex(face[i], tails[i]);
    }
    WholeFaceParses(TupleTexts(face, tails), face);
  }

  /** The line of an item whose face indices carry tails. */
  function TupleLine<F>(t: FloatText<F>, item: Item<F>, tails: seq<string>): string
    requires item.Polygon? ==> |tails| == |item.face|
  {
    if item.Polygon? then "f " + Join(TupleTexts(item.face, tails), ' ') else ItemLine(t, item)
  }

  lemma TupleLineParses<F(!new)>(t: FloatText<F>, item: Item<F>, tails: seq<string>)
    requires Faithful(t) && IsWritten(item) && (item.Polygon? ==> AreTails(item.face, tails))
    ensures ParseLine(t, TupleLine(t, item, tails)) == item && Free(TupleLine(t, item, tails), IsBreak)
  {
    if item.Polygon? {
      TupleLineWords(item.face, tails);
      TuplesParse(item.face, tails);
      assert (["f"] + TupleTexts(item.face, tails))[1..] == TupleTexts(item.face, tails);
    } else {
      LineParsesBack(t, item);
    }
  }

  lemma TupleLineWords(face: seq<int>, tails: seq<string>)
    requires AreTails(face, tails)
    ensures var line := "f " + Join(TupleTexts(face, tails), ' ');
      Words(line) == ["f"] + TupleTexts(face, tails) && Free(line, IsBreak)
  {
    var tokens := TupleTexts(face, tails);
    TuplesAreWords(face, tails);
    JoinHasNoBreak(tokens);
    if face == [] {
      EmptyFaceWords();
      assert "f " + Join(tokens, ' ') == "f " && ["f"] + tokens == ["f"];
    } else {
      FirstWord("f", tokens);
      assert "f" + [' '] == "f ";
    }
  }

  lemma TuplesAreWords(face: seq<int>, tails: seq<string>)
    requires AreTails(face, tails)
    ensures var tokens := TupleTexts(face, tails);
      forall i :: 0 <= i < |tokens| ==> IsWord(tokens[i]) && Free(tokens[i], IsBreak)
  {
    forall i | 0 <= i < |face|
      ensures var token := TupleTexts(face, tails)[i]; IsWord(token) && Free(token, IsBreak)
    {
      TailIndex(face[i], tails[i]);
      WordHasNoBreak(TupleTexts(face, tails)[i]);
    }
  }

  /** The text of written items, with tails on the face indices. */
  function TupleText<F>(t: FloatText<F>, items: seq<Item<F>>, tails: seq<seq<string>>): string
    requires TailsFit(items, tails)
  {
    Terminated(TupleLines(t, items, tails))
  }

  predicate TailsFit<F>(items: seq<Item<F>>, tails: seq<seq<string>>) {
    |tails| == |items| && forall i :: 0 <= i < |items| && items[i].Polygon? ==> AreTails(items[i].face, tails[i])
  }

  function TupleLines<F>(t: FloatText<F>, items: seq<Item<F>>, tails: seq<seq<string>>): (r: seq<string>)
    requires TailsFit(items, tails)
    ensures |r| == |items| && forall i :: 0 <= i < |items| ==> r[i] == TupleLine(t, items[i], tails[i])
  {
    seq(|items|, i requires 0 <= i < |items| && TailsFit(items, tails) => TupleLine(t, items[i], tails[i]))
  }

  /** Adding texture or normal indices to any face index of a saved text does not change the mesh
      that is loaded. */
  lemma LoadIgnoresTuples<F(!new)>(t: FloatText<F>, mesh: Mesh<F>, tails: seq<seq<string>>)
    requires Faithful(t) && |mesh.positions| % 3 == 0 && TailsFit(MeshItems(mesh), tails)
    ensures LoadText(t, TupleText(t, MeshItems(mesh), tails)) == Some(mesh)
  {
    var items := MeshItems(mesh);
    MeshItemsAreWritten(mesh);
    var lines := TupleLines(t, items, tails);
    forall i | 0 <= i < |lines|
      ensures Free(lines[i], IsBreak) && ParseLine(t, lines[i]) == items[i]
    {
      TupleLineParses(t, items[i], tails[i]);
    }
    LoadLines(t, lines, items);
    BuildMesh(mesh);
  }

  /** Without tails this is the saved text. */
  lemma NoTailsIsSaved<F>(t: FloatText<F>, mesh: Mesh<F>, tails: seq<seq<string>>)
    requires |mesh.positions| % 3 == 0 && TailsFit(MeshItems(mesh), tails)
    requires forall i, k :: 0 <= i < |tails| && 0 <= k < |tails[i]| ==> tails[i][k] == ""
    ensures TupleText(t, MeshItems(mesh), tails) == SaveText(t, mesh)
  {
    var items := MeshItems(mesh);
    forall i | 0 <= i < |items|
      ensures TupleLine(t, items[i], tails[i]) == ItemLine(t, items[i])
    {
      if items[i].Polygon? {
        EmptyTails(items[i].face, tails[i]);
      }
    }
    assert TupleLines(t, items, tails) == ItemLines(t, items);
  }

  lemma EmptyTails(face: seq<int>, tails: seq<string>)
    requires |tails| == |face| && forall k :: 0 <= k < |tails| ==> tails[k] == ""
    ensures TupleTexts(face, tails) == IndexTexts(face)
  {
    forall k | 0 <= k < |face|
      ensures TupleTexts(face, tails)[k] == IndexTexts(face)[k]
    {
      assert PrintInt(face[k] + 1) + "" == PrintInt(face[k] + 1);
    }
  }

  lemma {:induction false} EachFails(parts: seq<string>, k: nat, parse: string -> Option<int>, bad: nat)
    requires bad < k <= |parts| && parse(parts[bad]).None?
    ensures ParseEach(parts, k, parse).None?
  {
    if bad < k - 1 {
      EachFails(parts, k - 1, parse, bad);
    }
  }

  /** A face index that is no integer fails the whole line. */
  lemma BadFaceFails<F>(t: FloatText<F>, line: string, bad: nat)
    requires |Words(line)| > 0 && Words(line)[0] == "f" && 0 < bad < |Words(line)| && ParseIndex(Words(line)[bad]).None?
    ensures ParseLine(t, line) == Fail
  {
    var parts := Words(line)[1..];
    assert parts[bad - 1] == Words(line)[bad];
    EachFails(parts, |parts|, ParseIndex, bad - 1);
  }

  /** And a line that fails fails the whole text, whatever else there is. */
  lemma BadLineFails<F>(t: FloatText<F>, text: string, k: nat)
    requires k < |Fields(text, IsBreak)| && ParseLine(t, Fields(text, IsBreak)[k]) == Fail
    ensures LoadText(t, text) == None
  {
    var items := ParseLines(t, Fields(text, IsBreak));
    assert items[k] == Fail;
    if Build(items[..k]).Some? {
      BuildNext(items, k);
      BuildFails(items, k + 1);
    } else {
      BuildFails(items, k);
    }
  }

  /** Further coordinates of a vertex line, and its colour, are not read. */
  lemma VertexLineEnds<F>(t: FloatText<F>, line: string)
    requires |Words(line)| >= 4 && Words(line)[0] == "v"
    ensures var w := Words(line);
      ParseLine(t, line) ==
      if t.read(w[1]).Some? && t.read(w[2]).Some? && t.read(w[3]).Some?
      then Vertex(t.read(w[1]).value, t.read(w[2]).value, t.read(w[3]).value) else Fail
  {
  }

  /** What `start` becomes after the first `k` items. */
  function BuildFrom<F>(start: Option<Mesh<F>>, items: seq<Item<F>>, k: nat): Option<Mesh<F>>
    requires k <= |items|
  {
    if k == 0 then start
    else
      var before := BuildFrom(start, items, k - 1);
      if before.None? then None else AddItem(before.value, items[k - 1])
  }

  lemma {:induction false} BuildGoesOn<F>(before: seq<Item<F>>, after: seq<Item<F>>, k: nat)
    requires k <= |after|
    ensures Build(before + after[..k]) == BuildFrom(Build(before), after, k)
  {
    if k == 0 {
      assert before + after[..0] == before;
    } else {
      BuildGoesOn(before, after, k - 1);
      AppendGrows(before, after, k - 1);
      BuildSnoc(before + after[..k - 1], after[k - 1]);
    }
  }

  lemma AppendGrows<T>(before: seq<T>, after: seq<T>, k: nat)
    requires k < |after|
    ensures before + after[..k + 1] == before + after[..k] + [after[k]]
  {
  }

  lemma SkipAddsNothing<F>(before: seq<Item<F>>, after: seq<Item<F>>)
    ensures Build(before + [Skip] + after) == Build(before + after)
  {
    BuildSnoc(before, Skip);
    BuildGoesOn(before, after, |after|);
    BuildGoesOn(before + [Skip], after, |after|);
    assert after[..|after|] == after;
  }

  lemma LinesAppend<F>(t: FloatText<F>, a: seq<string>, b: seq<string>)
    ensures ParseLines(t, a + b) == ParseLines(t, a) + ParseLines(t, b)
  {
  }

  /** Lines of other kinds, empty lines and short vertex lines add nothing, wherever they stand. */
  lemma OtherLinesAddNothing<F>(t: FloatText<F>, before: seq<string>, line: string, after: seq<string>)
    requires var w := Words(line); w == [] || (w[0] != "v" && w[0] != "f") || (w[0] == "v" && |w| < 4)
    ensures Build(ParseLines(t, before + [line] + after)) == Build(ParseLines(t, before + after))
  {
    LinesAppend(t, before + [line], after);
    LinesAppend(t, before, [line]);
    LinesAppend(t, before, after);
    assert ParseLine(t, line) == Skip;
    assert ParseLines(t, [line])[0] == ParseLine(t, [line][0]);
    assert ParseLines(t, [line]) == [Skip];
    SkipAddsNothing(ParseLines(t, before), ParseLines(t, after));
  }
}
