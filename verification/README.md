# Cyber Remesh: verified models of its hard parts

Cyber Remesh turns triangle meshes into quad meshes. This project models, in Dafny, the parts of
the repository whose correctness is an argument rather than a reading, and proves that argument
for all inputs, all sizes or all schedules:

* **Concurrent solves** (`Consoles`, `SolveMachine`, `SolveSafety`, `SolveTheorems`,
  `SolveSchedules`, `SolveGuards`).
  Any number of threads run `solveSeamlessUv` at once. They share one reference-counted
  interposition of `std::cout` and `std::cerr`, and one citation list. `SolveMachine` is a step
  system in which every locked region is one step, while a stream write (fetch the buffer, deliver
  through it) and a citation take two, so that anything can happen in between. `SolveSafety` proves
  an invariant of every step, `SolveTheorems` reads the promises off it, `SolveSchedules` says what
  a reached state owes to the events that led to it, and `SolveGuards` writes
  the two guard classes out with their fields and proves that they do what the steps say.
* **Mesh generators and edge counting** (`Chains`, `Grid`, `Validators`, `Torus`, `Spheres`, `Slab`,
  `HoledPlane`). For every size the generated face lists are closed in the exact sense that holds,
  have the right Euler characteristic, and the dictionary-based checks report so.
* **Polygon chains** (`ChainSums`). Fan triangulation keeps the boundary of any polygon list; the
  area vectors of a closed mesh sum to zero wherever its vertices are; the shoelace area is the
  same identity in the plane.
* **UV charts** (`Partition`, `Charts`). Union-find with path halving in an array computes the
  connected components of the pairs that were united, and the chart numbering depends on nothing
  but those components.
* **Texts, frames and a bounded search** (`NumberGrammar`, `TextSplit`, `Placement`, `Flags`,
  `Arguments`, `ObjText`, `Bridge`, `CountSearch`). Two number recognisers that accept the same texts, a command
  line whose meaning does not depend on the order of its flags, two round trips, and a search with
  a termination measure of its own.

The imperative parts of the source are methods with loops, arrays and classes here; each is proved
equal to, or characterised by, a specification whose own properties are the lemmas listed below.
Two rules hold throughout: coordinates are real numbers, and a face is a sequence of vertex
indices.

`dafny verify dfyconfig.toml` checks the whole project.

## Where the code and its descriptions differ

* `apps/cli/main.cpp:268-269` refuses a thickness scale with "must be finite and >= 0", and
  `apps/cli/main.cpp:264-266` promises that a value the library would reject must not reach it; the
  library rejects a scale that is not finite (`capi/src/capi.cpp:5323`). The test is only
  `thicknessScale >= 0`, which positive infinity passes, and `inf` is a number to `parseNumber`.
  `Arguments.InfiniteThicknessIsAccepted` gives the command line; `Arguments.ThicknessIsFiniteIff`
  gives the exact condition: an accepted command line keeps the promise if and only if the last
  value of `--thickness-scale` does not read as positive infinity.
* `examples/23_thin_features.py:94` walks the rim "so the slab is closed". It is closed as an
  undirected surface only: the rim quads run the same way as the sheets, so no size of the slab is
  consistently oriented (`Slab.SlabIsNotOriented`). Turning the rim round repairs it
  (`Slab.FlippedIsClosed`).

## Model

| member | source | states |
|---|---|---|
| SolveSafety.StepKeepsInv | examples/reference/autoremesher_solve.cpp:125-301 | every step of every thread keeps the invariant over depth, streams, filter targets, writes in flight, delivered writes, the once flag and the citation list |
| SolveTheorems.ReachedIsSafe | examples/reference/autoremesher_solve.cpp:125-318 | so the invariant holds after every schedule of any number of threads |
| SolveTheorems.HistoryIsTheHosts | examples/reference/autoremesher_solve.cpp:240-251 | the record of host buffers is the original buffer followed by the host's redirects, and nothing else marks a stream as redirected |
| SolveTheorems.HostWritesReachTheHost | examples/reference/autoremesher_solve.cpp:152-195 | each thread's host writes are delivered once each, in issue order, to a host buffer that was in force between the fetch and the delivery, even through a filter already taken off |
| SolveTheorems.UndisturbedStream | examples/reference/autoremesher_solve.cpp:223-264 | on a stream the host leaves alone, its writes go to the original buffer, every solver write is dropped, and with no solve in flight the original buffer is back |
| SolveTheorems.SolverWritesAreDropped | examples/reference/autoremesher_solve.cpp:152-195 | a solver write is dropped if and only if the host had not redirected the stream since the filters went on |
| SolveTheorems.VerboseTouchesNothing | examples/reference/autoremesher_solve.cpp:136-139 | with CYBER_QC_VERBOSE the streams hold what the host put there and no write of any thread is lost |
| SolveTheorems.DepthAndStreams | examples/reference/autoremesher_solve.cpp:217-258 | the depth is the number of live engaged guards; above 0 the filter's target is the saved buffer and the stream holds the filter or the host's later choice; at 0 it holds the host's latest choice, never a filter or a stale snapshot |
| SolveTheorems.SavedByOutermostEntry | examples/reference/autoremesher_solve.cpp:231-238 | in every reachable state with positive depth there was an outermost entry since which the depth has been positive, and the saved buffer and the filter's target are what the stream held just before it: the host's own choice at that moment |
| SolveTheorems.CountersNeverWrap | examples/reference/autoremesher_solve.cpp:240-247 | none of the three unsigned counters is ever decremented at zero |
| SolveTheorems.ResetNeverOverlapsCite | examples/reference/autoremesher_solve.cpp:280-301 | while the citation list is being reset nobody is citing and nobody could start to: no solve, no worker of one, not the one-time initialisation |
| SolveTheorems.CitationsReclaimed | examples/reference/autoremesher_solve.cpp:313-318 | after a completed solve the citation list is empty whenever no solve is in flight |
| SolveSchedules.CitationsAreCounted | examples/reference/autoremesher_solve.cpp:266-301 | in every reached state the list holds exactly one record for each citation finished since the last reset of the schedule |
| SolveSchedules.LoneSolve | examples/reference/autoremesher_solve.cpp:305-318 | the first solve of a process can run to its end: two citations are on the list and the filter is on the stream while it works, and afterwards the list is empty and the host's buffers are back |
| SolveSchedules.StepsOffered | examples/reference/autoremesher_solve.cpp:145-169 | the schedules hold the environment back in nothing: in every state the host may redirect its streams, an idle thread may write or start a solve, and whatever is under way may be finished |
| SolveSchedules.WorkersOffered | examples/reference/autoremesher_solve.cpp:145-169 | nor the pool: an idle thread may help any running solve or take a slot, and whoever works on a solve may cite |
| SolveSchedules.NobodyIsStuck | examples/reference/autoremesher_solve.cpp:125-301 | in every reached state a thread inside its guards can advance, or waits for the one that holds the reset or the one-time initialisation, and that one can |
| SolveSchedules.ThreadOnSchedule | examples/reference/autoremesher_solve.cpp:141-169 | a thread's solve depth is the number of solves it has begun and not ended, and its slot is what the last event about it says |
| SolveSchedules.WriteFate | examples/reference/autoremesher_solve.cpp:152-195 | every write goes to the buffer that the stream held at its fetch; if that was a filter it is dropped when the thread then has a solve open or holds a slot, and goes to the filter's target otherwise |
| SolveSchedules.WritesFromSolvesAreDropped | examples/reference/autoremesher_solve.cpp:145-169 | a write fetched while the filters were on and the stream not redirected reaches no buffer if its thread has a solve open or holds a worker slot, pool threads of no solve included |
| SolveSchedules.IssuedOnSchedule | examples/reference/autoremesher_solve.cpp:152-169 | the host writes counted as issued are those fetched by threads with no solve open and no slot, in schedule order |
| SolveGuards.ProcessConsole.Put | examples/reference/autoremesher_solve.cpp:172-192 | a filter's decision, with its target read at delivery, is the one the step system delivers by |
| SolveGuards.ConsoleSilencer.constructor | examples/reference/autoremesher_solve.cpp:225-239 | the constructor raises the thread's depth and, unless the traces are wanted, is the step Engage on the shared state |
| SolveGuards.ConsoleSilencer.Destroy | examples/reference/autoremesher_solve.cpp:240-258 | the destructor lowers the thread's depth and is the step Disengage, for the engaged guard only |
| SolveGuards.CitationRegistry.EnsureInitialized | examples/reference/autoremesher_solve.cpp:125-128 | the initialisation and its citations happen once |
| SolveGuards.CitationReclaimer.constructor | examples/reference/autoremesher_solve.cpp:289-292 | raises the citation depth and leaves the list alone |
| SolveGuards.CitationReclaimer.Destroy | examples/reference/autoremesher_solve.cpp:293-298 | lowers it and empties the list exactly when it was the last |
| SolveGuards.EngageThenDisengage | examples/reference/autoremesher_solve.cpp:225-258 | entering and leaving a guard is the identity on the depth and on both streams |
| SolveGuards.SolveSeamlessUv | examples/reference/autoremesher_solve.cpp:305-318 | a whole uninterrupted solve gives the streams and depths back, refuses an empty mesh before any guard, and when outermost leaves no citation behind, those of the initialisation included |
| Torus.TorusObj | examples/common.py:542-558 | the loops write major * minor vertices and emit the face list TorusFaces, for every size |
| Torus.TorusKnotObj | examples/common.py:692-708 | the knot's loops write n * tube_segments vertices and its four-index loop emits the same face list, one ring per curve sample |
| Torus.TorusIsClosed | examples/common.py:551-558 | for all major, minor >= 3 every directed edge is walked at most once and its reverse exactly once |
| Torus.TorusIsClosedIff | examples/common.py:551-558 | over all positive sizes it is closed if and only if major and minor are at least 3 |
| Torus.TorusEuler | examples/common.py:542-558 | the faces use exactly the numbers 0 up to major * minor, and V - E + F = 0 |
| Torus.CheckTorus | examples/common.py:414-432 | mesh_validity run on the generated torus returns 0/0/0; every vertex that was written is used, and with that many vertices V - E + F = 0 |
| Spheres.SphereObj | examples/common.py:510-537 | (rings - 1) * segments + 2 vertices are written, and the three face loops emit the cells of the sphere layout in order, for rings >= 2 |
| Spheres.Blob | examples/18_sculpt_handoff.py:70-106 | (rings - 1) * segments + 2 vertices are written, and the two face loops emit the cells of the blob layout in order, for rings >= 2 |
| Spheres.SphereIsClosed | examples/18_sculpt_handoff.py:91-106 | for all rings >= 2 and segments >= 3 both layouts walk every directed edge at most once and its reverse exactly once |
| Spheres.SphereIsClosedIff | examples/common.py:525-537 | for rings >= 2 either layout is closed if and only if it has at least three segments |
| Spheres.SphereEuler | examples/common.py:508-537 | the faces of both use exactly the numbers 0 up to (rings - 1) * segments + 2, and V - E + F = 2 |
| Spheres.CheckSphere | examples/common.py:414-432 | mesh_validity run on either returns 0/0/0; every vertex that was written is used, and with that many vertices V - E + F = 2 |
| Slab.ThinPlate | examples/23_thin_features.py:77-101 | the plate's loops emit the slab's face list over both sheets and the walked border |
| Slab.ThinFin | examples/23_thin_features.py:104-126 | the fin's loops, numbered by side, emit the same face list |
| Slab.FlippedIsClosed | examples/23_thin_features.py:90-100 | with the rim quads turned round the slab would be closed and consistently oriented |
| Slab.SlabIsTwoSided | examples/23_thin_features.py:90-100 | as it is, every undirected edge is on exactly two face corners, for every n >= 1 |
| Slab.SlabEuler | examples/23_thin_features.py:84-100 | the slab uses exactly its 2(n+1)(n+1) vertices, and V - E + F = 2 |
| Slab.RimRunsWithSheet | examples/23_thin_features.py:97-100 | on every one of the 4n border steps the rim quad and a quad of the low sheet walk the same directed edge |
| Slab.SlabIsNotOriented | examples/23_thin_features.py:90-100 | so the directed form of closedness is false for every size |
| Slab.CheckSlab | examples/common.py:414-432 | mesh_validity run on the slab returns 0/0/0; every vertex that was written is used, and with that many vertices V - E + F = 2 |
| HoledPlane.PlaneWithHoleObj | examples/common.py:734-740 | the loops with their `continue` emit exactly the solid cells' quads |
| HoledPlane.OpenSide | examples/common.py:731-740 | for every n, a side of a cell is on one face only if and only if no solid cell lies across it |
| HoledPlane.OpenEdgeTotal | examples/06_hole_fill.py:11-18 | for every n >= 4 there are exactly 4n + 8 open edges: the outer border and the border of the 2 x 2 hole |
| HoledPlane.CheckPlane | examples/06_hole_fill.py:11-18 | open_edges run on the generated plane returns 4n + 8 |
| Validators.MeshValidity | examples/common.py:414-432 | the dictionary loops return the number of undirected edges on more than two corners, on one corner, and of faces that repeat a vertex, for any face list |
| Validators.OpenEdges | examples/06_hole_fill.py:11-18 | the Counter loop returns the number of undirected edges on exactly one corner |
| Validators.TwoSidedIsClean | examples/common.py:414-432 | a mesh with two corners on every edge and no repeated vertex is reported clean |
| Validators.CleanIsTwoSided | examples/common.py:414-432 | conversely three zeros mean exactly that, so the check misses nothing |
| Validators.SetSizeTellsRepeats | examples/common.py:423-424 | comparing len(set(f)) with len(f) detects repeated vertices exactly |
| Chains.ClosedIsTwoSided | examples/common.py:425-431 | the directed form of closedness implies the undirected form that the dictionary counts |
| Chains.TwoSidedEdges | examples/common.py:427-429 | a two-sided mesh has half as many edges as face corners |
| ChainSums.Triangles | examples/common.py:280-287 | the fan loop emits the fans of all faces in order, nothing for faces of fewer than three corners |
| ChainSums.FanKeepsSums | examples/common.py:285-286 | a polygon and its fan have the same sum of any antisymmetric weight over their directed edges |
| ChainSums.FanKeepsBoundary | examples/common.py:285-286 | for any polygon list, the directed count minus the reverse count of every edge is unchanged |
| ChainSums.FanKeepsClosed | examples/common.py:280-287 | a mesh has no boundary if and only if its triangulation has none |
| ChainSums.FanAllSize | examples/common.py:285-286 | the number of triangles is the sum of (corners - 2) |
| ChainSums.FanAllOfTriangles | examples/common.py:285-286 | on an all-triangle mesh the triangulation is the identity |
| ChainSums.FaceNormals | examples/common.py:349-361 | each face's result is its Newell vector divided by its length, or the vector itself when the length is at most 1e-12 |
| ChainSums.NormalisedIsUnit | examples/common.py:359-360 | a divided normal has length exactly one, for any Euclidean norm over the reals |
| ChainSums.BalancedCancels | examples/common.py:354-359 | any antisymmetric edge sum over a chain in which each edge occurs as often as its reverse is zero |
| ChainSums.ClosedNewellIsZero | examples/common.py:349-359 | the unnormalised Newell vectors of a closed face list sum to zero for any positions |
| ChainSums.GeneratedNewellIsZero | examples/common.py:349-359 | so they do on every generated torus, sphere and blob, however bent |
| ChainSums.NewellIsFanSum | examples/common.py:280-299 | one polygon's Newell vector is the sum of its fan triangles' cross products (b - a) x (c - a) |
| ChainSums.NewellIsTranslationInvariant | examples/common.py:349-359 | and does not change when all positions are translated |
| ChainSums.UvCoverage | examples/14_uv_atlas.py:53-67 | the rolled dot products add up, over the measured faces, half the absolute z coordinate of the polygon's Newell vector in the plane |
| ChainSums.FaceAreaIsFanArea | examples/14_uv_atlas.py:61-66 | exactly the faces with three or more corners that all have a UV are measured, by half the absolute signed sum of their fan triangles |
| ChainSums.RectangleArea | examples/14_uv_atlas.py:64-66 | a rectangle measures width times height, whichever way round it is walked |
| ChainSums.CrossIsRightHanded | examples/common.py:358 | on two axes the cross product is the rectangle's signed area along the third |
| ChainSums.CoverageIsTranslationInvariant | examples/14_uv_atlas.py:53-67 | translating the atlas leaves the coverage unchanged |
| Partition.Find | examples/14_uv_atlas.py:78-82 | returns the root and, though it halves paths in place, changes no element's root |
| Partition.Union | examples/14_uv_atlas.py:84-87 | exactly the two classes change root, to the smaller of their two roots |
| Partition.Unite | examples/14_uv_atlas.py:84-87 | an array that represents the components of a relation then represents those of the relation with the pair added |
| Partition.HalvingKeepsRoots | examples/14_uv_atlas.py:79-81 | one halving keeps the forest order parent[x] <= x and every root |
| Partition.LinkMovesClass | examples/14_uv_atlas.py:86-87 | linking a root under a smaller one moves exactly its own class |
| Partition.SameRootIffConnected | examples/14_uv_atlas.py:76-87 | equal roots if and only if a chain of united pairs joins the elements |
| Partition.RootIsLeast | examples/14_uv_atlas.py:86-87 | a root is the least index of its class |
| Partition.Roots | examples/14_uv_atlas.py:107 | the list comprehension, which keeps halving paths while it reads, returns the least member of every class |
| Partition.Relabel | examples/14_uv_atlas.py:108-109 | sorting the distinct roots gives each class the number of smaller roots as label |
| Partition.LabelsAreComponents | examples/14_uv_atlas.py:107-109 | same label if and only if connected, labels ordered as the least members, all below k |
| Partition.LabelsAreConsecutive | examples/14_uv_atlas.py:108-109 | every number below k is used |
| Partition.LabellingNumbersComponents | examples/14_uv_atlas.py:107-109 | so the labels number the components in the order of their first members: before any element every smaller label has been used |
| Partition.LabelsAreUnique | examples/14_uv_atlas.py:98-109 | such a numbering is unique, and relations that connect the same elements give the same labels and k: neither the pairs united nor their order matter |
| Charts.CollectEdges | examples/14_uv_atlas.py:89-96 | the dictionary lists every corner of every zipped face under its edge, with the UVs sorted by vertex, and nothing else |
| Charts.UniteList | examples/14_uv_atlas.py:99-105 | the double loop unites all and only the matching pairs of one edge's entries |
| Charts.UniteEdges | examples/14_uv_atlas.py:98-105 | with the edges taken in any order, all pairs are united and only pairs of continuous faces |
| Charts.ChartIds | examples/14_uv_atlas.py:70-109 | the labels 0..k-1 number the components of "shares an edge with matching UVs" in the order of their least faces |
| Charts.ChartsAreSeamless | examples/14_uv_atlas.py:70-109 | two faces get one label if and only if a chain of faces joins them in which neighbours have a side between the same two vertices with near UVs at both of them |
| Charts.ContinuousIff | examples/14_uv_atlas.py:89-105 | what the dictionary and its double loop compare: sides between the same two vertices, in either direction, with UVs nearer than eps in both coordinates at each of the two vertices |
| Charts.ChartRoots | examples/15_uv_vs_xatlas.py:89-118 | the raw-root variant returns the least face of each face's chart |
| Charts.UvCharts | examples/18_sculpt_handoff.py:171-198 | the labels 0..k-1 number the components of "shares a rounded UV", all pairs of faces considered, in the order of their least faces |
| Charts.FirstSeenSuffices | examples/18_sculpt_handoff.py:185-194 | uniting only with the first face seen per key connects exactly what uniting all pairs connects |
| Charts.ShareUvIff | examples/18_sculpt_handoff.py:186-191 | faces share a key exactly when they have corners whose UVs round to the same millionth in both coordinates |
| Charts.RoundMicroIsNearest | examples/18_sculpt_handoff.py:190 | rounding to six digits gives the nearest millionth, the even one of two equally near |
| Charts.NoUvIsSingleton | examples/18_sculpt_handoff.py:187-189 | a face without a valid UV is connected to itself only |
| NumberGrammar.StrtodConsumesWhole | apps/cli/parse_number.hpp:73-80 | `end` is the end of the text exactly when the text is white space and one strtod subject sequence, or empty |
| NumberGrammar.PrefixCheckIsExact | apps/cli/parse_number.hpp:53-80 | the prefix check and full consumption by strtod together accept exactly what from_chars consumes whole |
| NumberGrammar.WhatThePrefixCheckRemoves | apps/cli/parse_number.hpp:49-64 | of what strtod consumes whole, the check removes leading white space, a leading '+', the hexadecimal form and the empty text, and nothing else |
| NumberGrammar.RecognisersAgree | apps/cli/parse_number.hpp:66-99 | both parsers return the same result for every text, under one shared value and range predicate |
| NumberGrammar.AcceptedTexts | apps/cli/parse_number.hpp:66-99 | which is a value exactly for the texts of the from_chars pattern that are in range |
| NumberGrammar.InfinityIsANumber | apps/cli/parse_number.hpp:84-98 | the text "inf" is accepted, by both parsers alike |
| NumberGrammar.PlainNumbers | apps/cli/parse_number.hpp:66-99 | digits with a point before, among, after or nowhere in them are accepted, with an exponent of either case and any sign and with or without a minus sign of their own |
| NumberGrammar.NamedNumbers | apps/cli/parse_number.hpp:66-99 | so are the infinities and NaN by name, in either case, a NaN with a payload too |
| NumberGrammar.HexNumbers | apps/cli/parse_number.hpp:49-64 | the hexadecimal form with a binary exponent is a strtod subject, and the prefix check refuses it |
| NumberGrammar.ExponentNeedsDigits | apps/cli/parse_number.hpp:66-99 | a text that ends in its exponent marker or the exponent's sign is not |
| NumberGrammar.WhiteSpaceIs | apps/cli/parse_number.hpp:58-61 | the characters refused as leading white space are the six of the "C" locale |
| TextSplit.FieldsOfJoin | apps/cli/main.cpp:242-254 | splitting the join of separator-free texts returns them |
| TextSplit.JoinOfFields | apps/cli/main.cpp:242-254 | joining the fields of any text returns the text |
| TextSplit.WordsOfJoin | python/cyberbridge/client.py:156-175 | splitting on white space returns the words that were joined with blanks |
| TextSplit.WordsOfAppend | python/cyberbridge/client.py:156 | white space of any kind and amount only separates words, anywhere in any text |
| TextSplit.AsciiSpaces | python/cyberbridge/client.py:156 | which characters of ASCII are white space |
| TextSplit.IntPrintsBack | python/cyberbridge/client.py:163-175 | decimal printing and parsing are inverse for integers of any size and sign |
| TextSplit.SignsAndZeros | python/cyberbridge/client.py:163 | a plus sign and leading zeros do not change an integer that is read, a minus sign negates it |
| Placement.ParseFields | apps/cli/main.cpp:240-254 | the loop reads the fields left to right, stops at the first that is no number, and never reads more than one past the limit |
| Placement.ParsePlacement | apps/cli/main.cpp:239-260 | succeeds if and only if there are exactly sixteen fields and each is a number, then stores their values in order; otherwise leaves the output untouched |
| Placement.ParseJoined | apps/cli/main.cpp:239-260 | the join of sixteen accepted fields parses to their values |
| Placement.TrailingCommaIsAField | apps/cli/main.cpp:242-254 | a trailing comma adds an empty field |
| Placement.AcceptedByGrammar | apps/cli/parse_number.hpp:105-112 | with parseNumber a list is accepted field by field in the from_chars grammar, and a list with a trailing comma never is |
| Arguments.ParseArgs | apps/cli/main.cpp:297-632 | the index-advancing loop and the checks after it return the exit code, the early-exit flag and, for a run, the options that the recursive reading of the command line gives, repeated flags included |
| Flags.KindOfIff | apps/cli/main.cpp:323-586 | the dispatch reads a text as setting an option, with or without a value, if and only if it is one of that option's flags, and as an early exit if and only if it is one of the six |
| Flags.UnknownIff | apps/cli/main.cpp:582-586 | exactly the texts that are no option's flag are refused |
| Arguments.AcceptedIffConsistent | apps/cli/main.cpp:588-632 | the checks after the loop accept exactly the options that keep every cross-flag rule once a bake has implied its preset |
| Arguments.AcceptedIsConsistent | apps/cli/main.cpp:297-632 | whatever the command line, accepted options have input xor target, an output, layout flags only with zremesher, a preset with every bake, valid bake flags and an available backend |
| Arguments.ScanOfGroups | apps/cli/main.cpp:297-632 | a command line of well-formed flag groups, repeats included, is refused for a value without meaning and otherwise judged on the settings made left to right |
| Arguments.GroupsAcceptedIff | apps/cli/main.cpp:297-632 | it is accepted if and only if every value has a meaning and the settings keep every rule, and these settings are then the result |
| Arguments.AcceptedHasGroups | apps/cli/main.cpp:297-580 | every accepted command line is one of well-formed flag groups, so the two results above cover all of them |
| Arguments.LastSettingCounts | apps/cli/main.cpp:297-580 | of several groups that set one option the last decides it; a patch policy without a count leaves the minimum face count of an earlier one |
| Arguments.AcceptedHoldsLast | apps/cli/main.cpp:297-620 | an accepted command line holds, for every option, the reading of the last value given to one of its flags, in the form that option is written in, and nothing for an option that is not given; a bake without a preset adds gltf-generic and nothing else changes |
| Arguments.ThicknessIsFiniteIff | apps/cli/main.cpp:264-271 | an accepted command line's thickness scale is absent, or finite and >= 0, if and only if the last value of --thickness-scale does not read as positive infinity |
| Arguments.InfiniteThicknessIsAccepted | apps/cli/main.cpp:264-271 | --input a --output b --thickness-scale inf is accepted with an infinite scale |
| Arguments.OrderDoesNotMatter | apps/cli/main.cpp:297-632 | permuting flag groups in which no flag is repeated, aliases counted as one, changes neither exit status nor options |
| ObjText.SaveObj | python/cyberbridge/client.py:167-175 | the writing loops produce the text SaveText, for whole vertices |
| ObjText.LoadObj | python/cyberbridge/client.py:150-164 | the reading loop, with every line kind and every failing line, computes LoadText, which the next rows describe |
| ObjText.TupleIndex | python/cyberbridge/client.py:162-163 | of a v/vt/vn tuple the vertex index before the first slash is read, whatever follows |
| ObjText.LoadIgnoresTuples | python/cyberbridge/client.py:150-164 | adding texture or normal indices to any face index of a saved text does not change the mesh that is loaded |
| ObjText.VertexLineEnds | python/cyberbridge/client.py:159-160 | of a vertex line the first three numbers are read and the rest is not |
| ObjText.OtherLinesAddNothing | python/cyberbridge/client.py:156-163 | empty lines, other keywords and short vertex lines add nothing, wherever they stand |
| ObjText.BadFaceFails | python/cyberbridge/client.py:163 | one face index that is no integer fails its line |
| ObjText.BadLineFails | python/cyberbridge/client.py:155-164 | and one line that fails fails the whole text |
| ObjText.LineParsesBack | python/cyberbridge/client.py:155-163 | a written line is one line and says what it was written from |
| ObjText.ItemsParseBack | python/cyberbridge/client.py:150-175 | the lines of a written text read back as its items, in order |
| ObjText.LoadAfterSave | python/cyberbridge/client.py:150-175 | a saved mesh loads back as the same mesh, empty faces and indices of any size and sign included |
| Bridge.Client.ReadExact | python/cyberbridge/client.py:64-74 | for every way the bytes arrive, exactly the next n bytes are returned and consumed, or the closed connection is reported |
| Bridge.Client.Exchange | python/cyberbridge/client.py:76-88 | one frame is sent and one frame is read; an over-limit length closes the connection with no payload byte consumed; no connection and an unpackable request are refused |
| Bridge.Client.ExchangeAll | python/cyberbridge/client.py:76-88 | k exchanges return the k framed payloads in order and stop exactly on the next frame boundary |
| Bridge.UnpackOfPack | python/cyberbridge/client.py:80-81 | the big-endian prefix of every 32-bit length unpacks to that length |
| Bridge.PackOfUnpack | python/cyberbridge/client.py:80-81 | and every four bytes are the prefix of the length they unpack to |
| Bridge.FirstByteDecides | python/cyberbridge/client.py:80-81 | of two prefixes the first byte that differs decides which length is greater: the most significant byte comes first |
| Bridge.ReadFrameOfFrame | python/cyberbridge/client.py:81-85 | a framed payload is read back whole, whatever follows it |
| Bridge.FrameOfReadFrame | python/cyberbridge/client.py:81-85 | conversely a payload that is read was framed at the head of the stream |
| Bridge.ReadFramesOfFrames | python/cyberbridge/client.py:81-85 | any sequence of frames is read back as it was sent: the wire format delimits itself |
| CountSearch.SearchMatchedCount | examples/11_benchmark.py:96-131 | against any probe the search follows the rules, returns the earliest successful attempt with least error or None exactly when there is none, and terminates by the distance to the ceiling, not by the cap |
| CountSearch.Judge | examples/11_benchmark.py:114-130 | one round stops exactly on a failed probe, a count within tolerance, a saturated count or a correction that cannot raise the request |
| CountSearch.NextTargetIs | examples/11_benchmark.py:126-127 | short of the desired count the next request is the greatest that does not pass target * desired / got, or the ceiling of four times the desired count |
| CountSearch.ProportionalProbe | examples/11_benchmark.py:126-127 | against a probe that answers in proportion to the request, the corrected request is the greatest whose count does not pass the desired one |
| CountSearch.ErrorIsRelative | examples/11_benchmark.py:116 | the error is the miss in proportion to the desired count, on either side |
| CountSearch.RequestsRise | examples/11_benchmark.py:110-130 | requests rise strictly from the desired count and never pass four times it |
| CountSearch.CountsGrow | examples/11_benchmark.py:121-125 | every probe that is followed by another stayed below the desired count and is at least the first count times 1.02 to the power of its position, so the number of probes is logarithmic, cap or no cap |
| CountSearch.OvershootStops | examples/11_benchmark.py:127-129 | once the desired count is reached the correction cannot raise the request |
| CountSearch.NoProbeAfterOvershoot | examples/11_benchmark.py:123-130 | so no probe follows an overshoot |

## Left out

- Spheres.SphereObj: rings < 2 is not specified; the source then emits faces that are not a sphere's.
- Spheres.Blob: the same below two rings.
- Slab.SlabIsTwoSided: only the undirected form, because the directed form is false for every size.
- Arguments.ParseArgs: what the options hold after a refused command line or an early exit is not specified; the caller does not run with them.
- ObjText.LoadAfterSave: `'\r\n'` is two line breaks here, the second of an empty line; `int()` takes ASCII digits with a sign, without the underscores, other scripts' digits and surrounding blanks of Python's; a float's text is a word that reads back as the float.
- Bridge.Client.Exchange: JSON encoding is done by the caller and decoding is a parameter; timeouts and a send that fails halfway are not modelled.
- Charts.UvCharts: a UV index past the end, where the source raises, is excluded; a negative one is skipped as in the source. `Charts.ChartIds` reads a negative UV index from the end of the list, as Python does.
- NumberGrammar.RecognisersAgree: the value and the range predicate of the two C++ libraries are parameters, and floating-point rounding is not modelled.
- CountSearch.SearchMatchedCount: errors and corrections are exact, where the source computes them in floating point.
- Vertex positions, trigonometry and file writing of the generators; the vertices are counted as they are written, and the face lists are modelled in full.
- Geogram, AutoRemesher, TBB and OpenMP: arbitrary steps that write to a stream or cite; a pool thread or an OpenMP level is a bit the environment sets.
- A host that installs one of the two filter buffers itself, or that redirects a stream inside another thread's locked region.
- An exception out of the one-time initialisation (std::call_once would try again), and overflow of a counter by 2^64 nested solves.
- The preservation of signal handlers, locale and the new-handler around the initialisation.
- The integer parser of `parseNumber`, the availability of a backend and the pinning of it: parameters of the command line's environment.
- The retry loop of `autoremesher_remesh`, `cube_obj`, `uv_sphere_obj`, `bumpy_sphere_obj`, report writing and the output mesh pipeline: easier, or not closed in index space.
