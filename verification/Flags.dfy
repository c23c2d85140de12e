/** The flags of the command line: which option each of them sets. */
module Flags {

  /** The option fields; aliases of a flag share one. */
  datatype Slot =
    | Input | Target | BakeMaps | Output | Preset | CageDistance | TextureSize | AoSamples
    | ThicknessScale | BentNormalSpace | Padding | BakeWorkingSet | PlacementMatrix | Density
    | Quality | Symmetry | Guides | LayoutReport | LayoutMesh | Report | TargetQuads | EdgeScale
    | SharpEdge | SmoothNormal | Adaptivity | HoleFill | PureQuads | QuadMethod | PatchPolicy
    | PatchMinFaces | Backend | Verbose | Quiet

  datatype Kind = EarlyExit | Switch(slot: Slot) | Valued(slot: Slot) | Unknown

  /** The dispatch of the argument loop. */
  function KindOf(arg: string): Kind {
    if arg == "--version" || arg == "--list-backends" || arg == "--list-presets" ||
       arg == "--list-bake-maps" || arg == "--help" || arg == "-h" then EarlyExit
    else PathKind(arg)
  }

  function PathKind(arg: string): Kind {
    if arg == "--input" || arg == "-i" then Valued(Input)
    else if arg == "--target" then Valued(Target)
    else if arg == "--bake" then Valued(BakeMaps)
    else if arg == "--output" || arg == "-o" then Valued(Output)
    else if arg == "--preset" then Valued(Preset)
    else BakeKind(arg)
  }

  function BakeKind(arg: string): Kind {
    if arg == "--cage" then Valued(CageDistance)
    else if arg == "--texture-size" then Valued(TextureSize)
    else if arg == "--ao-samples" then Valued(AoSamples)
    else if arg == "--thickness-scale" then Valued(ThicknessScale)
    else if arg == "--bent-normal-space" then Valued(BentNormalSpace)
    else if arg == "--padding" then Valued(Padding)
    else ImageKind(arg)
  }

  function ImageKind(arg: string): Kind {
    if arg == "--bake-working-set" then Valued(BakeWorkingSet)
    else if arg == "--placement" then Valued(PlacementMatrix)
    else if arg == "--density" then Valued(Density)
    else LayoutKind(arg)
  }

  function LayoutKind(arg: string): Kind {
    if arg == "--quality" then Valued(Quality)
    else if arg == "--symmetry" then Valued(Symmetry)
    else if arg == "--guides" then Valued(Guides)
    else if arg == "--layout-report" then Valued(LayoutReport)
    else if arg == "--layout-mesh" then Valued(LayoutMesh)
    else if arg == "--report" then Valued(Report)
    else RemeshKind(arg)
  }

  function RemeshKind(arg: string): Kind {
    if arg == "--target-quads" then Valued(TargetQuads)
    else if arg == "--edge-scale" then Valued(EdgeScale)
    else if arg == "--sharp-edge" then Valued(SharpEdge)
    else if arg == "--smooth-normal" then Valued(SmoothNormal)
    else if arg == "--adaptivity" then Valued(Adaptivity)
    else if arg == "--hole-fill" then Valued(HoleFill)
    else MethodKind(arg)
  }

  function MethodKind(arg: string): Kind {
    if arg == "--pure-quads" then Switch(PureQuads)
    else if arg == "--quad-method" then Valued(QuadMethod)
    else if arg == "--patch-policy" then Valued(PatchPolicy)
    else if arg == "--backend" then Valued(Backend)
    else if arg == "--verbose" then Switch(Verbose)
    else if arg == "--quiet" then Switch(Quiet)
    else Unknown
  }

  // ---------------------------------------------------------------- the flags of each option

  /** The flags that set an option, aliases included. Only the value of `--patch-policy` sets the
      minimum face count. */
  function FlagsOf(slot: Slot): set<string> {
    match slot
    case Input => {"--input", "-i"}
    case Output => {"--output", "-o"}
    case Target => {"--target"}
    case Preset => {"--preset"}
    case Report => {"--report"}
    case Guides => {"--guides"}
    case LayoutReport => {"--layout-report"}
    case LayoutMesh => {"--layout-mesh"}
    case BakeMaps => {"--bake"}
    case CageDistance => {"--cage"}
    case TextureSize => {"--texture-size"}
    case AoSamples => {"--ao-samples"}
    case ThicknessScale => {"--thickness-scale"}
    case BentNormalSpace => {"--bent-normal-space"}
    case Padding => {"--padding"}
    case BakeWorkingSet => {"--bake-working-set"}
    case PlacementMatrix => {"--placement"}
    case Density => {"--density"}
    case TargetQuads => {"--target-quads"}
    case EdgeScale => {"--edge-scale"}
    case SharpEdge => {"--sharp-edge"}
    case SmoothNormal => {"--smooth-normal"}
    case Adaptivity => {"--adaptivity"}
    case HoleFill => {"--hole-fill"}
    case PureQuads => {"--pure-quads"}
    case Quality => {"--quality"}
    case QuadMethod => {"--quad-method"}
    case Symmetry => {"--symmetry"}
    case PatchPolicy => {"--patch-policy"}
    case PatchMinFaces => {}
    case Backend => {"--backend"}
    case Verbose => {"--verbose"}
    case Quiet => {"--quiet"}
  }

  /** The options that are set without a value. */
  predicate IsSwitch(slot: Slot) {
    slot.PureQuads? || slot.Verbose? || slot.Quiet?
  }

  const EARLY_EXITS := {"--version", "--list-backends", "--list-presets", "--list-bake-maps", "--help", "-h"}

  /** What a flag is read as when it sets `slot`. */
  function KindFor(slot: Slot): Kind {
    if IsSwitch(slot) then Switch(slot) else Valued(slot)
  }

  /** The flag is one of those that set the option it is read as setting. */
  predicate Told(flag: string, kind: Kind) {
    match kind
    case EarlyExit => flag in EARLY_EXITS
    case Switch(slot) => flag in FlagsOf(slot) && IsSwitch(slot)
    case Valued(slot) => flag in FlagsOf(slot) && !IsSwitch(slot)
    case Unknown => true
  }

  lemma MethodTells(flag: string)
    ensures Told(flag, MethodKind(flag))
  {
  }

  lemma RemeshTells(flag: string)
    ensures Told(flag, RemeshKind(flag))
  {
    MethodTells(flag);
  }

  lemma LayoutTells(flag: string)
    ensures Told(flag, LayoutKind(flag))
  {
    RemeshTells(flag);
  }

  lemma ImageTells(flag: string)
    ensures Told(flag, ImageKind(flag))
  {
    LayoutTells(flag);
  }

  lemma BakeTells(flag: string)
    ensures Told(flag, BakeKind(flag))
  {
    ImageTells(flag);
  }

  lemma PathTells(flag: string)
    ensures Told(flag, PathKind(flag))
  {
    BakeTells(flag);
  }

  lemma KindTells(flag: string)
    ensures Told(flag, KindOf(flag))
  {
    PathTells(flag);
  }

  lemma EarlyFlags()
    ensures forall flag <- EARLY_EXITS :: KindOf(flag).EarlyExit?
  {
  }

  lemma FileFlags(slot: Slot, flag: string)
    requires (slot.Input? || slot.Target? || slot.BakeMaps? || slot.Output? || slot.Preset?) && flag in FlagsOf(slot)
    ensures KindOf(flag) == KindFor(slot)
  {
  }

  lemma CageFlags(slot: Slot, flag: string)
    requires (slot.CageDistance? || slot.TextureSize? || slot.AoSamples?) && flag in FlagsOf(slot)
    ensures KindOf(flag) == KindFor(slot)
  {
  }

  lemma EncodingFlags(slot: Slot, flag: string)
    requires (slot.ThicknessScale? || slot.BentNormalSpace? || slot.Padding?) && flag in FlagsOf(slot)
    ensures KindOf(flag) == KindFor(slot)
  {
  }

  lemma ImageFlags(slot: Slot, flag: string)
    requires (slot.BakeWorkingSet? || slot.PlacementMatrix? || slot.Density?) && flag in FlagsOf(slot)
    ensures KindOf(flag) == KindFor(slot)
  {
  }

  lemma SolveFlags(slot: Slot, flag: string)
    requires (slot.Quality? || slot.Symmetry? || slot.Guides?) && flag in FlagsOf(slot)
    ensures KindOf(flag) == KindFor(slot)
  {
  }

  lemma ReportFlags(slot: Slot, flag: string)
    requires (slot.LayoutReport? || slot.LayoutMesh? || slot.Report?) && flag in FlagsOf(slot)
    ensures KindOf(flag) == KindFor(slot)
  {
  }

  lemma DensityFlags(slot: Slot, flag: string)
    requires (slot.TargetQuads? || slot.EdgeScale?) && flag in FlagsOf(slot)
    ensures KindOf(flag) == KindFor(slot)
  {
  }

  lemma AngleFlags(slot: Slot, flag: string)
    requires (slot.SharpEdge? || slot.SmoothNormal?) && flag in FlagsOf(slot)
    ensures KindOf(flag) == KindFor(slot)
  {
  }

  lemma SurfaceFlags(slot: Slot, flag: string)
    requires (slot.Adaptivity? || slot.HoleFill?) && flag in FlagsOf(slot)
    ensures KindOf(flag) == KindFor(slot)
  {
  }

  lemma MethodFlags(slot: Slot, flag: string)
    requires (slot.PureQuads? || slot.QuadMethod?) && flag in FlagsOf(slot)
    ensures KindOf(flag) == KindFor(slot)
  {
  }

  lemma PolicyFlags(slot: Slot, flag: string)
    requires (slot.PatchPolicy? || slot.Backend?) && flag in FlagsOf(slot)
    ensures KindOf(flag) == KindFor(slot)
  {
  }

  lemma TalkFlags(slot: Slot, flag: string)
    requires (slot.Verbose? || slot.Quiet?) && flag in FlagsOf(slot)
    ensures KindOf(flag) == KindFor(slot)
  {
  }

  lemma FlagsAreRead(slot: Slot, flag: string)
    requires flag in FlagsOf(slot)
    ensures KindOf(flag) == KindFor(slot)
  {
    match slot
    case Input | Target | BakeMaps | Output | Preset => FileFlags(slot, flag);
    case CageDistance | TextureSize | AoSamples => CageFlags(slot, flag);
    case ThicknessScale | BentNormalSpace | Padding => EncodingFlags(slot, flag);
    case BakeWorkingSet | PlacementMatrix | Density => ImageFlags(slot, flag);
    case Quality | Symmetry | Guides => SolveFlags(slot, flag);
    case LayoutReport | LayoutMesh | Report => ReportFlags(slot, flag);
    case TargetQuads | EdgeScale => DensityFlags(slot, flag);
    case SharpEdge | SmoothNormal => AngleFlags(slot, flag);
    case Adaptivity | HoleFill => SurfaceFlags(slot, flag);
    case PureQuads | QuadMethod => MethodFlags(slot, flag);
    case PatchPolicy | Backend => PolicyFlags(slot, flag);
    case Verbose | Quiet => TalkFlags(slot, flag);
  }

  /** The dispatch reads a flag as setting an option exactly when it is one of the option's flags,
      and every option is either a switch or takes a value. */
  lemma KindOfIff(flag: string, slot: Slot)
    ensures KindOf(flag).EarlyExit? <==> flag in EARLY_EXITS
    ensures KindOf(flag) == Switch(slot) <==> flag in FlagsOf(slot) && IsSwitch(slot)
    ensures KindOf(flag) == Valued(slot) <==> flag in FlagsOf(slot) && !IsSwitch(slot)
  {
    KindTells(flag);
    EarlyFlags();
    if flag in FlagsOf(slot) {
      FlagsAreRead(slot, flag);
    }
  }

  /** So no flag belongs to two options, and what belongs to none is refused. */
  lemma UnknownIff(flag: string)
    ensures KindOf(flag).Unknown? <==> flag !in EARLY_EXITS && forall slot: Slot :: flag !in FlagsOf(slot)
  {
    KindTells(flag);
    EarlyFlags();
    forall slot: Slot | flag in FlagsOf(slot)
      ensures KindOf(flag) == KindFor(slot)
    {
      FlagsAreRead(slot, flag);
    }
  }
}
