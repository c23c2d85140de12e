/** `parseArgs` and `validateBakeFlags`: the command line as a set of option settings. */
module Arguments {
  import opened Options
  import opened Flags
  import Placement

  /** A parsed float; from_chars accepts the infinities and NaN by name. */
  datatype Float = Number(value: real) | Infinity(negative: bool) | NotANumber

  datatype Setting =
    | Text(text: string)
    | Int(n: int)
    | Real(f: Float)
    | Matrix(entries: seq<Float>)
    | On

  /** The fields that a flag has set; presence is the "was given" bit. */
  type CliOptions = map<Slot, Setting>

  /** The number parsers, and whether a backend of that name exists and is available. */
  datatype Env = Env(
    parseFloat: string -> Option<Float>,
    parseInt: string -> Option<int>,
    parseLong: string -> Option<int>,
    backendAvailable: string -> bool)

  /** exit code 2; exit code 0 with exitEarly; exit code 0 and options to run with. */
  datatype Outcome = Rejected | Early | Accepted(options: CliOptions)

  const EXIT_OK := 0
  const EXIT_ARGS := 2

  // ---------------------------------------------------------------- values

  function RealSetting(f: Option<Float>): Option<Setting> {
    if f.None? then None else Some(Real(f.value))
  }

  function IntSetting(n: Option<int>): Option<Setting> {
    if n.None? then None else Some(Int(n.value))
  }

  function OneOf(text: string, names: set<string>): Option<Setting> {
    if text in names then Some(Text(text)) else None
  }

  function MatrixSetting(csv: string, env: Env): Option<Setting> {
    var fields := Placement.Csv(csv);
    if |fields| == Placement.ENTRIES && Placement.Accepted(fields, env.parseFloat) then
      Some(Matrix(seq(|fields|, i requires 0 <= i < |fields| && env.parseFloat(fields[i]).Some? =>
                      env.parseFloat(fields[i]).value)))
    else None
  }

  /** Only `min-faces:N` sets the minimum face count; the other policies leave it as it was. */
  function PolicySettings(text: string, env: Env): Option<CliOptions> {
    if text == "keep-largest" || text == "keep-all" then Some(map[PatchPolicy := Text(text)])
    else if |text| >= 10 && text[..10] == "min-faces:" then
      var n := env.parseInt(text[10..]);
      if n.None? then None else Some(map[PatchPolicy := Text("min-faces"), PatchMinFaces := Int(n.value)])
    else None
  }

  function ValueOf(slot: Slot, text: string, env: Env): Option<Setting> {
    match slot
    case CageDistance => RealSetting(env.parseFloat(text))
    case ThicknessScale => RealSetting(env.parseFloat(text))
    case EdgeScale => RealSetting(env.parseFloat(text))
    case SharpEdge => RealSetting(env.parseFloat(text))
    case SmoothNormal => RealSetting(env.parseFloat(text))
    case Adaptivity => RealSetting(env.parseFloat(text))
    case TextureSize => IntSetting(env.parseInt(text))
    case AoSamples => IntSetting(env.parseInt(text))
    case Padding => IntSetting(env.parseInt(text))
    case TargetQuads => IntSetting(env.parseInt(text))
    case HoleFill => IntSetting(env.parseInt(text))
    case BakeWorkingSet => IntSetting(env.parseLong(text))
    case PlacementMatrix => MatrixSetting(text, env)
    case Quality => OneOf(text, {"fast", "best"})
    case Symmetry => OneOf(text, {"none", "x", "y", "z"})
    case QuadMethod =>
      OneOf(text, {"zremesher", "quad-cover", "field-aligned", "instant-meshes", "integer", "greedy"})
    case _ => Some(Text(text))
  }

  /** What the value of a flag sets; None is an argument error. */
  function Meaning(slot: Slot, text: string, env: Env): Option<CliOptions> {
    if slot == PatchPolicy then PolicySettings(text, env)
    else
      var value := ValueOf(slot, text, env);
      if value.None? then None else Some(map[slot := value.value])
  }

  // ---------------------------------------------------------------- the checks after the loop

  function TextOr(o: CliOptions, slot: Slot, default: string): string {
    if slot in o && o[slot].Text? then o[slot].text else default
  }

  predicate Given(o: CliOptions, slot: Slot) {
    TextOr(o, slot, "") != ""
  }

  predicate AtLeastZero(f: Float) {
    match f
    case Number(x) => x >= 0.0
    case Infinity(negative) => !negative
    case NotANumber => false
  }

  predicate IntAtLeastZero(o: CliOptions, slot: Slot) {
    slot in o && o[slot].Int? ==> o[slot].n >= 0
  }

  /** What `validateBakeFlags` lets pass. */
  predicate BakeFlagsValid(o: CliOptions) {
    && (ThicknessScale in o && o[ThicknessScale].Real? ==> AtLeastZero(o[ThicknessScale].f))
    && (BentNormalSpace in o ==> TextOr(o, BentNormalSpace, "") in {"tangent", "object"})
    && IntAtLeastZero(o, Padding)
    && IntAtLeastZero(o, BakeWorkingSet)
    && TextOr(o, Density, "") in {"", "absolute", "relative"}
  }

  function WithImpliedPreset(o: CliOptions): CliOptions {
    if Given(o, BakeMaps) && !Given(o, Preset) then o[Preset := Text("gltf-generic")] else o
  }

  function Finish(o: CliOptions, env: Env): Outcome {
    if (Given(o, LayoutReport) || Given(o, LayoutMesh)) && TextOr(o, QuadMethod, "quad-cover") != "zremesher" then
      Rejected
    else if Given(o, Input) && Given(o, Target) then Rejected
    else if (!Given(o, Input) && !Given(o, Target)) || !Given(o, Output) then Rejected
    else FinishBake(WithImpliedPreset(o), env)
  }

  /** The checks from `validateBakeFlags` on. */
  function FinishBake(o: CliOptions, env: Env): Outcome {
    if !BakeFlagsValid(o) then Rejected
    else if Given(o, Backend) && !env.backendAvailable(TextOr(o, Backend, "")) then Rejected
    else Accepted(o)
  }

  // ---------------------------------------------------------------- the loop

  /** What a command line is read with: the flags, the meaning of a flag's value, the checks at the end. */
  datatype Rules = Rules(
    kind: string -> Kind,
    meaning: (Slot, string) -> Option<CliOptions>,
    finish: CliOptions -> Outcome)

  function CliRules(env: Env): Rules {
    Rules(KindOf, (slot, text) => Meaning(slot, text, env), o => Finish(o, env))
  }

  /** The rest of the command line from argument `i` on. */
  function Scan(argv: seq<string>, i: nat, o: CliOptions, rules: Rules): Outcome
    requires i <= |argv|
    decreases |argv| - i
  {
    if i == |argv| then rules.finish(o)
    else
      match rules.kind(argv[i])
      case EarlyExit => Early
      case Unknown => Rejected
      case Switch(slot) => Scan(argv, i + 1, o + map[slot := On], rules)
      case Valued(slot) =>
        if i + 1 == |argv| then Rejected
        else
          var settings := rules.meaning(slot, argv[i + 1]);
          if settings.None? then Rejected else Scan(argv, i + 2, o + settings.value, rules)
  }

  method ParseArgs(argv: seq<string>, env: Env) returns (code: int, exitEarly: bool, options: CliOptions)
    ensures var outcome := Scan(argv, 0, map[], CliRules(env));
      && code == (if outcome.Rejected? then EXIT_ARGS else EXIT_OK)
      && exitEarly == outcome.Early?
      && (outcome.Accepted? ==> options == outcome.options)
  {
    options, exitEarly := map[], false;
    ghost var rules := CliRules(env);
    var i := 0;
    while i < |argv|
      invariant i <= |argv| && !exitEarly
      invariant Scan(argv, 0, map[], rules) == Scan(argv, i, options, rules)
      decreases |argv| - i
    {
      var kind := KindOf(argv[i]);
      match kind
      case EarlyExit =>
        return EXIT_OK, true, options;
      case Unknown =>
        return EXIT_ARGS, false, options;
      case Switch(slot) =>
        options := options + map[slot := On];
        i := i + 1;
      case Valued(slot) =>
        if i + 1 >= |argv| {
          return EXIT_ARGS, false, options;
        }
        var settings := Meaning(slot, argv[i + 1], env);
        if settings.None? {
          return EXIT_ARGS, false, options;
        }
        options := options + settings.value;
        i := i + 2;
    }
    code, options := CheckOptions(options, env);
  }

  /** `validateBakeFlags`; an integer that was not given keeps its default of 0. */
  method ValidateBakeFlags(o: CliOptions) returns (code: int)
    ensures code == if BakeFlagsValid(o) then EXIT_OK else EXIT_ARGS
  {
    if ThicknessScale in o && o[ThicknessScale].Real? && !AtLeastZero(o[ThicknessScale].f) {
      return EXIT_ARGS;
    }
    var space := TextOr(o, BentNormalSpace, "");
    if BentNormalSpace in o && space != "tangent" && space != "object" {
      return EXIT_ARGS;
    }
    var radius := if Padding in o && o[Padding].Int? then o[Padding].n else 0;
    if radius < 0 {
      return EXIT_ARGS;
    }
    var workingSet := if BakeWorkingSet in o && o[BakeWorkingSet].Int? then o[BakeWorkingSet].n else 0;
    if workingSet < 0 {
      return EXIT_ARGS;
    }
    var density := TextOr(o, Density, "");
    if density != "" && density != "absolute" && density != "relative" {
      return EXIT_ARGS;
    }
    return EXIT_OK;
  }

  /** The checks after the loop, in the source's order. */
  method CheckOptions(before: CliOptions, env: Env) returns (code: int, options: CliOptions)
    ensures code == if Finish(before, env).Rejected? then EXIT_ARGS else EXIT_OK
    ensures code == EXIT_OK ==> Finish(before, env) == Accepted(options)
  {
    options := before;
    if (Given(options, LayoutReport) || Given(options, LayoutMesh)) &&
       TextOr(options, QuadMethod, "quad-cover") != "zremesher" {
      return EXIT_ARGS, options;
    }
    if Given(options, Input) && Given(options, Target) {
      return EXIT_ARGS, options;
    }
    if (!Given(options, Input) && !Given(options, Target)) || !Given(options, Output) {
      return EXIT_ARGS, options;
    }
    if Given(options, BakeMaps) && !Given(options, Preset) {
      options := options[Preset := Text("gltf-generic")];
    }
    var bake := ValidateBakeFlags(options);
    if bake != EXIT_OK {
      return EXIT_ARGS, options;
    }
    if Given(options, Backend) && !env.backendAvailable(TextOr(options, Backend, "")) {
      return EXIT_ARGS, options;
    }
    return EXIT_OK, options;
  }

  // ---------------------------------------------------------------- the rules of accepted options

  /** One mesh to read, one place to write to, and layout files from zremesher only. */
  predicate FilesConsistent(o: CliOptions) {
    && (Given(o, Input) <==> !Given(o, Target))
    && Given(o, Output)
    && (Given(o, LayoutReport) || Given(o, LayoutMesh) ==> TextOr(o, QuadMethod, "quad-cover") == "zremesher")
  }

  /** The options keep every cross-flag rule. */
  predicate Consistent(o: CliOptions, env: Env) {
    && FilesConsistent(o)
    && (Given(o, BakeMaps) ==> Given(o, Preset))
    && BakeFlagsValid(o)
    && (Given(o, Backend) ==> env.backendAvailable(TextOr(o, Backend, "")))
  }

  lemma ImpliedPresetOnly(o: CliOptions)
    ensures FilesConsistent(WithImpliedPreset(o)) <==> FilesConsistent(o)
    ensures Given(WithImpliedPreset(o), BakeMaps) ==> Given(WithImpliedPreset(o), Preset)
  {
    assert forall slot: Slot :: slot != Preset ==> SameAt(WithImpliedPreset(o), o, slot);
  }

  lemma FilesRefusedIff(o: CliOptions, env: Env)
    ensures Finish(o, env) == if FilesConsistent(o) then FinishBake(WithImpliedPreset(o), env) else Rejected
  {
  }

  /** A finished option set is accepted exactly when it is consistent once a bake has implied its
      preset, and nothing else is then changed. */
  lemma AcceptedIffConsistent(o: CliOptions, env: Env)
    ensures Finish(o, env) ==
            if Consistent(WithImpliedPreset(o), env) then Accepted(WithImpliedPreset(o)) else Rejected
  {
    FilesRefusedIff(o, env);
    ImpliedPresetOnly(o);
  }

  /** An accepted command line went through the checks with some set of options. */
  lemma {:induction false} AcceptedIsFinished(argv: seq<string>, i: nat, o: CliOptions, rules: Rules)
    returns (last: CliOptions)
    requires i <= |argv| && Scan(argv, i, o, rules).Accepted?
    ensures Scan(argv, i, o, rules) == rules.finish(last)
    decreases |argv| - i
  {
    if i == |argv| {
      last := o;
    } else {
      match rules.kind(argv[i])
      case Switch(slot) =>
        last := AcceptedIsFinished(argv, i + 1, o + map[slot := On], rules);
      case Valued(slot) =>
        last := AcceptedIsFinished(argv, i + 2, o + rules.meaning(slot, argv[i + 1]).value, rules);
    }
  }

  /** Whatever the command line, options that are accepted keep every cross-flag rule. */
  lemma AcceptedIsConsistent(argv: seq<string>, env: Env)
    requires Scan(argv, 0, map[], CliRules(env)).Accepted?
    ensures Consistent(Scan(argv, 0, map[], CliRules(env)).options, env)
  {
    var last := AcceptedIsFinished(argv, 0, map[], CliRules(env));
    AcceptedIffConsistent(last, env);
  }

  // ---------------------------------------------------------------- groups of a flag and its value

  /** A flag with its value, if it takes one. */
  datatype Group = Group(flag: string, value: Option<string>)

  predicate WellFormed(g: Group, rules: Rules) {
    var kind := rules.kind(g.flag);
    (kind.Switch? && g.value.None?) || (kind.Valued? && g.value.Some?)
  }

  function SlotOf(g: Group, rules: Rules): Slot
    requires WellFormed(g, rules)
  {
    rules.kind(g.flag).slot
  }

  /** What a group sets; None is an argument error. */
  function SettingsOf(g: Group, rules: Rules): Option<CliOptions>
    requires WellFormed(g, rules)
  {
    if g.value.None? then Some(map[SlotOf(g, rules) := On]) else rules.meaning(SlotOf(g, rules), g.value.value)
  }

  predicate Sets(g: Group, rules: Rules, slot: Slot)
    requires WellFormed(g, rules)
  {
    SettingsOf(g, rules).Some? && slot in SettingsOf(g, rules).value
  }

  function GroupArgs(g: Group): seq<string> {
    if g.value.Some? then [g.flag, g.value.value] else [g.flag]
  }

  function Args(groups: seq<Group>): seq<string> {
    if groups == [] then [] else GroupArgs(groups[0]) + Args(groups[1..])
  }

  predicate AllWellFormed(groups: seq<Group>, rules: Rules) {
    forall g <- groups :: WellFormed(g, rules)
  }

  predicate AllMeaningful(groups: seq<Group>, rules: Rules)
    requires AllWellFormed(groups, rules)
  {
    forall g <- groups :: SettingsOf(g, rules).Some?
  }

  /** The options after making each group's settings in turn; a later one overrides. */
  function Assign(o: CliOptions, groups: seq<Group>, rules: Rules): CliOptions
    requires AllWellFormed(groups, rules) && AllMeaningful(groups, rules)
    decreases |groups|
  {
    if groups == [] then o else Assign(o + SettingsOf(groups[0], rules).value, groups[1..], rules)
  }

  lemma {:induction false} ScanShift(before: seq<string>, argv: seq<string>, i: nat, o: CliOptions, rules: Rules)
    requires i <= |argv|
    ensures Scan(before + argv, |before| + i, o, rules) == Scan(argv, i, o, rules)
    decreases |argv| - i
  {
    var all := before + argv;
    if i < |argv| {
      assert all[|before| + i] == argv[i];
      match rules.kind(argv[i])
      case Switch(slot) =>
        ScanShift(before, argv, i + 1, o + map[slot := On], rules);
      case Valued(slot) =>
        if i + 1 < |argv| {
          assert all[|before| + i + 1] == argv[i + 1];
          var settings := rules.meaning(slot, argv[i + 1]);
          if settings.Some? {
            ScanShift(before, argv, i + 2, o + settings.value, rules);
          }
        }
      case _ =>
    }
  }

  /** One group makes its settings and the scan goes on behind it. */
  lemma ScanOfGroup(g: Group, argv: seq<string>, o: CliOptions, rules: Rules)
    requires WellFormed(g, rules)
    ensures Scan(GroupArgs(g) + argv, 0, o, rules) ==
            if SettingsOf(g, rules).Some? then Scan(argv, 0, o + SettingsOf(g, rules).value, rules) else Rejected
  {
    var all := GroupArgs(g) + argv;
    assert all[0] == g.flag;
    if g.value.Some? {
      assert all[1] == g.value.value;
    }
    if SettingsOf(g, rules).Some? {
      ScanShift(GroupArgs(g), argv, 0, o + SettingsOf(g, rules).value, rules);
    }
  }

  /** A command line of well-formed groups is accepted on the settings it makes, or refused for
      one that has no meaning. */
  lemma {:induction false} ScanOfGroups(groups: seq<Group>, o: CliOptions, rules: Rules)
    requires AllWellFormed(groups, rules)
    ensures Scan(Args(groups), 0, o, rules) ==
            if AllMeaningful(groups, rules) then rules.finish(Assign(o, groups, rules)) else Rejected
    decreases |groups|
  {
    if groups != [] {
      var g, rest := groups[0], groups[1..];
      assert groups == [g] + rest;
      assert AllMeaningful(groups, rules) <==> SettingsOf(g, rules).Some? && AllMeaningful(rest, rules);
      ScanOfGroup(g, Args(rest), o, rules);
      if SettingsOf(g, rules).Some? {
        ScanOfGroups(rest, o + SettingsOf(g, rules).value, rules);
      }
    }
  }

  /** The command line of such groups is accepted exactly when every value has a meaning and the
      settings, with the preset a bake implies, keep every rule; they are then the result. */
  lemma GroupsAcceptedIff(groups: seq<Group>, env: Env)
    requires AllWellFormed(groups, CliRules(env))
    ensures var rules := CliRules(env);
      Scan(Args(groups), 0, map[], rules) ==
      if AllMeaningful(groups, rules) && Consistent(WithImpliedPreset(Assign(map[], groups, rules)), env) then
        Accepted(WithImpliedPreset(Assign(map[], groups, rules)))
      else Rejected
  {
    ScanOfGroups(groups, map[], CliRules(env));
    if AllMeaningful(groups, CliRules(env)) {
      AcceptedIffConsistent(Assign(map[], groups, CliRules(env)), env);
    }
  }

  /** Every accepted command line is one of well-formed groups. */
  lemma {:induction false} AcceptedHasGroups(argv: seq<string>, i: nat, o: CliOptions, rules: Rules)
    returns (groups: seq<Group>)
    requires i <= |argv| && Scan(argv, i, o, rules).Accepted?
    ensures AllWellFormed(groups, rules) && Args(groups) == argv[i..]
    decreases |argv| - i
  {
    if i == |argv| {
      groups := [];
    } else {
      var g, rest;
      match rules.kind(argv[i]) {
        case Switch(slot) =>
          g := Group(argv[i], None);
          rest := AcceptedHasGroups(argv, i + 1, o + map[slot := On], rules);
        case Valued(slot) =>
          g := Group(argv[i], Some(argv[i + 1]));
          rest := AcceptedHasGroups(argv, i + 2, o + rules.meaning(slot, argv[i + 1]).value, rules);
      }
      groups := [g] + rest;
      assert groups[1..] == rest;
      assert argv[i..] == GroupArgs(g) + argv[i + |GroupArgs(g)|..];
    }
  }

  // ---------------------------------------------------------------- the last setting counts

  /** Both agree on `slot`. */
  predicate SameAt(r: CliOptions, s: CliOptions, slot: Slot) {
    (slot in r <==> slot in s) && (slot in r ==> r[slot] == s[slot])
  }

  /** A slot that no group sets stays as it was. */
  lemma {:induction false} UnsetSlot(o: CliOptions, groups: seq<Group>, rules: Rules, slot: Slot)
    requires AllWellFormed(groups, rules) && AllMeaningful(groups, rules)
    requires forall g <- groups :: !Sets(g, rules, slot)
    ensures SameAt(Assign(o, groups, rules), o, slot)
    decreases |groups|
  {
    if groups != [] {
      assert !Sets(groups[0], rules, slot);
      UnsetSlot(o + SettingsOf(groups[0], rules).value, groups[1..], rules, slot);
    }
  }

  /** Group `k` is the last that sets the slot. */
  predicate SetsLast(groups: seq<Group>, rules: Rules, k: int, slot: Slot)
    requires AllWellFormed(groups, rules)
  {
    0 <= k < |groups| && Sets(groups[k], rules, slot) &&
    forall j :: k < j < |groups| ==> !Sets(groups[j], rules, slot)
  }

  /** The last group that sets a slot decides what it ends up with. */
  lemma {:induction false} LastSettingCounts(o: CliOptions, groups: seq<Group>, rules: Rules, k: nat, slot: Slot)
    requires AllWellFormed(groups, rules) && AllMeaningful(groups, rules) && SetsLast(groups, rules, k, slot)
    ensures var r := Assign(o, groups, rules);
      slot in r && r[slot] == SettingsOf(groups[k], rules).value[slot]
    decreases |groups|
  {
    var g, rest := groups[0], groups[1..];
    var o' := o + SettingsOf(g, rules).value;
    if k == 0 {
      forall h | h in rest
        ensures !Sets(h, rules, slot)
      {
        var i :| 0 <= i < |rest| && rest[i] == h;
        assert groups[i + 1] == h;
      }
      UnsetSlot(o', rest, rules, slot);
    } else {
      LastSettingCounts(o', rest, rules, k - 1, slot);
    }
  }

  // ---------------------------------------------------------------- what the options hold

  /** How the value of an option is written. */
  datatype Form = FloatForm | IntForm | LongForm | MatrixForm | Names(names: set<string>) | PolicyForm | AnyText

  function FormOf(slot: Slot): Form {
    match slot
    case Input | Output | Target | Report | Guides | LayoutReport | LayoutMesh => AnyText
    case Preset | BakeMaps | BentNormalSpace | Density | Backend => AnyText
    case CageDistance | ThicknessScale => FloatForm
    case EdgeScale | SharpEdge | SmoothNormal | Adaptivity => FloatForm
    case TextureSize | AoSamples | Padding | TargetQuads | HoleFill => IntForm
    case BakeWorkingSet => LongForm
    case PlacementMatrix => MatrixForm
    case Quality => Names({"best", "fast"})
    case Symmetry => Names({"x", "y", "z", "none"})
    case QuadMethod =>
      Names({"zremesher", "quad-cover", "field-aligned", "instant-meshes", "integer", "greedy"})
    case PatchPolicy => PolicyForm
    case _ => AnyText
  }

  predicate IsMinFaces(text: string) {
    "min-faces:" <= text
  }

  /** The text, written in that form, reads as the setting. */
  ghost predicate Reads(form: Form, text: string, env: Env, setting: Setting) {
    match form
    case FloatForm => setting.Real? && env.parseFloat(text) == Some(setting.f)
    case IntForm => setting.Int? && env.parseInt(text) == Some(setting.n)
    case LongForm => setting.Int? && env.parseLong(text) == Some(setting.n)
    case MatrixForm =>
      && setting.Matrix? && |setting.entries| == 16 == |Placement.Csv(text)|
      && forall i :: 0 <= i < 16 ==> env.parseFloat(Placement.Csv(text)[i]) == Some(setting.entries[i])
    case Names(names) => setting == Text(text) && text in names
    case PolicyForm =>
      if IsMinFaces(text) then setting == Text("min-faces") && env.parseInt(text[10..]).Some?
      else setting == Text(text) && text in {"keep-largest", "keep-all"}
    case AnyText => setting == Text(text)
  }

  /** The group gives the option. The minimum face count comes with one patch policy. */
  predicate Gives(g: Group, slot: Slot) {
    if slot.PatchMinFaces? then g.flag == "--patch-policy" && g.value.Some? && IsMinFaces(g.value.value)
    else g.flag in FlagsOf(slot)
  }

  /** And gives it as the setting. */
  ghost predicate GivesAs(g: Group, slot: Slot, env: Env, setting: Setting) {
    if IsSwitch(slot) then g.value.None? && setting == On
    else if slot.PatchMinFaces? then
      g.value.Some? && |g.value.value| >= 10 && setting.Int? && env.parseInt(g.value.value[10..]) == Some(setting.n)
    else g.value.Some? && Reads(FormOf(slot), g.value.value, env, setting)
  }

  lemma MatrixReads(csv: string, env: Env)
    requires MatrixSetting(csv, env).Some?
    ensures Reads(MatrixForm, csv, env, MatrixSetting(csv, env).value)
  {
  }

  lemma PolicyReads(text: string, env: Env)
    requires PolicySettings(text, env).Some?
    ensures var s := PolicySettings(text, env).value;
      && PatchPolicy in s && Reads(PolicyForm, text, env, s[PatchPolicy])
      && (PatchMinFaces in s <==> IsMinFaces(text))
      && (IsMinFaces(text) ==> s[PatchMinFaces].Int? && env.parseInt(text[10..]) == Some(s[PatchMinFaces].n))
      && forall slot <- s :: slot == PatchPolicy || slot == PatchMinFaces
  {
    assert |"min-faces:"| == 10;
    assert IsMinFaces(text) <==> |text| >= 10 && text[..10] == "min-faces:";
    assert text == "keep-largest" || text == "keep-all" ==> text[0] != "min-faces:"[0];
  }

  lemma ValueReads(slot: Slot, text: string, env: Env)
    requires slot != PatchPolicy && !IsSwitch(slot) && slot != PatchMinFaces && ValueOf(slot, text, env).Some?
    ensures Reads(FormOf(slot), text, env, ValueOf(slot, text, env).value)
  {
    if slot == PlacementMatrix {
      MatrixReads(text, env);
    }
  }

  lemma MeaningReads(own: Slot, text: string, slot: Slot, env: Env)
    requires !IsSwitch(own) && own != PatchMinFaces && Meaning(own, text, env).Some?
    ensures var s := Meaning(own, text, env).value;
      && (slot in s <==> slot == own || (own == PatchPolicy && slot == PatchMinFaces && IsMinFaces(text)))
      && (slot == own ==> Reads(FormOf(slot), text, env, s[slot]))
      && (slot in s && slot == PatchMinFaces ==>
            |text| >= 10 && s[slot].Int? && env.parseInt(text[10..]) == Some(s[slot].n))
  {
    if own == PatchPolicy {
      PolicyReads(text, env);
    } else {
      ValueReads(own, text, env);
    }
  }

  predicate KindRight(kind: Kind, flag: string, slot: Slot) {
    && (kind == Switch(slot) <==> flag in FlagsOf(slot) && IsSwitch(slot))
    && (kind == Valued(slot) <==> flag in FlagsOf(slot) && !IsSwitch(slot))
  }

  /** The rules dispatch on the flags of the options and read their values as the program does. */
  ghost predicate IsCli(rules: Rules, env: Env) {
    && (forall flag, slot :: KindRight(rules.kind(flag), flag, slot))
    && (forall slot, text :: rules.meaning(slot, text) == Meaning(slot, text, env))
  }

  lemma CliKinds(env: Env, flag: string, slot: Slot)
    ensures KindRight(CliRules(env).kind(flag), flag, slot)
  {
    KindOfIff(flag, slot);
  }

  lemma CliRulesAreCli(env: Env)
    ensures IsCli(CliRules(env), env)
  {
    var rules := CliRules(env);
    forall flag, slot
      ensures KindRight(rules.kind(flag), flag, slot)
    {
      CliKinds(env, flag, slot);
    }
  }

  lemma OwnSlot(g: Group, slot: Slot, rules: Rules, env: Env)
    requires IsCli(rules, env) && WellFormed(g, rules)
    ensures SlotOf(g, rules) != PatchMinFaces && g.flag in FlagsOf(SlotOf(g, rules))
    ensures SlotOf(g, rules) == slot <==> g.flag in FlagsOf(slot)
    ensures g.value.None? <==> IsSwitch(SlotOf(g, rules))
  {
    assert KindRight(rules.kind(g.flag), g.flag, slot);
    assert KindRight(rules.kind(g.flag), g.flag, SlotOf(g, rules));
  }

  lemma GivesOwn(g: Group, slot: Slot, rules: Rules, env: Env)
    requires IsCli(rules, env) && WellFormed(g, rules)
    ensures var own := SlotOf(g, rules);
      Gives(g, slot) <==>
      slot == own || (own == PatchPolicy && slot == PatchMinFaces && g.value.Some? && IsMinFaces(g.value.value))
  {
    if slot == PatchMinFaces {
      OwnSlot(g, PatchPolicy, rules, env);
    } else {
      OwnSlot(g, slot, rules, env);
    }
  }

  /** A group sets exactly the options that it gives, and as what it gives. */
  lemma SetsIffGives(g: Group, slot: Slot, rules: Rules, env: Env)
    requires IsCli(rules, env) && WellFormed(g, rules) && SettingsOf(g, rules).Some?
    ensures Sets(g, rules, slot) <==> Gives(g, slot)
    ensures Gives(g, slot) ==> GivesAs(g, slot, env, SettingsOf(g, rules).value[slot])
  {
    var own := SlotOf(g, rules);
    GivesOwn(g, slot, rules, env);
    OwnSlot(g, own, rules, env);
    if g.value.Some? {
      assert SettingsOf(g, rules) == Meaning(own, g.value.value, env);
      MeaningReads(own, g.value.value, slot, env);
    }
  }

  /** Group `k` is the last that gives the option. */
  predicate GivesLast(groups: seq<Group>, k: int, slot: Slot) {
    0 <= k < |groups| && Gives(groups[k], slot) && forall j :: k < j < |groups| ==> !Gives(groups[j], slot)
  }

  lemma {:induction false} LastGiver(groups: seq<Group>, slot: Slot, n: nat) returns (k: int)
    requires n <= |groups| && forall j :: n <= j < |groups| ==> !Gives(groups[j], slot)
    ensures k == -1 || GivesLast(groups, k, slot)
    ensures k == -1 ==> forall g <- groups :: !Gives(g, slot)
    decreases n
  {
    if n == 0 || Gives(groups[n - 1], slot) {
      k := n - 1;
    } else {
      k := LastGiver(groups, slot, n - 1);
    }
  }

  /** The option holds what the last group that gives it gives, and is unset where none does. */
  ghost predicate HoldsLast(groups: seq<Group>, env: Env, slot: Slot, o: CliOptions) {
    && (forall k :: GivesLast(groups, k, slot) ==> slot in o && GivesAs(groups[k], slot, env, o[slot]))
    && ((forall g <- groups :: !Gives(g, slot)) ==> slot !in o)
  }

  lemma FinalSetting(groups: seq<Group>, rules: Rules, env: Env, slot: Slot)
    requires IsCli(rules, env) && AllWellFormed(groups, rules) && AllMeaningful(groups, rules)
    ensures HoldsLast(groups, env, slot, Assign(map[], groups, rules))
  {
    forall g | g in groups
      ensures Sets(g, rules, slot) <==> Gives(g, slot)
      ensures Gives(g, slot) ==> GivesAs(g, slot, env, SettingsOf(g, rules).value[slot])
    {
      SetsIffGives(g, slot, rules, env);
    }
    forall k | GivesLast(groups, k, slot)
      ensures var r := Assign(map[], groups, rules); slot in r && GivesAs(groups[k], slot, env, r[slot])
    {
      LastSettingCounts(map[], groups, rules, k, slot);
    }
    if forall g <- groups :: !Gives(g, slot) {
      UnsetSlot(map[], groups, rules, slot);
    }
  }

  /** The options an accepted command line ends up with, before and after a bake without a preset
      implies one: every one of them holds the reading of the last value given to it. */
  lemma AcceptedHoldsLast(groups: seq<Group>, env: Env) returns (given: CliOptions)
    requires AllWellFormed(groups, CliRules(env)) && Scan(Args(groups), 0, map[], CliRules(env)).Accepted?
    ensures forall slot: Slot :: HoldsLast(groups, env, slot, given)
    ensures var implied := BakeMaps in given && given[BakeMaps] != Text("") &&
                           (Preset !in given || given[Preset] == Text(""));
      Scan(Args(groups), 0, map[], CliRules(env)).options ==
      if implied then given[Preset := Text("gltf-generic")] else given
  {
    GroupsAcceptedIff(groups, env);
    CliRulesAreCli(env);
    given := Assign(map[], groups, CliRules(env));
    forall slot: Slot
      ensures HoldsLast(groups, env, slot, given)
    {
      FinalSetting(groups, CliRules(env), env, slot);
    }
    HoldsText(groups, env, BakeMaps, given);
    HoldsText(groups, env, Preset, given);
  }

  lemma HoldsText(groups: seq<Group>, env: Env, slot: Slot, o: CliOptions)
    requires HoldsLast(groups, env, slot, o) && FormOf(slot) == AnyText && !IsSwitch(slot) && slot != PatchMinFaces
    ensures slot in o ==> o[slot].Text?
  {
    var k := LastGiver(groups, slot, |groups|);
  }

  // ---------------------------------------------------------------- an infinite thickness scale

  /** What the refusal of `--thickness-scale` asks for: a finite number, at least zero. */
  predicate ThicknessIsFinite(o: CliOptions) {
    ThicknessScale in o ==>
      o[ThicknessScale].Real? && o[ThicknessScale].f.Number? && o[ThicknessScale].f.value >= 0.0
  }

  /** The last value given to `--thickness-scale` reads as positive infinity. */
  predicate LastThicknessIsInfinite(groups: seq<Group>, env: Env, k: int) {
    && 0 <= k < |groups| && groups[k].flag == "--thickness-scale" && groups[k].value.Some?
    && env.parseFloat(groups[k].value.value) == Some(Infinity(false))
    && forall j :: k < j < |groups| ==> groups[j].flag != "--thickness-scale"
  }

  /** An accepted command line's thickness scale is absent, or finite and at least zero, if and
      only if the last value given to `--thickness-scale` is not positive infinity. */
  lemma ThicknessIsFiniteIff(groups: seq<Group>, env: Env)
    requires AllWellFormed(groups, CliRules(env)) && Scan(Args(groups), 0, map[], CliRules(env)).Accepted?
    ensures ThicknessIsFinite(Scan(Args(groups), 0, map[], CliRules(env)).options) <==>
            !exists k :: LastThicknessIsInfinite(groups, env, k)
  {
    var given := AcceptedHoldsLast(groups, env);
    AcceptedThickness(groups, env, given);
    assert HoldsLast(groups, env, ThicknessScale, given);
    LastThickness(groups, env, given);
  }

  lemma LastThickness(groups: seq<Group>, env: Env, given: CliOptions)
    requires HoldsLast(groups, env, ThicknessScale, given)
    ensures ThicknessScale in given ==> given[ThicknessScale].Real?
    ensures ThicknessScale in given && given[ThicknessScale] == Real(Infinity(false)) <==>
            exists k :: LastThicknessIsInfinite(groups, env, k)
  {
    forall g: Group
      ensures Gives(g, ThicknessScale) <==> g.flag == "--thickness-scale"
    {
    }
    forall k | LastThicknessIsInfinite(groups, env, k)
      ensures GivesLast(groups, k, ThicknessScale)
    {
    }
    var k := LastGiver(groups, ThicknessScale, |groups|);
    if k >= 0 && given[ThicknessScale] == Real(Infinity(false)) {
      assert LastThicknessIsInfinite(groups, env, k);
    }
  }

  /** The check has passed. */
  lemma AcceptedThickness(groups: seq<Group>, env: Env, given: CliOptions)
    requires AllWellFormed(groups, CliRules(env)) && Scan(Args(groups), 0, map[], CliRules(env)).Accepted?
    requires var o := Scan(Args(groups), 0, map[], CliRules(env)).options;
      o == given || o == given[Preset := Text("gltf-generic")]
    ensures SameAt(Scan(Args(groups), 0, map[], CliRules(env)).options, given, ThicknessScale)
    ensures ThicknessScale in given && given[ThicknessScale].Real? ==> AtLeastZero(given[ThicknessScale].f)
  {
    AcceptedIsConsistent(Args(groups), env);
  }

  /** Positive infinity passes the check whose refusal asks for a finite number. */
  lemma InfiniteThicknessIsAccepted(env: Env)
    requires env.parseFloat("inf") == Some(Infinity(false))
    ensures Scan(["--input", "a", "--output", "b", "--thickness-scale", "inf"], 0, map[], CliRules(env)) ==
            Accepted(map[Input := Text("a"), Output := Text("b"), ThicknessScale := Real(Infinity(false))])
  {
    var rules := CliRules(env);
    KindOfIff("--input", Input);
    KindOfIff("--output", Output);
    KindOfIff("--thickness-scale", ThicknessScale);
    ThreeGroups("--input", "a", Input, "--output", "b", Output, "--thickness-scale", "inf", ThicknessScale, rules);
    OnlyThicknessInfinite(env);
  }

  lemma OnlyThicknessInfinite(env: Env)
    ensures var o := map[Input := Text("a")] + map[Output := Text("b")] + map[ThicknessScale := Real(Infinity(false))];
      Finish(o, env) == Accepted(map[Input := Text("a"), Output := Text("b"), ThicknessScale := Real(Infinity(false))])
  {
    var o := map[Input := Text("a")] + map[Output := Text("b")] + map[ThicknessScale := Real(Infinity(false))];
    assert o == map[Input := Text("a"), Output := Text("b"), ThicknessScale := Real(Infinity(false))];
    assert WithImpliedPreset(o) == o;
    AcceptedIffConsistent(o, env);
  }

  lemma ThreeGroups(f: string, u: string, x: Slot, g: string, v: string, y: Slot,
                    h: string, w: string, z: Slot, rules: Rules)
    requires rules.kind(f) == Valued(x) && rules.kind(g) == Valued(y) && rules.kind(h) == Valued(z)
    requires rules.meaning(x, u).Some? && rules.meaning(y, v).Some? && rules.meaning(z, w).Some?
    ensures Scan([f, u, g, v, h, w], 0, map[], rules) ==
            rules.finish(rules.meaning(x, u).value + rules.meaning(y, v).value + rules.meaning(z, w).value)
  {
    var argv := [f, u, g, v, h, w];
    var one := rules.meaning(x, u).value;
    var two := one + rules.meaning(y, v).value;
    assert map[] + one == one;
    assert Scan(argv, 4, two, rules) == Scan(argv, 6, two + rules.meaning(z, w).value, rules);
    assert Scan(argv, 2, one, rules) == Scan(argv, 4, two, rules);
  }

  // ---------------------------------------------------------------- order does not matter

  lemma SameGroups(a: seq<Group>, b: seq<Group>)
    requires multiset(a) == multiset(b)
    ensures forall g :: g in a <==> g in b
  {
    assert forall g :: g in a <==> g in multiset(a);
  }

  /** No slot is set by two groups. */
  predicate Disjoint(groups: seq<Group>, rules: Rules)
    requires AllWellFormed(groups, rules)
  {
    forall i, slot :: 0 <= i < |groups| && Sets(groups[i], rules, slot) ==> SetsLast(groups, rules, i, slot)
  }

  lemma OrderKeepsSlot(a: seq<Group>, b: seq<Group>, rules: Rules, slot: Slot)
    requires forall g :: g in a <==> g in b
    requires AllWellFormed(a, rules) && AllMeaningful(a, rules) && Disjoint(a, rules)
    requires AllWellFormed(b, rules) && AllMeaningful(b, rules) && Disjoint(b, rules)
    ensures SameAt(Assign(map[], a, rules), Assign(map[], b, rules), slot)
  {
    if g :| g in a && Sets(g, rules, slot) {
      var i :| 0 <= i < |a| && a[i] == g;
      var j :| 0 <= j < |b| && b[j] == g;
      LastSettingCounts(map[], a, rules, i, slot);
      LastSettingCounts(map[], b, rules, j, slot);
    } else {
      UnsetSlot(map[], a, rules, slot);
      UnsetSlot(map[], b, rules, slot);
    }
  }

  lemma SameEverywhere(r: CliOptions, s: CliOptions)
    requires forall slot: Slot :: SameAt(r, s, slot)
    ensures r == s
  {
    forall slot: Slot
      ensures slot in r <==> slot in s
      ensures slot in r ==> r[slot] == s[slot]
    {
      assert SameAt(r, s, slot);
    }
  }

  lemma OrderKeepsOptions(a: seq<Group>, b: seq<Group>, rules: Rules)
    requires forall g :: g in a <==> g in b
    requires AllWellFormed(a, rules) && AllMeaningful(a, rules) && Disjoint(a, rules)
    requires AllWellFormed(b, rules) && AllMeaningful(b, rules) && Disjoint(b, rules)
    ensures Assign(map[], a, rules) == Assign(map[], b, rules)
  {
    var r, s := Assign(map[], a, rules), Assign(map[], b, rules);
    forall slot: Slot
      ensures SameAt(r, s, slot)
    {
      OrderKeepsSlot(a, b, rules, slot);
    }
    SameEverywhere(r, s);
  }

  /** No flag is given twice, aliases counted as one flag. */
  predicate NoRepeats(groups: seq<Group>, rules: Rules)
    requires AllWellFormed(groups, rules)
  {
    forall i, j :: 0 <= i < j < |groups| ==> SlotOf(groups[i], rules) != SlotOf(groups[j], rules)
  }

  /** A slot is set by its own flag only; the minimum face count is set by the patch policy's. */
  function Owner(slot: Slot): Slot {
    if slot == PatchMinFaces then PatchPolicy else slot
  }

  lemma FlagsOwnTheirSlots(g: Group, slot: Slot, rules: Rules, env: Env)
    requires IsCli(rules, env) && WellFormed(g, rules) && Sets(g, rules, slot)
    ensures SlotOf(g, rules) == Owner(slot)
  {
    SetsIffGives(g, slot, rules, env);
    OwnSlot(g, Owner(slot), rules, env);
  }

  lemma NoRepeatsIsDisjoint(groups: seq<Group>, rules: Rules, env: Env)
    requires IsCli(rules, env) && AllWellFormed(groups, rules) && NoRepeats(groups, rules)
    ensures Disjoint(groups, rules)
  {
    forall i, j, slot | 0 <= i < j < |groups| && Sets(groups[i], rules, slot)
      ensures !Sets(groups[j], rules, slot)
    {
      if Sets(groups[j], rules, slot) {
        FlagsOwnTheirSlots(groups[i], slot, rules, env);
        FlagsOwnTheirSlots(groups[j], slot, rules, env);
        assert false;
      }
    }
  }

  /** The order of the flag groups changes neither the exit status nor the options. */
  lemma OrderDoesNotMatter(a: seq<Group>, b: seq<Group>, env: Env)
    requires multiset(a) == multiset(b)
    requires AllWellFormed(a, CliRules(env)) && NoRepeats(a, CliRules(env))
    requires AllWellFormed(b, CliRules(env)) && NoRepeats(b, CliRules(env))
    ensures Scan(Args(a), 0, map[], CliRules(env)) == Scan(Args(b), 0, map[], CliRules(env))
  {
    var rules := CliRules(env);
    ScanOfGroups(a, map[], rules);
    ScanOfGroups(b, map[], rules);
    SameGroups(a, b);
    CliRulesAreCli(env);
    NoRepeatsIsDisjoint(a, rules, env);
    NoRepeatsIsDisjoint(b, rules, env);
    if AllMeaningful(a, rules) {
      OrderKeepsOptions(a, b, rules);
    }
  }
}
