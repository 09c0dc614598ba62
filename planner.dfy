/** What one run of `ruby_ui:component <name>` does to the host application,
    as a sequence of actions computed from the component's template folder,
    the host's importmap setting and dependencies.yml. */
module Planner {
  import opened Wrappers
  import opened Seqs
  import opened Paths
  import opened Commands

  /** One effect on the host application. */
  datatype Action =
    | Copy(src: string, dst: string)         // copy_file
    | Run(command: string)                   // run
    | InjectPin(file: string, text: string)  // inject_into_file, appending at the end
    | InstallJs(package: string)             // install_js_package

  /** What the filesystem holds at the component's template folder: nothing,
      or a directory with these entry names (in no particular order). */
  datatype Listing = Missing | Present(entries: seq<string>)

  /** component_not_found? */
  predicate ComponentNotFound(folder: Listing)
    ensures ComponentNotFound(folder) ==> Entries(folder) == []
  {
    folder.Missing?
  }

  /** The entries a glob sees: a missing folder has none. */
  function Entries(folder: Listing): (entries: seq<string>)
  {
    if folder.Present? then folder.entries else []
  }

  /** Entry names as a directory lists them: unique, without separators. */
  predicate WellFormed(entries: seq<string>)
  {
    Distinct(entries) && forall e :: e in entries ==> '/' !in e
  }

  /** A component's entry in dependencies.yml: category name to list, where a
      category written without a value is None. */
  type Record = map<string, Option<seq<string>>>

  /** dependencies.yml: component folder name to its record. */
  type Catalog = map<string, Record>

  /** `@dependencies[component_folder_name]`. */
  function Lookup(catalog: Catalog, name: string): (dep: Option<Record>)
    ensures dep.Some? <==> name in catalog
    ensures dep.Some? ==> dep.value == catalog[name]
  {
    if name in catalog then Some(catalog[name]) else None
  }

  /** `dependencies["<key>"]`. */
  function Category(dep: Record, key: string): (values: Option<seq<string>>)
  {
    if key in dep then dep[key] else None
  }

  /** `dependencies.blank?`: nil or an empty hash. */
  predicate Blank(dep: Option<Record>)
    ensures !Blank(dep) ==> dep.Some? && exists key :: key in dep.value
  {
    dep.None? || dep.value == map[]
  }

  /** The names a category contributes once the blank check has passed. */
  function Listed(dep: Option<Record>, key: string): (names: seq<string>)
  {
    if Blank(dep) then [] else OrEmpty(Category(dep.value, key))
  }

  // ---- The steps, in the order Thor runs them ----

  /** copy_main_component_file */
  function MainCopy(root: string, name: string, entries: seq<string>): (copies: seq<Action>)
    ensures |copies| == if name + ".rb" in entries then 1 else 0
  {
    if name + ".rb" in entries then [Copy(MainComponentFilePath(root, name), MainComponentTarget(name))] else []
  }

  /** copy_related_component_files, for the given related paths. */
  function RelatedCopies(name: string, paths: seq<string>): (copies: seq<Action>)
    requires forall p :: p in paths ==> HasBasename(p)
  {
    seq(|paths|, i requires 0 <= i < |paths| => Copy(paths[i], RelatedComponentTarget(name, Basename(paths[i]))))
  }

  /** The copies of copy_js_files, for the given controller paths. */
  function ControllerCopies(paths: seq<string>): (copies: seq<Action>)
    requires forall p :: p in paths ==> HasBasename(p)
  {
    seq(|paths|, i requires 0 <= i < |paths| => Copy(paths[i], ControllerTarget(Basename(paths[i]))))
  }

  /** Extending the related paths by one extends their copies by one. */
  lemma RelatedCopiesPrefix(name: string, paths: seq<string>, i: nat)
    requires forall p :: p in paths ==> HasBasename(p)
    requires i < |paths|
    ensures RelatedCopies(name, paths[..i + 1]) ==
      RelatedCopies(name, paths[..i]) + [Copy(paths[i], RelatedComponentTarget(name, Basename(paths[i])))]
  {
    assert paths[..i + 1][i] == paths[i];
  }

  lemma ControllerCopiesPrefix(paths: seq<string>, i: nat)
    requires forall p :: p in paths ==> HasBasename(p)
    requires i < |paths|
    ensures ControllerCopies(paths[..i + 1]) ==
      ControllerCopies(paths[..i]) + [Copy(paths[i], ControllerTarget(Basename(paths[i])))]
  {
    assert paths[..i + 1][i] == paths[i];
  }

  /** The tail of copy_js_files: the manifest update it may run. */
  function ManifestRun(controllers: seq<string>, usingImportmap: bool): (steps: seq<Action>)
  {
    if controllers != [] && !usingImportmap then [Run(ManifestUpdate)] else []
  }

  /** The copies and the manifest update of one run, before its dependencies. */
  function FileSteps(root: string, name: string, entries: seq<string>, usingImportmap: bool): (steps: seq<Action>)
  {
    MainCopy(root, name, entries)
    + RelatedCopies(name, RelatedComponentsFilePaths(root, name, entries))
    + ControllerCopies(JsControllerFilePaths(root, name, entries))
    + ManifestRun(JsControllerFilePaths(root, name, entries), usingImportmap)
  }

  /** install_components_dependencies */
  function ComponentRuns(components: seq<string>): (steps: seq<Action>)
  {
    seq(|components|, i requires 0 <= i < |components| => Run(ComponentCommand(components[i])))
  }

  /** install_gems_dependencies */
  function GemRuns(gems: seq<string>): (steps: seq<Action>)
  {
    seq(|gems|, i requires 0 <= i < |gems| => Run(GemCommand(gems[i])))
  }

  /** install_js_packages */
  function JsInstalls(packages: seq<string>): (steps: seq<Action>)
  {
    seq(|packages|, i requires 0 <= i < |packages| => InstallJs(packages[i]))
  }

  /** install_dependencies */
  function DependencySteps(dep: Option<Record>): (steps: seq<Action>)
    ensures Blank(dep) ==> steps == []
    ensures |steps| == |Listed(dep, "components")| + |Listed(dep, "gems")| + |Listed(dep, "js_packages")|
  {
    if Blank(dep) then []
    else
      ComponentRuns(OrEmpty(Category(dep.value, "components")))
      + GemRuns(OrEmpty(Category(dep.value, "gems")))
      + JsInstalls(OrEmpty(Category(dep.value, "js_packages")))
  }

  /** Everything one generator run does: generate_component aborts on a
      missing folder, otherwise the file steps and then the dependency steps. */
  function Plan(root: string, name: string, folder: Listing, usingImportmap: bool, catalog: Catalog): (actions: seq<Action>)
    ensures ComponentNotFound(folder) ==> actions == []
    ensures folder.Present? ==>
      |actions| == |FileSteps(root, name, folder.entries, usingImportmap)| + |DependencySteps(Lookup(catalog, name))|
  {
    match folder
    case Missing => []
    case Present(entries) => FileSteps(root, name, entries, usingImportmap) + DependencySteps(Lookup(catalog, name))
  }

  /** Running the steps of a present folder one after the other appends its plan. */
  lemma PlanOfSteps(root: string, name: string, entries: seq<string>, usingImportmap: bool, catalog: Catalog,
                    before: seq<Action>, after: seq<Action>)
    requires after == before
      + MainCopy(root, name, entries)
      + RelatedCopies(name, RelatedComponentsFilePaths(root, name, entries))
      + ControllerCopies(JsControllerFilePaths(root, name, entries))
      + ManifestRun(JsControllerFilePaths(root, name, entries), usingImportmap)
      + DependencySteps(Lookup(catalog, name))
    ensures after == before + Plan(root, name, Present(entries), usingImportmap, catalog)
  {
    var m := MainCopy(root, name, entries);
    var r := RelatedCopies(name, RelatedComponentsFilePaths(root, name, entries));
    var js := JsControllerFilePaths(root, name, entries);
    var c := ControllerCopies(js);
    var u := ManifestRun(js, usingImportmap);
    var d := DependencySteps(Lookup(catalog, name));
    AppendAssociative(before, m, r);
    AppendAssociative(before, m + r, c);
    AppendAssociative(before, m + r + c, u);
    AppendAssociative(before, m + r + c + u, d);
  }

  // ---- Properties of the plan ----

  /** A missing template folder stops generation before any copy, run, pin
      or install. */
  lemma MissingFolderDoesNothing(root: string, name: string, usingImportmap: bool, catalog: Catalog)
    ensures Plan(root, name, Missing, usingImportmap, catalog) == []
  {
  }

  // The stages of a run, in the order they happen.
  const MainStage: nat := 0
  const RelatedStage: nat := 1
  const ControllerStage: nat := 2
  const ManifestStage: nat := 3
  const ComponentStage: nat := 4
  const GemStage: nat := 5
  const PackageStage: nat := 6
  /** Actions that belong to no step of a run, such as a pin. */
  const OtherStage: nat := 7

  /** The stage an action belongs to, read off the action itself. */
  function Phase(name: string, a: Action): (k: nat)
    ensures k <= OtherStage
  {
    match a
    case Copy(_, dst) =>
      if dst == MainComponentTarget(name) then MainStage
      else if StartsWith(dst, ControllersDir + "/") then ControllerStage
      else RelatedStage
    case Run(command) =>
      if command == ManifestUpdate then ManifestStage
      else if StartsWith(command, "bin/rails generate ruby_ui:component ") then ComponentStage
      else if StartsWith(command, "bundle show ") then GemStage
      else OtherStage
    case InstallJs(_) => PackageStage
    case InjectPin(_, _) => OtherStage
  }

  /** The actions each stage contributes to a run on a present folder, in
      stage order. */
  function Stages(root: string, name: string, entries: seq<string>, usingImportmap: bool, dep: Option<Record>): (stages: seq<seq<Action>>)
    ensures |stages| == OtherStage
  {
    var js := JsControllerFilePaths(root, name, entries);
    [ MainCopy(root, name, entries),
      RelatedCopies(name, RelatedComponentsFilePaths(root, name, entries)),
      ControllerCopies(js),
      ManifestRun(js, usingImportmap),
      ComponentRuns(Listed(dep, "components")),
      GemRuns(Listed(dep, "gems")),
      JsInstalls(Listed(dep, "js_packages")) ]
  }

  /** The actions stage `k` contributes; OtherStage contributes none. */
  function StageSteps(root: string, name: string, entries: seq<string>, usingImportmap: bool, dep: Option<Record>, k: nat): (steps: seq<Action>)
  {
    var stages := Stages(root, name, entries, usingImportmap, dep);
    if k < |stages| then stages[k] else []
  }

  predicate InPhase(name: string, s: seq<Action>, k: nat)
  {
    forall a :: a in s ==> Phase(name, a) == k
  }

  predicate PhaseAtMost(name: string, s: seq<Action>, k: nat)
  {
    forall a :: a in s ==> Phase(name, a) <= k
  }

  predicate PhaseOrdered(name: string, s: seq<Action>)
  {
    forall i, j :: 0 <= i < j < |s| ==> Phase(name, s[i]) <= Phase(name, s[j])
  }

  /** Each step emits actions of its own stage only. */
  lemma StepPhases(root: string, name: string, entries: seq<string>, usingImportmap: bool, dep: Option<Record>)
    ensures InPhase(name, MainCopy(root, name, entries), MainStage)
    ensures InPhase(name, RelatedCopies(name, RelatedComponentsFilePaths(root, name, entries)), RelatedStage)
    ensures InPhase(name, ControllerCopies(JsControllerFilePaths(root, name, entries)), ControllerStage)
    ensures InPhase(name, ManifestRun(JsControllerFilePaths(root, name, entries), usingImportmap), ManifestStage)
    ensures InPhase(name, ComponentRuns(Listed(dep, "components")), ComponentStage)
    ensures InPhase(name, GemRuns(Listed(dep, "gems")), GemStage)
    ensures InPhase(name, JsInstalls(Listed(dep, "js_packages")), PackageStage)
  {
    var related := RelatedCopies(name, RelatedComponentsFilePaths(root, name, entries));
    forall a | a in related ensures Phase(name, a) == RelatedStage {
      TargetsDisjoint(name, Basename(a.src), "");
    }
    var controllers := ControllerCopies(JsControllerFilePaths(root, name, entries));
    forall a | a in controllers ensures Phase(name, a) == ControllerStage {
      TargetsDisjoint(name, "", Basename(a.src));
    }
    var cs := ComponentRuns(Listed(dep, "components"));
    forall a | a in cs ensures Phase(name, a) == ComponentStage {
      var i :| 0 <= i < |cs| && cs[i] == a;
      CommandKinds(Listed(dep, "components")[i], "");
    }
    var gs := GemRuns(Listed(dep, "gems"));
    forall a | a in gs ensures Phase(name, a) == GemStage {
      var i :| 0 <= i < |gs| && gs[i] == a;
      CommandKinds("", Listed(dep, "gems")[i]);
    }
  }

  /** Appending a later stage keeps a sequence in stage order. */
  lemma OrderedAppend(name: string, s: seq<Action>, t: seq<Action>, k: nat)
    requires PhaseOrdered(name, s) && PhaseAtMost(name, s, k) && InPhase(name, t, k)
    ensures PhaseOrdered(name, s + t) && PhaseAtMost(name, s + t, k)
  {
    var r := s + t;
    forall i, j | 0 <= i < j < |r| ensures Phase(name, r[i]) <= Phase(name, r[j]) {
      if j < |s| {
        assert r[i] == s[i] && r[j] == s[j];
      } else if i < |s| {
        assert r[i] == s[i] && s[i] in s;
        assert r[j] == t[j - |s|] && t[j - |s|] in t;
      } else {
        assert r[i] == t[i - |s|] && t[i - |s|] in t;
        assert r[j] == t[j - |s|] && t[j - |s|] in t;
      }
    }
  }

  /** install_dependencies is the three category steps one after another;
      its blank check and the nil checks only skip steps that would be empty. */
  lemma DependencyStepsSplit(dep: Option<Record>)
    ensures DependencySteps(dep) ==
      ComponentRuns(Listed(dep, "components")) + GemRuns(Listed(dep, "gems")) + JsInstalls(Listed(dep, "js_packages"))
  {
    if Blank(dep) {
      assert ComponentRuns([]) == [] && GemRuns([]) == [] && JsInstalls([]) == [];
    }
  }

  /** install_dependencies emits the sub-component commands, then the gem
      commands, then the JS installs, each in record order and each category
      skipped when blank or nil. */
  lemma DependencyStepsLayout(dep: Option<Record>)
    ensures var cs, gs, js := Listed(dep, "components"), Listed(dep, "gems"), Listed(dep, "js_packages");
      && |DependencySteps(dep)| == |cs| + |gs| + |js|
      && (forall i :: 0 <= i < |cs| ==> DependencySteps(dep)[i] == Run(ComponentCommand(cs[i])))
      && (forall i :: 0 <= i < |gs| ==> DependencySteps(dep)[|cs| + i] == Run(GemCommand(gs[i])))
      && (forall i :: 0 <= i < |js| ==> DependencySteps(dep)[|cs| + |gs| + i] == InstallJs(js[i]))
  {
    DependencyStepsSplit(dep);
  }

  /** The run, step by step. */
  lemma PlanSteps(root: string, name: string, entries: seq<string>, usingImportmap: bool, catalog: Catalog)
    ensures var dep := Lookup(catalog, name);
      Plan(root, name, Present(entries), usingImportmap, catalog) ==
        MainCopy(root, name, entries)
        + RelatedCopies(name, RelatedComponentsFilePaths(root, name, entries))
        + ControllerCopies(JsControllerFilePaths(root, name, entries))
        + ManifestRun(JsControllerFilePaths(root, name, entries), usingImportmap)
        + ComponentRuns(Listed(dep, "components"))
        + GemRuns(Listed(dep, "gems"))
        + JsInstalls(Listed(dep, "js_packages"))
  {
    var dep := Lookup(catalog, name);
    DependencyStepsSplit(dep);
    var files := FileSteps(root, name, entries, usingImportmap);
    var s4, s5, s6 := ComponentRuns(Listed(dep, "components")), GemRuns(Listed(dep, "gems")), JsInstalls(Listed(dep, "js_packages"));
    AppendAssociative(files, s4 + s5, s6);
    AppendAssociative(files, s4, s5);
  }

  /** Files are copied before any dependency is installed, and the whole run
      goes: main file, related files, controllers, manifest update,
      sub-components, gems, JS packages. */
  lemma PlanInStageOrder(root: string, name: string, folder: Listing, usingImportmap: bool, catalog: Catalog)
    ensures PhaseOrdered(name, Plan(root, name, folder, usingImportmap, catalog))
    ensures PhaseAtMost(name, Plan(root, name, folder, usingImportmap, catalog), PackageStage)
  {
    if folder.Present? {
      var entries := folder.entries;
      var dep := Lookup(catalog, name);
      StepPhases(root, name, entries, usingImportmap, dep);
      var s0 := MainCopy(root, name, entries);
      var s1 := RelatedCopies(name, RelatedComponentsFilePaths(root, name, entries));
      var s2 := ControllerCopies(JsControllerFilePaths(root, name, entries));
      var s3 := ManifestRun(JsControllerFilePaths(root, name, entries), usingImportmap);
      var s4 := ComponentRuns(Listed(dep, "components"));
      var s5 := GemRuns(Listed(dep, "gems"));
      var s6 := JsInstalls(Listed(dep, "js_packages"));
      assert PhaseOrdered(name, s0);
      OrderedAppend(name, s0, s1, RelatedStage);
      OrderedAppend(name, s0 + s1, s2, ControllerStage);
      OrderedAppend(name, s0 + s1 + s2, s3, ManifestStage);
      OrderedAppend(name, s0 + s1 + s2 + s3, s4, ComponentStage);
      OrderedAppend(name, s0 + s1 + s2 + s3 + s4, s5, GemStage);
      OrderedAppend(name, s0 + s1 + s2 + s3 + s4 + s5, s6, PackageStage);
      PlanSteps(root, name, entries, usingImportmap, catalog);
    }
  }

  /** An action of one stage cannot occur in a step of another stage. */
  lemma AbsentFromOtherStage(name: string, s: seq<Action>, k: nat, a: Action)
    requires InPhase(name, s, k) && Phase(name, a) != k
    ensures multiset(s)[a] == 0
  {
  }

  /** Each stage emits only actions of that stage. */
  lemma StageInPhase(root: string, name: string, entries: seq<string>, usingImportmap: bool, dep: Option<Record>, k: nat)
    ensures InPhase(name, StageSteps(root, name, entries, usingImportmap, dep, k), k)
  {
    StepPhases(root, name, entries, usingImportmap, dep);
  }

  /** How often an action occurs in a run: the sum over the stages. */
  lemma CountInPlan(root: string, name: string, entries: seq<string>, usingImportmap: bool, catalog: Catalog, a: Action)
    ensures var dep := Lookup(catalog, name);
      multiset(Plan(root, name, Present(entries), usingImportmap, catalog))[a] ==
        multiset(StageSteps(root, name, entries, usingImportmap, dep, MainStage))[a]
        + multiset(StageSteps(root, name, entries, usingImportmap, dep, RelatedStage))[a]
        + multiset(StageSteps(root, name, entries, usingImportmap, dep, ControllerStage))[a]
        + multiset(StageSteps(root, name, entries, usingImportmap, dep, ManifestStage))[a]
        + multiset(StageSteps(root, name, entries, usingImportmap, dep, ComponentStage))[a]
        + multiset(StageSteps(root, name, entries, usingImportmap, dep, GemStage))[a]
        + multiset(StageSteps(root, name, entries, usingImportmap, dep, PackageStage))[a]
  {
    PlanSteps(root, name, entries, usingImportmap, catalog);
  }

  /** An action is counted only in the stage it belongs to: how often it
      occurs in a run is how often its own stage emits it. */
  lemma CountInOwnStage(root: string, name: string, entries: seq<string>, usingImportmap: bool, catalog: Catalog, a: Action)
    ensures multiset(Plan(root, name, Present(entries), usingImportmap, catalog))[a] ==
      multiset(StageSteps(root, name, entries, usingImportmap, Lookup(catalog, name), Phase(name, a)))[a]
  {
    var dep := Lookup(catalog, name);
    var own := Phase(name, a);
    forall k: nat | k <= PackageStage && k != own
      ensures multiset(StageSteps(root, name, entries, usingImportmap, dep, k))[a] == 0
    {
      StageInPhase(root, name, entries, usingImportmap, dep, k);
      AbsentFromOtherStage(name, StageSteps(root, name, entries, usingImportmap, dep, k), k, a);
    }
    CountInPlan(root, name, entries, usingImportmap, catalog, a);
    assert own == MainStage || own == RelatedStage || own == ControllerStage || own == ManifestStage
      || own == ComponentStage || own == GemStage || own == PackageStage || own == OtherStage;
  }

  /** The main file is copied exactly once when `<name>.rb` exists, and not
      at all otherwise, which is not an error. */
  lemma MainFileCopiedOnce(root: string, name: string, folder: Listing, usingImportmap: bool, catalog: Catalog)
    ensures multiset(Plan(root, name, folder, usingImportmap, catalog))[Copy(MainComponentFilePath(root, name), MainComponentTarget(name))]
      == if folder.Present? && name + ".rb" in folder.entries then 1 else 0
  {
    if folder.Present? {
      var main := Copy(MainComponentFilePath(root, name), MainComponentTarget(name));
      assert Phase(name, main) == MainStage;
      CountInOwnStage(root, name, folder.entries, usingImportmap, catalog, main);
    }
  }

  /** Neither a related file copy nor a controller copy reads the main file
      or writes the main file's target. */
  lemma OtherCopiesAvoidMainFile(root: string, name: string, entries: seq<string>)
    ensures forall a :: a in RelatedCopies(name, RelatedComponentsFilePaths(root, name, entries)) ==>
      a.Copy? && a.src != MainComponentFilePath(root, name) && a.dst != MainComponentTarget(name)
    ensures forall a :: a in ControllerCopies(JsControllerFilePaths(root, name, entries)) ==>
      a.Copy? && a.src != MainComponentFilePath(root, name) && a.dst != MainComponentTarget(name)
  {
    var related := RelatedComponentsFilePaths(root, name, entries);
    var s1 := RelatedCopies(name, related);
    forall a | a in s1 ensures a.Copy? && a.src != MainComponentFilePath(root, name) && a.dst != MainComponentTarget(name) {
      var i :| 0 <= i < |s1| && s1[i] == a;
      assert related[i] in related;
      TargetsDisjoint(name, Basename(related[i]), "");
    }
    var js := JsControllerFilePaths(root, name, entries);
    var s2 := ControllerCopies(js);
    MainFileIsNotController(root, name, entries);
    forall a | a in s2 ensures a.Copy? && a.src != MainComponentFilePath(root, name) && a.dst != MainComponentTarget(name) {
      var i :| 0 <= i < |s2| && s2[i] == a;
      assert js[i] in js;
      TargetsDisjoint(name, "", Basename(js[i]));
    }
  }

  /** A copy that reads the main file or writes the main file's target. */
  predicate TouchesMainFile(root: string, name: string, a: Action)
  {
    a.Copy? && (a.src == MainComponentFilePath(root, name) || a.dst == MainComponentTarget(name))
  }

  /** Any copy in the run that reads the main file or writes its target is
      the main file's own copy to `app/components/ruby_ui/<name>.rb`. */
  lemma MainFileOnlyToItsTarget(root: string, name: string, folder: Listing, usingImportmap: bool, catalog: Catalog)
    ensures forall a :: a in Plan(root, name, folder, usingImportmap, catalog) && TouchesMainFile(root, name, a) ==>
      a == Copy(MainComponentFilePath(root, name), MainComponentTarget(name))
  {
    if folder.Present? {
      var entries := folder.entries;
      var dep := Lookup(catalog, name);
      StepPhases(root, name, entries, usingImportmap, dep);
      PlanSteps(root, name, entries, usingImportmap, catalog);
      OtherCopiesAvoidMainFile(root, name, entries);
    }
  }

  /** rake stimulus:manifest:update runs at most once, and exactly when there
      is a controller to copy and the host does not use importmap. */
  lemma ManifestUpdateAtMostOnce(root: string, name: string, folder: Listing, usingImportmap: bool, catalog: Catalog)
    ensures multiset(Plan(root, name, folder, usingImportmap, catalog))[Run(ManifestUpdate)] ==
      if folder.Present? && JsControllerFilePaths(root, name, folder.entries) != [] && !usingImportmap then 1 else 0
  {
    if folder.Present? {
      var m := Run(ManifestUpdate);
      assert Phase(name, m) == ManifestStage;
      CountInOwnStage(root, name, folder.entries, usingImportmap, catalog, m);
      assert StageSteps(root, name, folder.entries, usingImportmap, Lookup(catalog, name), ManifestStage)
        == ManifestRun(JsControllerFilePaths(root, name, folder.entries), usingImportmap);
    }
  }

  /** Related files: the visible `.rb` entries other than `<name>.rb`, each
      copied once to `app/components/ruby_ui/<name>/<entry>`; the main file is
      never among them. */
  lemma RelatedFilesExactly(root: string, name: string, entries: seq<string>)
    requires WellFormed(entries)
    ensures var folder := ComponentFolderPath(root, name);
      var related := RelatedCopies(name, RelatedComponentsFilePaths(root, name, entries));
      && (forall a :: a in related ==>
            a.src != MainComponentFilePath(root, name)
            && a.src == Join(folder, ChildName(folder, a.src))
            && a.dst == RelatedComponentTarget(name, ChildName(folder, a.src)))
      && (forall e :: '/' !in e ==>
            multiset(related)[Copy(Join(folder, e), RelatedComponentTarget(name, e))] ==
              if e in entries && Matches(e, ".rb") && e != name + ".rb" then 1 else 0)
  {
    var folder := ComponentFolderPath(root, name);
    var paths := RelatedComponentsFilePaths(root, name, entries);
    var related := RelatedCopies(name, paths);
    GlobDistinct(folder, entries, ".rb");
    GlobMembership(folder, entries, ".rb");
    RelatedAreOtherRubyFiles(root, name, entries);
    WithoutDistinct(Glob(folder, entries, ".rb"), MainComponentFilePath(root, name));
    forall a | a in related
      ensures a.src != MainComponentFilePath(root, name)
      ensures a.src == Join(folder, ChildName(folder, a.src))
      ensures a.dst == RelatedComponentTarget(name, ChildName(folder, a.src))
    {
      var i :| 0 <= i < |related| && related[i] == a;
      var e := ChildName(folder, paths[i]);
      assert paths[i] in paths;
      BasenameOfJoin(folder, e);
    }
    assert Distinct(related) by {
      forall i, j | 0 <= i < j < |related| ensures related[i] != related[j] {
        assert related[i].src == paths[i] && related[j].src == paths[j];
      }
    }
    forall e | '/' !in e
      ensures multiset(related)[Copy(Join(folder, e), RelatedComponentTarget(name, e))] ==
        if e in entries && Matches(e, ".rb") && e != name + ".rb" then 1 else 0
    {
      var c := Copy(Join(folder, e), RelatedComponentTarget(name, e));
      DistinctCount(related, c);
      RelatedFileMembership(root, name, entries, e);
      if e in entries && Matches(e, ".rb") && e != name + ".rb" {
        var p := Join(folder, e);
        var i :| 0 <= i < |paths| && paths[i] == p;
        BasenameOfJoin(folder, e);
        assert related[i] == c;
      }
    }
  }

  /** Controllers: every visible `.js` entry is copied exactly once, to
      `app/javascript/controllers/ruby_ui/<entry>`; with none, nothing is. */
  lemma ControllersExactly(root: string, name: string, entries: seq<string>)
    requires WellFormed(entries)
    ensures var folder := ComponentFolderPath(root, name);
      var controllers := ControllerCopies(JsControllerFilePaths(root, name, entries));
      && (forall a :: a in controllers ==>
            a.src == Join(folder, ChildName(folder, a.src))
            && a.dst == ControllerTarget(ChildName(folder, a.src)))
      && (forall e :: '/' !in e ==>
            multiset(controllers)[Copy(Join(folder, e), ControllerTarget(e))] ==
              if e in entries && Matches(e, ".js") then 1 else 0)
      && (controllers == [] <==> forall e :: e in entries ==> !Matches(e, ".js"))
  {
    var folder := ComponentFolderPath(root, name);
    var paths := JsControllerFilePaths(root, name, entries);
    var controllers := ControllerCopies(paths);
    GlobDistinct(folder, entries, ".js");
    GlobMembership(folder, entries, ".js");
    forall a | a in controllers
      ensures a.src == Join(folder, ChildName(folder, a.src))
      ensures a.dst == ControllerTarget(ChildName(folder, a.src))
    {
      var i :| 0 <= i < |controllers| && controllers[i] == a;
      var e := ChildName(folder, paths[i]);
      assert paths[i] in paths;
      BasenameOfJoin(folder, e);
    }
    assert Distinct(controllers) by {
      forall i, j | 0 <= i < j < |controllers| ensures controllers[i] != controllers[j] {
        assert controllers[i].src == paths[i] && controllers[j].src == paths[j];
      }
    }
    forall e | '/' !in e
      ensures multiset(controllers)[Copy(Join(folder, e), ControllerTarget(e))] ==
        if e in entries && Matches(e, ".js") then 1 else 0
    {
      var c := Copy(Join(folder, e), ControllerTarget(e));
      DistinctCount(controllers, c);
      if e in entries && Matches(e, ".js") {
        var p := Join(folder, e);
        var i :| 0 <= i < |paths| && paths[i] == p;
        BasenameOfJoin(folder, e);
        assert controllers[i] == c;
      }
    }
    if controllers != [] {
      assert paths[0] in paths;
    }
  }

  /** Each run of the sub-component command for `c` comes from one listing
      of `c` under `components`. */
  lemma {:induction false} ComponentRunsCount(components: seq<string>, c: string)
    ensures multiset(ComponentRuns(components))[Run(ComponentCommand(c))] == multiset(components)[c]
  {
    if components != [] {
      var rest := components[1..];
      assert components == [components[0]] + rest;
      assert ComponentRuns(components) == [Run(ComponentCommand(components[0]))] + ComponentRuns(rest);
      ComponentRunsCount(rest, c);
      if components[0] != c && ComponentCommand(components[0]) == ComponentCommand(c) {
        ComponentCommandInjective(components[0], c);
      }
    }
  }

  /** Each run of the gem command for `g` comes from one listing of `g`
      under `gems`. */
  lemma {:induction false} GemRunsCount(gems: seq<string>, g: string)
    ensures multiset(GemRuns(gems))[Run(GemCommand(g))] == multiset(gems)[g]
  {
    if gems != [] {
      var rest := gems[1..];
      assert gems == [gems[0]] + rest;
      assert GemRuns(gems) == [Run(GemCommand(gems[0]))] + GemRuns(rest);
      GemRunsCount(rest, g);
      if gems[0] != g && GemCommand(gems[0]) == GemCommand(g) {
        GemCommandInjective(gems[0], g);
      }
    }
  }

  /** Each install of `p` comes from one listing of `p` under `js_packages`. */
  lemma {:induction false} JsInstallsCount(packages: seq<string>, p: string)
    ensures multiset(JsInstalls(packages))[InstallJs(p)] == multiset(packages)[p]
  {
    if packages != [] {
      var rest := packages[1..];
      assert packages == [packages[0]] + rest;
      assert JsInstalls(packages) == [InstallJs(packages[0])] + JsInstalls(rest);
      JsInstallsCount(rest, p);
    }
  }

  /** Over the whole run, `bin/rails generate ruby_ui:component c` is issued
      exactly as often as `c` is listed under `components`, and never when the
      folder is missing or the record blank. */
  lemma SubComponentGeneratedPerListing(root: string, name: string, folder: Listing, usingImportmap: bool, catalog: Catalog, c: string)
    ensures multiset(Plan(root, name, folder, usingImportmap, catalog))[Run(ComponentCommand(c))] ==
      if folder.Missing? then 0 else multiset(Listed(Lookup(catalog, name), "components"))[c]
  {
    if folder.Present? {
      var dep := Lookup(catalog, name);
      var a := Run(ComponentCommand(c));
      CommandKinds(c, "");
      assert Phase(name, a) == ComponentStage;
      CountInOwnStage(root, name, folder.entries, usingImportmap, catalog, a);
      ComponentRunsCount(Listed(dep, "components"), c);
    }
  }

  /** Over the whole run, the install command for gem `g` is issued exactly as
      often as `g` is listed under `gems`. */
  lemma GemCommandPerListing(root: string, name: string, folder: Listing, usingImportmap: bool, catalog: Catalog, g: string)
    ensures multiset(Plan(root, name, folder, usingImportmap, catalog))[Run(GemCommand(g))] ==
      if folder.Missing? then 0 else multiset(Listed(Lookup(catalog, name), "gems"))[g]
  {
    if folder.Present? {
      var dep := Lookup(catalog, name);
      var a := Run(GemCommand(g));
      CommandKinds("", g);
      assert Phase(name, a) == GemStage;
      CountInOwnStage(root, name, folder.entries, usingImportmap, catalog, a);
      GemRunsCount(Listed(dep, "gems"), g);
    }
  }

  /** Over the whole run, JS package `p` is installed exactly as often as it
      is listed under `js_packages`. */
  lemma JsPackageInstalledPerListing(root: string, name: string, folder: Listing, usingImportmap: bool, catalog: Catalog, p: string)
    ensures multiset(Plan(root, name, folder, usingImportmap, catalog))[InstallJs(p)] ==
      if folder.Missing? then 0 else multiset(Listed(Lookup(catalog, name), "js_packages"))[p]
  {
    if folder.Present? {
      var dep := Lookup(catalog, name);
      var a := InstallJs(p);
      assert Phase(name, a) == PackageStage;
      CountInOwnStage(root, name, folder.entries, usingImportmap, catalog, a);
      JsInstallsCount(Listed(dep, "js_packages"), p);
    }
  }

  /** A component that dependencies.yml does not mention installs nothing:
      its run is its file steps alone. */
  lemma AbsentComponentInstallsNothing(root: string, name: string, entries: seq<string>, usingImportmap: bool, catalog: Catalog)
    requires name !in catalog
    ensures Plan(root, name, Present(entries), usingImportmap, catalog) == FileSteps(root, name, entries, usingImportmap)
  {
    assert DependencySteps(Lookup(catalog, name)) == [];
  }

  /** A blank or missing record, or one whose categories are all nil or
      empty, adds no install action: the run is its file steps alone. */
  lemma NoDependenciesNoInstalls(root: string, name: string, entries: seq<string>, usingImportmap: bool, catalog: Catalog)
    ensures var dep := Lookup(catalog, name);
      Plan(root, name, Present(entries), usingImportmap, catalog) == FileSteps(root, name, entries, usingImportmap)
      <==> Listed(dep, "components") == [] && Listed(dep, "gems") == [] && Listed(dep, "js_packages") == []
  {
    var dep := Lookup(catalog, name);
    DependencyStepsLayout(dep);
    var f := FileSteps(root, name, entries, usingImportmap);
    assert |Plan(root, name, Present(entries), usingImportmap, catalog)| == |f| + |DependencySteps(dep)|;
  }
}
