/** RubyUI::Generators::ComponentGenerator as an object whose step methods
    run in turn and record every effect they would have on the host
    application in `log`. */
module Generator {
  import opened Wrappers
  import opened Seqs
  import opened Paths
  import opened Commands
  import opened Planner

  class ComponentGenerator {
    /** component_folder_name: the requested name, already underscored. */
    const componentName: string
    /** source_root: the directory holding one template folder per component. */
    const sourceRoot: string
    /** What the filesystem holds at component_folder_path. */
    const folder: Listing
    /** using_importmap? */
    const usingImportmap: bool
    /** What YAML.load_file returns for dependencies.yml. */
    const dependenciesYml: Catalog

    /** @dependencies: dependencies.yml once it has been read. */
    var loadedDependencies: Option<Catalog>
    /** Every copy, run, pin and install so far, in order. */
    var log: seq<Action>
    /** Whether generate_component has called `exit`. */
    var exited: bool

    ghost predicate Valid()
      reads this
    {
      loadedDependencies.Some? ==> loadedDependencies.value == dependenciesYml
    }

    constructor (componentName: string, sourceRoot: string, folder: Listing, usingImportmap: bool, dependenciesYml: Catalog)
      ensures this.componentName == componentName && this.sourceRoot == sourceRoot && this.folder == folder
      ensures this.usingImportmap == usingImportmap && this.dependenciesYml == dependenciesYml
      ensures Valid() && loadedDependencies == None && log == [] && !exited
    {
      this.componentName := componentName;
      this.sourceRoot := sourceRoot;
      this.folder := folder;
      this.usingImportmap := usingImportmap;
      this.dependenciesYml := dependenciesYml;
      loadedDependencies := None;
      log := [];
      exited := false;
    }

    /** generate_component: stops the run when the template folder is missing. */
    method GenerateComponent()
      modifies this`exited
      ensures exited == (old(exited) || ComponentNotFound(folder))
    {
      if ComponentNotFound(folder) {
        exited := true;
      }
    }

    /** copy_main_component_file: copies `<name>.rb` when it exists. */
    method CopyMainComponentFile()
      modifies this`log
      ensures log == old(log) + MainCopy(sourceRoot, componentName, Entries(folder))
    {
      var mainComponentFilePath := MainComponentFilePath(sourceRoot, componentName);
      if componentName + ".rb" !in Entries(folder) {
        return;
      }
      log := log + [Copy(mainComponentFilePath, MainComponentTarget(componentName))];
    }

    /** copy_related_component_files: copies every other `.rb` file into the
        component's own directory. */
    method CopyRelatedComponentFiles()
      modifies this`log
      ensures log == old(log) + RelatedCopies(componentName, RelatedComponentsFilePaths(sourceRoot, componentName, Entries(folder)))
    {
      var paths := RelatedComponentsFilePaths(sourceRoot, componentName, Entries(folder));
      if paths == [] {
        return;
      }
      for i := 0 to |paths|
        invariant log == old(log) + RelatedCopies(componentName, paths[..i])
      {
        var componentFileName := Basename(paths[i]);
        RelatedCopiesPrefix(componentName, paths, i);
        log := log + [Copy(paths[i], RelatedComponentTarget(componentName, componentFileName))];
      }
      assert paths[..|paths|] == paths;
    }

    /** copy_js_files: copies every controller, then asks for a manifest
        update unless the host uses importmap. */
    method CopyJsFiles()
      modifies this`log
      ensures log == old(log)
        + ControllerCopies(JsControllerFilePaths(sourceRoot, componentName, Entries(folder)))
        + ManifestRun(JsControllerFilePaths(sourceRoot, componentName, Entries(folder)), usingImportmap)
    {
      var paths := JsControllerFilePaths(sourceRoot, componentName, Entries(folder));
      if paths == [] {
        return;
      }
      for i := 0 to |paths|
        invariant log == old(log) + ControllerCopies(paths[..i])
      {
        var controllerFileName := Basename(paths[i]);
        ControllerCopiesPrefix(paths, i);
        log := log + [Copy(paths[i], ControllerTarget(controllerFileName))];
      }
      assert paths[..|paths|] == paths;
      if !usingImportmap {
        log := log + [Run(ManifestUpdate)];
      }
    }

    /** dependencies: reads dependencies.yml on first use and looks the
        component up in it. */
    method Dependencies() returns (dep: Option<Record>)
      requires Valid()
      modifies this`loadedDependencies
      ensures Valid() && loadedDependencies == Some(dependenciesYml)
      ensures dep == Lookup(dependenciesYml, componentName)
    {
      if loadedDependencies.None? {
        loadedDependencies := Some(dependenciesYml);
      }
      dep := Lookup(loadedDependencies.value, componentName);
    }

    /** install_dependencies: nothing for a blank record, otherwise the
        sub-components, then the gems, then the JS packages. */
    method InstallDependencies()
      requires Valid()
      modifies this`log, this`loadedDependencies
      ensures Valid() && log == old(log) + DependencySteps(Lookup(dependenciesYml, componentName))
    {
      var dep := Dependencies();
      if Blank(dep) {
        return;
      }
      ghost var start, cs, gs, js := log, ComponentRuns(Listed(dep, "components")), GemRuns(Listed(dep, "gems")), JsInstalls(Listed(dep, "js_packages"));
      dep := Dependencies();
      InstallComponentsDependencies(Category(dep.value, "components"));
      dep := Dependencies();
      InstallGemsDependencies(Category(dep.value, "gems"));
      dep := Dependencies();
      InstallJsPackages(Category(dep.value, "js_packages"));
      AppendAssociative(start, cs, gs);
      AppendAssociative(start, cs + gs, js);
    }

    /** install_components_dependencies */
    method InstallComponentsDependencies(components: Option<seq<string>>)
      modifies this`log
      ensures log == old(log) + ComponentRuns(OrEmpty(components))
    {
      if components.None? {
        return;
      }
      var cs := components.value;
      for i := 0 to |cs|
        invariant log == old(log) + ComponentRuns(cs[..i])
      {
        log := log + [Run(ComponentCommand(cs[i]))];
      }
      assert cs[..|cs|] == cs;
    }

    /** install_gems_dependencies */
    method InstallGemsDependencies(gems: Option<seq<string>>)
      modifies this`log
      ensures log == old(log) + GemRuns(OrEmpty(gems))
    {
      if gems.None? {
        return;
      }
      var gs := gems.value;
      for i := 0 to |gs|
        invariant log == old(log) + GemRuns(gs[..i])
      {
        log := log + [Run(GemCommand(gs[i]))];
      }
      assert gs[..|gs|] == gs;
    }

    /** install_js_packages */
    method InstallJsPackages(packages: Option<seq<string>>)
      modifies this`log
      ensures log == old(log) + JsInstalls(OrEmpty(packages))
    {
      if packages.None? {
        return;
      }
      var ps := packages.value;
      for i := 0 to |ps|
        invariant log == old(log) + JsInstalls(ps[..i])
      {
        log := log + [InstallJs(ps[i])];
      }
      assert ps[..|ps|] == ps;
    }

    /** pin_motion: appends the motion pin to config/importmap.rb. */
    method PinMotion()
      modifies this`log
      ensures log == old(log) + [InjectPin(ImportmapConfig, MotionPin)]
    {
      log := log + [InjectPin(ImportmapConfig, MotionPin)];
    }

    /** pin_tippy_js: appends the tippy.js and @popperjs/core pins to
        config/importmap.rb. */
    method PinTippyJs()
      modifies this`log
      ensures log == old(log) + [InjectPin(ImportmapConfig, TippyPin)]
    {
      log := log + [InjectPin(ImportmapConfig, TippyPin)];
    }

    /** One invocation: Thor runs the public steps in the order they are
        defined, and `exit` in the first one ends the run. The log grows by
        exactly the plan, and by nothing when the folder is missing. */
    method Invoke()
      requires Valid() && !exited
      modifies this`log, this`loadedDependencies, this`exited
      ensures Valid()
      ensures exited == ComponentNotFound(folder)
      ensures log == old(log) + Plan(sourceRoot, componentName, folder, usingImportmap, dependenciesYml)
      ensures exited ==> log == old(log)
    {
      GenerateComponent();
      if exited {
        return;
      }
      ghost var start := log;
      CopyMainComponentFile();
      CopyRelatedComponentFiles();
      CopyJsFiles();
      InstallDependencies();
      PlanOfSteps(sourceRoot, componentName, Entries(folder), usingImportmap, dependenciesYml, start, log);
    }
  }
}
