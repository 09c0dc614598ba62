# RubyUI component generator, modelled in Dafny

`bin/rails generate ruby_ui:component <Name>` copies one RubyUI component
into a host Rails application. It does this in four steps:

1. It aborts before doing anything when the template folder is missing.
2. It copies the template files:
   - the main file `<name>.rb`, when it exists;
   - every other `.rb` file in the template folder;
   - every Stimulus controller (`.js`).
3. When the folder has at least one Stimulus controller and the host does not
   use importmap, it runs the Stimulus manifest update.
4. It installs what `dependencies.yml` lists for the component, in this order:
   sub-components (each through another run of the same generator), then gems,
   then JavaScript packages.

The model records every effect as an action:

- `Copy(src, dst)`: copy a file;
- `Run(command)`: run a shell command;
- `InjectPin(file, text)`: append text to a file;
- `InstallJs(package)`: install a JavaScript package.

It proves which actions a run emits, how many times each, and in what order.

The project has five modules:

- `Wrappers` and `Seqs` (`util.dfy`): `Option`, nil lists, and small sequence facts.
- `Paths` (`paths.dfy`):
  - the template folder and its main file;
  - `Dir.glob` over a folder listing;
  - `Array#-`;
  - `split("/").last`;
  - the three copy targets under the host root.
- `Commands` (`commands.dfy`):
  - the exact shell command strings;
  - what `bundle show g > /dev/null 2>&1 || bundle add g` does to a bundle;
  - the importmap pin text written by `pin_motion` and `pin_tippy_js`.
- `Planner` (`planner.dfy`): the whole run as a pure function `Plan`, and the
  properties of that plan.
- `Generator` (`generator.dfy`): the generator object as a class.
  - It has one method per public step and per install or pin helper. The
    private path helpers (lines 72-82) are the functions and constants of
    `Paths` and `Planner`.
  - The methods append to the action `log` with loops.
  - `@dependencies` is memoised in `loadedDependencies`.
  - `exit` sets `exited`.
  - `Invoke` runs the public steps in the order Thor runs them. Its contract
    says the log grows by exactly `Plan(...)`.

These are parameters of the model rather than effects:

- the filesystem: a `Listing` of the template folder, which is either
  `Missing` or `Present(entry names)`;
- `using_importmap?`: a boolean;
- the loaded `dependencies.yml`: a `Catalog` mapping a component to a
  `Record`, which maps a category to an optional list.

Paths come in two groups:

- source paths start with the `sourceRoot` parameter, which stands for
  `source_root`;
- target paths are relative to the host application's root (`Rails.root` is
  dropped).

Two details of the code shape the model:

- A component absent from `dependencies.yml` yields nil at line 126, which
  `blank?` (line 61) treats like an empty hash. `Lookup` gives `None`, and
  `Blank` holds of it; `AbsentComponentInstallsNothing` proves that such a
  component installs nothing.
- A gem counts as present when `bundle show g` succeeds (line 92).
  `BundleShowSucceeds` and `GemsAdded` model that.

## Model

| member | source | states |
|---|---|---|
| Paths.Join | lib/generators/ruby_ui/component_generator.rb:76-78 | `File.join(dir, part)` is `dir`, then one separator, then `part`. `part` can always be read back from the joined path. |
| Paths.JoinInjective | lib/generators/ruby_ui/component_generator.rb:76-78 | Two entries of one folder have the same path only when they are the same entry. |
| Paths.Glob | lib/generators/ruby_ui/component_generator.rb:80-82 | The glob yields at most one path per directory entry. |
| Paths.GlobMembership | lib/generators/ruby_ui/component_generator.rb:80-82 | The glob yields `dir/e` for every visible entry `e` ending in the extension. Every path it yields is such a `dir/e`. |
| Paths.GlobDistinct | lib/generators/ruby_ui/component_generator.rb:80-82 | When a listing has no repeated names, no glob path repeats. |
| Paths.Without | lib/generators/ruby_ui/component_generator.rb:80 | `paths - [x]` keeps exactly the elements other than `x`, in both directions of the membership test. |
| Paths.WithoutDistinct | lib/generators/ruby_ui/component_generator.rb:80 | Removing the main path keeps the related paths free of repetitions. |
| Paths.TrimTrailingSlashes | lib/generators/ruby_ui/component_generator.rb:38 | Removing trailing separators gives a prefix of the path that does not end in `/`. |
| Paths.TrimDropsOnlySlashes | lib/generators/ruby_ui/component_generator.rb:38 | Every character trimming removes is a `/`. |
| Paths.AfterLastSlash | lib/generators/ruby_ui/component_generator.rb:38 | The text after the last separator contains no `/`. It is non-empty when the path does not end in `/`. |
| Paths.AfterLastSlashIsSuffix | lib/generators/ruby_ui/component_generator.rb:38 | The text after the last separator is a suffix of the path. It is either the whole path or preceded by a `/`. |
| Paths.Basename | lib/generators/ruby_ui/component_generator.rb:38-49 | `split("/").last` of a path that has one is a non-empty name without `/`. |
| Paths.BasenameIsLastSegment | lib/generators/ruby_ui/component_generator.rb:38-49 | `split("/").last` is the last segment of the path: a suffix of the path without its trailing `/`s, preceded by a `/` or starting the path, with only `/` after it. |
| Paths.AfterLastSlashOfJoin | lib/generators/ruby_ui/component_generator.rb:38-49 | The last segment of `dir/e` is `e`, for an entry name without `/`. |
| Paths.BasenameOfJoin | lib/generators/ruby_ui/component_generator.rb:38-50 | The file name a globbed file is copied under is its own entry name. |
| Paths.GlobHasBasename | lib/generators/ruby_ui/component_generator.rb:80-82 | Every path a `*.rb` or `*.js` glob yields has a last segment, so `split("/").last` is never nil there. |
| Paths.ComponentFolderPath | lib/generators/ruby_ui/component_generator.rb:76 | The template folder starts with the source root and a separator, and is the entry named after the component inside it. |
| Paths.MainFileInFolder | lib/generators/ruby_ui/component_generator.rb:78 | The main file is the entry `<name>.rb` of the template folder. The folder's `.rb` glob yields it exactly when that entry exists and is not a hidden file. |
| Paths.RelatedComponentsFilePaths | lib/generators/ruby_ui/component_generator.rb:80 | Every related path has a file name to copy it under. |
| Paths.RelatedAreOtherRubyFiles | lib/generators/ruby_ui/component_generator.rb:78-80 | Every related path is one of the folder's `.rb` files. The main file is never one of them. |
| Paths.JsControllerFilePaths | lib/generators/ruby_ui/component_generator.rb:82 | Every controller path has a file name to copy it under. |
| Paths.RelatedFileMembership | lib/generators/ruby_ui/component_generator.rb:78-80 | `folder/e` is a related path exactly when `e` is a visible `.rb` entry other than `<name>.rb`. |
| Paths.MainFileIsNotController | lib/generators/ruby_ui/component_generator.rb:78-82 | The main file is never among the `.js` controllers. |
| Paths.TargetsDisjoint | lib/generators/ruby_ui/component_generator.rb:29-50 | A related file's target is never the main file's target. Only controller targets lie in `app/javascript/controllers/ruby_ui/`. |
| Commands.ComponentCommand | lib/generators/ruby_ui/component_generator.rb:86 | The command starts with `bin/rails generate ruby_ui:component `, and the rest of it is the sub-component's name. |
| Commands.GemCommand | lib/generators/ruby_ui/component_generator.rb:92 | The command starts with `bundle show g`, and its fallback after the shell's or-operator is `bundle add g`. |
| Commands.ComponentCommandInjective | lib/generators/ruby_ui/component_generator.rb:86 | Different sub-components give different generate commands. |
| Commands.GemCommandInjective | lib/generators/ruby_ui/component_generator.rb:92 | Different gems give different install commands. |
| Commands.CommandKinds | lib/generators/ruby_ui/component_generator.rb:84-94 | Each command is identified by its leading words: `bin/rails generate ruby_ui:component ` or `bundle show `. Neither kind is ever the manifest update. |
| Commands.GemsAdded | lib/generators/ruby_ui/component_generator.rb:92 | `bundle add` runs at most once per listed gem, and only for gems whose `bundle show` fails. |
| Commands.BundleAfter | lib/generators/ruby_ui/component_generator.rb:90-94 | The gem step never removes a gem, and any gem it adds is a listed one. |
| Commands.GemsAddedExactly | lib/generators/ruby_ui/component_generator.rb:92 | `bundle add g` runs only when `bundle show g` fails, so only for missing gems, and never twice for one gem. With the bundle as a set of gem names, it runs for every missing listed gem. |
| Commands.GemCommandsInstallAll | lib/generators/ruby_ui/component_generator.rb:90-94 | With the bundle as a set of gem names, after the gem step it is the old bundle plus every listed gem. |
| Commands.GemCommandsIdempotent | lib/generators/ruby_ui/component_generator.rb:90-94 | Running the gem step again adds nothing and leaves the bundle as it is. |
| Commands.LineEnd | lib/generators/ruby_ui/component_generator.rb:102-121 | The first line break of a text is at the index found, and no line break comes before it. |
| Commands.LineEndOfLine | lib/generators/ruby_ui/component_generator.rb:102-121 | In `line + "\n" + rest`, the first line ends where `line` ends. |
| Commands.LinesOfUnlines | lib/generators/ruby_ui/component_generator.rb:102-121 | Splitting a text into lines undoes joining lines with breaks. |
| Commands.MotionPinDeclarations | lib/generators/ruby_ui/component_generator.rb:102-110 | The text pin_motion appends holds exactly one pin line: `pin "motion", to: "https://cdn.jsdelivr.net/npm/motion@11.11.17/+esm"`. |
| Commands.TippyPinDeclarations | lib/generators/ruby_ui/component_generator.rb:112-121 | The text pin_tippy_js appends holds exactly two pin lines, in order: tippy.js 6.3.7, then @popperjs/core 2.11.8, both from jsDelivr. |
| Planner.ComponentNotFound | lib/generators/ruby_ui/component_generator.rb:72 | A missing folder leaves the globs no entries. |
| Planner.AbsentComponentInstallsNothing | lib/generators/ruby_ui/component_generator.rb:123-127 | A component that `dependencies.yml` does not mention makes the lookup nil, which is blank, so its run is its file steps alone and installs nothing. |
| Planner.MainCopy | lib/generators/ruby_ui/component_generator.rb:21-30 | The main file step emits one action when `<name>.rb` exists, and none otherwise. |
| Planner.RelatedCopiesPrefix | lib/generators/ruby_ui/component_generator.rb:37-40 | Each loop iteration of copy_related_component_files adds the copy of the next path. |
| Planner.ControllerCopiesPrefix | lib/generators/ruby_ui/component_generator.rb:48-51 | Each loop iteration of copy_js_files adds the copy of the next controller. |
| Planner.DependencySteps | lib/generators/ruby_ui/component_generator.rb:60-68 | A blank record contributes nothing. Otherwise there is one action per listed component, gem and package. |
| Planner.Plan | lib/generators/ruby_ui/component_generator.rb:12-68 | A missing folder gives an empty run. For a present folder the run is as long as its file steps and its dependency steps together. |
| Planner.PlanOfSteps | lib/generators/ruby_ui/component_generator.rb:12-68 | Running the four public steps one after another appends exactly the plan of the run. |
| Planner.MissingFolderDoesNothing | lib/generators/ruby_ui/component_generator.rb:12-16 | A missing template folder gives a run with no copy, command, pin or install. |
| Planner.StepPhases | lib/generators/ruby_ui/component_generator.rb:21-100 | Each step emits actions of its own stage only. The stages are: main copy, related copies, controller copies, manifest update, sub-components, gems, JS packages. |
| Planner.DependencyStepsSplit | lib/generators/ruby_ui/component_generator.rb:60-68 | install_dependencies is the component step, then the gem step, then the JS step. A blank record or a nil category contributes nothing. |
| Planner.DependencyStepsLayout | lib/generators/ruby_ui/component_generator.rb:60-100 | The dependency actions are, position by position: one sub-component command per listed component, one gem command per listed gem, one install per listed package, each in listed order. |
| Planner.PlanSteps | lib/generators/ruby_ui/component_generator.rb:12-68 | A run on a present folder is the seven stages concatenated in order. |
| Planner.PlanInStageOrder | lib/generators/ruby_ui/component_generator.rb:12-68 | Every run is ordered by stage. Files come before the manifest update, which comes before sub-components, then gems, then JS packages. No run emits a pin. |
| Planner.StageInPhase | lib/generators/ruby_ui/component_generator.rb:21-100 | Each stage emits only actions that belong to that stage. |
| Planner.CountInPlan | lib/generators/ruby_ui/component_generator.rb:12-68 | How often an action occurs in a run is the sum of how often it occurs in each stage. |
| Planner.CountInOwnStage | lib/generators/ruby_ui/component_generator.rb:12-68 | How often an action occurs in a run is how often its own stage emits it. No other stage emits it. |
| Planner.MainFileCopiedOnce | lib/generators/ruby_ui/component_generator.rb:21-30 | The main file is copied to `app/components/ruby_ui/<name>.rb` exactly once when `<name>.rb` exists. Otherwise it is never copied, and a missing main file is not an error. |
| Planner.OtherCopiesAvoidMainFile | lib/generators/ruby_ui/component_generator.rb:32-51 | No related copy or controller copy reads the main file or writes the main file's target. |
| Planner.MainFileOnlyToItsTarget | lib/generators/ruby_ui/component_generator.rb:21-51 | Any copy in a run that reads the main file or writes its target is the main file's own copy to its target. |
| Planner.ManifestUpdateAtMostOnce | lib/generators/ruby_ui/component_generator.rb:43-58 | `rake stimulus:manifest:update` runs at most once. It runs exactly when the folder has a controller and the host does not use importmap. |
| Planner.RelatedFilesExactly | lib/generators/ruby_ui/component_generator.rb:32-41 | Every visible `.rb` entry other than `<name>.rb` is copied exactly once to `app/components/ruby_ui/<name>/<entry>`, and every other entry zero times. No related copy reads the main file. |
| Planner.ControllersExactly | lib/generators/ruby_ui/component_generator.rb:43-51 | Every visible `.js` entry is copied exactly once to `app/javascript/controllers/ruby_ui/<entry>`, and every other entry zero times. The controller copies are empty exactly when the folder has no `.js` file. |
| Planner.ComponentRunsCount | lib/generators/ruby_ui/component_generator.rb:84-88 | The generate command for `c` is issued as often as `c` is listed. |
| Planner.GemRunsCount | lib/generators/ruby_ui/component_generator.rb:90-94 | The gem command for `g` is issued as often as `g` is listed. |
| Planner.JsInstallsCount | lib/generators/ruby_ui/component_generator.rb:96-100 | Package `p` is installed as often as it is listed. |
| Planner.SubComponentGeneratedPerListing | lib/generators/ruby_ui/component_generator.rb:60-88 | Over a whole run, `bin/rails generate ruby_ui:component c` is issued as often as `c` is listed under `components`. It is never issued for a missing folder or a blank record. |
| Planner.GemCommandPerListing | lib/generators/ruby_ui/component_generator.rb:60-94 | Over a whole run, the gem command for `g` is issued as often as `g` is listed under `gems`. It is never issued for a missing folder or a blank record. |
| Planner.JsPackageInstalledPerListing | lib/generators/ruby_ui/component_generator.rb:60-100 | Over a whole run, `p` is installed as often as it is listed under `js_packages`. It is never installed for a missing folder or a blank record. |
| Planner.NoDependenciesNoInstalls | lib/generators/ruby_ui/component_generator.rb:60-68 | A run does nothing beyond its file steps exactly when every category is blank, nil or empty. |
| Generator.ComponentGenerator.constructor | lib/generators/ruby_ui/component_generator.rb:9-10 | A new generator has the given name, source root, folder, importmap setting and dependency file. It has read nothing and done nothing. |
| Generator.ComponentGenerator.GenerateComponent | lib/generators/ruby_ui/component_generator.rb:12-19 | The run is stopped exactly when the template folder does not exist. The log is untouched. |
| Generator.ComponentGenerator.CopyMainComponentFile | lib/generators/ruby_ui/component_generator.rb:21-30 | The log gains the main file's copy when `<name>.rb` exists, and nothing otherwise. |
| Generator.ComponentGenerator.CopyRelatedComponentFiles | lib/generators/ruby_ui/component_generator.rb:32-41 | The loop appends one copy per related path, in glob order. |
| Generator.ComponentGenerator.CopyJsFiles | lib/generators/ruby_ui/component_generator.rb:43-58 | The loop appends one copy per controller, then the manifest update when there were controllers and importmap is not used. |
| Generator.ComponentGenerator.Dependencies | lib/generators/ruby_ui/component_generator.rb:123-127 | The dependency file is loaded on first use and kept. The result is the component's entry, or nil. |
| Generator.ComponentGenerator.InstallDependencies | lib/generators/ruby_ui/component_generator.rb:60-68 | For a blank record nothing is appended. Otherwise the component, gem and JS steps are appended, reading the memoised record before each. |
| Generator.ComponentGenerator.InstallComponentsDependencies | lib/generators/ruby_ui/component_generator.rb:84-88 | A nil list appends nothing. Otherwise the loop appends one generate command per listed component, in order. |
| Generator.ComponentGenerator.InstallGemsDependencies | lib/generators/ruby_ui/component_generator.rb:90-94 | A nil list appends nothing. Otherwise the loop appends one gem command per listed gem, in order. |
| Generator.ComponentGenerator.InstallJsPackages | lib/generators/ruby_ui/component_generator.rb:96-100 | A nil list appends nothing. Otherwise the loop appends one install per listed package, in order. |
| Generator.ComponentGenerator.PinMotion | lib/generators/ruby_ui/component_generator.rb:102-110 | Appends the motion pin text to the end of `config/importmap.rb`. |
| Generator.ComponentGenerator.PinTippyJs | lib/generators/ruby_ui/component_generator.rb:112-121 | Appends the tippy.js and @popperjs/core pin text to the end of `config/importmap.rb`. |
| Generator.ComponentGenerator.Invoke | lib/generators/ruby_ui/component_generator.rb:4-68 | Thor runs the public steps in definition order. The run exits exactly when the folder is missing, and then the log is unchanged. Otherwise the log grows by exactly `Plan(...)`. |

## Left out

- `say` messages: they are console output and change no file or command.
- Filesystem, shell and YAML access are parameters: the folder `Listing`, the
  importmap flag and the loaded `Catalog`. The model does not cover a copy or
  a command that fails, or Thor's exit status.
- Thor's `copy_file` conflict prompts and `inject_into_file`'s duplicate
  check are not modelled. `InjectPin` stands for appending its text at the
  end of the file, which is the behaviour without a position option.
- `String#underscore` (ActiveSupport inflection): the component name is taken
  as already underscored.
- `install_js_package` and `using_importmap?` come from `javascript_utils.rb`,
  which is not part of this model. A package install is the opaque action
  `InstallJs(package)`. The model does not capture which packages that helper
  routes to `pin_motion` or `pin_tippy_js`. The two pin methods are modelled
  on their own, and no run in the model calls them.
- A sub-component generation is a `Run` of its command line. The nested run,
  and the effect of generating the same component twice, are not modelled.
- `Rails.root.join` gives absolute target paths. The model drops `Rails.root`
  and keeps target paths relative to the host root. Source paths are whatever
  the `sourceRoot` parameter makes them.
- `File.join` merges duplicate separators. `Join` assumes its directory has no
  trailing `/` and its part no leading `/`, which holds for glob entry names.
- Commands.GemsAdded: the bundle is a set of gem names, and `bundle add g`
  adds `g` alone. Bundler also locks g's dependencies, and a later
  `bundle show h` succeeds for a locked dependency `h`. Two consequences:
  - GemsAddedExactly's "runs for every missing listed gem" can fail for a
    listed gem that an earlier add pulled in as a dependency;
  - GemCommandsInstallAll's final bundle leaves out the dependencies the adds
    locked.

  That `bundle add` runs only when `bundle show` fails, and never twice for a
  gem, holds under either reading, and so does idempotence.
- Paths.Basename: its precondition excludes a path with no segment, for which
  `split("/").last` is nil. A glob never yields such a path
  (Paths.GlobHasBasename).
- Planner.RelatedFilesExactly and Planner.ControllersExactly assume a listing
  with unique entry names and no `/` in them, as a real directory listing has.
- A component whose value in `dependencies.yml` is nil is modelled as a
  component absent from the `Catalog`. Both make line 126 yield nil, which is
  blank, so both install nothing.
- A `dependencies.yml` whose top-level value is nil, such as an empty file,
  makes line 126 raise NoMethodError. The `Catalog` is always a map, so that
  failure is not modelled.
- A record whose keys are all unrelated to `components`, `gems` and
  `js_packages` is not blank. The code then only prints a message, which the
  model does not record.
- The static component view in `popover_content.rb` is not part of this model.
