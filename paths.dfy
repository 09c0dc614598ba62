/** Path arithmetic of the component generator: where a component's templates
    live, which of them a glob picks up, and where each copy lands. Target
    paths are relative to the host application's root. */
module Paths {
  import opened Seqs

  /** Directory that receives main and related component files. */
  const ComponentsDir := "app/components/ruby_ui"

  /** Directory that receives Stimulus controllers. */
  const ControllersDir := "app/javascript/controllers/ruby_ui"

  /** The name of the entry `path` denotes inside `dir` (everything after `dir/`). */
  function ChildName(dir: string, path: string): (name: string)
  {
    if |dir| + 1 <= |path| then path[|dir| + 1..] else ""
  }

  /** `File.join(dir, part)` for a directory without a trailing separator;
      the part can always be read back. */
  function Join(dir: string, part: string): (path: string)
    ensures |path| == |dir| + 1 + |part|
    ensures ChildName(dir, path) == part
    ensures path[|dir|] == '/'
    ensures path[..|dir|] == dir
  {
    dir + "/" + part
  }

  /** Joining onto a fixed directory loses nothing. */
  lemma JoinInjective(dir: string, a: string, b: string)
    requires Join(dir, a) == Join(dir, b)
    ensures a == b
  {
    assert a == ChildName(dir, Join(dir, a));
  }

  /** Whether a directory entry matches the glob `*<ext>`. As in a shell,
      `*` does not match a leading dot, so hidden files are never picked. */
  predicate Matches(entry: string, ext: string)
  {
    entry != [] && entry[0] != '.' && EndsWith(entry, ext)
  }

  /** `Dir.glob(File.join(dir, "*" + ext))` over the entry names of `dir`,
      in the order the listing gives them. */
  function Glob(dir: string, entries: seq<string>, ext: string): (r: seq<string>)
    ensures |r| <= |entries|
  {
    if entries == [] then []
    else
      (if Matches(entries[0], ext) then [Join(dir, entries[0])] else []) + Glob(dir, entries[1..], ext)
  }

  /** The glob yields `dir/e` for every matching entry `e`, and nothing else. */
  lemma {:induction false} GlobMembership(dir: string, entries: seq<string>, ext: string)
    ensures forall e :: e in entries && Matches(e, ext) ==> Join(dir, e) in Glob(dir, entries, ext)
    ensures forall p :: p in Glob(dir, entries, ext) ==>
      p == Join(dir, ChildName(dir, p)) && ChildName(dir, p) in entries && Matches(ChildName(dir, p), ext)
  {
    if entries != [] {
      var rest := entries[1..];
      GlobMembership(dir, rest, ext);
      assert entries == [entries[0]] + rest;
    }
  }

  /** A glob over a listing without repeated names yields every path once. */
  lemma {:induction false} GlobDistinct(dir: string, entries: seq<string>, ext: string)
    requires Distinct(entries)
    ensures Distinct(Glob(dir, entries, ext))
  {
    if entries != [] {
      var rest := entries[1..];
      assert Distinct(rest) by {
        forall i, j | 0 <= i < j < |rest| ensures rest[i] != rest[j] {
          assert rest[i] == entries[i + 1] && rest[j] == entries[j + 1];
        }
      }
      GlobDistinct(dir, rest, ext);
      GlobMembership(dir, rest, ext);
      var tail := Glob(dir, rest, ext);
      if Matches(entries[0], ext) {
        var h := Join(dir, entries[0]);
        assert entries[0] !in rest by {
          forall k | 0 <= k < |rest| ensures rest[k] != entries[0] {
            assert rest[k] == entries[k + 1];
          }
        }
        assert h !in tail;
        var r := [h] + tail;
        forall i, j | 0 <= i < j < |r| ensures r[i] != r[j] {
          if i == 0 {
            assert r[j] == tail[j - 1];
          } else {
            assert r[i] == tail[i - 1] && r[j] == tail[j - 1];
          }
        }
      }
    }
  }

  /** `paths - [x]`: every occurrence of `x` removed, the order of the rest kept. */
  function Without(paths: seq<string>, x: string): (r: seq<string>)
    ensures |r| <= |paths|
    ensures forall p :: p in r <==> p in paths && p != x
  {
    if paths == [] then []
    else (if paths[0] == x then [] else [paths[0]]) + Without(paths[1..], x)
  }

  /** Removing an element keeps a sequence free of repetitions. */
  lemma {:induction false} WithoutDistinct(paths: seq<string>, x: string)
    requires Distinct(paths)
    ensures Distinct(Without(paths, x))
  {
    if paths != [] {
      var rest := paths[1..];
      assert Distinct(rest) by {
        forall i, j | 0 <= i < j < |rest| ensures rest[i] != rest[j] {
          assert rest[i] == paths[i + 1] && rest[j] == paths[j + 1];
        }
      }
      WithoutDistinct(rest, x);
      var tail := Without(rest, x);
      if paths[0] != x {
        assert paths[0] !in tail by {
          forall k | 0 <= k < |rest| ensures rest[k] != paths[0] {
            assert rest[k] == paths[k + 1];
          }
        }
        var r := [paths[0]] + tail;
        forall i, j | 0 <= i < j < |r| ensures r[i] != r[j] {
          if i == 0 {
            assert r[j] == tail[j - 1];
          } else {
            assert r[i] == tail[i - 1] && r[j] == tail[j - 1];
          }
        }
      }
    }
  }

  /** The path with every trailing separator removed. */
  function TrimTrailingSlashes(s: string): (r: string)
    ensures |r| <= |s| && r == s[..|r|]
    ensures r == [] || r[|r| - 1] != '/'
  {
    if s != [] && s[|s| - 1] == '/' then TrimTrailingSlashes(s[..|s| - 1]) else s
  }

  /** Trimming removes separators and nothing else. */
  lemma {:induction false} TrimDropsOnlySlashes(s: string)
    ensures forall i :: |TrimTrailingSlashes(s)| <= i < |s| ==> s[i] == '/'
  {
    if s != [] && s[|s| - 1] == '/' {
      var p := s[..|s| - 1];
      TrimDropsOnlySlashes(p);
      forall i | |TrimTrailingSlashes(s)| <= i < |s| ensures s[i] == '/' {
        if i < |p| {
          assert p[i] == s[i];
        }
      }
    }
  }

  /** The text after the last separator (all of `s` when it has none). */
  function AfterLastSlash(s: string): (r: string)
    ensures '/' !in r
    ensures s != [] && s[|s| - 1] != '/' ==> r != []
  {
    if s == [] || s[|s| - 1] == '/' then []
    else AfterLastSlash(s[..|s| - 1]) + [s[|s| - 1]]
  }

  /** The text after the last separator is a suffix of `s` that is either
      all of `s` or preceded by a separator. */
  lemma {:induction false} AfterLastSlashIsSuffix(s: string)
    ensures var r := AfterLastSlash(s);
      EndsWith(s, r) && (|r| == |s| || s[|s| - |r| - 1] == '/')
  {
    if !(s == [] || s[|s| - 1] == '/') {
      var p, c := s[..|s| - 1], s[|s| - 1];
      AfterLastSlashIsSuffix(p);
      var q := AfterLastSlash(p);
      assert s == p + [c];
      assert AfterLastSlash(s) == q + [c];
      EndsWithAppend(p, q, c);
      if |q| < |p| {
        assert s[|s| - |q| - 2] == p[|p| - |q| - 1];
      }
    }
  }

  /** `path.split("/").last` is not nil: the path has a character other than `/`. */
  predicate HasBasename(path: string)
  {
    TrimTrailingSlashes(path) != []
  }

  /** `path.split("/").last`. Ruby's split drops trailing empty fields, so this
      is the last non-empty segment of the path. */
  function Basename(path: string): (name: string)
    requires HasBasename(path)
    ensures name != [] && '/' !in name
  {
    AfterLastSlash(TrimTrailingSlashes(path))
  }

  /** The basename is the last segment of the path once its trailing
      separators, and nothing else, are dropped: a suffix of the trimmed path
      that is either all of it or preceded by a separator. */
  lemma BasenameIsLastSegment(path: string)
    requires HasBasename(path)
    ensures var t, name := TrimTrailingSlashes(path), Basename(path);
      EndsWith(t, name) && (|name| == |t| || t[|t| - |name| - 1] == '/')
      && t == path[..|t|] && forall i :: |t| <= i < |path| ==> path[i] == '/'
  {
    TrimDropsOnlySlashes(path);
    AfterLastSlashIsSuffix(TrimTrailingSlashes(path));
  }

  /** The last segment of `dir/e` is `e` itself when `e` is a plain entry name. */
  lemma {:induction false} AfterLastSlashOfJoin(dir: string, e: string)
    requires '/' !in e
    ensures AfterLastSlash(Join(dir, e)) == e
    decreases |e|
  {
    var p := Join(dir, e);
    if e != [] {
      var init := e[..|e| - 1];
      assert '/' !in init by {
        forall k | 0 <= k < |init| ensures init[k] != '/' {
          assert init[k] == e[k];
        }
      }
      assert p[|p| - 1] == e[|e| - 1];
      assert p[..|p| - 1] == Join(dir, init);
      AfterLastSlashOfJoin(dir, init);
      assert e == init + [e[|e| - 1]];
    }
  }

  /** The copy target of a globbed file keeps the file's own name. */
  lemma BasenameOfJoin(dir: string, e: string)
    requires e != [] && '/' !in e
    ensures HasBasename(Join(dir, e)) && Basename(Join(dir, e)) == e
  {
    var p := Join(dir, e);
    assert p[|p| - 1] == e[|e| - 1];
    assert e[|e| - 1] in e;
    assert TrimTrailingSlashes(p) == p;
    AfterLastSlashOfJoin(dir, e);
  }

  /** Every path a glob for an extension such as `.rb` yields has a basename. */
  lemma GlobHasBasename(dir: string, entries: seq<string>, ext: string)
    requires ext != [] && ext[|ext| - 1] != '/'
    ensures forall p :: p in Glob(dir, entries, ext) ==> HasBasename(p)
  {
    GlobMembership(dir, entries, ext);
    forall p | p in Glob(dir, entries, ext) ensures HasBasename(p) {
      var e := ChildName(dir, p);
      assert e[|e| - 1] == ext[|ext| - 1];
      assert p[|p| - 1] == e[|e| - 1];
      assert TrimTrailingSlashes(p) == p;
    }
  }

  /** component_folder_path: the component's template folder. */
  function ComponentFolderPath(root: string, name: string): (folder: string)
    ensures ChildName(root, folder) == name
    ensures StartsWith(folder, root + "/")
  {
    Join(root, name)
  }

  /** main_component_file_path: `<folder>/<name>.rb`. */
  function MainComponentFilePath(root: string, name: string): (path: string)
  {
    Join(ComponentFolderPath(root, name), name + ".rb")
  }

  /** The main file is the entry `<name>.rb` of the component folder, and the
      folder's `.rb` glob picks it up exactly when that entry exists and the
      name does not make it a hidden file. */
  lemma MainFileInFolder(root: string, name: string, entries: seq<string>)
    ensures ChildName(ComponentFolderPath(root, name), MainComponentFilePath(root, name)) == name + ".rb"
    ensures MainComponentFilePath(root, name) in Glob(ComponentFolderPath(root, name), entries, ".rb")
      <==> name + ".rb" in entries && name != [] && name[0] != '.'
  {
    var folder := ComponentFolderPath(root, name);
    GlobMembership(folder, entries, ".rb");
    assert EndsWith(name + ".rb", ".rb");
    assert (name + ".rb")[0] == if name == [] then '.' else name[0];
  }

  /** related_components_file_paths: every `.rb` file of the folder except the main file. */
  function RelatedComponentsFilePaths(root: string, name: string, entries: seq<string>): (r: seq<string>)
    ensures forall p :: p in r ==> HasBasename(p)
  {
    var rb := Glob(ComponentFolderPath(root, name), entries, ".rb");
    GlobHasBasename(ComponentFolderPath(root, name), entries, ".rb");
    Without(rb, MainComponentFilePath(root, name))
  }

  /** The related files are `.rb` files of the folder, and the main file is
      never one of them. */
  lemma RelatedAreOtherRubyFiles(root: string, name: string, entries: seq<string>)
    ensures forall p :: p in RelatedComponentsFilePaths(root, name, entries) ==>
      p in Glob(ComponentFolderPath(root, name), entries, ".rb")
    ensures MainComponentFilePath(root, name) !in RelatedComponentsFilePaths(root, name, entries)
  {
  }

  /** js_controller_file_paths: every `.js` file of the folder. */
  function JsControllerFilePaths(root: string, name: string, entries: seq<string>): (r: seq<string>)
    ensures forall p :: p in r ==> HasBasename(p)
  {
    GlobHasBasename(ComponentFolderPath(root, name), entries, ".js");
    Glob(ComponentFolderPath(root, name), entries, ".js")
  }

  /** The entry `e` of the folder is a related file exactly when it is a
      visible `.rb` file other than `<name>.rb`. */
  lemma RelatedFileMembership(root: string, name: string, entries: seq<string>, e: string)
    ensures Join(ComponentFolderPath(root, name), e) in RelatedComponentsFilePaths(root, name, entries)
      <==> e in entries && Matches(e, ".rb") && e != name + ".rb"
  {
    var folder := ComponentFolderPath(root, name);
    var p := Join(folder, e);
    if p == MainComponentFilePath(root, name) {
      JoinInjective(folder, e, name + ".rb");
    }
    if e == name + ".rb" {
      assert p == MainComponentFilePath(root, name);
    }
    var rb := Glob(folder, entries, ".rb");
    GlobMembership(folder, entries, ".rb");
    if p in rb {
      assert ChildName(folder, p) == e;
    }
  }

  /** A main file (`.rb`) is never one of the Stimulus controllers (`.js`). */
  lemma MainFileIsNotController(root: string, name: string, entries: seq<string>)
    ensures MainComponentFilePath(root, name) !in JsControllerFilePaths(root, name, entries)
  {
    var folder := ComponentFolderPath(root, name);
    var main := MainComponentFilePath(root, name);
    GlobMembership(folder, entries, ".js");
    assert ChildName(folder, main) == name + ".rb";
  }

  /** Where the main file lands: `app/components/ruby_ui/<name>.rb`. */
  function MainComponentTarget(name: string): (target: string)
  {
    Join(ComponentsDir, name + ".rb")
  }

  /** Where a related file lands: `app/components/ruby_ui/<name>/<file>`. */
  function RelatedComponentTarget(name: string, file: string): (target: string)
  {
    Join(Join(ComponentsDir, name), file)
  }

  /** Where a controller lands: `app/javascript/controllers/ruby_ui/<file>`. */
  function ControllerTarget(file: string): (target: string)
  {
    Join(ControllersDir, file)
  }

  /** The three target patterns never overlap: a related file never overwrites
      the main file, and only controllers land in the controllers directory. */
  lemma TargetsDisjoint(name: string, file: string, other: string)
    ensures RelatedComponentTarget(name, file) != MainComponentTarget(name)
    ensures !StartsWith(RelatedComponentTarget(name, file), ControllersDir + "/")
    ensures !StartsWith(MainComponentTarget(name), ControllersDir + "/")
    ensures StartsWith(ControllerTarget(other), ControllersDir + "/")
    ensures ControllerTarget(other) != MainComponentTarget(name)
  {
    var rel := RelatedComponentTarget(name, file);
    var main := MainComponentTarget(name);
    var k := |ComponentsDir| + 1 + |name|;
    assert rel[k] == '/';
    assert main[k] == '.';
    var cp := ControllersDir + "/";
    assert rel[4] == 'c' && main[4] == 'c' && cp[4] == 'j';
    var ct := ControllerTarget(other);
    assert ct[..|cp|] == cp;
    assert ct[4] == 'j';
  }
}
