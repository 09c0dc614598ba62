/** The text the generator hands to the shell and to the importmap
    configuration, with the behaviour of the gem install command. */
module Commands {
  import opened Seqs

  /** Rebuilds the Stimulus controllers index (only needed without importmap). */
  const ManifestUpdate := "rake stimulus:manifest:update"

  /** Generates a sub-component in a separate process. */
  function ComponentCommand(component: string): (cmd: string)
    ensures StartsWith(cmd, "bin/rails generate ruby_ui:component ")
    ensures cmd[|"bin/rails generate ruby_ui:component "|..] == component
  {
    "bin/rails generate ruby_ui:component " + component
  }

  /** Adds a gem to the bundle unless `bundle show` already finds it. */
  function GemCommand(gem: string): (cmd: string)
    ensures StartsWith(cmd, "bundle show " + gem)
    ensures EndsWith(cmd, "|| bundle add " + gem)
  {
    "bundle show " + gem + " > /dev/null 2>&1 || bundle add " + gem
  }

  /** Distinct components give distinct commands. */
  lemma ComponentCommandInjective(a: string, b: string)
    requires ComponentCommand(a) == ComponentCommand(b)
    ensures a == b
  {
    var n := |"bin/rails generate ruby_ui:component "|;
    assert a == ComponentCommand(a)[n..];
    assert b == ComponentCommand(b)[n..];
  }

  /** Distinct gems give distinct commands: the gem name can be read back. */
  lemma GemCommandInjective(a: string, b: string)
    requires GemCommand(a) == GemCommand(b)
    ensures a == b
  {
    var n := |"bundle show "|;
    var m := |" > /dev/null 2>&1 || bundle add "|;
    assert |GemCommand(a)| == n + m + 2 * |a|;
    assert |GemCommand(b)| == n + m + 2 * |b|;
    assert a == GemCommand(a)[n..n + |a|];
    assert b == GemCommand(b)[n..n + |b|];
  }

  /** The three kinds of shell command never coincide, and each is
      recognised by its leading words. */
  lemma CommandKinds(c: string, g: string)
    ensures StartsWith(ComponentCommand(c), "bin/rails generate ruby_ui:component ")
    ensures StartsWith(GemCommand(g), "bundle show ")
    ensures !StartsWith(GemCommand(g), "bin/rails generate ruby_ui:component ")
    ensures ComponentCommand(c) != ManifestUpdate && GemCommand(g) != ManifestUpdate
  {
    var cc := ComponentCommand(c);
    var gc := GemCommand(g);
    var cp := "bin/rails generate ruby_ui:component ";
    assert cc[..|cp|] == cp;
    assert gc[..|"bundle show "|] == "bundle show ";
    assert cc[0] == 'b' && gc[0] == 'b' && ManifestUpdate[0] == 'r';
    assert gc[1] == 'u' && cp[1] == 'i';
    if |cp| <= |gc| {
      assert gc[..|cp|][1] == gc[1];
    }
  }

  // ---- What `bundle show g > /dev/null 2>&1 || bundle add g` does ----

  /** `bundle show g` exits successfully exactly when the bundle already has g. */
  predicate BundleShowSucceeds(bundle: set<string>, gem: string)
  {
    gem in bundle
  }

  /** The gems for which `bundle add` actually runs when GemCommand is run for
      each of `gems` in turn: `a || b` runs `b` only when `a` fails, and every
      add enlarges the bundle the next `bundle show` sees. */
  function GemsAdded(bundle: set<string>, gems: seq<string>): (added: seq<string>)
    ensures |added| <= |gems|
    ensures forall g :: g in added ==> !BundleShowSucceeds(bundle, g)
    decreases |gems|
  {
    if gems == [] then []
    else if BundleShowSucceeds(bundle, gems[0]) then GemsAdded(bundle, gems[1..])
    else [gems[0]] + GemsAdded(bundle + {gems[0]}, gems[1..])
  }

  /** The bundle after running GemCommand for each of `gems`. */
  function BundleAfter(bundle: set<string>, gems: seq<string>): (after: set<string>)
    ensures bundle <= after
    ensures forall g :: g in after && g !in bundle ==> g in gems
  {
    GemsAddedExactly(bundle, gems);
    bundle + set g | g in GemsAdded(bundle, gems)
  }

  /** `bundle add` runs only for gems the bundle lacks, never twice for one
      gem, and for every listed gem that was missing. */
  lemma {:induction false} GemsAddedExactly(bundle: set<string>, gems: seq<string>)
    ensures forall g :: g in GemsAdded(bundle, gems) ==> g !in bundle && g in gems
    ensures forall g :: g in gems && g !in bundle ==> g in GemsAdded(bundle, gems)
    ensures Distinct(GemsAdded(bundle, gems))
    decreases |gems|
  {
    if gems != [] {
      var g0, rest := gems[0], gems[1..];
      assert gems == [g0] + rest;
      if BundleShowSucceeds(bundle, g0) {
        GemsAddedExactly(bundle, rest);
      } else {
        GemsAddedExactly(bundle + {g0}, rest);
        var tail := GemsAdded(bundle + {g0}, rest);
        var r := [g0] + tail;
        assert g0 !in tail;
        forall i, j | 0 <= i < j < |r| ensures r[i] != r[j] {
          if i == 0 {
            assert r[j] == tail[j - 1];
          } else {
            assert r[i] == tail[i - 1] && r[j] == tail[j - 1];
          }
        }
      }
    }
  }

  /** Running the gem commands leaves every listed gem in the bundle and
      nothing else new. */
  lemma GemCommandsInstallAll(bundle: set<string>, gems: seq<string>)
    ensures BundleAfter(bundle, gems) == bundle + set g | g in gems
  {
    GemsAddedExactly(bundle, gems);
  }

  /** Running the gem commands a second time adds nothing: the step is
      idempotent. */
  lemma GemCommandsIdempotent(bundle: set<string>, gems: seq<string>)
    ensures GemsAdded(BundleAfter(bundle, gems), gems) == []
    ensures BundleAfter(BundleAfter(bundle, gems), gems) == BundleAfter(bundle, gems)
  {
    var after := BundleAfter(bundle, gems);
    GemCommandsInstallAll(bundle, gems);
    GemsAddedExactly(after, gems);
    if GemsAdded(after, gems) != [] {
      assert GemsAdded(after, gems)[0] in GemsAdded(after, gems);
    }
  }

  // ---- The pin declarations appended to config/importmap.rb ----

  /** The host's importmap configuration, relative to the application root. */
  const ImportmapConfig := "config/importmap.rb"

  const JsDelivr := "https://cdn.jsdelivr.net/npm/"
  const MotionUrl := JsDelivr + "motion@11.11.17/+esm"
  const TippyUrl := JsDelivr + "tippy.js@6.3.7/+esm"
  const PopperUrl := JsDelivr + "@popperjs/core@2.11.8/+esm"

  /** What pin_motion appends: its pin line, then an empty line. */
  const MotionPin := PinDeclaration("motion", MotionUrl) + "\n\n"

  /** What pin_tippy_js appends: two pin lines, then an empty line. */
  const TippyPin := PinDeclaration("tippy.js", TippyUrl) + "\n" + PinDeclaration("@popperjs/core", PopperUrl) + "\n\n"

  /** One importmap pin line: `pin "<name>", to: "<url>"`. */
  function PinDeclaration(name: string, url: string): (line: string)
  {
    "pin \"" + name + "\", to: \"" + url + "\""
  }

  /** Index of the first line break of `s`, or |s| when there is none. */
  function LineEnd(s: string): (k: nat)
    ensures k <= |s|
    ensures forall i :: 0 <= i < k ==> s[i] != '\n'
    ensures k < |s| ==> s[k] == '\n'
  {
    if s == [] || s[0] == '\n' then 0 else 1 + LineEnd(s[1..])
  }

  /** The first line break of `l + "\n" + rest` is the one after `l`. */
  lemma {:induction false} LineEndOfLine(l: string, rest: string)
    requires '\n' !in l
    ensures LineEnd(l + "\n" + rest) == |l|
    decreases |l|
  {
    var s := l + "\n" + rest;
    if l != [] {
      assert l[0] in l;
      assert s[1..] == l[1..] + "\n" + rest;
      assert '\n' !in l[1..] by {
        forall k | 0 <= k < |l| - 1 ensures l[1..][k] != '\n' {
          assert l[1..][k] == l[k + 1];
        }
      }
      LineEndOfLine(l[1..], rest);
    }
  }

  /** The lines of a text; a final line break does not start another line. */
  function Lines(s: string): (lines: seq<string>)
    decreases |s|
  {
    if s == [] then []
    else
      var k := LineEnd(s);
      [s[..k]] + (if k < |s| then Lines(s[k + 1..]) else [])
  }

  /** The text made of the given lines, each ended by a line break. */
  function Unlines(lines: seq<string>): (text: string)
  {
    if lines == [] then "" else lines[0] + "\n" + Unlines(lines[1..])
  }

  /** Splitting undoes joining, for lines without line breaks. */
  lemma {:induction false} LinesOfUnlines(lines: seq<string>)
    requires forall l :: l in lines ==> '\n' !in l
    ensures Lines(Unlines(lines)) == lines
  {
    if lines != [] {
      var l, rest := lines[0], lines[1..];
      var s := Unlines(lines);
      assert s == l + "\n" + Unlines(rest);
      var k := LineEnd(s);
      LineEndOfLine(l, Unlines(rest));
      assert s[..k] == l;
      assert s[k + 1..] == Unlines(rest);
      LinesOfUnlines(rest);
    }
  }

  /** The lines of a text that declare a pin. */
  function PinLinesOf(lines: seq<string>): (pins: seq<string>)
  {
    if lines == [] then []
    else (if StartsWith(lines[0], "pin ") then [lines[0]] else []) + PinLinesOf(lines[1..])
  }

  function PinLines(text: string): (pins: seq<string>)
  {
    PinLinesOf(Lines(text))
  }

  /** Every pin line starts with `pin `. */
  lemma PinDeclarationIsPin(name: string, url: string)
    ensures StartsWith(PinDeclaration(name, url), "pin ")
  {
  }

  /** A line followed by a line break is the first line of the text. */
  lemma LinesOfLine(a: string, rest: string)
    requires '\n' !in a
    ensures Lines(a + "\n" + rest) == [a] + Lines(rest)
  {
    var s := a + "\n" + rest;
    LineEndOfLine(a, rest);
    assert s[..|a|] == a;
    assert s[|a| + 1..] == rest;
  }

  /** A text of one pin line and an empty line declares that one pin. */
  lemma PinLinesOfOne(a: string)
    requires '\n' !in a && StartsWith(a, "pin ")
    ensures PinLines(a + "\n\n") == [a]
  {
    assert a + "\n\n" == a + "\n" + "\n";
    LinesOfLine(a, "\n");
    assert "\n" == "" + "\n" + "";
    LinesOfLine("", "");
    assert Lines(a + "\n\n") == [a, ""];
    assert PinLinesOf([""]) == [];
    assert PinLinesOf([a, ""]) == [a] + PinLinesOf([""]);
  }

  /** A text of two pin lines and an empty line declares those two pins, in order. */
  lemma PinLinesOfTwo(a: string, b: string)
    requires '\n' !in a && StartsWith(a, "pin ")
    requires '\n' !in b && StartsWith(b, "pin ")
    ensures PinLines(a + "\n" + b + "\n\n") == [a, b]
  {
    assert a + "\n" + b + "\n\n" == a + "\n" + (b + "\n\n");
    LinesOfLine(a, b + "\n\n");
    PinLinesOfOne(b);
    var rest := Lines(b + "\n\n");
    assert ([a] + rest)[1..] == rest;
  }

  /** A pin line is one line when its name and URL are. */
  lemma PinDeclarationOneLine(name: string, url: string)
    requires '\n' !in name && '\n' !in url
    ensures '\n' !in PinDeclaration(name, url)
  {
  }

  lemma MotionPinOneLine()
    ensures '\n' !in PinDeclaration("motion", MotionUrl)
  {
    assert '\n' !in JsDelivr && '\n' !in "motion@11.11.17/+esm";
    PinDeclarationOneLine("motion", MotionUrl);
  }

  lemma TippyPinOneLine()
    ensures '\n' !in PinDeclaration("tippy.js", TippyUrl)
  {
    assert '\n' !in JsDelivr && '\n' !in "tippy.js@6.3.7/+esm";
    PinDeclarationOneLine("tippy.js", TippyUrl);
  }

  lemma PopperPinOneLine()
    ensures '\n' !in PinDeclaration("@popperjs/core", PopperUrl)
  {
    assert '\n' !in JsDelivr && '\n' !in "@popperjs/core@2.11.8/+esm";
    PinDeclarationOneLine("@popperjs/core", PopperUrl);
  }

  lemma MotionUrlSpelledOut()
    ensures MotionUrl == "https://cdn.jsdelivr.net/npm/motion@11.11.17/+esm"
  {
  }

  lemma TippyUrlSpelledOut()
    ensures TippyUrl == "https://cdn.jsdelivr.net/npm/tippy.js@6.3.7/+esm"
  {
  }

  lemma PopperUrlSpelledOut()
    ensures PopperUrl == "https://cdn.jsdelivr.net/npm/@popperjs/core@2.11.8/+esm"
  {
  }

  /** The motion pin text holds one pin line. */
  lemma MotionPinLines()
    ensures PinLines(MotionPin) == [PinDeclaration("motion", MotionUrl)]
  {
    MotionPinOneLine();
    PinDeclarationIsPin("motion", MotionUrl);
    PinLinesOfOne(PinDeclaration("motion", MotionUrl));
  }

  /** pin_motion appends exactly one pin, for motion 11.11.17 from jsDelivr. */
  lemma MotionPinDeclarations()
    ensures PinLines(MotionPin) == [PinDeclaration("motion", "https://cdn.jsdelivr.net/npm/motion@11.11.17/+esm")]
  {
    MotionPinLines();
    MotionUrlSpelledOut();
  }

  /** The tippy.js pin text holds two pin lines, tippy.js first. */
  lemma TippyPinLines()
    ensures PinLines(TippyPin) == [PinDeclaration("tippy.js", TippyUrl), PinDeclaration("@popperjs/core", PopperUrl)]
  {
    TippyPinOneLine();
    PopperPinOneLine();
    PinDeclarationIsPin("tippy.js", TippyUrl);
    PinDeclarationIsPin("@popperjs/core", PopperUrl);
    PinLinesOfTwo(PinDeclaration("tippy.js", TippyUrl), PinDeclaration("@popperjs/core", PopperUrl));
  }

  /** pin_tippy_js appends exactly two pins: tippy.js 6.3.7 and its peer
      @popperjs/core 2.11.8, both from jsDelivr. */
  lemma TippyPinDeclarations()
    ensures PinLines(TippyPin) == [
      PinDeclaration("tippy.js", "https://cdn.jsdelivr.net/npm/tippy.js@6.3.7/+esm"),
      PinDeclaration("@popperjs/core", "https://cdn.jsdelivr.net/npm/@popperjs/core@2.11.8/+esm")]
  {
    TippyPinLines();
    TippyUrlSpelledOut();
    PopperUrlSpelledOut();
  }
}
