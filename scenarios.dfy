/** Worked examples of the whole pipeline: analysing a small installed tree and
    rendering it. */
module Scenarios {
  import opened Wrappers
  import opened Records
  import opened Types
  import opened Analyzer
  import opened Renderer
  import opened Sizes

  /** A project `app` declaring `a@^1.0.0`; `a` 1.2.0 (MIT) is installed and declares
      `b@^2.0.0`; `b` 2.0.0 is installed with no dependencies and one 2048-byte file. */
  function InstalledTree(): Disk {
    Disk(
      Parsed(PackageInfo("app", "1.0.0", Some([("a", "^1.0.0")]), None, None)),
      map["a" := Parsed(PackageInfo("a", "1.2.0", Some([("b", "^2.0.0")]), None, Some("MIT"))),
          "b" := Parsed(PackageInfo("b", "2.0.0", None, None, None))],
      map["a" := [], "b" := [2048]])
  }

  function NodeB(): DependencyNode {
    DependencyNode("b", "2.0.0", [], Some(2048), None, Some(false), None, None)
  }

  function NodeA(): DependencyNode {
    DependencyNode("a", "1.2.0", [("b", NodeB())], Some(0), Some("MIT"), Some(false), None, None)
  }

  function AppTree(): DependencyNode {
    DependencyNode("app", "1.0.0", [("a", NodeA())], None, None, None, None, None)
  }

  /** A leading caret is removed. */
  lemma StripCaret()
    ensures StripRange("^1.0.0") == "1.0.0"
    ensures StripRange("^2.0.0") == "2.0.0"
    ensures StripRange("^~1") == "~1"
  {
  }

  /** Otherwise the first tilde is removed, wherever it stands. */
  lemma StripTilde()
    ensures StripRange("~1.0.0") == "1.0.0"
    ensures StripRange("1 - ~2") == "1 - 2"
  {
    assert TildeIndex("~1.0.0") == 0;
    assert TildeIndex("1 - ~2") == 4 by {
      assert "1 - ~2"[1..] == " - ~2";
      assert " - ~2"[1..] == "- ~2";
      assert "- ~2"[1..] == " ~2";
      assert " ~2"[1..] == "~2";
    }
  }

  /** Other ranges are kept as declared. */
  lemma StripOther()
    ensures StripRange(">=1.2") == ">=1.2"
  {
    assert TildeIndex(">=1.2") == 5 by {
      assert ">=1.2"[1..] == "=1.2";
      assert "=1.2"[1..] == "1.2";
      assert "1.2"[1..] == ".2";
      assert ".2"[1..] == "2";
      assert "2"[1..] == "";
    }
  }

  lemma BuildB(visited: set<string>)
    requires "b@2.0.0" !in visited
    ensures Build(InstalledTree(), "b", "2.0.0", visited, false).result == Success(NodeB())
  {
    var disk := InstalledTree();
    assert Key("b", "2.0.0") == "b@2.0.0";
    var info := PackageInfo("b", "2.0.0", None, None, None);
    assert ManifestOf(disk, "b") == Parsed(info);
    assert DepsOf(info) == [];
    assert DirSize(disk, "b") == 2048 by {
      assert [2048][..0] == [];
    }
  }

  lemma BuildA()
    ensures Build(InstalledTree(), "a", "1.0.0", {}, false).result == Success(NodeA())
  {
    var disk := InstalledTree();
    assert Key("a", "1.0.0") == "a@1.0.0";
    var info := PackageInfo("a", "1.2.0", Some([("b", "^2.0.0")]), None, Some("MIT"));
    assert ManifestOf(disk, "a") == Parsed(info);
    assert DepsOf(info) == [("b", "^2.0.0")];
    assert DirSize(disk, "a") == 0;
    assert EntryKey(("b", "^2.0.0")) in Universe(disk) by {
      StripCaret();
      assert EntryKey(DepsOf(disk.manifests["a"].info)[0]) == "b@2.0.0";
    }
    var children := BuildChildren(disk, DepsOf(info), [], {"a@1.0.0"}, false);
    assert children.result == Success([("b", NodeB())]) by {
      ChildrenOfA();
    }
    var none: set<string> := {};
    assert none + {Key("a", "1.0.0")} == {"a@1.0.0"};
  }

  lemma ChildrenOfA()
    requires EntryKey(("b", "^2.0.0")) in Universe(InstalledTree())
    ensures BuildChildren(InstalledTree(), [("b", "^2.0.0")], [], {"a@1.0.0"}, false).result
            == Success([("b", NodeB())])
  {
    var disk := InstalledTree();
    var entries := [("b", "^2.0.0")];
    StripCaret();
    BuildB({"a@1.0.0"});
    assert Put([], "b", NodeB()) == [("b", NodeB())];
    assert entries[1..] == [];
  }

  /** The installed versions and license are taken from the installed manifests, the
      size from the files, and nothing is a duplicate. */
  lemma AnalyzeInstalledTree()
    ensures Analyze(InstalledTree()) == Success(AppTree())
  {
    var disk := InstalledTree();
    StripCaret();
    BuildA();
    var root := PackageInfo("app", "1.0.0", Some([("a", "^1.0.0")]), None, None);
    assert DepsOf(root)[1..] == [];
    assert Put([], "a", NodeA()) == [("a", NodeA())];
    assert BuildRoot(disk, DepsOf(root), [], false) == Success([("a", NodeA())]);
    assert BuildRoot(disk, DevDepsOf(root), [("a", NodeA())], true) == Success([("a", NodeA())]);
  }

  /** The root carries neither size, license nor flags. */
  lemma AppLabel()
    ensures Label(AppTree()) == "app@1.0.0"
  {
    var n := AppTree();
    assert DuplicateNote(n) == "" && DevNote(n) == "" && LicenseNote(n) == "" && SizeNote(n) == "";
  }

  /** A zero size is left out, the license is shown in brackets. */
  lemma MiddleLabel()
    ensures Label(NodeA()) == "a@1.2.0 [MIT]"
  {
    var n := NodeA();
    assert DuplicateNote(n) == "" && DevNote(n) == "" && SizeNote(n) == "";
    assert LicenseNote(n) == " [MIT]";
  }

  /** Two kilobytes are shown as `2.0KB`. */
  lemma LeafLabel()
    ensures Label(NodeB()) == "b@2.0.0 (2.0KB)"
  {
    var n := NodeB();
    assert DuplicateNote(n) == "" && DevNote(n) == "" && LicenseNote(n) == "";
    assert SizeText(2048, "") == "2.0KB" by {
      SizeTextExamples();
    }
    assert SizeNote(n) == " (2.0KB)";
  }

  lemma TreeLines()
    ensures Lines(AppTree(), "", true, 0, Infinity)
            == [Line("", LastBranch, AppTree(), 0), Line("    ", LastBranch, NodeA(), 1),
                Line("        ", LastBranch, NodeB(), 2)]
  {
    var lb := Lines(NodeB(), "        ", true, 2, Infinity);
    assert lb == [Line("        ", LastBranch, NodeB(), 2)];
    var la := Lines(NodeA(), "    ", true, 1, Infinity);
    assert "    " + LastIndent == "        ";
    assert la == [Line("    ", LastBranch, NodeA(), 1)] + lb;
    assert "" + LastIndent == "    ";
  }

  lemma RootText()
    ensures Text(Line("", LastBranch, AppTree(), 0)) == "└── app@1.0.0"
  {
    AppLabel();
  }

  lemma MiddleText()
    ensures Text(Line("    ", LastBranch, NodeA(), 1)) == "    └── a@1.2.0 [MIT]"
  {
    MiddleLabel();
  }

  lemma LeafText()
    ensures Text(Line("        ", LastBranch, NodeB(), 2)) == "        └── b@2.0.0 (2.0KB)"
  {
    LeafLabel();
  }

  lemma TreeTexts()
    ensures Texts(Lines(AppTree(), "", true, 0, Infinity))
            == ["└── app@1.0.0", "    └── a@1.2.0 [MIT]", "        └── b@2.0.0 (2.0KB)"]
  {
    TreeLines();
    RootText();
    MiddleText();
    LeafText();
  }

  lemma UnlinesThree(x: string, y: string, z: string)
    ensures Unlines([x, y, z]) == (x + "\n") + (y + "\n") + (z + "\n")
  {
    assert [x, y, z][..2] == [x, y];
    assert [x, y][..1] == [x];
    UnlinesOne(x);
  }

  /** The rendered text of the analysed tree. */
  lemma RenderInstalledTree()
    ensures Output(Lines(AppTree(), "", true, 0, Infinity))
            == "└── app@1.0.0\n" + "    └── a@1.2.0 [MIT]\n" + "        └── b@2.0.0 (2.0KB)\n"
  {
    var x, y, z := "└── app@1.0.0", "    └── a@1.2.0 [MIT]", "        └── b@2.0.0 (2.0KB)";
    TreeTexts();
    UnlinesThree(x, y, z);
    assert x + "\n" == "└── app@1.0.0\n";
    assert y + "\n" == "    └── a@1.2.0 [MIT]\n";
    assert z + "\n" == "        └── b@2.0.0 (2.0KB)\n";
  }
}
