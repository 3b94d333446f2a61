/** Concrete walks and reports: a root with a README of two lines and one
    sub-directory without a README, under both policies. */
module Scenarios {
  import opened Tree
  import opened Explorer
  import opened Reporter

  const Sub: Dir := Dir("sub", None, true, [])
  const Project: Dir := Dir("proj", Some(Readable("Hello\nWorld")), true, [Sub])

  /** The README's text splits into its two lines. */
  lemma TwoLines()
    ensures Take("Hello\nWorld", MaxChars) == "Hello\nWorld"
    ensures Split("Hello\nWorld") == ["Hello", "World"]
  {
    var lines := ["Hello", "World"];
    assert JoinWith("\n", lines) == "Hello\nWorld";
    SplitOfJoin(lines);
  }

  /** The sub-directory's path. */
  lemma SubPath()
    ensures Join("/proj", "sub") == "/proj/sub"
  {
    JoinMeaning("/proj", "sub");
    assert "/proj" + "/" + "sub" == "/proj/sub";
  }

  /** The indented lines of the README, before the blank line. */
  lemma IndentedText()
    ensures Indent("Hello\nWorld") == "    Hello\n    World"
  {
    TwoLines();
    IndentedLines();
    JoinTwo(Indentation + "Hello", Indentation + "World");
    IndentedLiteral();
  }

  lemma IndentedLines()
    ensures Prefixed(Indentation, ["Hello", "World"]) == [Indentation + "Hello", Indentation + "World"]
  {
  }

  lemma JoinTwo(a: string, b: string)
    ensures JoinWith("\n", [a, b]) == a + "\n" + b
  {
    assert [a, b][1..] == [b];
  }

  lemma IndentedLiteral()
    ensures Indentation + "Hello" + "\n" + (Indentation + "World") == "    Hello\n    World"
  {
  }

  /** The root's entry, then what the single sub-directory contributes. */
  lemma ProjectWalk(maxDepth: int, showAllDirs: bool)
    requires 0 <= maxDepth
    ensures Explore("/proj", Project, maxDepth, showAllDirs, 0) ==
            [Entry("/proj", Some("Hello\nWorld"))] + Explore("/proj/sub", Sub, maxDepth, showAllDirs, 1)
  {
    TwoLines();
    ProjectKids(maxDepth, showAllDirs);
  }

  lemma ProjectKids(maxDepth: int, showAllDirs: bool)
    ensures ExploreKids("/proj", Project, maxDepth, showAllDirs, 0, 1) == Explore("/proj/sub", Sub, maxDepth, showAllDirs, 1)
  {
    SubPath();
  }

  /** The README's block: each of its lines behind four spaces, then a
      blank line. */
  lemma IndentTwoLines()
    ensures Body(Some("Hello\nWorld")) == "    Hello\n    World\n\n"
  {
    TwoLines();
    IndentedText();
    assert "    Hello\n    World" + "\n\n" == "    Hello\n    World\n\n";
  }

  /** The root's block: the header "/" and the indented README. */
  lemma RootBlock()
    ensures Block("/proj", Entry("/proj", Some("Hello\nWorld"))) ==
            "\n/\n" + "    Hello\n    World\n\n"
  {
    IndentTwoLines();
    RootHeader();
  }

  /** The root is shown as "/". */
  lemma RootHeader()
    ensures Header("/proj", "/proj") == "\n/\n"
  {
    DisplayNameMeaning("/proj", "/proj");
  }

  /** By default only the root is reported, its two README lines indented. */
  lemma DefaultReport()
    ensures Explore("/proj", Project, 3, false, 0) == [Entry("/proj", Some("Hello\nWorld"))]
    ensures Report("/proj", Explore("/proj", Project, 3, false, 0)) ==
            "\n/\n" + "    Hello\n    World\n\n"
  {
    ProjectWalk(3, false);
    ReportSingle("/proj", Entry("/proj", Some("Hello\nWorld")));
    RootBlock();
  }

  /** The sub-directory's block: its path relative to the root, no body. */
  lemma SubBlock()
    ensures Block("/proj", Entry("/proj/sub", None)) == "\n/sub\n"
  {
    var path: string := "/proj/sub";
    assert path == "/proj" + "/sub";
    assert "/proj" <= path;
    assert path[|"/proj"|..] == "/sub";
  }

  /** Under the show-all policy the sub-directory follows, with its path
      relative to the root and no body. */
  lemma ShowAllReport()
    ensures Explore("/proj", Project, 3, true, 0) == [Entry("/proj", Some("Hello\nWorld")), Entry("/proj/sub", None)]
    ensures Report("/proj", Explore("/proj", Project, 3, true, 0)) ==
            "\n/\n" + "    Hello\n    World\n\n"
            + "\n/sub\n"
  {
    var root, sub := Entry("/proj", Some("Hello\nWorld")), Entry("/proj/sub", None);
    ProjectWalk(3, true);
    assert Explore("/proj/sub", Sub, 3, true, 1) == [sub];
    assert [root] + [sub] == [root, sub];
    ReportAppend("/proj", [root], [sub]);
    ReportSingle("/proj", root);
    ReportSingle("/proj", sub);
    RootBlock();
    SubBlock();
  }

  /** With a depth bound of zero only the root is visited. */
  lemma DepthZeroWalk()
    ensures Explore("/proj", Project, 0, true, 0) == [Entry("/proj", Some("Hello\nWorld"))]
  {
    ProjectWalk(0, true);
  }
}
