/** `generate_report`: renders the explorer's entries as one text, a header
    line per directory followed by its indented README excerpt. */
module Reporter {
  import opened Tree
  import opened Explorer

  /** What precedes every README line in the report. */
  const Indentation: string := "    "

  /** Python's `str.removeprefix`. */
  function RemovePrefix(s: string, prefix: string): string
  {
    if prefix <= s then s[|prefix|..] else s
  }

  /** The name shown for a directory: its path with the root removed in
      front, or "/" when nothing is left (the root itself). */
  function DisplayName(root: string, path: string): string
  {
    if root <= path then (if |path| == |root| then "/" else path[|root|..])
    else if |path| == 0 then "/" else path
  }

  /** What the displayed name is: "/" for the root, the rest of the path when
      the path starts with the root string (root "/proj" shows "/projx" as
      "x"), and the path unchanged otherwise; never empty. */
  lemma DisplayNameMeaning(root: string, path: string)
    ensures DisplayName(root, path) != ""
    ensures path == root ==> DisplayName(root, path) == "/"
    ensures root <= path && path != root ==> root + DisplayName(root, path) == path
    ensures !(root <= path) && path != "" ==> DisplayName(root, path) == path
    ensures !(root <= path) && path == "" ==> DisplayName(root, path) == "/"
  {
    if root <= path && path != root {
      assert path == path[..|root|] + path[|root|..];
    }
  }

  function CountNewlines(s: string): nat
  {
    if s == [] then 0 else (if s[0] == '\n' then 1 else 0) + CountNewlines(s[1..])
  }

  /** Python's `s.split("\n")`: the maximal newline-free pieces between the
      newlines of `s`, one more than there are newlines. */
  function Split(s: string): (r: seq<string>)
    ensures |r| == CountNewlines(s) + 1
  {
    if s == [] then [""]
    else
      var rest := Split(s[1..]);
      if s[0] == '\n' then [""] + rest
      else [[s[0]] + rest[0]] + rest[1..]
  }

  /** Python's `sep.join(parts)`. */
  function JoinWith(sep: string, parts: seq<string>): string
  {
    if parts == [] then ""
    else if |parts| == 1 then parts[0]
    else parts[0] + sep + JoinWith(sep, parts[1..])
  }

  /** The generator `prefix + line for line in lines`. */
  function Prefixed(prefix: string, lines: seq<string>): seq<string>
  {
    seq(|lines|, i requires 0 <= i < |lines| => prefix + lines[i])
  }

  /** The indented block of `text`: split into lines, four spaces in front of
      each, joined by newlines again. */
  function Indent(text: string): string
  {
    JoinWith("\n", Prefixed(Indentation, Split(text)))
  }

  /** Reference for the indented block: `text` with every newline replaced by
      `sep`, character by character. */
  function ReplaceNewlines(text: string, sep: string): string
  {
    if text == [] then ""
    else (if text[0] == '\n' then sep else [text[0]]) + ReplaceNewlines(text[1..], sep)
  }

  /** Python truthiness of an optional string: present and non-empty. */
  predicate Truthy(content: Option<string>)
  {
    content.Some? && content.value != ""
  }

  /** The header line of a directory. */
  function Header(root: string, path: string): string
  {
    "\n" + DisplayName(root, path) + "\n"
  }

  /** What follows the header: the indented excerpt and a blank line, for
      truthy content only. */
  function Body(content: Option<string>): string
  {
    if Truthy(content) then Indent(Take(content.value, MaxChars)) + "\n\n" else ""
  }

  /** What one entry adds to the report. */
  function Block(root: string, e: Entry): string
  {
    Header(root, e.path) + Body(e.content)
  }

  /** The report for a run of entries: their blocks, in order. */
  function Report(root: string, structure: seq<Entry>): string
  {
    if |structure| == 0 then ""
    else Report(root, structure[..|structure| - 1]) + Block(root, structure[|structure| - 1])
  }

  /** `generate_report`: the report string is accumulated entry by entry,
      a header line and then, for truthy content, the indented excerpt. */
  method GenerateReport(rootDirectory: string, structure: seq<Entry>) returns (report: string)
    ensures report == Report(rootDirectory, structure)
    ensures structure == [] ==> report == ""
  {
    report := "";
    for i := 0 to |structure|
      invariant report == Report(rootDirectory, structure[..i])
    {
      ghost var before := report;
      var directory, readmeContent := structure[i].path, structure[i].content;
      var dirName := RemovePrefix(directory, rootDirectory);
      if dirName == "" {
        dirName := "/";
      }
      report := report + ("\n" + dirName + "\n");
      ghost var withHeader := report;
      if readmeContent.Some? && readmeContent.value != "" {
        var indentedContent := Indent(Take(readmeContent.value, MaxChars));
        report := report + (indentedContent + "\n\n");
      }
      ReportStep(rootDirectory, structure, i, before, dirName, withHeader, report);
    }
    assert structure[..|structure|] == structure;
  }

  /** One iteration of `generate_report` appends the entry's block. */
  lemma ReportStep(root: string, structure: seq<Entry>, i: nat, before: string, dirName: string, withHeader: string, after: string)
    requires i < |structure| && before == Report(root, structure[..i])
    requires dirName == if RemovePrefix(structure[i].path, root) == "" then "/" else RemovePrefix(structure[i].path, root)
    requires withHeader == before + ("\n" + dirName + "\n")
    requires after == if Truthy(structure[i].content)
                      then withHeader + (Indent(Take(structure[i].content.value, MaxChars)) + "\n\n")
                      else withHeader
    ensures after == Report(root, structure[..i + 1])
  {
    AppendedBlock(root, structure[i], before, dirName, withHeader, after);
    ReportExtend(root, structure, i);
  }

  /** The header line and the indented excerpt together are the entry's block. */
  lemma AppendedBlock(root: string, e: Entry, before: string, dirName: string, withHeader: string, after: string)
    requires dirName == if RemovePrefix(e.path, root) == "" then "/" else RemovePrefix(e.path, root)
    requires withHeader == before + ("\n" + dirName + "\n")
    requires after == if Truthy(e.content)
                      then withHeader + (Indent(Take(e.content.value, MaxChars)) + "\n\n")
                      else withHeader
    ensures after == before + Block(root, e)
  {
    DisplayNameOfRemovePrefix(root, e.path);
    var h := "\n" + dirName + "\n";
    assert h == Header(root, e.path);
    if Truthy(e.content) {
      AppendAssoc(before, h, Body(e.content));
    }
  }

  /** The report of one more entry has that entry's block at the end. */
  lemma ReportExtend(root: string, structure: seq<Entry>, i: nat)
    requires i < |structure|
    ensures Report(root, structure[..i + 1]) == Report(root, structure[..i]) + Block(root, structure[i])
  {
    assert structure[..i + 1][..i] == structure[..i];
  }

  /** The header's name is what `removeprefix` leaves, or "/" when that is
      empty. */
  lemma DisplayNameOfRemovePrefix(root: string, path: string)
    ensures DisplayName(root, path) == if RemovePrefix(path, root) == "" then "/" else RemovePrefix(path, root)
  {
    if root <= path {
      assert |path[|root|..]| == |path| - |root|;
    }
  }

  // ---------------------------------------------------------------------------
  // Splitting and joining lines

  /** No piece of a split contains a newline. */
  lemma {:induction false} SplitPiecesNewlineFree(s: string)
    ensures forall i :: 0 <= i < |Split(s)| ==> '\n' !in Split(s)[i]
    decreases |s|
  {
    if s != [] {
      SplitPiecesNewlineFree(s[1..]);
    }
  }

  /** Splitting text that starts with a newline-free piece `a`. */
  lemma {:induction false} SplitAfterPiece(a: string, t: string)
    requires '\n' !in a
    ensures Split(a + t) == [a + Split(t)[0]] + Split(t)[1..]
    decreases |a|
  {
    if a != [] {
      assert (a + t)[0] == a[0];
      assert (a + t)[1..] == a[1..] + t;
      SplitAfterPiece(a[1..], t);
      assert [a[0]] + (a[1..] + Split(t)[0]) == a + Split(t)[0];
    } else {
      assert a + t == t;
      assert a + Split(t)[0] == Split(t)[0];
      assert Split(t) == [Split(t)[0]] + Split(t)[1..];
    }
  }

  /** Joining newline-free lines and splitting again gives the lines back. */
  lemma {:induction false} SplitOfJoin(lines: seq<string>)
    requires |lines| >= 1
    requires forall i :: 0 <= i < |lines| ==> '\n' !in lines[i]
    ensures Split(JoinWith("\n", lines)) == lines
    decreases |lines|
  {
    if |lines| == 1 {
      SplitAfterPiece(lines[0], "");
      assert lines[0] + "" == lines[0];
    } else {
      var rest := JoinWith("\n", lines[1..]);
      SplitOfJoin(lines[1..]);
      assert lines[0] + "\n" + rest == lines[0] + ("\n" + rest);
      SplitAfterPiece(lines[0], "\n" + rest);
      assert ("\n" + rest)[1..] == rest;
      assert lines[0] + "" == lines[0];
      assert lines == [lines[0]] + lines[1..];
    }
  }

  /** Joining onto a first piece extended in front. */
  lemma JoinWithExtendedHead(sep: string, a: string, parts: seq<string>)
    requires |parts| >= 1
    ensures JoinWith(sep, [a + parts[0]] + parts[1..]) == a + JoinWith(sep, parts)
  {
    var ps := [a + parts[0]] + parts[1..];
    assert ps[1..] == parts[1..];
  }

  /** Joining the split pieces with `sep` replaces each newline by `sep`. */
  lemma {:induction false} JoinOfSplit(text: string, sep: string)
    ensures JoinWith(sep, Split(text)) == ReplaceNewlines(text, sep)
    decreases |text|
  {
    if text != [] {
      var rest := Split(text[1..]);
      JoinOfSplit(text[1..], sep);
      if text[0] == '\n' {
        assert ([""] + rest)[1..] == rest;
      } else {
        JoinWithExtendedHead(sep, [text[0]], rest);
      }
    }
  }

  lemma {:induction false} ReplaceNewlinesIdentity(text: string)
    ensures ReplaceNewlines(text, "\n") == text
    decreases |text|
  {
    if text != [] {
      ReplaceNewlinesIdentity(text[1..]);
      assert text == [text[0]] + text[1..];
    }
  }

  /** Round trip: joining the lines of `text` with newlines gives `text`. */
  lemma JoinSplitRoundTrip(text: string)
    ensures JoinWith("\n", Split(text)) == text
  {
    JoinOfSplit(text, "\n");
    ReplaceNewlinesIdentity(text);
  }

  /** Prefixing every piece and joining with `sep` is prefixing once and
      joining with `sep + prefix`. */
  lemma {:induction false} JoinOfPrefixed(sep: string, prefix: string, parts: seq<string>)
    requires |parts| >= 1
    ensures JoinWith(sep, Prefixed(prefix, parts)) == prefix + JoinWith(sep + prefix, parts)
    decreases |parts|
  {
    if |parts| > 1 {
      JoinOfPrefixed(sep, prefix, parts[1..]);
      assert Prefixed(prefix, parts)[1..] == Prefixed(prefix, parts[1..]);
    }
  }

  /** The indented block is the text with four spaces in front and four
      spaces after every newline. */
  lemma IndentIsReference(text: string)
    ensures Indent(text) == Indentation + ReplaceNewlines(text, "\n" + Indentation)
  {
    JoinOfPrefixed("\n", Indentation, Split(text));
    JoinOfSplit(text, "\n" + Indentation);
  }

  /** Line by line: the block's lines are exactly the text's lines, each with
      four spaces in front. */
  lemma IndentLines(text: string)
    ensures Split(Indent(text)) == Prefixed(Indentation, Split(text))
  {
    var lines := Prefixed(Indentation, Split(text));
    SplitPiecesNewlineFree(text);
    forall i | 0 <= i < |lines|
      ensures '\n' !in lines[i]
    {
      assert lines[i] == Indentation + Split(text)[i];
    }
    SplitOfJoin(lines);
  }

  // ---------------------------------------------------------------------------
  // The report

  /** One entry's block: the header `"\n" + name + "\n"`, then, for truthy
      content only, its first MaxChars characters indented and a blank line. */
  lemma BlockShape(root: string, e: Entry)
    ensures !Truthy(e.content) ==> Block(root, e) == "\n" + DisplayName(root, e.path) + "\n"
    ensures Truthy(e.content) ==>
              Block(root, e) == "\n" + DisplayName(root, e.path) + "\n" + Indentation
                                + ReplaceNewlines(Take(e.content.value, MaxChars), "\n" + Indentation) + "\n\n"
  {
    if Truthy(e.content) {
      IndentIsReference(Take(e.content.value, MaxChars));
    }
  }

  /** The report of two consecutive runs of entries is the concatenation of
      their reports. */
  lemma {:induction false} ReportAppend(root: string, a: seq<Entry>, b: seq<Entry>)
    ensures Report(root, a + b) == Report(root, a) + Report(root, b)
    decreases |b|
  {
    if |b| == 0 {
      assert a + b == a;
    } else {
      var init := b[..|b| - 1];
      ReportAppend(root, a, init);
      assert (a + b)[..|a + b| - 1] == a + init;
      assert (a + b)[|a + b| - 1] == b[|b| - 1];
      AppendAssoc(Report(root, a), Report(root, init), Block(root, b[|b| - 1]));
    }
  }

  /** A single entry's report is its block. */
  lemma ReportSingle(root: string, e: Entry)
    ensures Report(root, [e]) == Block(root, e)
  {
    assert [e][..0] == [];
  }

  lemma PrefixOfConcat(a: string, b: string, c: string)
    requires a <= b
    ensures a <= b + c
  {
    assert (b + c)[..|a|] == b[..|a|];
  }

  /** A report whose first entry is the root opens with the header "/". */
  lemma ReportOpensWithRootHeader(root: string, structure: seq<Entry>)
    requires |structure| > 0 && structure[0].path == root
    ensures "\n/\n" <= Report(root, structure)
  {
    var e := structure[0];
    assert structure == [e] + structure[1..];
    ReportAppend(root, [e], structure[1..]);
    ReportSingle(root, e);
    DisplayNameMeaning(root, root);
    assert Header(root, root) == "\n/\n";
    PrefixOfConcat("\n/\n", Header(root, root), Body(e.content));
    PrefixOfConcat("\n/\n", Block(root, e), Report(root, structure[1..]));
  }

  /** The report of a walk started at `root` opens with the root's header
      "/" whenever it has any entry. */
  lemma ReportOpensWithRoot(root: string, d: Dir, maxDepth: int, showAllDirs: bool)
    requires Explore(root, d, maxDepth, showAllDirs, 0) != []
    ensures "\n/\n" <= Report(root, Explore(root, d, maxDepth, showAllDirs, 0))
  {
    PreOrder(root, d, maxDepth, showAllDirs, 0);
    ReportOpensWithRootHeader(root, Explore(root, d, maxDepth, showAllDirs, 0));
  }
}
