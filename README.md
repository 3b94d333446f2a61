# directory-digest, modelled in Dafny

directory-digest is a small command-line tool. It walks a directory tree
down to a depth bound.

- Under the default policy it collects every directory within the bound that
  holds a `README.md` and is reached only through directories that hold one
  and whose listing is permitted.
  A directory without a README is skipped together with everything below it.
- Under the "show all directories" policy it collects every directory within
  the bound that is reached through directories whose listing is permitted.

It then renders one text report: a header line per directory, followed by the
first 1000 characters of its README, each line indented by four spaces.

This project models the three parts of `run.py` that make up that behaviour.

- `read_readme_content` becomes `Tree.ReadReadmeContent`. It keeps at most 1000
  characters, or gives the fixed error sentence when the read fails.
- `explore_directory` becomes `Explorer.ExploreDirectory`. It is a recursive
  method with a loop over the sub-directories, proved equal to the
  specification functions `Explorer.Explore` (the entries) and
  `Explorer.Warnings` (the permission warnings, in the order they are printed).
- `generate_report` becomes `Reporter.GenerateReport`. It is a loop that
  accumulates the report string, proved equal to the specification function
  `Reporter.Report`. The indentation expression it uses is the pure function
  `Reporter.Indent`, built from models of Python's `str.split("\n")`
  (`Split`), `"\n".join` (`JoinWith`) and the generator that prefixes each
  line (`Prefixed`).

The filesystem is a value of type `Tree.Dir`. Each directory has:

- its entry name;
- an optional README, which is readable text or a read failure;
- a flag saying whether it may be listed;
- its sub-directories, in listing order.

Paths are built from the root path with `Tree.Join`, a one-component model of
POSIX `os.path.join`, just as the program builds them.

The properties are proved against reference definitions:

- `Explorer.Within` enumerates every directory down to the depth bound, with
  no pruning and no permission failures.
- `Reporter.ReplaceNewlines` replaces each newline character by character.

`Scenarios` holds one worked example: a root `/proj` with the README
"Hello\nWorld" and a sub-directory `sub` without one. It gives the exact
entries and the exact report under both policies.

## Model

| member | source | states |
|---|---|---|
| Tree.Take | run.py:13 | reading at most n characters gives a prefix of the text, all of it when it is shorter than n, exactly n characters otherwise |
| Tree.ReadReadmeContent | run.py:10-15 | the content is at most 1000 characters and a prefix of the file; a failed read gives exactly "Error: Unable to read README.md file" |
| Tree.JoinMeaning | run.py:39 | an absolute name replaces the directory; a relative name extends it, after a "/" unless the directory is empty or already ends in one |
| Tree.Join | run.py:39 | one-component POSIX `os.path.join`; what it computes is stated by Tree.JoinMeaning |
| Explorer.ContentOf | run.py:29-33 | an entry carries content exactly when the directory has a README, and that content is at most 1000 characters |
| Explorer.PermissionWarning | run.py:43 | the printed warning text, "Warning: Permission denied to access " followed by the directory; Explorer.DeniedListing and Explorer.WarningsNameEntries state when it is logged |
| Explorer.Explore | run.py:17-41 | the entries the walk returns; Explorer.ExploreDirectory proves the program computes them, and the lemmas below state their depth bound, pruning, order and completeness |
| Explorer.Warnings | run.py:37-45 | the warnings the walk prints, in order; Explorer.ExploreDirectory proves the program logs them, Explorer.DeniedListing, Explorer.WarningsNameEntries and Explorer.AllListableNoWarnings state what they are |
| Explorer.ExploreDirectory | run.py:17-45 | the returned entries are `Explore` of the tree and the printed warnings are `Warnings` of the tree, for every depth, policy and tree |
| Explorer.WithinDepths | run.py:23-24 | every directory the reference enumeration visits lies between the starting depth and the depth bound |
| Explorer.ExploreWithinBound | run.py:23-41 | every entry of the walk is the entry of a directory within the depth bound, and there are no more entries than such directories |
| Explorer.WalkDepthBound | run.py:23-41 | every entry of the walk is the entry of a directory reached at a depth between the starting depth and the depth bound |
| Explorer.WithinKidsBeyondBound | run.py:23-24 | at the depth bound no sub-directory is visited |
| Explorer.RootOnlyAtDepthZero | run.py:23-41 | with a depth bound of 0 the result is empty or exactly the root's own entry |
| Explorer.PrunedWithoutReadme | run.py:34-35 | under the default policy a directory without a README yields no entries and no warnings, so none of its descendants appear |
| Explorer.DefaultPolicyOnlyReadmes | run.py:29-35 | under the default policy every entry carries README content |
| Explorer.PreOrder | run.py:29-41 | a non-empty result is the directory's own entry followed by the children's results at the next depth, concatenated in listing order; no children when the listing is refused |
| Explorer.KidsFlatten | run.py:38-41 | the loop's accumulated entries are the concatenation of the first n children's results |
| Explorer.ShowAllComplete | run.py:32-41 | under the show-all policy with every listing permitted, the result is exactly one entry per directory within the depth bound, in pre-order, with None for directories without a README |
| Explorer.DeniedListing | run.py:37-45 | a refused listing keeps the directory's own entry, adds no child entries and logs one warning naming the directory |
| Explorer.WarningsNameEntries | run.py:42-43 | every warning names a directory whose entry is in the result |
| Explorer.AllListableNoWarnings | run.py:37-43 | when every directory can be listed, no warning is printed |
| Explorer.ContentBounded | run.py:29-31 | every entry's content is at most 1000 characters, so cutting it at 1000 again changes nothing |
| Explorer.ReadErrorKeepsEntry | run.py:29-31 | an unreadable README still produces the directory's entry, carrying the error sentence |
| Explorer.PathsExtendRoot | run.py:38-41 | when no entry name is absolute, every entry's path extends the starting directory's path |
| Reporter.DisplayName | run.py:50-52 | the name shown for a path: `removeprefix` of the root, or "/" when nothing is left; Reporter.DisplayNameMeaning and Reporter.DisplayNameOfRemovePrefix state what it is |
| Reporter.DisplayNameMeaning | run.py:50-52 | the shown name is never empty: "/" for the root, the rest of the path when the path starts with the root string (root "/proj" shows "/projx" as "x"), the path unchanged otherwise |
| Reporter.DisplayNameOfRemovePrefix | run.py:50-52 | the shown name is what `removeprefix` leaves, or "/" when that is empty |
| Reporter.RemovePrefix | run.py:50 | Python's `str.removeprefix`; Reporter.DisplayNameOfRemovePrefix and Reporter.DisplayNameMeaning state what is left of a path |
| Reporter.Truthy | run.py:54 | the test `if readme_content:`, present and non-empty; Reporter.BlockShape states that only truthy content gets a body |
| Reporter.Split | run.py:55 | splitting on "\n" gives one more piece than there are newlines |
| Reporter.SplitPiecesNewlineFree | run.py:55 | no piece of a split contains a newline |
| Reporter.SplitOfJoin | run.py:55 | joining newline-free lines with "\n" and splitting again gives the same lines |
| Reporter.JoinOfSplit | run.py:55 | joining the split pieces with a separator replaces each newline by that separator |
| Reporter.JoinSplitRoundTrip | run.py:55 | joining the split lines with "\n" gives the text back |
| Reporter.JoinOfPrefixed | run.py:55 | prefixing every piece and joining is prefixing once and joining with separator plus prefix |
| Reporter.JoinWith | run.py:55 | `"\n".join`; Reporter.SplitOfJoin, Reporter.JoinOfSplit and Reporter.JoinSplitRoundTrip tie it to Split |
| Reporter.Prefixed | run.py:55 | the generator `"    " + line for line in ...`; Reporter.JoinOfPrefixed and Reporter.IndentLines state its effect |
| Reporter.Indent | run.py:55 | the indentation expression; Reporter.IndentIsReference and Reporter.IndentLines state what it produces |
| Reporter.IndentIsReference | run.py:55 | the indented block is four spaces, then the text with every newline followed by four spaces |
| Reporter.IndentLines | run.py:55 | the lines of the indented block are exactly the text's lines, each behind four spaces |
| Reporter.BlockShape | run.py:50-56 | an entry contributes "\n" + name + "\n", then, for non-empty content only, its first 1000 characters indented and "\n\n" |
| Reporter.Header | run.py:53 | the header line `f"\n{dir_name}\n"`; Reporter.BlockShape states that every entry's block opens with it |
| Reporter.Body | run.py:54-56 | for truthy content only, the indented first 1000 characters followed by "\n\n", otherwise nothing; Reporter.BlockShape states it |
| Reporter.Block | run.py:50-56 | what one loop iteration appends; its exact text is stated by Reporter.BlockShape |
| Reporter.Report | run.py:47-57 | the report as the blocks of the entries in order; Reporter.GenerateReport proves the loop builds it, Reporter.ReportAppend and Reporter.ReportSingle state how it decomposes |
| Reporter.GenerateReport | run.py:47-57 | the accumulated string is the concatenation of the entries' blocks in order; an empty structure gives "" |
| Reporter.ReportStep | run.py:49-56 | one iteration appends exactly the current entry's block |
| Reporter.ReportAppend | run.py:49-57 | the report of two consecutive runs of entries is the concatenation of their reports |
| Reporter.ReportSingle | run.py:49-57 | the report of one entry is that entry's block |
| Reporter.ReportOpensWithRootHeader | run.py:50-53 | a structure whose first entry is the root yields a report that starts with "\n/\n" |
| Reporter.ReportOpensWithRoot | run.py:17-57 | the report of any non-empty walk started at the root starts with the header "/" |
| Scenarios.DefaultReport | run.py:17-57 | for /proj with README "Hello\nWorld" and a sub-directory without one, the default policy reports only the root: "\n/\n    Hello\n    World\n\n" |
| Scenarios.ShowAllReport | run.py:17-57 | for the same tree under the show-all policy, "\n/sub\n" follows the root's block |
| Scenarios.DepthZeroWalk | run.py:23-24 | for the same tree with depth bound 0, only the root's entry is returned |

## Left out

- `main` and the argument parser (run.py:59-75). This covers the check that the root is a directory, the default depth of 3 and the printing of the report. It is command-line plumbing around the two modelled calls.
- The real filesystem. `os.path.isfile`, `os.path.isdir`, `os.listdir` and `open` are replaced by the `Tree.Dir` value:
  - a README is present exactly when `readme` is `Some`;
  - the children are exactly the entries that `os.path.isdir` accepts, in the order `os.listdir` returned them;
  - a refused listing is `listable == false`.
- Other filesystem errors. Only a `PermissionError` from the listing is modelled. Any other error that `os.listdir` raises propagates in the program and is not modelled.
- Decoding and newline translation of README files. The README text is taken as the characters Python has already decoded, with universal-newline translation applied. A `ReadError` stands for the `IOError` the program catches. The program stops with an uncaught decoding error when the bytes decoded to obtain the first 1000 characters are not valid UTF-8. In CPython that is the first chunk the text reader decodes, 8192 bytes, so an invalid byte past that chunk goes unnoticed and one inside it is fatal even past the 1000th character. The model does not represent that outcome.
- Printing the warning to standard output (run.py:43). The warning is modelled as an element of a returned log of messages.
- Symbolic links. A finite tree value cannot contain a cycle, and the program does no cycle detection.
- Explorer.ExploreDirectory: the recursion is unbounded in the model. CPython stops at its recursion limit (about 1000 frames by default). On a tree that deep, with a depth bound at least as large, `explore_directory` raises `RecursionError`, which the program does not catch, so it stops. The model does not represent that outcome.
- Explorer.ExploreWithinBound: states that every entry belongs to a directory within the bound, and no more entries than such directories. It does not state that the entry paths are pairwise distinct, because duplicate entry names in the tree value are not ruled out.
