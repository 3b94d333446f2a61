/** `explore_directory`: the depth-bounded, pre-order walk that collects one
    entry per directory that has a README (or per directory at all, under the
    show-all policy), together with the log of permission warnings it emits. */
module Explorer {
  import opened Tree

  /** One element of the structure handed to the reporter. */
  datatype Entry = Entry(path: string, content: Option<string>)

  /** The content an entry records for a directory: the capped README text,
      the error sentence, or None when there is no README. */
  function ContentOf(d: Dir): (r: Option<string>)
    ensures r.Some? <==> d.readme.Some?
    ensures r.Some? ==> |r.value| <= MaxChars
  {
    match d.readme
    case Some(readme) => Some(ReadReadmeContent(readme))
    case None => None
  }

  /** The warning printed when a directory cannot be listed. */
  function PermissionWarning(directory: string): string {
    "Warning: Permission denied to access " + directory
  }

  // ---------------------------------------------------------------------------
  // Specification of the walk

  /** The entries `explore_directory(directory, maxDepth, showAllDirs,
      currentDepth)` returns when `directory` holds the tree `d`. */
  function Explore(directory: string, d: Dir, maxDepth: int, showAllDirs: bool, currentDepth: int): seq<Entry>
    decreases d, |d.children| + 1
  {
    if currentDepth > maxDepth then []
    else if d.readme.None? && !showAllDirs then []
    else
      [Entry(directory, ContentOf(d))]
        + (if d.listable then ExploreKids(directory, d, maxDepth, showAllDirs, currentDepth, |d.children|) else [])
  }

  /** The concatenated entries of the first `n` sub-directories of `d`. */
  function ExploreKids(directory: string, d: Dir, maxDepth: int, showAllDirs: bool, currentDepth: int, n: nat): seq<Entry>
    requires n <= |d.children|
    decreases d, n
  {
    if n == 0 then []
    else
      var child := d.children[n - 1];
      ExploreKids(directory, d, maxDepth, showAllDirs, currentDepth, n - 1)
        + Explore(Join(directory, child.name), child, maxDepth, showAllDirs, currentDepth + 1)
  }

  /** The permission warnings the same call prints, in the order it prints them. */
  function Warnings(directory: string, d: Dir, maxDepth: int, showAllDirs: bool, currentDepth: int): seq<string>
    decreases d, |d.children| + 1
  {
    if currentDepth > maxDepth then []
    else if d.readme.None? && !showAllDirs then []
    else if !d.listable then [PermissionWarning(directory)]
    else WarningsKids(directory, d, maxDepth, showAllDirs, currentDepth, |d.children|)
  }

  function WarningsKids(directory: string, d: Dir, maxDepth: int, showAllDirs: bool, currentDepth: int, n: nat): seq<string>
    requires n <= |d.children|
    decreases d, n
  {
    if n == 0 then []
    else
      var child := d.children[n - 1];
      WarningsKids(directory, d, maxDepth, showAllDirs, currentDepth, n - 1)
        + Warnings(Join(directory, child.name), child, maxDepth, showAllDirs, currentDepth + 1)
  }

  // ---------------------------------------------------------------------------
  // The walk as the program runs it

  /** `explore_directory`: the result list is built by appending the
      directory's own entry and then extending it with each sub-directory's
      entries; a refused listing is caught and logged. */
  method ExploreDirectory(directory: string, d: Dir, maxDepth: int, showAllDirs: bool, currentDepth: int)
    returns (result: seq<Entry>, warnings: seq<string>)
    ensures result == Explore(directory, d, maxDepth, showAllDirs, currentDepth)
    ensures warnings == Warnings(directory, d, maxDepth, showAllDirs, currentDepth)
    decreases d
  {
    if currentDepth > maxDepth {
      return [], [];
    }
    result := [];
    warnings := [];
    if d.readme.Some? {
      var readmeContent := ReadReadmeContent(d.readme.value);
      result := result + [Entry(directory, Some(readmeContent))];
    } else if showAllDirs {
      result := result + [Entry(directory, None)];
    } else {
      return [], [];
    }
    if !d.listable {
      warnings := warnings + [PermissionWarning(directory)];
      return;
    }
    ghost var own := result;
    assert own == [Entry(directory, ContentOf(d))];
    var i := 0;
    while i < |d.children|
      invariant 0 <= i <= |d.children|
      invariant result == own + ExploreKids(directory, d, maxDepth, showAllDirs, currentDepth, i)
      invariant warnings == WarningsKids(directory, d, maxDepth, showAllDirs, currentDepth, i)
    {
      var item := d.children[i];
      var itemPath := Join(directory, item.name);
      var sub, subWarnings := ExploreDirectory(itemPath, item, maxDepth, showAllDirs, currentDepth + 1);
      KidsStep(directory, d, maxDepth, showAllDirs, currentDepth, i);
      AppendAssoc(own, ExploreKids(directory, d, maxDepth, showAllDirs, currentDepth, i), sub);
      result := result + sub;
      warnings := warnings + subWarnings;
      i := i + 1;
    }
    OwnThenKids(directory, d, maxDepth, showAllDirs, currentDepth);
  }

  lemma OwnThenKids(directory: string, d: Dir, maxDepth: int, showAllDirs: bool, currentDepth: int)
    requires currentDepth <= maxDepth && (d.readme.Some? || showAllDirs) && d.listable
    ensures Explore(directory, d, maxDepth, showAllDirs, currentDepth) ==
            [Entry(directory, ContentOf(d))] + ExploreKids(directory, d, maxDepth, showAllDirs, currentDepth, |d.children|)
    ensures Warnings(directory, d, maxDepth, showAllDirs, currentDepth) ==
            WarningsKids(directory, d, maxDepth, showAllDirs, currentDepth, |d.children|)
  {
  }

  /** The first `i + 1` children contribute what the first `i` do, then the
      walk and the warnings of child `i`. */
  lemma KidsStep(directory: string, d: Dir, maxDepth: int, showAllDirs: bool, currentDepth: int, i: nat)
    requires i < |d.children|
    ensures ExploreKids(directory, d, maxDepth, showAllDirs, currentDepth, i + 1) ==
            ExploreKids(directory, d, maxDepth, showAllDirs, currentDepth, i)
              + Explore(Join(directory, d.children[i].name), d.children[i], maxDepth, showAllDirs, currentDepth + 1)
    ensures WarningsKids(directory, d, maxDepth, showAllDirs, currentDepth, i + 1) ==
            WarningsKids(directory, d, maxDepth, showAllDirs, currentDepth, i)
              + Warnings(Join(directory, d.children[i].name), d.children[i], maxDepth, showAllDirs, currentDepth + 1)
  {
  }

  /** Concatenation regroups freely. */
  lemma AppendAssoc<T>(a: seq<T>, b: seq<T>, c: seq<T>)
    ensures a + b + c == a + (b + c)
  {
  }

  // ---------------------------------------------------------------------------
  // Reference enumeration: every directory down to the depth bound

  /** A directory reached by the walk, with its path and its depth. */
  datatype Visit = Visit(path: string, dir: Dir, depth: int)

  /** All directories of `d` at depth `currentDepth` or more and at most
      `maxDepth`, in pre-order, with no pruning and no permission failures. */
  function Within(directory: string, d: Dir, maxDepth: int, currentDepth: int): seq<Visit>
    decreases d, |d.children| + 1
  {
    if currentDepth > maxDepth then []
    else [Visit(directory, d, currentDepth)] + WithinKids(directory, d, maxDepth, currentDepth, |d.children|)
  }

  function WithinKids(directory: string, d: Dir, maxDepth: int, currentDepth: int, n: nat): seq<Visit>
    requires n <= |d.children|
    decreases d, n
  {
    if n == 0 then []
    else
      var child := d.children[n - 1];
      WithinKids(directory, d, maxDepth, currentDepth, n - 1)
        + Within(Join(directory, child.name), child, maxDepth, currentDepth + 1)
  }

  /** The entry a visited directory would get. */
  function EntryOf(v: Visit): Entry {
    Entry(v.path, ContentOf(v.dir))
  }

  function EntriesOf(vs: seq<Visit>): seq<Entry>
  {
    seq(|vs|, i requires 0 <= i < |vs| => EntryOf(vs[i]))
  }

  lemma EntriesOfAppend(a: seq<Visit>, b: seq<Visit>)
    ensures EntriesOf(a + b) == EntriesOf(a) + EntriesOf(b)
  {
  }

  /** Concatenation of a sequence of entry lists, in order. */
  function Flatten(parts: seq<seq<Entry>>): seq<Entry>
  {
    if parts == [] then [] else Flatten(parts[..|parts| - 1]) + parts[|parts| - 1]
  }

  // ---------------------------------------------------------------------------
  // Properties of the walk

  /** Depth bound and the visits of the reference enumeration: every visit
      lies between the starting depth and maxDepth. */
  lemma {:induction false} WithinDepths(directory: string, d: Dir, maxDepth: int, currentDepth: int)
    ensures forall v :: v in Within(directory, d, maxDepth, currentDepth) ==> currentDepth <= v.depth <= maxDepth
    decreases d, |d.children| + 1
  {
    if currentDepth <= maxDepth {
      WithinKidsDepths(directory, d, maxDepth, currentDepth, |d.children|);
    }
  }

  lemma {:induction false} WithinKidsDepths(directory: string, d: Dir, maxDepth: int, currentDepth: int, n: nat)
    requires n <= |d.children|
    ensures forall v :: v in WithinKids(directory, d, maxDepth, currentDepth, n) ==> currentDepth < v.depth <= maxDepth
    decreases d, n
  {
    if n > 0 {
      var child := d.children[n - 1];
      WithinKidsDepths(directory, d, maxDepth, currentDepth, n - 1);
      WithinDepths(Join(directory, child.name), child, maxDepth, currentDepth + 1);
    }
  }

  /** Depth bound: whatever the policy and the permissions, every entry the
      walk emits is the entry of a directory of the reference enumeration
      (so at depth at most maxDepth), and there are no more entries than
      such directories. */
  lemma {:induction false} ExploreWithinBound(directory: string, d: Dir, maxDepth: int, showAllDirs: bool, currentDepth: int)
    ensures forall e :: e in Explore(directory, d, maxDepth, showAllDirs, currentDepth) ==>
              e in EntriesOf(Within(directory, d, maxDepth, currentDepth))
    ensures |Explore(directory, d, maxDepth, showAllDirs, currentDepth)| <= |Within(directory, d, maxDepth, currentDepth)|
    decreases d, |d.children| + 1
  {
    if currentDepth <= maxDepth {
      var n := |d.children|;
      ExploreKidsWithinBound(directory, d, maxDepth, showAllDirs, currentDepth, n);
      EntriesOfAppend([Visit(directory, d, currentDepth)], WithinKids(directory, d, maxDepth, currentDepth, n));
      assert EntriesOf([Visit(directory, d, currentDepth)]) == [Entry(directory, ContentOf(d))];
    }
  }

  lemma {:induction false} ExploreKidsWithinBound(directory: string, d: Dir, maxDepth: int, showAllDirs: bool, currentDepth: int, n: nat)
    requires n <= |d.children|
    ensures forall e :: e in ExploreKids(directory, d, maxDepth, showAllDirs, currentDepth, n) ==>
              e in EntriesOf(WithinKids(directory, d, maxDepth, currentDepth, n))
    ensures |ExploreKids(directory, d, maxDepth, showAllDirs, currentDepth, n)| <= |WithinKids(directory, d, maxDepth, currentDepth, n)|
    decreases d, n
  {
    if n > 0 {
      var child := d.children[n - 1];
      var path := Join(directory, child.name);
      ExploreKidsWithinBound(directory, d, maxDepth, showAllDirs, currentDepth, n - 1);
      ExploreWithinBound(path, child, maxDepth, showAllDirs, currentDepth + 1);
      EntriesOfAppend(WithinKids(directory, d, maxDepth, currentDepth, n - 1), Within(path, child, maxDepth, currentDepth + 1));
    }
  }

  /** Depth bound, stated on the walk itself: every entry is the entry of a
      directory reached at a depth between the starting depth and maxDepth. */
  lemma WalkDepthBound(directory: string, d: Dir, maxDepth: int, showAllDirs: bool, currentDepth: int)
    ensures forall e :: e in Explore(directory, d, maxDepth, showAllDirs, currentDepth) ==>
              exists v :: v in Within(directory, d, maxDepth, currentDepth) && EntryOf(v) == e &&
                          currentDepth <= v.depth <= maxDepth
  {
    var vs := Within(directory, d, maxDepth, currentDepth);
    ExploreWithinBound(directory, d, maxDepth, showAllDirs, currentDepth);
    WithinDepths(directory, d, maxDepth, currentDepth);
    forall e | e in Explore(directory, d, maxDepth, showAllDirs, currentDepth)
      ensures exists v :: v in vs && EntryOf(v) == e && currentDepth <= v.depth <= maxDepth
    {
      var k :| 0 <= k < |EntriesOf(vs)| && EntriesOf(vs)[k] == e;
      assert vs[k] in vs && EntryOf(vs[k]) == e;
    }
  }

  lemma {:induction false} WithinKidsBeyondBound(directory: string, d: Dir, maxDepth: int, currentDepth: int, n: nat)
    requires n <= |d.children| && currentDepth >= maxDepth
    ensures WithinKids(directory, d, maxDepth, currentDepth, n) == []
    decreases n
  {
    if n > 0 {
      var child := d.children[n - 1];
      WithinKidsBeyondBound(directory, d, maxDepth, currentDepth, n - 1);
      assert Within(Join(directory, child.name), child, maxDepth, currentDepth + 1) == [];
    }
  }

  /** `max_depth = 0`: at most the root's own entry. */
  lemma RootOnlyAtDepthZero(directory: string, d: Dir, showAllDirs: bool)
    ensures Explore(directory, d, 0, showAllDirs, 0) == [] ||
            Explore(directory, d, 0, showAllDirs, 0) == [Entry(directory, ContentOf(d))]
  {
    WithinKidsBeyondBound(directory, d, 0, 0, |d.children|);
    ExploreWithinBound(directory, d, 0, showAllDirs, 0);
    var r := Explore(directory, d, 0, showAllDirs, 0);
    if r != [] {
      assert r[0] in r;
    }
  }

  /** Pruning: a directory without a README under the default policy yields
      nothing, so none of its descendants appear, whatever they contain. */
  lemma PrunedWithoutReadme(directory: string, d: Dir, maxDepth: int, currentDepth: int)
    requires d.readme.None?
    ensures Explore(directory, d, maxDepth, false, currentDepth) == []
    ensures Warnings(directory, d, maxDepth, false, currentDepth) == []
  {
  }

  /** Under the default policy every emitted entry carries content: only
      directories with a README are reported. */
  lemma {:induction false} DefaultPolicyOnlyReadmes(directory: string, d: Dir, maxDepth: int, currentDepth: int)
    ensures forall e :: e in Explore(directory, d, maxDepth, false, currentDepth) ==> e.content.Some?
    decreases d, |d.children| + 1
  {
    if currentDepth <= maxDepth && d.readme.Some? && d.listable {
      DefaultPolicyKidsOnlyReadmes(directory, d, maxDepth, currentDepth, |d.children|);
    }
  }

  lemma {:induction false} DefaultPolicyKidsOnlyReadmes(directory: string, d: Dir, maxDepth: int, currentDepth: int, n: nat)
    requires n <= |d.children|
    ensures forall e :: e in ExploreKids(directory, d, maxDepth, false, currentDepth, n) ==> e.content.Some?
    decreases d, n
  {
    if n > 0 {
      var child := d.children[n - 1];
      DefaultPolicyKidsOnlyReadmes(directory, d, maxDepth, currentDepth, n - 1);
      DefaultPolicyOnlyReadmes(Join(directory, child.name), child, maxDepth, currentDepth + 1);
    }
  }

  /** The result of each sub-directory of `d` explored one level deeper, in
      listing order. */
  function ChildResults(directory: string, d: Dir, maxDepth: int, showAllDirs: bool, currentDepth: int): seq<seq<Entry>>
  {
    seq(|d.children|, i requires 0 <= i < |d.children| =>
      Explore(Join(directory, d.children[i].name), d.children[i], maxDepth, showAllDirs, currentDepth + 1))
  }

  /** Pre-order: a non-empty result starts with the directory's own entry,
      followed by the children's results at the next depth, concatenated in
      listing order (nothing at all when the listing is refused). */
  lemma PreOrder(directory: string, d: Dir, maxDepth: int, showAllDirs: bool, currentDepth: int)
    requires Explore(directory, d, maxDepth, showAllDirs, currentDepth) != []
    ensures currentDepth <= maxDepth && (d.readme.Some? || showAllDirs)
    ensures Explore(directory, d, maxDepth, showAllDirs, currentDepth) ==
            [Entry(directory, ContentOf(d))] +
            (if d.listable then Flatten(ChildResults(directory, d, maxDepth, showAllDirs, currentDepth)) else [])
  {
    if d.listable {
      var parts := ChildResults(directory, d, maxDepth, showAllDirs, currentDepth);
      KidsFlatten(directory, d, maxDepth, showAllDirs, currentDepth, |d.children|);
      assert parts[..|d.children|] == parts;
    }
  }

  lemma {:induction false} KidsFlatten(directory: string, d: Dir, maxDepth: int, showAllDirs: bool, currentDepth: int, n: nat)
    requires n <= |d.children|
    ensures ExploreKids(directory, d, maxDepth, showAllDirs, currentDepth, n) ==
            Flatten(ChildResults(directory, d, maxDepth, showAllDirs, currentDepth)[..n])
  {
    var parts := ChildResults(directory, d, maxDepth, showAllDirs, currentDepth);
    if n > 0 {
      KidsFlatten(directory, d, maxDepth, showAllDirs, currentDepth, n - 1);
      assert parts[..n][..n - 1] == parts[..n - 1];
    }
  }

  /** Show-all completeness: with show-all and every listing permitted, the
      walk reports every directory down to maxDepth exactly once, in
      pre-order, each with its README content or None. */
  lemma {:induction false} ShowAllComplete(directory: string, d: Dir, maxDepth: int, currentDepth: int)
    requires AllListable(d)
    ensures Explore(directory, d, maxDepth, true, currentDepth) == EntriesOf(Within(directory, d, maxDepth, currentDepth))
    decreases d, |d.children| + 1
  {
    if currentDepth <= maxDepth {
      var n := |d.children|;
      ShowAllKidsComplete(directory, d, maxDepth, currentDepth, n);
      EntriesOfAppend([Visit(directory, d, currentDepth)], WithinKids(directory, d, maxDepth, currentDepth, n));
      assert EntriesOf([Visit(directory, d, currentDepth)]) == [Entry(directory, ContentOf(d))];
    }
  }

  lemma {:induction false} ShowAllKidsComplete(directory: string, d: Dir, maxDepth: int, currentDepth: int, n: nat)
    requires AllListable(d) && n <= |d.children|
    ensures ExploreKids(directory, d, maxDepth, true, currentDepth, n) == EntriesOf(WithinKids(directory, d, maxDepth, currentDepth, n))
    decreases d, n
  {
    if n > 0 {
      var child := d.children[n - 1];
      var path := Join(directory, child.name);
      ShowAllKidsComplete(directory, d, maxDepth, currentDepth, n - 1);
      ShowAllComplete(path, child, maxDepth, currentDepth + 1);
      EntriesOfAppend(WithinKids(directory, d, maxDepth, currentDepth, n - 1), Within(path, child, maxDepth, currentDepth + 1));
    }
  }

  /** Permission denial: the directory's own entry is kept, no child entry is
      added, and exactly one warning naming the directory is logged. */
  lemma DeniedListing(directory: string, d: Dir, maxDepth: int, showAllDirs: bool, currentDepth: int)
    requires !d.listable && currentDepth <= maxDepth && (d.readme.Some? || showAllDirs)
    ensures Explore(directory, d, maxDepth, showAllDirs, currentDepth) == [Entry(directory, ContentOf(d))]
    ensures Warnings(directory, d, maxDepth, showAllDirs, currentDepth) == [PermissionWarning(directory)]
  {
  }

  /** Every warning names a directory that has an entry in the result: a
      refused listing never loses the directory itself. */
  lemma {:induction false} WarningsNameEntries(directory: string, d: Dir, maxDepth: int, showAllDirs: bool, currentDepth: int)
    ensures forall w :: w in Warnings(directory, d, maxDepth, showAllDirs, currentDepth) ==>
              exists e :: e in Explore(directory, d, maxDepth, showAllDirs, currentDepth) && w == PermissionWarning(e.path)
    decreases d, |d.children| + 1
  {
    if currentDepth <= maxDepth && (d.readme.Some? || showAllDirs) {
      var r := Explore(directory, d, maxDepth, showAllDirs, currentDepth);
      assert r[0] in r && r[0].path == directory;
      if d.listable {
        var n := |d.children|;
        WarningsKidsNameEntries(directory, d, maxDepth, showAllDirs, currentDepth, n);
        assert r == [r[0]] + ExploreKids(directory, d, maxDepth, showAllDirs, currentDepth, n);
      }
    }
  }

  lemma {:induction false} WarningsKidsNameEntries(directory: string, d: Dir, maxDepth: int, showAllDirs: bool, currentDepth: int, n: nat)
    requires n <= |d.children|
    ensures forall w :: w in WarningsKids(directory, d, maxDepth, showAllDirs, currentDepth, n) ==>
              exists e :: e in ExploreKids(directory, d, maxDepth, showAllDirs, currentDepth, n) && w == PermissionWarning(e.path)
    decreases d, n
  {
    if n > 0 {
      var child := d.children[n - 1];
      WarningsKidsNameEntries(directory, d, maxDepth, showAllDirs, currentDepth, n - 1);
      WarningsNameEntries(Join(directory, child.name), child, maxDepth, showAllDirs, currentDepth + 1);
    }
  }

  /** A tree whose every listing is permitted produces no warning. */
  lemma {:induction false} AllListableNoWarnings(directory: string, d: Dir, maxDepth: int, showAllDirs: bool, currentDepth: int)
    requires AllListable(d)
    ensures Warnings(directory, d, maxDepth, showAllDirs, currentDepth) == []
    decreases d, |d.children| + 1
  {
    if currentDepth <= maxDepth && (d.readme.Some? || showAllDirs) {
      AllListableNoKidsWarnings(directory, d, maxDepth, showAllDirs, currentDepth, |d.children|);
    }
  }

  lemma {:induction false} AllListableNoKidsWarnings(directory: string, d: Dir, maxDepth: int, showAllDirs: bool, currentDepth: int, n: nat)
    requires AllListable(d) && n <= |d.children|
    ensures WarningsKids(directory, d, maxDepth, showAllDirs, currentDepth, n) == []
    decreases d, n
  {
    if n > 0 {
      var child := d.children[n - 1];
      AllListableNoKidsWarnings(directory, d, maxDepth, showAllDirs, currentDepth, n - 1);
      AllListableNoWarnings(Join(directory, child.name), child, maxDepth, showAllDirs, currentDepth + 1);
    }
  }

  /** README content: every recorded content has at most MaxChars
      characters, so the reporter's second cut is a no-op. */
  lemma {:induction false} ContentBounded(directory: string, d: Dir, maxDepth: int, showAllDirs: bool, currentDepth: int)
    ensures forall e :: e in Explore(directory, d, maxDepth, showAllDirs, currentDepth) && e.content.Some? ==>
              |e.content.value| <= MaxChars && Take(e.content.value, MaxChars) == e.content.value
  {
    ExploreWithinBound(directory, d, maxDepth, showAllDirs, currentDepth);
  }

  /** A README that cannot be read still produces an entry, carrying the
      fixed error sentence. */
  lemma ReadErrorKeepsEntry(directory: string, d: Dir, maxDepth: int, showAllDirs: bool, currentDepth: int)
    requires d.readme == Some(ReadError) && currentDepth <= maxDepth
    ensures Explore(directory, d, maxDepth, showAllDirs, currentDepth)[0] == Entry(directory, Some(ReadErrorText))
  {
  }

  /** With no absolute entry names, every reported path extends the path the
      walk started from. */
  lemma {:induction false} PathsExtendRoot(directory: string, d: Dir, maxDepth: int, showAllDirs: bool, currentDepth: int)
    requires RelativeNames(d)
    ensures forall e :: e in Explore(directory, d, maxDepth, showAllDirs, currentDepth) ==> directory <= e.path
    decreases d, |d.children| + 1
  {
    if currentDepth <= maxDepth && (d.readme.Some? || showAllDirs) && d.listable {
      PathsKidsExtendRoot(directory, d, maxDepth, showAllDirs, currentDepth, |d.children|);
    }
  }

  lemma {:induction false} PathsKidsExtendRoot(directory: string, d: Dir, maxDepth: int, showAllDirs: bool, currentDepth: int, n: nat)
    requires RelativeNames(d) && n <= |d.children|
    ensures forall e :: e in ExploreKids(directory, d, maxDepth, showAllDirs, currentDepth, n) ==> directory <= e.path
    decreases d, n
  {
    if n > 0 {
      var child := d.children[n - 1];
      var path := Join(directory, child.name);
      PathsKidsExtendRoot(directory, d, maxDepth, showAllDirs, currentDepth, n - 1);
      PathsExtendRoot(path, child, maxDepth, showAllDirs, currentDepth + 1);
      JoinMeaning(directory, child.name);
      forall e | e in Explore(path, child, maxDepth, showAllDirs, currentDepth + 1)
        ensures directory <= e.path
      {
        PrefixTransitive(directory, path, e.path);
      }
    }
  }

  lemma PrefixTransitive(a: string, b: string, c: string)
    requires a <= b && b <= c
    ensures a <= c
  {
    assert b[..|a|] == a;
    assert c[..|b|] == b;
    assert c[..|a|] == c[..|b|][..|a|];
  }
}
