/** The abstract filesystem that the explorer walks, and the two filesystem
    operations whose results it depends on: joining a path with a name, and
    reading a README with a character cap. */
module Tree {

  datatype Option<+T> = None | Some(value: T)

  /** What reading `README.md` inside a directory gives: its decoded text,
      or an I/O failure while opening or reading it (a file that cannot be
      opened, one that disappeared after the check). */
  datatype Readme = Readable(text: string) | ReadError

  /** One directory. `name` is the entry name under which its parent lists it
      (unused for the root, whose path is given by the caller); `readme` is
      None when there is no regular file `README.md` in it; `listable` is false
      when listing its entries raises a permission error; `children` are its
      sub-directories in the order the listing returns them. */
  datatype Dir = Dir(name: string, readme: Option<Readme>, listable: bool, children: seq<Dir>)

  /** Upper bound on the characters taken from a README. */
  const MaxChars: nat := 1000

  /** The content recorded when a README cannot be read. */
  const ReadErrorText: string := "Error: Unable to read README.md file"

  /** The first `n` characters of `s` (Python's `s[:n]` and `file.read(n)`). */
  function Take(s: string, n: nat): (r: string)
    ensures |r| <= n && r <= s
    ensures |s| <= n ==> r == s
    ensures n <= |s| ==> |r| == n
  {
    if |s| <= n then s else s[..n]
  }

  /** `read_readme_content`: at most MaxChars characters of the file, or the
      fixed error sentence when the read fails. */
  function ReadReadmeContent(readme: Readme): (r: string)
    ensures |r| <= MaxChars
    ensures readme.ReadError? ==> r == ReadErrorText
    ensures readme.Readable? ==> r <= readme.text && |r| == Min(|readme.text|, MaxChars)
  {
    match readme
    case Readable(text) => Take(text, MaxChars)
    case ReadError => ReadErrorText
  }

  function Min(a: int, b: int): int {
    if a <= b then a else b
  }

  /** `os.path.join(directory, name)` on POSIX for one component: an absolute
      name replaces the directory, an empty directory or one ending in a
      separator is extended directly, otherwise a separator is inserted. */
  function Join(directory: string, name: string): string
  {
    if |name| > 0 && name[0] == '/' then name
    else if directory == [] || directory[|directory| - 1] == '/' then directory + name
    else directory + "/" + name
  }

  /** An absolute name replaces the directory; a relative one is appended to
      it, after a separator unless the directory is empty or already ends in
      one. */
  lemma JoinMeaning(directory: string, name: string)
    ensures |name| > 0 && name[0] == '/' ==> Join(directory, name) == name
    ensures !(|name| > 0 && name[0] == '/') ==>
              directory <= Join(directory, name) && |name| <= |Join(directory, name)| &&
              Join(directory, name)[|Join(directory, name)| - |name|..] == name
    ensures !(|name| > 0 && name[0] == '/') && directory != [] && directory[|directory| - 1] != '/' ==>
              Join(directory, name) == directory + "/" + name
    ensures !(|name| > 0 && name[0] == '/') && (directory == [] || directory[|directory| - 1] == '/') ==>
              Join(directory, name) == directory + name
  {
  }

  /** No entry name in the tree is absolute: each child path is then an
      extension of its parent's path. */
  predicate RelativeNames(d: Dir)
    decreases d
  {
    forall i :: 0 <= i < |d.children| ==>
      !(|d.children[i].name| > 0 && d.children[i].name[0] == '/') && RelativeNames(d.children[i])
  }

  /** Every directory of the tree can be listed. */
  predicate AllListable(d: Dir)
    decreases d
  {
    d.listable && forall i :: 0 <= i < |d.children| ==> AllListable(d.children[i])
  }
}
