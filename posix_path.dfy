/** The parts of Python's `os.path` (POSIX flavour) that the cache locator
    uses: `basename` as a function on the path text, and the filesystem
    queries `isdir`, `exists` and `abspath` as an abstract oracle. */
module PosixPath {

  /** `os.path.basename(p)`: the text after the last '/', all of `p` when it
      has none, and empty when `p` ends in '/'. */
  function Basename(p: string): (r: string)
    ensures '/' !in r
    ensures |r| <= |p| && p[|p| - |r|..] == r
    ensures |r| < |p| ==> p[|p| - |r| - 1] == '/'
    decreases |p|
  {
    if p == [] || p[|p| - 1] == '/' then []
    else
      var init, last := p[..|p| - 1], p[|p| - 1];
      assert p == init + [last];
      SuffixSnoc(init, last, Basename(init));
      Basename(init) + [last]
  }

  /** A suffix of `s` followed by `c` is a suffix of `s + [c]`. */
  lemma SuffixSnoc(s: string, c: char, b: string)
    requires |b| <= |s| && s[|s| - |b|..] == b
    ensures (s + [c])[|s| - |b|..] == b + [c]
  {
  }

  /** A name without '/' is its own basename. */
  lemma BasenameOfName(n: string)
    requires '/' !in n
    ensures Basename(n) == n
  {
  }

  /** Joining a directory and a name with '/' gives a path whose basename is the name. */
  lemma BasenameOfJoin(dir: string, n: string)
    requires '/' !in n
    ensures Basename(dir + "/" + n) == n
  {
    var p := dir + "/" + n;
    var r := Basename(p);
    assert p[|p| - |n|..] == n;
    assert p[|p| - |n| - 1] == '/';
  }

  /** A final path component that names an entry: not empty, "." or "..". */
  predicate IsEntryName(n: string) {
    n != "" && n != "." && n != ".."
  }

  /** A path that starts at the root. */
  predicate IsAbsolute(p: string) {
    p != [] && p[0] == '/'
  }

  /** What the cache locator may ask of the filesystem: which paths are
      directories, which are other files, and what `os.path.abspath` makes of
      a path. */
  datatype FileSystem = FileSystem(directories: set<string>, files: set<string>, abspath: string -> string) {

    /** `os.path.isdir(p)` */
    predicate IsDir(p: string) {
      p in directories
    }

    /** `os.path.exists(p)` */
    predicate Exists(p: string) {
      p in directories || p in files
    }
  }

  /** The assumption the lemmas about the directory branch make of
      `abspath`: making a path absolute and
      normalising it keeps a final component that names an entry. */
  ghost predicate AbspathKeepsName(fs: FileSystem) {
    forall p {:trigger fs.abspath(p)} :: IsEntryName(Basename(p)) ==> Basename(fs.abspath(p)) == Basename(p)
  }

  /** What `os.path.abspath` promises: its result starts at the root. */
  ghost predicate AbspathIsAbsolute(fs: FileSystem) {
    forall p {:trigger fs.abspath(p)} :: IsAbsolute(fs.abspath(p))
  }

  /** The assumption applied to one path. */
  lemma AbspathKeepsEntryName(fs: FileSystem, p: string)
    requires AbspathKeepsName(fs)
    requires IsEntryName(Basename(p))
    ensures Basename(fs.abspath(p)) == Basename(p)
  {
  }
}
