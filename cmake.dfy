/** Locating a CMake cache file and moving the build directory recorded in
    its lines. */
module CMake {
  import opened Text
  import opened PosixPath
  import opened Errors

  /** The one file name a cache may have. */
  const CacheFileName: string := "CMakeCache.txt"

  /** What `get_cache_name` returns or raises. */
  datatype CacheName =
    | Ok(path: string)                        // the cache path is returned
    | NotFound(path: string)                  // FileNotFoundError(path)
    | IncorrectFile(error: IncorrectFileError) // IncorrectFileError

  /** `get_cache_name(fname)`: a directory stands for the cache file inside
      it, which must exist; whatever path results must be named
      `CMakeCache.txt`. */
  function GetCacheName(fs: FileSystem, fname: string): (r: CacheName)
    ensures r.Ok? ==> Basename(r.path) == CacheFileName
    ensures r.Ok? && !fs.IsDir(fname) ==> r.path == fname
    ensures r.Ok? && fs.IsDir(fname) ==> r.path == fs.abspath(fname + "/" + CacheFileName) && fs.Exists(r.path)
    ensures r.NotFound? ==> fs.IsDir(fname) && !fs.Exists(r.path)
    ensures r.IncorrectFile? ==> r.error.name == CacheFileName && r.error.inputName != CacheFileName
  {
    BasenameOfName(CacheFileName);
    var path := if fs.IsDir(fname) then fs.abspath(fname + "/" + CacheFileName) else fname;
    if fs.IsDir(fname) && !fs.Exists(path) then NotFound(path)
    else if Basename(path) != CacheFileName then IncorrectFile(NewIncorrectFileError(path, CacheFileName))
    else Ok(path)
  }

  /** A directory resolves to the absolute path of the cache inside it when
      that file exists, and to a not-found error naming that path otherwise;
      it never yields an incorrect-file error. */
  lemma GetCacheNameOfDirectory(fs: FileSystem, dir: string)
    requires AbspathKeepsName(fs)
    requires fs.IsDir(dir)
    ensures var cache := fs.abspath(dir + "/" + CacheFileName);
      GetCacheName(fs, dir) == if fs.Exists(cache) then Ok(cache) else NotFound(cache)
  {
    var joined := dir + "/" + CacheFileName;
    BasenameOfJoin(dir, CacheFileName);
    assert IsEntryName(Basename(joined));
    AbspathKeepsEntryName(fs, joined);
  }

  /** A path that is not a directory is returned as it is when it is named
      `CMakeCache.txt` (its existence is not checked) and is refused with
      both basenames otherwise. */
  lemma GetCacheNameOfFile(fs: FileSystem, fname: string)
    requires !fs.IsDir(fname)
    ensures GetCacheName(fs, fname) ==
      if Basename(fname) == CacheFileName then Ok(fname)
      else IncorrectFile(IncorrectFileError(CacheFileName, Basename(fname)))
  {
    BasenameOfName(CacheFileName);
  }

  /** Resolving a resolved cache path that is not itself a directory gives the
      same path again. */
  lemma GetCacheNameIdempotent(fs: FileSystem, fname: string)
    requires GetCacheName(fs, fname).Ok?
    requires !fs.IsDir(GetCacheName(fs, fname).path)
    ensures GetCacheName(fs, GetCacheName(fs, fname).path) == GetCacheName(fs, fname)
  {
    GetCacheNameOfFile(fs, GetCacheName(fs, fname).path);
  }

  /** A build directory holding its cache file resolves to the absolute path
      of that file, and that path resolves to itself. */
  lemma GetCacheNameFound(fs: FileSystem, dir: string)
    requires AbspathKeepsName(fs)
    requires fs.IsDir(dir)
    requires fs.abspath(dir + "/" + CacheFileName) in fs.files
    requires !fs.IsDir(fs.abspath(dir + "/" + CacheFileName))
    ensures var cache := fs.abspath(dir + "/" + CacheFileName);
      GetCacheName(fs, dir) == Ok(cache) && GetCacheName(fs, cache) == Ok(cache)
  {
    GetCacheNameOfDirectory(fs, dir);
    GetCacheNameIdempotent(fs, dir);
  }

  /** A filesystem holding nothing, whose `abspath` puts "/abs/" in front. */
  const EmptyFileSystem: FileSystem := FileSystem({}, {}, p => "/abs/" + p)

  /** The file branch returns its argument without consulting the
      filesystem: a relative `CMakeCache.txt` that does not exist comes back
      unchanged, neither absolute nor existing, although the function is
      documented to return the absolute path of an existing cache file. */
  lemma GetCacheNameReturnsMissingRelativeFile()
    ensures GetCacheName(EmptyFileSystem, CacheFileName) == Ok(CacheFileName)
    ensures !EmptyFileSystem.Exists(CacheFileName) && !IsAbsolute(CacheFileName)
    ensures GetCacheNameAsDocumented(EmptyFileSystem, CacheFileName) == NotFound("/abs/" + CacheFileName)
  {
    BasenameOfName(CacheFileName);
    assert EmptyFileSystem.abspath(CacheFileName) == "/abs/" + CacheFileName;
  }

  /** `get_cache_name` as documented: for a file argument as for a directory,
      a path is returned only when it is the absolute path of an existing file
      named `CMakeCache.txt`. A wrong file name is refused before the
      filesystem is consulted; a directory is handled as before. */
  function GetCacheNameAsDocumented(fs: FileSystem, fname: string): (r: CacheName)
    ensures r.Ok? ==> Basename(r.path) == CacheFileName && fs.Exists(r.path)
    ensures r.Ok? ==> r.path == fs.abspath(if fs.IsDir(fname) then fname + "/" + CacheFileName else fname)
    ensures r.IncorrectFile? ==> r.error.name == CacheFileName && r.error.inputName != CacheFileName
    ensures fs.IsDir(fname) ==> r == GetCacheName(fs, fname)
  {
    BasenameOfName(CacheFileName);
    if fs.IsDir(fname) then GetCacheName(fs, fname)
    else if Basename(fname) != CacheFileName then IncorrectFile(NewIncorrectFileError(fname, CacheFileName))
    else
      var path := fs.abspath(fname);
      if !fs.Exists(path) then NotFound(path)
      else if Basename(path) != CacheFileName then IncorrectFile(NewIncorrectFileError(path, CacheFileName))
      else Ok(path)
  }

  /** Since every result of `abspath` starts at the root, so does every path
      the corrected version returns. */
  lemma GetCacheNameAsDocumentedAbsolute(fs: FileSystem, fname: string)
    requires AbspathIsAbsolute(fs)
    requires GetCacheNameAsDocumented(fs, fname).Ok?
    ensures IsAbsolute(GetCacheNameAsDocumented(fs, fname).path)
  {
    var candidate := if fs.IsDir(fname) then fname + "/" + CacheFileName else fname;
    assert IsAbsolute(fs.abspath(candidate));
  }

  /** With the correction, a file named `CMakeCache.txt` resolves to its
      absolute path when that exists and to a not-found error otherwise; a
      file with another name is refused exactly as before. */
  lemma GetCacheNameAsDocumentedOfFile(fs: FileSystem, fname: string)
    requires AbspathKeepsName(fs)
    requires !fs.IsDir(fname)
    ensures var abs := fs.abspath(fname);
      GetCacheNameAsDocumented(fs, fname) ==
        if Basename(fname) != CacheFileName then GetCacheName(fs, fname)
        else if fs.Exists(abs) then Ok(abs) else NotFound(abs)
  {
    BasenameOfName(CacheFileName);
    if Basename(fname) == CacheFileName {
      AbspathKeepsEntryName(fs, fname);
    }
  }

  /** `change_base_dir(olddirname, newdirname, lines)`: one line out for every
      line in, in the same order; a line containing the old directory has
      every occurrence of it replaced, any other line is passed on as it is. */
  function ChangeBaseDir(oldDir: string, newDir: string, lines: seq<string>): (r: seq<string>)
    ensures |r| == |lines|
    ensures forall i :: 0 <= i < |lines| && !Contains(lines[i], oldDir) ==> r[i] == lines[i]
    ensures forall i :: 0 <= i < |lines| && Contains(lines[i], oldDir) ==> r[i] == Replace(lines[i], oldDir, newDir)
  {
    if lines == [] then []
    else
      var line := if Contains(lines[0], oldDir) then Replace(lines[0], oldDir, newDir) else lines[0];
      [line] + ChangeBaseDir(oldDir, newDir, lines[1..])
  }

  /** The containment test only saves work: every line is the replaced line. */
  lemma ChangeBaseDirReplacesEveryLine(oldDir: string, newDir: string, lines: seq<string>)
    ensures forall i :: 0 <= i < |lines| ==> ChangeBaseDir(oldDir, newDir, lines)[i] == Replace(lines[i], oldDir, newDir)
  {
    forall i | 0 <= i < |lines| && !Contains(lines[i], oldDir)
      ensures ChangeBaseDir(oldDir, newDir, lines)[i] == Replace(lines[i], oldDir, newDir)
    {
      ReplaceAbsent(lines[i], oldDir, newDir);
    }
  }

  /** Moving a build directory to itself leaves every line unchanged. */
  lemma ChangeBaseDirToSameDir(dir: string, lines: seq<string>)
    ensures ChangeBaseDir(dir, dir, lines) == lines
  {
    forall i | 0 <= i < |lines|
      ensures ChangeBaseDir(dir, dir, lines)[i] == lines[i]
    {
      ReplaceSame(lines[i], dir);
    }
  }

  /** Moving the build directory and moving it back gives the original lines,
      provided both directory names are non-empty and, in every rewritten
      line, no occurrence of the new name starts at a character copied from
      the original line. */
  lemma ChangeBaseDirRoundTrip(oldDir: string, newDir: string, lines: seq<string>)
    requires oldDir != [] && newDir != []
    requires forall line | line in lines :: NoStrayOccurrence(line, oldDir, newDir)
    ensures ChangeBaseDir(newDir, oldDir, ChangeBaseDir(oldDir, newDir, lines)) == lines
  {
    var moved := ChangeBaseDir(oldDir, newDir, lines);
    ChangeBaseDirReplacesEveryLine(oldDir, newDir, lines);
    ChangeBaseDirReplacesEveryLine(newDir, oldDir, moved);
    forall i | 0 <= i < |lines|
      ensures ChangeBaseDir(newDir, oldDir, moved)[i] == lines[i]
    {
      ReplaceRoundTrip(lines[i], oldDir, newDir);
    }
  }

  /** When some line contains the old directory and the new one differs, the
      rewritten lines differ from the input. */
  lemma ChangeBaseDirChanges(oldDir: string, newDir: string, lines: seq<string>, i: nat)
    requires i < |lines| && Contains(lines[i], oldDir)
    requires oldDir != newDir
    ensures ChangeBaseDir(oldDir, newDir, lines) != lines
  {
    ReplaceChanges(lines[i], oldDir, newDir);
  }
}
