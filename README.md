# CMakeHelpers in Dafny

A model of the two pieces of logic in CMakeHelpers, a small Python library
for relocating a CMake build:

- **locating the cache** (`get_cache_name`): a path that is a build
  directory stands for the `CMakeCache.txt` inside it, made absolute, which
  must exist; any path that comes out must be named `CMakeCache.txt`, or an
  `IncorrectFileError` carrying the basenames of the expected and the
  supplied names is raised;
- **moving the build directory** (`change_base_dir`): every cache line that
  contains the old build-directory path has every occurrence of it replaced
  by the new path; every other line passes through.

Modules, one file each:

- `Text` (`text.dfy`): the two Python string operations the rewriter uses,
  `in` (`Contains`) and `str.replace` (`Replace`, left to right,
  non-overlapping; for an empty pattern it puts the new text before every
  character and at the end, as CPython does), with their properties:
  absence, identity, length, the first-occurrence split, change, and the
  round trip. `Find` (`str.find`) and `Count` (`str.count`) are not called
  by the rewriter; they serve to state those properties (the first index
  where `in` succeeds, the number of replaced occurrences).
- `PosixPath` (`posix_path.dfy`): `os.path.basename` on POSIX paths, and the
  filesystem as an oracle value `FileSystem` holding the set of
  directories, the set of other files and the `abspath` function.
- `Errors` (`errors.py` → `errors.dfy`): `IncorrectFileError` as a datatype
  and its constructor as a function.
- `CMake` (`CMake.py` → `cmake.dfy`): `GetCacheName`, `ChangeBaseDir` and
  the lemmas about them, and `GetCacheNameAsDocumented`, the cache locator
  as its documentation describes it (see "## Findings").

Filesystem queries are not computed: `os.path.isdir`, `os.path.exists` and
`os.path.abspath` are read from the `FileSystem` value passed in. Two
assumptions are made of `abspath`, each only by the lemmas that need it:
`AbspathKeepsName`, that it keeps a final path component that names an
entry (not empty, `.` or `..`), used by the lemmas about the directory
branch and about the corrected file branch; and `AbspathIsAbsolute`, that
every result starts with '/', used by the absoluteness lemma of the
corrected version.

The round trip of moving a build directory and moving it back needs a
precondition. "The new path does not occur in any line" is not enough:
replacing `x` by `aa` in `ax` gives `aaa`, which turns back into `xa`
(`Text.RoundTripNeedsNoStrayOccurrence`). The model's precondition,
`NoStrayOccurrence`, says that no occurrence of the new path in the
rewritten line starts at a character copied from the line. Occurrences that
start inside an inserted copy are not constrained: with old `x`, new `aba`
and line `xba` the rewritten line `ababa` has a second `aba` starting inside
the inserted copy, and the precondition holds (the round trip does too).

## Model

| member | source | states |
|---|---|---|
| `Text.Contains` | cmakehelpers/CMake.py:35 | `olddirname in line`: some index where the pattern occurs; carries no `ensures` of its own, and `Text.Find` characterises it by its first occurrence |
| `Text.Replace` | cmakehelpers/CMake.py:36 | `line.replace(olddirname, newdirname)`: carries no `ensures` of its own; `Text.ReplaceAbsent` and `Text.ReplaceAtFirstOccurrence` characterise it through `OccursAt`, and the lemmas below state its other properties |
| `Text.Find` | cmakehelpers/CMake.py:35 | first-index characterisation of `in`: the result is the first index where the pattern occurs, and there is none exactly when `olddirname in line` is false |
| `Text.ReplaceAbsent` | cmakehelpers/CMake.py:35-37 | a line that does not contain the old directory is left unchanged by `replace` |
| `Text.ReplaceSame` | cmakehelpers/CMake.py:36 | replacing a string by itself gives the input back, also for the empty pattern |
| `Text.ReplaceLength` | cmakehelpers/CMake.py:36 | the result's length is the input's plus, per occurrence counted left to right without overlap, the new length minus the old |
| `Text.ReplaceKeepsClearPrefix` | cmakehelpers/CMake.py:36 | everything before the first occurrence of the pattern is copied unchanged |
| `Text.ReplaceAtFirstOccurrence` | cmakehelpers/CMake.py:36 | at the first occurrence the pattern is replaced and the scan resumes right after it (left to right, non-overlapping) |
| `Text.ReplaceChangesLength` | cmakehelpers/CMake.py:36 | a line containing the pattern changes length when the replacement has another length |
| `Text.ReplaceChanges` | cmakehelpers/CMake.py:36 | a line containing the pattern changes when the replacement differs from the pattern |
| `Text.ReplaceRoundTrip` | cmakehelpers/CMake.py:36 | replacing back restores the line when both strings are non-empty and no occurrence of the replacement starts at a character copied from the line |
| `Text.RoundTripNeedsNoStrayOccurrence` | test.py:57-66 | for old `x`, new `aa` and line `ax`: new does not occur in the line, yet the round trip gives `xa`, and the precondition of the round trip rejects this line |
| `PosixPath.FileSystem` | cmakehelpers/CMake.py:16-18 | the filesystem as an oracle: `IsDir` is `os.path.isdir`, `Exists` is `os.path.exists` (a directory or another file) and the `abspath` field is `os.path.abspath`; no `ensures`, the assumptions `AbspathKeepsName` and `AbspathIsAbsolute` say what lemmas may rely on |
| `PosixPath.Basename` | cmakehelpers/errors.py:7-8 | the basename has no '/', is a suffix of the path, and is preceded by '/' whenever it is shorter than the path |
| `PosixPath.BasenameOfName` | cmakehelpers/CMake.py:20 | a name without '/' is its own basename, so `CMakeCache.txt` is |
| `PosixPath.BasenameOfJoin` | cmakehelpers/CMake.py:17 | `dir + '/' + name` has basename `name` for any directory text |
| `Errors.NewIncorrectFileError` | cmakehelpers/errors.py:5-8 | `name` is the basename of the expected name and `input_name` that of the supplied one; neither contains '/' |
| `CMake.GetCacheName` | cmakehelpers/CMake.py:8-22 | a returned path has basename `CMakeCache.txt` and is the input itself unless the input is a directory; a directory yields `abspath(dir + '/CMakeCache.txt')` and only when it exists; not-found arises only for a directory whose cache path does not exist; an incorrect-file error has `name == "CMakeCache.txt"` and `input_name != "CMakeCache.txt"` |
| `CMake.GetCacheNameOfDirectory` | cmakehelpers/CMake.py:16-21 | a directory gives `abspath(dir + '/CMakeCache.txt')` when that exists and not-found on that path otherwise, never an incorrect-file error |
| `CMake.GetCacheNameOfFile` | cmakehelpers/CMake.py:20-22 | a non-directory is returned unchanged when its basename is `CMakeCache.txt` and refused with both basenames otherwise |
| `CMake.GetCacheNameIdempotent` | cmakehelpers/CMake.py:16-22 | resolving a returned path that is not a directory returns it again |
| `CMake.GetCacheNameFound` | test.py:23-31 | a directory holding its cache resolves to the absolute cache path, which resolves to itself |
| `CMake.GetCacheNameReturnsMissingRelativeFile` | cmakehelpers/CMake.py:20-22 | on an empty filesystem the relative name `CMakeCache.txt` is returned as it is, although it neither exists nor is absolute; the corrected version reports it not found |
| `CMake.GetCacheNameAsDocumented` | cmakehelpers/CMake.py:10-14 | a returned path is `abspath` of the candidate (the directory's cache or the file itself), exists and is named `CMakeCache.txt`; an incorrect-file error carries the expected and a different name; a directory is handled exactly as by `GetCacheName` |
| `CMake.GetCacheNameAsDocumentedAbsolute` | cmakehelpers/CMake.py:14 | when `abspath` returns paths starting with '/', so does every returned path |
| `CMake.GetCacheNameAsDocumentedOfFile` | cmakehelpers/CMake.py:10-14 | a file named `CMakeCache.txt` resolves to its absolute path if that exists and to not-found otherwise; a file with another name is refused exactly as by `GetCacheName` |
| `CMake.ChangeBaseDir` | cmakehelpers/CMake.py:25-37 | one output line per input line in the same order; lines without the old directory are unchanged, the others have it replaced |
| `CMake.ChangeBaseDirReplacesEveryLine` | cmakehelpers/CMake.py:34-37 | every output line equals `line.replace(olddirname, newdirname)`; the containment test changes nothing |
| `CMake.ChangeBaseDirToSameDir` | cmakehelpers/CMake.py:34-37 | moving a directory to itself returns the lines unchanged |
| `CMake.ChangeBaseDirRoundTrip` | test.py:57-66 | moving the directory and back returns the original lines, when both directory names are non-empty and no occurrence of the new one in a rewritten line starts at a character copied from the original line |
| `CMake.ChangeBaseDirChanges` | test.py:85-94 | when a line contains the old directory and the new one differs, the rewritten lines differ from the input |

## Findings

| source | as written | input that shows it | evidently intended | confidence | as-written member | corrected member |
|---|---|---|---|---|---|---|
| cmakehelpers/CMake.py:10-22 | a path that is not a directory is returned unchanged once its basename is `CMakeCache.txt`, with no existence check and no `abspath` | `get_cache_name("CMakeCache.txt")` in a directory that holds no such file returns `"CMakeCache.txt"` | the documented result: the absolute path of an existing cache, an error otherwise | medium: the documentation says so, and the only test that reaches the file branch with a file named `CMakeCache.txt` (test.py:30) passes an absolute, existing path; not executed | `CMake.GetCacheNameReturnsMissingRelativeFile` | `CMake.GetCacheNameAsDocumented` |

`CMake.GetCacheName` stays the model of the code as written, and the lemmas
about it describe that behaviour; `CMake.GetCacheNameAsDocumented` keeps the
directory branch and the wrong-name error, and adds the existence check and
`abspath` to the file branch.

## Left out

- `create_destination` (`cmakehelpers/__init__.py`): it only removes and creates directories on disk; the filesystem is not modelled as mutable state.
- Filesystem queries and `os.path.abspath` normalisation: `isdir`, `exists` and `abspath` are fields of the `FileSystem` oracle, not implementations; paths naming the same file through different text are different paths to the oracle.
- Reading the cache file and stripping line ends (the tests' `rstrip`): the model starts from the sequence of lines.
- Generator laziness: `change_base_dir` yields lazily; the model returns the whole sequence, which is what `list(...)` of it gives.
- `CMake.ChangeBaseDirRoundTrip`: proved only for non-empty old and new directories and lines satisfying `NoStrayOccurrence`; the round trip can hold for other inputs too.
