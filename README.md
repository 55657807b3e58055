# Extension sorter and divisor benchmark, modelled in Dafny

`project1.py` does two independent jobs:

- It sorts files by extension. It walks a source directory tree, fanning out one
  thread task per file or subdirectory. Each file is copied to `target/<ext>/<name>`, where `<ext>`
  is the file's suffix without the dot, or `unknown` when the file has no suffix.
- It runs a divisor benchmark. For each number it builds the ascending list of its
  divisors. It does this once sequentially and once through a process pool, then
  asserts that the two results are equal.

The model covers the pure logic inside both jobs, as functions and lemmas:

- `factorize.dfy` (module `Factorize`) covers the divisor list and its two list-mapping
  wrappers. The process pool's `Executor.map` becomes a function of a *completion
  schedule*: the order in which the workers finish their tasks, given as a parameter.
  Each finished future is recorded by task index. The results are then read back in
  submission order. The parallel map is proved equal to the sequential one for every
  schedule.
- `buckets.dfy` (module `Buckets`) covers `PurePath.suffix` on a file name, the bucket
  name, the bucket directory and the destination path. Paths are sequences of
  components.
- `sorter.dfy` (module `Sorter`) covers the recursive walk over an abstract source tree.
  Entries are files, directories, or other entries that the walk skips. The result is
  the set of destination keys `(bucket, name)` that the concurrent fan-out writes.

Decisions where the code is ambiguous or easy to misread:

- The extension is **not** lower-cased: line 13 uses `file.suffix[1:]` unchanged, so
  `Photo.JPG` goes to bucket `JPG` (`Buckets.BucketKeepsCase`).
- `PurePath.suffix` is modelled with the rule used by Python up to 3.13. The suffix
  runs from the last dot to the end, except when that dot is the first character
  (`.bashrc`) or the last character (`notes.`); then the suffix is empty. Python 3.14
  treats a lone trailing dot as a suffix. Under that rule `notes.` would get the empty
  bucket, and `target / ""` is `target` itself.
- Non-positive inputs to the divisor list need no precondition. `range(1, n + 1)` is
  then empty, and so is the result (`Factorize.FactorizeNonPositive`). Only positive
  candidates are ever tested with `%`. For those, Python's floored remainder and
  Dafny's Euclidean remainder agree.
- An entry counts as a directory if `is_dir()` says so, which is tested first. It
  counts as a file if `is_file()` says so. Any other entry is skipped. Symbolic links
  are not modelled separately: a link to a directory is simply a `Dir` entry.

## Model

| member | source | states |
|---|---|---|
| `Factorize.DivisorsIn` | project1.py:34 | the comprehension `[i for i in range(lo, hi) if n % i == 0]`; its contract is `Factorize.DivisorsInFacts` |
| `Factorize.DivisorsInFacts` | project1.py:34 | the comprehension over `range(lo, hi)` keeps exactly the candidates that divide `n`, in strictly ascending order |
| `Factorize.FactorizeNumber` | project1.py:33-34 | `x` is in the divisor list exactly when `1 <= x <= n` and `n % x == 0`; the list is strictly ascending and holds no duplicates |
| `Factorize.FactorizeNonPositive` | project1.py:34 | for `n <= 0` the divisor list is empty |
| `Factorize.FactorizeEndpoints` | project1.py:34 | for `n >= 1` the divisor list is non-empty, starts with 1 and ends with `n` |
| `Factorize.AscendingUnique` | project1.py:34 | two strictly ascending sequences with the same elements are equal |
| `Factorize.FactorizeCharacterised` | project1.py:34 | any strictly ascending list of exactly the divisors of `n` in `[1, n]` is the divisor list |
| `Factorize.FactorizeNumber128` | project1.py:51 | the divisor list of 128, the first benchmark input, is `[1,2,4,8,16,32,64,128]` |
| `Factorize.FactorizeNumber255` | project1.py:51 | the divisor list of 255, the second benchmark input, is `[1,3,5,15,17,51,85,255]` |
| `Factorize.FactorizeSync` | project1.py:36-37 | the sequential result has one entry per input, and entry `k` is the divisor list of input `k` |
| `Factorize.Completed` | project1.py:40-41 | after the workers finish tasks in any order, exactly the finished tasks have a result, and task `k` holds the divisor list of input `k` |
| `Factorize.FactorizeParallel` | project1.py:39-41 | for every completion schedule, the collected result has one entry per input, and entry `k` is the divisor list of input `k` |
| `Factorize.ParallelEqualsSync` | project1.py:54-61 | the parallel and sequential results are equal element by element in input order, for every schedule; this is the assertion in `main` |
| `Factorize.BenchmarkAssertionHolds` | project1.py:51-61 | the assertion in `main` holds on the benchmark inputs `[128, 255, 99999, 10651060]` for every schedule |
| `Buckets.RFind` | project1.py:13 | the index found holds the character and no later index does, or it is -1 |
| `Buckets.Suffix` | project1.py:13 | the suffix is non-empty exactly when the name has a dot after its first character and does not end with a dot; a non-empty suffix is a dot plus a dot-free text, and ends the name |
| `Buckets.Bucket` | project1.py:13 | the bucket is never empty and has no dot; for a name with an extension, the name ends with a dot followed by the bucket; otherwise the bucket is `unknown` |
| `Buckets.BucketIsLastExtension` | project1.py:13 | a name with an extension is a non-empty stem, a dot and its bucket |
| `Buckets.BucketOfStemAndExtension` | project1.py:13 | a non-empty stem, a dot and a dot-free extension give exactly that extension as the bucket |
| `Buckets.BucketAfterLastDot` | project1.py:13 | `archive.tar.gz` goes to bucket `gz` |
| `Buckets.BucketKeepsCase` | project1.py:13 | `Photo.JPG` goes to bucket `JPG`: the letter case of the extension is kept |
| `Buckets.UnknownBucket` | project1.py:13 | a name without a dot, a dot-file whose only dot leads it, and a name ending with a dot all go to `unknown` |
| `Buckets.BucketDir` | project1.py:14 | the bucket directory is the target plus one non-empty, dot-free component |
| `Buckets.Destination` | project1.py:14-17 | the destination is the target plus two components; the last is the file name unchanged, and the prefix is the bucket directory |
| `Buckets.DestinationCollision` | project1.py:17 | two files get the same destination exactly when their names are equal |
| `Sorter.KeyOf` | project1.py:13-17 | the destination key `copy_file` writes: the file's bucket and its unchanged name; the bucket is fixed by `Buckets.Bucket`'s contract |
| `Sorter.Files` | project1.py:19-25 | the files the walk reaches below a listing, in listing order; `Sorter.FileSource` and `Sorter.EntryFilesIncluded` relate it to the entries |
| `Sorter.EntryFiles` | project1.py:21-25 | the files reached from one entry: a file itself, everything below a directory, nothing for any other entry |
| `Sorter.DirectoryKeys` | project1.py:19-25 | `process_directory`: the keys written for a listing; `Sorter.DirectoryKeysAreFileKeys` and `Sorter.ReachableFileKeys` state what they are |
| `Sorter.EntryKeys` | project1.py:21-25 | the keys written for one entry, with `is_dir()` tested before `is_file()`; `Sorter.EntryKeysAreFileKeys` states what they are |
| `Sorter.DirectoryKeysAreFileKeys` | project1.py:19-25 | the keys the fan-out writes for a listing are the keys of the file names the walk reaches |
| `Sorter.EntryKeysAreFileKeys` | project1.py:21-25 | the same for one entry: a file writes its own key, a directory those of its files, anything else nothing |
| `Sorter.NameKeysMembers` | project1.py:17 | a key belongs to a list of names exactly when its name is in the list and its bucket is that name's bucket |
| `Sorter.ReachableFileKeys` | project1.py:19-25 | a key is written exactly when a file of that name is reachable, with that name's bucket |
| `Sorter.FileSource` | project1.py:21-25 | every file a listing reaches is reached from one of its entries |
| `Sorter.EntryFilesIncluded` | project1.py:21-25 | every file an entry reaches is reached from the listing that holds it |
| `Sorter.ListingOrderFiles` | project1.py:20-25 | two listings with the same entries, in any order, reach the same file names |
| `Sorter.ListingOrderIrrelevant` | project1.py:20-25 | two listings with the same entries, in any order, write the same keys |
| `Sorter.SubdirectoryFlattened` | project1.py:22-23 | a subdirectory writes the same keys its entries would write directly in the parent, whatever its name |
| `Sorter.CollisionsOnlyShrink` | project1.py:17-25 | the walk writes no more keys than it reaches files |
| `Sorter.SortFilesByExtension` | project1.py:27-31 | the destinations are exactly `target/<bucket>/<name>` for the reachable file names |
| `Sorter.BucketDirs` | project1.py:14-16 | the directories created are exactly the bucket directories of the reachable file names; each is the target plus one non-empty, dot-free component |
| `Sorter.DestinationsInBucketDirs` | project1.py:14-17 | every destination lies directly inside a bucket directory the sort creates |
| `Sorter.ThreeFileScenario` | project1.py:19-25 | `a.txt`, `sub/b.txt` and `sub/c.jpg` are sorted into `txt/a.txt`, `txt/b.txt` and `jpg/c.jpg` |
| `Sorter.CollisionScenario` | project1.py:17-25 | two files with the same name in different subdirectories write a single key |

## Left out

- Thread pools are not modelled: the `ThreadPoolExecutor` per directory (project1.py:20-25)
  and the global lock around bucket creation (project1.py:10, 15-16). The model keeps
  only the set of keys and directories that the fan-out produces. Scheduling,
  interleaving and the waits at the end of each `with` block are out.
- Filesystem effects are not modelled: `mkdir(parents=True, exist_ok=True)`,
  `shutil.copy2`, and `iterdir`/`is_dir`/`is_file`. The source tree is an input value,
  and the outcome is the set of destinations rather than file contents or metadata.
  Errors from these calls, such as a missing source or a failed copy, are I/O and are
  not modelled.
- Which content ends up at a shared destination is not modelled. Each copy truncates
  and rewrites the file, so the later copy wins only when the copies do not overlap
  in time; overlapping copies can interleave. The model shows only that colliding
  files share one key (`Sorter.CollisionScenario`, `Sorter.CollisionsOnlyShrink`).
- Process-pool mechanics are not modelled: `ProcessPoolExecutor`,
  `multiprocessing.cpu_count()`, pickling and chunking. Only the order-preserving map
  is modelled, with the completion order as a parameter.
- `main` is not modelled: argument parsing, the `time.time()` timings and the prints
  (project1.py:43-61). Only its assertion is modelled, by
  `Factorize.ParallelEqualsSync` and `Factorize.BenchmarkAssertionHolds`.
- The divisor lists of the last two benchmark inputs, 99999 and 10651060, are not
  written out. Their properties follow from the general lemmas.
