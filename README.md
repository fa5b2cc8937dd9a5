# Duplicate File Deleter — a verified model

The Rust program `src/main.rs` looks for duplicate files under a directory and deletes them. It works in four stages:

1. It walks the tree and hashes every regular file. It groups the paths by digest in a hash map, and each bucket keeps discovery order (`scan_directory`).
2. It keeps the buckets that hold more than one path. These are the duplicate groups. When there are none it reports "No duplicates found.".
3. For each group it asks the operator. A line counts as yes when, trimmed and lower-cased, it is exactly `y`.
4. On a yes it keeps the first member of the group and passes every other member to `fs::remove_file`. A failed removal is reported, and the loop goes on.

This project models those stages in Dafny and proves what each one guarantees. It also proves what the whole run does to the filesystem.

The model's stand-ins for the outside world:

- **Walk.** The walk is given as its output: a sequence of `WalkItem`s in discovery order. An item is a walk error, a non-file, or a regular file. For a regular file, the item also holds what opening and reading it produced: its bytes, or nothing when either step failed. The end-to-end lemmas of `Pipeline` assume that the walk yields each path at most once (`DistinctPaths`), as walkdir does when it does not follow links.
- **Hash.** SHA-256 with hex formatting is a parameter `digest`, an uninterpreted function from content to digest.
- **Map order.** The iteration order of the hash map is a parameter `order`. It can be any enumeration of the keys, each key exactly once.
- **Operator input.** The operator's answers are `answers`, one line per prompt. Past the end of input, `read_line` leaves the line empty, which counts as no.
- **Filesystem.** The filesystem is a class `FileSystem` that holds:
  - `files`, the set of existing paths;
  - `denied`, a fixed set of paths whose removal the system refuses;
  - a ghost log `attempts` of every path passed to removal.
- **`remove_file`.** A removal fails when the path does not exist or is refused. Otherwise it removes the path.

Modules and files:

- `wrappers.dfy`: `Option`, `Result` and `Distinct`.
- `fingerprint_index.dfy`: the scan.
- `confirmation.dfy`: the yes/no predicate.
- `duplicate_filter.dfy`: the filter.
- `reconciler.dfy`: the filesystem and the delete loops.
- `pipeline.dfy`: `main` as a whole, with end-to-end properties and a worked example.

The scan and the two delete loops are imperative methods. Each is proved against a specification function:

- `Fingerprints(items, digest)` is the order-preserving group-by of the files that hashed.
- `Attempted(groups, answers)` is the sequence of paths passed to removal.

The filter and the predicate are functions, as in the source.

## Model

| member | source | states |
|---|---|---|
| FingerprintIndex.ScanDirectory | src/main.rs:21-36 | The scan always returns `Ok`. Its map is `Fingerprints(items, digest)`: every path that hashed is in the bucket of its digest, in walk order. The loop keeps the map equal to the group-by of the items seen so far. |
| FingerprintIndex.CalculateHash | src/main.rs:11-18 | `calculate_hash` yields a digest exactly when opening and reading the file succeeded. A failed open or read yields none, and the scan skips the file. |
| FingerprintIndex.Insert | src/main.rs:29 | `entry(hash).or_insert(Vec::new()).push(path)`: the keys gain `hash` and nothing else. Every other bucket is unchanged. The bucket of `hash` is the old bucket, or an empty one, with `path` appended last. |
| FingerprintIndex.ScanStep | src/main.rs:24-33 | One loop iteration. A regular file whose read succeeds is appended, via `entry(..).or_insert(..).push(..)`, to the bucket of its digest, creating the bucket if missing. Any other item leaves the map unchanged. |
| FingerprintIndex.GroupByAppend | src/main.rs:29 | Grouping one more (path, digest) pair equals appending that path to that digest's bucket in the earlier grouping. |
| FingerprintIndex.BucketMembers | src/main.rs:29 | A path is in the bucket of `h` exactly when it was hashed with digest `h`. |
| FingerprintIndex.HashedMembers | src/main.rs:24-32 | A (path, digest) pair is among the hashed files exactly when some walk item is a regular file with that path whose content digests to that value. |
| FingerprintIndex.HashedConcat | src/main.rs:24-34 | Hashing two walks one after the other gives the concatenation of their hashed files. |
| FingerprintIndex.ScanIndexContents | src/main.rs:25-31 | A path is in the bucket of `h` if and only if a regular file with that path was read and digested to `h`. So no path is in any other bucket, a failed read puts its path in no bucket, and no bucket is empty. |
| FingerprintIndex.SkippedItemAddsNothing | src/main.rs:24-31 | A walk error, a non-file or a file whose read fails can be removed from the walk without changing the map. The scan goes on as if the item were absent. |
| FingerprintIndex.MissingRootIsEmpty | src/main.rs:24-35 | A walk that yields only an error, as for a root that does not exist, scans to an empty map rather than an error. |
| FingerprintIndex.TotalSizeRemove | src/main.rs:22-34 | Removing a bucket from a map subtracts that bucket's size from the total number of paths. |
| FingerprintIndex.TotalSizeInsert | src/main.rs:29 | Appending one path to a bucket adds one to the total number of paths in the map. |
| FingerprintIndex.BucketSizesSum | src/main.rs:22-34 | The buckets of a grouping together hold as many paths as there are grouped pairs. |
| FingerprintIndex.ScanSizes | src/main.rs:22-34 | The bucket sizes of the scanned map add up to the number of files hashed successfully. |
| FingerprintIndex.HashedInOrder | src/main.rs:24-29 | Of two files hashed at walk positions `i < j`, the first comes first among the hashed files. |
| FingerprintIndex.BucketInOrder | src/main.rs:29 | Two pairs with the same digest keep their relative order inside the bucket. |
| FingerprintIndex.DiscoveryOrder | src/main.rs:24-29 | Take two files the walk yields at positions `i < j` that digest alike. Their digest is a key, and the earlier file precedes the later one in its bucket. |
| FingerprintIndex.HashedDistinct | src/main.rs:24-29 | When the walk yields no path twice, no path is hashed twice. |
| FingerprintIndex.DistinctPathsDisjointBuckets | src/main.rs:24-29 | When the walk yields no path twice, no path appears twice in a bucket or in two buckets. |
| FingerprintIndex.BucketDistinct | src/main.rs:29 | A bucket of pairs whose paths are all distinct has no repeated path. |
| Confirmation.TrimStartSpec | src/main.rs:45 | The contract of `TrimStart`, the model of `trim_start`. `trim_start` returns a suffix that is empty or starts with a non-whitespace character. What it drops is all whitespace. |
| Confirmation.TrimEndSpec | src/main.rs:45 | The contract of `TrimEnd`, the model of `trim_end`. `trim_end` returns a prefix that is empty or ends with a non-whitespace character. What it drops is all whitespace. |
| Confirmation.TrimSpec | src/main.rs:45 | The contract of `Trim`, the model of `trim`. The result is a slice of the line that neither starts nor ends with whitespace. What is dropped on either side is all whitespace. |
| Confirmation.ToLower | src/main.rs:45 | `to_lowercase`, on ASCII letters. The result has the same length and contains no upper-case letter. Each upper-case letter becomes its lower-case letter, and every other character is kept in place. |
| Confirmation.IsAffirmative | src/main.rs:45 | The answer is yes exactly when the trimmed line is `y` or `Y`. `AffirmativeIff` restates this on the untrimmed line. |
| Confirmation.TrimStartAt | src/main.rs:45 | When a string starts with whitespace up to position `i` and `s[i]` is not whitespace, `trim_start` gives `s[i..]`. |
| Confirmation.TrimEndAt | src/main.rs:45 | When a string ends with whitespace after position `j - 1` and `s[j-1]` is not whitespace, `trim_end` gives `s[..j]`. |
| Confirmation.AffirmativeOnlyIf | src/main.rs:45 | An affirmative line is whitespace, one `y` or `Y`, then whitespace. |
| Confirmation.AffirmativeIf | src/main.rs:45 | Any line of that shape is affirmative. |
| Confirmation.AffirmativeIff | src/main.rs:43-45 | The line is a yes exactly when it is one `y` or `Y` with only whitespace around it. This covers the trailing newline that `read_line` keeps. |
| Confirmation.PaddedUpperCaseIsAffirmative | src/main.rs:45 | `" Y \n"` is a yes. |
| Confirmation.OtherAnswersAreNegative | src/main.rs:43-45 | `"yes"`, `"n"` and the empty line (end of input) are no. |
| DuplicateFilter.DuplicateKeys | src/main.rs:65-67 | A key is filtered in exactly when its bucket has more than one path. The keys are distinct when the order is. |
| DuplicateFilter.DuplicateKeysInOrder | src/main.rs:65-67 | The filtered keys keep the iteration order: they are a subsequence of `order`, at strictly increasing positions. |
| DuplicateFilter.SubsequenceExtend | src/main.rs:65-67 | A subsequence of all but the last key of the order stays a subsequence of the order when the last key is appended to it or left out. This is one step of the filter. |
| DuplicateFilter.DuplicateGroups | src/main.rs:65-69 | Every collected group has at least two members. |
| DuplicateFilter.FilterDuplicates | src/main.rs:65-74 | The outcome is "No duplicates found." exactly when every bucket has at most one path. Otherwise it is the non-empty list of groups. |
| DuplicateFilter.DistinctCardinality | src/main.rs:65-69 | A key sequence without repetitions has as many elements as its set. |
| DuplicateFilter.DuplicateGroupsExact | src/main.rs:65-69 | In any iteration order, every group is a bucket of more than one path, and every such bucket is a group. There are exactly as many groups as such buckets, so none is listed twice. |
| DuplicateFilter.OneDuplicateBucket | src/main.rs:65-69 | When only one bucket has more than one path, the groups are exactly that bucket, in any iteration order. |
| Reconciler.FileSystem.RemoveFile | src/main.rs:83 | Removal succeeds exactly when the path exists and is not refused. On success the path is gone; on failure nothing changes. The attempt is logged. |
| Reconciler.LineAt | src/main.rs:43-44 | The line read at prompt `i`. Past the end of input, `read_line` leaves the line empty, and that line is never a yes, so the group is skipped. |
| Reconciler.RemovalsCompose | src/main.rs:75-95 | Removing the deletable paths of two runs of attempts one after the other equals removing those of both runs together. |
| Reconciler.ReportsLater | src/main.rs:80-91 | A group's report stays true while files only disappear afterwards. |
| Reconciler.ReportsRebase | src/main.rs:80-91 | A report made against the files left after earlier attempts is a report against the files the run began with, counting those attempts as earlier. |
| Reconciler.ReportsUpToAt | src/main.rs:75-95 | When the first `n` groups are reported, group `j < n` is reported against the run's starting files and the paths attempted in the groups before it. |
| Reconciler.ReportsUpToAll | src/main.rs:75-95 | The same, for every `j < n` at once. |
| Reconciler.ReportsUpToLater | src/main.rs:75-95 | The reports of the first `n` groups stay true while files only disappear and more outcomes follow. |
| Reconciler.ReportsExtend | src/main.rs:75-95 | The reports of the groups already handled stay true after one more group, and the new report joins them. |
| Reconciler.AttemptsStep | src/main.rs:75-95 | After one more group, the removal log is the log before the run followed by `Attempted` over one more group. |
| Reconciler.ReconcileStep | src/main.rs:75-95 | One iteration of the outer loop keeps the loop's state. The removal log and the files are `Attempted` and its non-refused part over one more group, and the reports extend by the new group's. |
| Reconciler.DeleteAllButFirst | src/main.rs:79-91 | On a confirmed group, index 0 is skipped. Every later member is passed to removal exactly once, in group order, whatever happened to the earlier ones. The files lose exactly the non-refused members after the first. Entry `k` reports member `k + 1`. It says "deleted" exactly when that member existed, was not refused and did not already occur earlier in the group. Every entry is truthful. |
| Reconciler.ReconcileGroup | src/main.rs:76-94 | On a yes, the group's members after the first are attempted and the outcome is `Confirmed`. Its removal `k` names member `k + 1`, and says "deleted" exactly when that member existed before the group, is not refused, and did not occur earlier in the group. So a success is never reported as a failure. On anything else nothing is attempted, no file changes, and the outcome is `Skipped`. |
| Reconciler.ReconcileAll | src/main.rs:75-95 | Group `i` is answered by line `i`. The run passes exactly `Attempted(groups, answers)` to removal, in order. The files lose exactly the non-refused ones. Group `i` is `Confirmed` exactly on a yes. Its removal `k` names member `k + 1`, and says "deleted" exactly when that member existed when the run began, is not refused, and was not attempted earlier, in an earlier group or earlier in this one. |
| Reconciler.AttemptedFrom | src/main.rs:78-91 | Every attempted path is a member, other than the first, of a confirmed group. |
| Reconciler.AttemptedCovers | src/main.rs:78-91 | Every member, other than the first, of a confirmed group is attempted. |
| Reconciler.AttemptedMembers | src/main.rs:78-94 | A path is attempted if and only if it is a member, other than the first, of a confirmed group. |
| Reconciler.AttemptedOnce | src/main.rs:80-91 | When no path occurs twice among the groups, no path is attempted twice. |
| Reconciler.KeptFileSurvives | src/main.rs:80-90 | When no path occurs twice among the groups, the first member of a group is never passed to removal. If it existed, it still exists after the run. |
| Reconciler.DeclinedGroupUntouched | src/main.rs:92-94 | When no path occurs twice among the groups, after a negative answer no member of the group is attempted. Each member exists after the run exactly when it existed before. |
| Reconciler.ConfirmedMemberRemoved | src/main.rs:80-91 | After a yes, every member after the first is attempted. It is gone afterwards unless refused, and a refused member that existed still exists. |
| Pipeline.Run | src/main.rs:63-99 | `main` scans, filters and reconciles. "No duplicates found." is reported exactly when no bucket has two paths, and then no file is touched. Otherwise the run attempts exactly `Attempted` over the duplicate groups and removes the non-refused attempts. Each group's report is exact, as for `ReconcileAll`: a removal says "deleted" exactly when the member existed when the run began, is not refused and was not attempted earlier. |
| Pipeline.BucketFromTwoItems | src/main.rs:24-29 | For a walk without repeated paths, a bucket of two or more paths comes from two different walk items whose contents digest alike. |
| Pipeline.NoDuplicatesIff | src/main.rs:65-72 | For a walk without repeated paths, the outcome is "No duplicates found." exactly when no two regular files digest alike. This covers an empty tree and a tree of distinct contents. |
| Pipeline.SameContentSameGroup | src/main.rs:24-69 | For a walk without repeated paths, two regular files that digest alike end up in one duplicate group. |
| Pipeline.BucketDigest | src/main.rs:27-29 | For a walk without repeated paths, a walked file whose path is in the bucket of `h` digests to `h`. |
| Pipeline.InSomeGroupIff | src/main.rs:24-69 | For a walk without repeated paths, a regular file is in some duplicate group exactly when another file of the walk digests like it. A file with unique contents is in no group. |
| Pipeline.GroupsDisjoint | src/main.rs:24-69 | For a walk without repeated paths, no path occurs twice among the duplicate groups. |
| Pipeline.RunGroupEffects | src/main.rs:63-95 | For a walk without repeated paths, the run affects each group as follows: no path is attempted twice; the first member survives if it existed; a declined group is left as it was; in a confirmed group every other member is gone unless refused. |
| Pipeline.SampleCopiesIndex | src/main.rs:21-34 | Scanning a copy, a directory and a second copy gives one bucket with both copies, in walk order. |
| Pipeline.SampleIndex | src/main.rs:21-36 | On the sample tree, the map is exactly {copy digest: [a, b], original digest: [c]}. The directory, the unreadable file and the walk error add nothing. |
| Pipeline.SampleGroups | src/main.rs:65-69 | On the sample tree, the one duplicate group is `[a, b]`, in any iteration order. |
| Pipeline.SampleAnswers | src/main.rs:75-94 | For the group `[a, b]`, answering `" Y \n"` attempts only `b`, and answering `"yes"` attempts nothing. |

## Left out

- SHA-256 and its hex formatting (src/main.rs:11-18) are replaced by the uninterpreted `digest`. Distinct contents may therefore share a digest, and the lemmas speak of equal digests, not equal contents.
- The directory walk (src/main.rs:24) is an input sequence. The model does not decide how walkdir orders entries, follows links or reports errors. Each of those shows up only as an item.
- File opening and reading are not modelled as I/O. Their result is part of the walk item.
- Argument parsing and the async runtime (src/main.rs:48-61) are not modelled. They do not affect the pipeline, and nothing runs concurrently.
- Prompts, progress messages and error messages (src/main.rs:40-41, 72-98) are not printed. The text of each removal report is kept in `Removal` values.
- A `read_line` I/O error makes the program panic on `unwrap` (src/main.rs:44). So does a failed write to standard output or standard error: `flush().unwrap()` at src/main.rs:41, and `println!`/`eprintln!` at src/main.rs:72-93. Such a panic ends the run before any later removal. The model does not capture this: it always attempts the tail of every confirmed group. End of input is modelled as the empty line.
- `to_lowercase` is modelled on ASCII letters only. The answer test is still exact, because `y` and `Y` are the only characters whose lower case is `y`. Trimming uses Unicode's full White_Space list, as Rust's `trim` does.
- The `keep_files` vector (src/main.rs:79, 89) is filled and never read, so it is left out.
- The causes of a failed `remove_file` are reduced to two: the path is missing, or it is in the fixed set `denied`. The model does not let the filesystem change between two removals other than through the removals themselves.
- The hash map's iteration order is unspecified. Every property is proved for all orders that list each key once.
- The `Err` branch of `main` (src/main.rs:98) cannot be taken, because `scan_directory` always returns `Ok`. `Pipeline.Run` has no counterpart for it.
- A missing root might be expected to be a fatal scan error. The code filters the walk's error out and returns an empty map (`MissingRootIsEmpty`).
- A failed `remove_file` need not mean that the file still exists. It also fails when the file is already gone, for example a path listed twice. `Truthful` allows either reason, and the reports of `ReconcileAll` say which paths that applies to.
- A closed input stream might be expected to stop the program at a prompt. In the code, `read_line` leaves the line empty at end of input, so the group is skipped (`LineAt`).
