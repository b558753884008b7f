# merge_vars, modelled in Dafny

This project models the `merge_vars` Ansible action plugin
(`plugins/action/merge_vars.py`). The action validates its options. It
assembles a list of variable files from file and directory sources, keeps
those whose extension is allowed, and loads them in order into one dict of
host variables. Before a file is merged, each of its top-level keys that
task_vars already defines is pre-seeded from task_vars. Extra-vars then win
over whatever was loaded. `changed` is set when the loaded variables differ
from the task_vars values they started from, which the action measures with
its own `deep_diff`. Finally the action applies `literals`, each of which
writes one value at a dotted path and sets `changed` if the value there was
different.

Modules, one concept each:

- `Common` and `Values` (values.dfy): the Python values the action handles,
  Python truthiness, the failures the action raises, and path lookup.
- `Text` (text.dfy): `str.split`, the extension `os.path.splitext` yields,
  `os.path.join`, and `list.sort()` on strings, proved sorted and a
  permutation.
- `Diffs` (deep_diff.dfy): `deep_diff` as a method. Its result is compared
  as a multiset with a recursive specification, because Python iterates a
  set union in an unspecified order.
- `Literals` (literals.dfy): the dotted-path write. A method walks down
  and writes; it is proved equal to the pure `SetPath`.
- `Sources` (sources.dfy): how sources are expanded into files, and the
  extension filter.
- `IncludedFiles` (included_files.dfy): the list the code reports as
  included, built as the code builds it (see Findings).
- `MergeVars` (merge_vars.dfy): validation, pre-seeding, loading, the
  extra-vars override, the literals, the whole `run` as the function
  `Outcome`, and the class `ActionModule`, whose `Run` sets the result
  fields.

Inputs the model takes as parameters:

- The filesystem: a map from path to a regular file (already parsed
  variables), a directory (its listing, in OS order) or something else.
- `merge_hash`: an arbitrary function on dicts.
- The templar: an arbitrary function on values.
- task_vars and extra_vars: dicts.

## Model

| member | source | states |
|---|---|---|
| Diffs.DeepDiff | plugins/action/merge_vars.py:65-82 | the entries returned are, as a multiset, exactly the recursive diff specification over the union of the keys |
| Diffs.KeyEntries | plugins/action/merge_vars.py:69-80 | one key contributes its one-sided entry, the inner diff of two dicts, one entry for unequal values, or nothing |
| Diffs.DiffOverPick | plugins/action/merge_vars.py:68 | the diff does not depend on the order in which the keys are visited |
| Diffs.DiffOfSelfEmpty | plugins/action/merge_vars.py:65-82 | the diff of a dict with itself is empty |
| Diffs.DiffEmptyIffEqual | plugins/action/merge_vars.py:65-82 | the diff is empty if and only if the two dicts are equal |
| Diffs.OneSidedKey | plugins/action/merge_vars.py:71-74 | the diff of two dicts is, for a key only on the left, the entry (path, old, None) plus the diff over the other keys; for a key only on the right, (path, None, new) plus the diff over the other keys |
| Diffs.SharedKey | plugins/action/merge_vars.py:76-80 | a shared key gives exactly the inner diff when both values are dicts, one entry when the values differ otherwise, and nothing when they are equal |
| Diffs.DiffPathsExtendParent | plugins/action/merge_vars.py:69 | every entry below a non-empty path starts with that path followed by a dot |
| Diffs.SingleLeafDiff | plugins/action/merge_vars.py:79-80 | one-key dicts with differing non-dict leaves give exactly one entry |
| Diffs.EmptyKeyPathQuirk | plugins/action/merge_vars.py:69 | an empty top-level key vanishes from nested paths: the entry under it has path "a", not ".a" |
| Diffs.DottedKeyPathsCollide | plugins/action/merge_vars.py:69 | a key containing a dot and a nested path can both yield the path "a.b": paths are not unique |
| Text.Split | plugins/action/merge_vars.py:188-190 | a split never returns an empty list, so the empty-keys error cannot be raised |
| Text.SplitPiecesFree | plugins/action/merge_vars.py:188 | no key obtained from a path contains a dot |
| Text.JoinSplit | plugins/action/merge_vars.py:188 | joining the keys with dots gives back the path |
| Text.SplitJoin | plugins/action/merge_vars.py:188 | splitting a dot-join of dot-free keys gives back the keys |
| Text.RFind | plugins/action/merge_vars.py:142 | the index returned holds the character and no later index does; -1 means the character is absent |
| Text.ExtensionShape | plugins/action/merge_vars.py:142 | the compared extension has no dot and no slash, and is the text after the path's last dot |
| Text.ExtensionOfNamed | plugins/action/merge_vars.py:142 | `dir/stem.ext` has extension `ext` when the stem is not all dots |
| Text.ExtensionOfDotless | plugins/action/merge_vars.py:142 | a path without a dot has the empty extension |
| Text.BelowTotal | plugins/action/merge_vars.py:132 | any two strings are ordered one way or the other |
| Text.BelowTransitive | plugins/action/merge_vars.py:132 | the string order is transitive |
| Text.BelowAntisymmetric | plugins/action/merge_vars.py:132 | strings ordered both ways are equal |
| Text.Insert | plugins/action/merge_vars.py:132 | inserting into a sorted list keeps it sorted and adds exactly that element |
| Text.Sort | plugins/action/merge_vars.py:132 | the sorted list is sorted and a permutation of the input |
| Text.SortedUnique | plugins/action/merge_vars.py:132 | two sorted permutations of the same strings are equal |
| Sources.FilesInAreFiles | plugins/action/merge_vars.py:131 | a directory contributes exactly its listed entries that are regular files, and every path it contributes is the directory joined with a listed name |
| Text.JoinPathShape | plugins/action/merge_vars.py:131 | `os.path.join` ends with its second argument; an absolute second argument replaces the first, and otherwise a non-empty first argument is followed by the second with a '/' inserted exactly when the first does not already end with one, so exactly one '/' separates them |
| Sources.FilesInPermutation | plugins/action/merge_vars.py:131 | a reordered listing yields the same files, reordered |
| Sources.DirFiles | plugins/action/merge_vars.py:131-132 | a directory's files are sorted, are the regular files of its listing, and are all regular files |
| Sources.DirFilesIgnoreListingOrder | plugins/action/merge_vars.py:131-132 | the order in which the OS lists a directory does not show in its files |
| Sources.DirectorySourceSorted | plugins/action/merge_vars.py:130-133 | a directory source alone contributes its files in sorted order |
| Sources.AssembleFiles | plugins/action/merge_vars.py:127-137 | the assembly loop returns the contributions of the sources in order, or the first failure |
| Sources.AssembledAreFiles | plugins/action/merge_vars.py:127-137 | every assembled path is a regular file |
| Sources.AssembleFailsIff | plugins/action/merge_vars.py:127-137 | assembly fails if and only if some source is not a string, or is missing while missing sources are not ignored |
| Sources.IgnoredSourcesNeverMissing | plugins/action/merge_vars.py:134-137 | with ignore_missing_files, no source is reported missing |
| Sources.ListedExtensionAllowed | plugins/action/merge_vars.py:142 | with a list of extensions, `dir/stem.ext` passes exactly when `ext` is listed |
| Sources.StringExtensionsAdmitExtensionless | plugins/action/merge_vars.py:142 | with a string of extensions, every file whose extension is empty passes, whatever dots its directories or a leading-dot name hold (the empty string is a substring) |
| Sources.FilterKeepsPassing | plugins/action/merge_vars.py:141-142 | exactly the files that pass the test are kept |
| Sources.NoExtensionsKeepsAll | plugins/action/merge_vars.py:142 | without a truthy extensions option, every assembled file is kept, in order |
| IncludedFiles.AssembleAsWrittenFiles | plugins/action/merge_vars.py:126-137 | with the list aliasing kept, the local list still ends as the intended assembly, and the two names share one list exactly when no source is a directory |
| IncludedFiles.SharedLoopNeverEnds | plugins/action/merge_vars.py:141-162 | while the iterated list is the reported list and a file ahead passes the test, the loading loop never ends |
| IncludedFiles.SeparateLoopEnds | plugins/action/merge_vars.py:141-162 | once the lists are separate, the loop ends and appends exactly the files that pass |
| IncludedFiles.SharedLoopNothingLoaded | plugins/action/merge_vars.py:141-164 | on a shared list where no file passes, the loop ends with every assembled file reported |
| IncludedFiles.NoDirectoryLoopNeverEnds | plugins/action/merge_vars.py:126-162 | with no directory source and some file passing the test, the run never ends |
| IncludedFiles.WithDirectoryReportsTwice | plugins/action/merge_vars.py:126-162 | with a directory source, the report is the assembly of the sources before the first directory, then the loaded files |
| IncludedFiles.FirstDir | plugins/action/merge_vars.py:130-135 | the index of the first source that is a directory: no earlier source is one, and the source there is one unless there is none |
| IncludedFiles.AssembleAsWrittenReported | plugins/action/merge_vars.py:126-137 | while the two names share one list, the reported list gains exactly the assembly of the sources before the first directory; once they are separate it gains nothing |
| IncludedFiles.DuplicateReportExample | plugins/action/merge_vars.py:126-162 | `files: [a.yml, d]` reports `a.yml` twice, although each file is loaded once |
| IncludedFiles.NothingLoadedReportedExample | plugins/action/merge_vars.py:126-164 | `files: [a.txt]` with `extensions: [yml]` loads nothing, yet reports `a.txt` |
| Literals.SetPathReadsBack | plugins/action/merge_vars.py:200-211 | after a write, following the keys yields the new value |
| Literals.SetPathFrame | plugins/action/merge_vars.py:203-211 | a path that leaves the written keys at some position reads as before |
| Literals.SetPathPrefixIsDict | plugins/action/merge_vars.py:203-206 | every proper prefix of the keys leads to a dict afterwards; a missing or non-dict intermediate became one |
| Literals.SetPathExisting | plugins/action/merge_vars.py:209-211 | writing the value already there changes nothing |
| Literals.SetPathIdempotent | plugins/action/merge_vars.py:200-211 | writing the same literal twice is writing it once |
| Literals.SetPathTopLevel | plugins/action/merge_vars.py:200-211 | only the first key can be added at the top level; other top-level keys keep their values |
| Literals.AssignPath | plugins/action/merge_vars.py:200-211 | the walk's result is `SetPath` of the keys, and it reports a change exactly when the old value (None if absent) differs |
| Literals.Descend | plugins/action/merge_vars.py:203-206 | the walk down passes the dicts reached along the path, and the value then read is the one at the full path |
| Literals.Ascend | plugins/action/merge_vars.py:205-211 | carrying the written dict back up gives `SetPath` of the root |
| Literals.Seeded | plugins/action/merge_vars.py:196-197 | the first key is copied from task_vars only when missing; nothing present changes |
| Literals.ApplyLiteral | plugins/action/merge_vars.py:192-211 | a literal under an extra-var changes nothing; otherwise the value reads back at its path and every other top-level key keeps its value |
| Literals.ChangedLiteralAlters | plugins/action/merge_vars.py:209-211 | a literal that sets changed alters the variables |
| Literals.SameValueLiteralIsNoop | plugins/action/merge_vars.py:209-211 | a literal rewriting the present value neither sets changed nor alters the variables |
| Literals.NullOnMissingPathUnreported | plugins/action/merge_vars.py:209-211 | writing None at a missing key adds it without setting changed |
| Literals.EmptyPathIsOneEmptyKey | plugins/action/merge_vars.py:188-190 | an empty path writes the key "" and never raises the empty-path error |
| MergeVars.Validate | plugins/action/merge_vars.py:111-117 | validation passes if and only if every option is one of the four accepted names and files or literals is given |
| MergeVars.InvalidOptionsReported | plugins/action/merge_vars.py:86-113 | an unknown option is reported first, naming exactly the unknown options |
| MergeVars.ValidationBeforeLoading | plugins/action/merge_vars.py:111-117 | rejected options fail the run whatever the files, the variables and the filesystem |
| MergeVars.PreseedFromTaskVars | plugins/action/merge_vars.py:153-157 | after pre-seeding, each top-level key of the file that task_vars defines is present; collected keys are not overwritten; new keys hold task_vars values |
| MergeVars.Preseed | plugins/action/merge_vars.py:153-157 | the pre-seeding loop adds exactly the new task_vars entries, to the variables and to the originals |
| MergeVars.LoadAllIncludesFiltered | plugins/action/merge_vars.py:141-162 | the files recorded as included are exactly the files that pass the test, in order |
| MergeVars.LoadAllOrigFromTaskVars | plugins/action/merge_vars.py:153-156 | every original the diff is taken against is the task_vars value of its key, whatever merge_hash does |
| MergeVars.LoadFiles | plugins/action/merge_vars.py:141-164 | the loading loop computes the load specification, or fails when a truthy extensions option cannot be tested with `in` |
| MergeVars.OverrideExtraVars | plugins/action/merge_vars.py:166-168 | the keys are unchanged, extra-vars values win, and other values are kept |
| MergeVars.ReportFiles | plugins/action/merge_vars.py:166-175 | changed is set exactly when the overridden variables differ from their originals, that is, when the deep diff is non-empty |
| MergeVars.RunFiles | plugins/action/merge_vars.py:125-175 | the files part of the run computes the file-phase specification, including its errors |
| MergeVars.ApplyLiteralItems | plugins/action/merge_vars.py:177-211 | the literal loop computes the literal specification, including malformed items and non-string paths |
| MergeVars.LiteralsChangedFlag | plugins/action/merge_vars.py:209-210 | changed after the literals is the earlier value or a change by some literal; the earlier value does not affect the variables |
| MergeVars.LiteralKeepsExtraVars | plugins/action/merge_vars.py:192-193 | a literal never disturbs a top-level key that is an extra-var |
| MergeVars.LiteralsKeepExtraVars | plugins/action/merge_vars.py:181-211 | a sequence of literals keeps every extra-var key at its extra-var value |
| MergeVars.RunLiterals | plugins/action/merge_vars.py:177-211 | the literals part of the run computes the literal-phase specification, and a non-list literals option fails |
| MergeVars.Perform | plugins/action/merge_vars.py:93-214 | the body of the run computes the run specification |
| MergeVars.ExtraVarsPrevail | plugins/action/merge_vars.py:166-168 | in the facts of a successful run, every extra-var key holds the extra-var value |
| MergeVars.IncludedAreLoadedFiles | plugins/action/merge_vars.py:125-162 | the included files of a successful run are the assembled files that pass the test, each a regular file; without files none is reported |
| MergeVars.ActionModule.constructor | plugins/action/merge_vars.py:88-90 | a new action has an empty result |
| MergeVars.ActionModule.Run | plugins/action/merge_vars.py:93-214 | on success the result fields hold the report; on a failure the failure is returned |

## Left out

- Reading files (YAML, vault) and listing directories: the filesystem is an
  input; a file's contents are taken to be a dict.
- `merge_hash` and the templar: arbitrary functions passed in. Their
  internals and their failures are not modelled.
- The `ansible_version` check that chooses the loader's keyword arguments
  (lines 143-146): it only changes how a file is read.
- Display and logging, the timestamps in warnings, and the `include_vars`
  spoof of `self._task.action`: side effects with no logical content.
- Update in place: `hostvars_to_update` is modelled as a value. The literal
  walk is a descent that keeps the dicts it passes, then a rebuild upward.
  The `deepcopy` of task_vars values (lines 157 and 197) keeps the literal
  walk from writing into task_vars, but it does not make every dict a tree.
- Literals.AssignPath, Literals.ApplyLiteral, MergeVars.LoadOne: values are
  trees, so a dict that is shared inside one loaded file (a YAML anchor and
  its aliases) or that `merge_hash` keeps shared is not modelled. In Python a
  literal `a.k: 2` then also changes `b.k` when `a` and `b` are one dict, and
  a later literal `b.k: 2` then does not set `changed`; the model changes `a`
  alone and reports the second literal as a change.
- MergeVars.LoadOne: every regular file's contents are a dict. An empty vars
  file (None) or one whose top level is not a mapping makes line 153 raise
  in Python; the model has no such file.
- Python equality across types (`1 == True`, `1 == 1.0`) and floats: values
  are null, booleans, integers, strings, lists and string-keyed dicts. A
  non-string dict key is not modelled, so `str(key)` is the key itself.
- MergeVars.FilePhase: a `files` option that is not a list fails with
  FilesNotAList. Python would iterate a string's characters or a dict's
  keys.
- MergeVars.FilePhase: a source that is not a string fails with
  SourceNotAString. Python's `path.isfile` would accept an integer as a file
  descriptor.
- MergeVars.LoadFiles: a truthy `extensions` value that does not support
  `in` fails before anything is loaded. Python raises a TypeError at the
  first extension test. The loop is the same; the error is not
  AnsibleActionFail.
- MergeVars.Validate: the names in the unknown-options message are a set.
  Python lists them in argument order.
- MergeVars.ActionModule.Run: on a failure the result fields are reset to
  the fresh result. In Python the raised error discards the result.
- MergeVars.Outcome reports the corrected included-files list (see
  Findings), and the corrected file loop always terminates, where the loop
  as written never ends when no source is a directory and some file passes
  the extension test. `IncludedFiles` models the list as written.
- MergeVars.ApplyLiterals, MergeVars.ApplyLiteralItems: a templated `path`
  that is not a string fails with PathNotAString. Python raises an
  AttributeError from `.split` at line 188; the check is the same, the error
  is not AnsibleActionFail.
- IncludedFiles.LoadLoopAsWritten: the loop runs on fuel. "Never ends" is
  stated as "no fuel suffices".

## Findings

| source | as written | input that shows it | evidently intended | confidence | as-written member | corrected member |
|---|---|---|---|---|---|---|
| plugins/action/merge_vars.py:126-162 | line 126 binds the reported list and the local `files` to one list object; only a directory source (line 133) rebinds `files`; line 162 appends each loaded file to the reported list while line 141 iterates `files` | `files: [a.yml]` with `a.yml` a file never ends; `files: [a.yml, d]` with `d/b.yml` reports `[a.yml, a.yml, d/b.yml]`; `files: [a.txt]` with `extensions: [yml]` reports `a.txt`, which was never loaded | the reported list is the list of loaded files, each once, in load order | not executed | IncludedFiles.NoDirectoryLoopNeverEnds | MergeVars.IncludedAreLoadedFiles |
