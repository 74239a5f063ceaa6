# uv-tidy keep/remove pipeline in Dafny

uv-tidy finds Python virtual environments ("venvs") made by uv. It evaluates each one against age, size and activity criteria and decides which to remove. This project models that pipeline and proves properties of it:

- **Scanner** (`find_venvs`): a depth-bounded recursive walk with name exclusions and a `.uv/venvs` shortcut. It uses the venv detection rule that `uv_tidy/core.py` puts in effect.
- **Evaluator** (`evaluate_venv`): the keep/remove/error decision. It uses three probes:
  - directory size (`get_dir_size`);
  - recent activity (`is_venv_active`);
  - the richer marker-aware detection rule of `uv_tidy/utils.py`, modelled next to the effective one.
- **Summary** (`summarize_venvs`): counts per status, bytes to free, and the oldest and newest venv to remove.
- **Rules engine** (`uv_tidy/rules.py`): building criteria, the stable keyed sort, truncation to a removal limit, and the age-threshold solver.
- **Helpers**: `filter_paths` and `format_size`.

The filesystem is an immutable tree (`FileTree.Node`) with three kinds of node:

- files, each with optional timestamps, a size and a text;
- directories, with ordered named children;
- directories that exist but cannot be listed.

An `Option` field that is `None` stands for a lookup that raises. Timestamps and `now` are whole seconds. The floating-point day arithmetic therefore becomes exact integer comparisons: `age_days < m` is `now - atime < m * 86400`. `now` is a parameter. The evaluator and the activity check read the clock separately in the source, but both get the same `now` here (see Left out).

Records and criteria are datatypes (`Records`), and a key a dictionary may lack is an `Option` field. Ages are kept in tenths of a day and megabyte sizes in hundredths of a MiB. Both are rounded half-to-even from the exact quotient.

Modules:

- `Wrappers`: Option and Result.
- `Text`: string order, ASCII lower-casing, decimal digits, rounding.
- `FileTree` and `Platform`: the tree and the per-OS names.
- `Utils`: `uv_tidy/utils.py`.
- `Records`: the record and criteria types.
- `Core`: `uv_tidy/core.py`.
- `Rules`: `uv_tidy/rules.py`.

Code that works by loops is modelled as a method with a loop, proved equal to a specification function. The properties are proved about that function. This covers the walk, the directory-size accumulation, the activity scans, the path filter, the subdirectory count and the oldest/newest scan. Pure code is modelled as functions and lemmas.

The code is followed where descriptions of it differ:

- For ages 5, 10, 15, 20, 30, 60 and 90 days with target 3, `auto_adjust_criteria` returns 20, not 30 (see Findings).
- Under a descending sort, a record missing the key sorts as 0 or "". That puts it after records with positive keys, not first.

## Model

| member | source | states |
|---|---|---|
| Utils.CheckUvVenv | uv_tidy/utils.py:12-83 | The probe sequence returns exactly the decision chain. The answer is false for a non-directory, for fewer than two canonical subdirectories, and whenever a probe raises. An unreadable `pyvenv.cfg` falls through to the interpreter checks. |
| Utils.IsUvVenvReduced | uv_tidy/utils.py:44-79 | The chain holds iff: the path is a directory with at least two canonical subdirectories, and either its readable `pyvenv.cfg` contains "uv" in any letter case or the interpreter is a file. |
| Utils.UvProjMarkerIrrelevant | uv_tidy/utils.py:66-77 | The `.uv-proj` marker never changes the answer. |
| Utils.ForestSizeIsSumOfFiles | uv_tidy/utils.py:95-108 | The size of a tree is the sum of the sizes of every regular file the walk reaches. A file whose size lookup fails counts 0. |
| Utils.GetDirSize | uv_tidy/utils.py:85-108 | The accumulated total equals the tree size. It is 0 for a missing path, a file or an unlistable directory, and is never negative. |
| Utils.WalkSize | uv_tidy/utils.py:98-104 | The nested loops over each directory's files and subdirectories accumulate exactly the tree size of the listing. |
| Utils.NestedFilesSize | tests/test_utils.py:8-29 | Files of 1024 and 2048 bytes, plus 4096 bytes one level down, give 7168. |
| Utils.IsVenvActive | uv_tidy/utils.py:111-193 | The three scans with early returns answer true iff one of these holds, each comparison strict: an activation script was read within a day, a pip executable within seven days, or a project marker was modified within thirty days. A failing lookup disqualifies only that entry. |
| Utils.ActiveEarlier | uv_tidy/utils.py:139-191 | A venv active at some moment is active at every earlier moment: the windows only close as time passes. |
| Utils.ActivationWindowIsStrict | uv_tidy/utils.py:143-147 | An activation script read exactly 24 hours ago does not make a venv active; one read a second later does. |
| Utils.FilterPaths | uv_tidy/utils.py:246-273 | The skip-flag loop returns the paths unchanged when there are no patterns. Otherwise it keeps the paths no pattern matches, in order. |
| Utils.UnmatchedIsSubsequence | uv_tidy/utils.py:262-271 | The kept paths are an order-preserving subsequence of the input. |
| Utils.UnmatchedMembership | uv_tidy/utils.py:262-271 | A path is kept iff it is an input path that no pattern matches. |
| Utils.FilterPathsMeaning | uv_tidy/utils.py:259-273 | `filter_paths` returns an order-preserving subsequence. It is the identity for empty or absent patterns, and otherwise keeps exactly the unmatched paths. |
| Utils.FormatSize | uv_tidy/utils.py:276-293 | The unit is chosen by strict thresholds: below 1024 the integer and " B"; below 1 MiB KB with one decimal; below 1 GiB MB with one decimal; otherwise GB with two decimals. The printed amount is the exact quotient rounded to the nearest last digit, a tie going to the even digit (1280 bytes print as "1.2 KB"). The whole part has no leading zeros. |
| Text.RoundedQuotientUnique | uv_tidy/utils.py:289-293 | Rounding half to even has one answer: any integer within half a unit of the quotient, and even on a tie, is the computed one. |
| Utils.ShowsRoundedUnique | uv_tidy/utils.py:289-293 | Two texts that both show a size rounded in the same unit are equal. |
| Utils.FormatSizeDetermined | uv_tidy/utils.py:286-293 | Any text that shows the size rounded in the unit `format_size` chooses is exactly what `format_size` returns. |
| Utils.Fixed1ReadsBack | uv_tidy/utils.py:289-291 | The one-decimal text of a number of tenths is digits, a dot and one digit, and reads back as that number. |
| Utils.Fixed2ReadsBack | uv_tidy/utils.py:293 | The two-decimal text of a number of hundredths is digits, a dot and two digits, and reads back as that number. |
| Utils.FormatSizeBytesExample | tests/test_utils.py:86 | 500 formats as "500 B". |
| Utils.FormatSizeKbExample | tests/test_utils.py:87 | 1500 formats as "1.5 KB". |
| Utils.FormatSizeMbExample | tests/test_utils.py:88 | 1500000 formats as "1.4 MB". |
| Utils.FormatSizeGbExample | tests/test_utils.py:89 | 1500000000 formats as "1.40 GB". |
| Core.CheckCoreVenv | uv_tidy/core.py:152-187 | The counting loop and the probes answer true iff at least two canonical subdirectories are directories and either `pyvenv.cfg` or the interpreter is a file. |
| Core.CountDirsNeedsDir | uv_tidy/core.py:168-171 | Finding any canonical subdirectory means the path is a listable directory. |
| Core.CoreRuleVersusUtilsRule | uv_tidy/core.py:175-187 | Every path the marker-aware rule accepts, the rule in effect accepts too. They disagree exactly on a directory with two canonical subdirectories and a `pyvenv.cfg` that does not mention "uv", but no interpreter. |
| Core.RulesDisagreeOnPlainCfg | uv_tidy/core.py:179-180 | A POSIX directory with `bin`, `lib` and an empty `pyvenv.cfg` is a venv for the rule in effect but not for the marker-aware rule. |
| Core.FoundVenvs | uv_tidy/core.py:99-115 | A missing base or `max_depth <= 0` gives no venvs. A base that passes the rule gives exactly the base, without descending. |
| Core.FindVenvs | uv_tidy/core.py:85-149 | The appending and extending walk returns exactly the specified reports, in order. |
| Core.FindVenvsDefault | uv_tidy/core.py:85-100 | `find_venvs(base_dir)` scans with depth 10 and the default exclusions. |
| Core.ScanDir | uv_tidy/core.py:110-143 | Scanning one directory: the depth check, the self check, the `.uv/venvs` shortcut, then the listing. An unlistable `.uv/venvs` abandons the listing (the exception handler). |
| Core.ScanShortcut | uv_tidy/core.py:122-127 | The loop over `.uv/venvs` reports, in listing order, each entry that is a directory and a venv. |
| Core.ShortcutEntry | uv_tidy/core.py:125-127 | One shortcut entry is reported iff it is a directory and passes the rule. |
| Core.ScanChildren | uv_tidy/core.py:130-143 | The listing loop concatenates the per-entry reports in listing order, with recursive results spliced in place. |
| Core.ScanEntry | uv_tidy/core.py:131-143 | An excluded name or a non-directory gives nothing. A venv is reported itself. Any other directory is scanned with one level less. |
| Core.ScanSound | uv_tidy/core.py:112-143 | Every report of a scan names an entry below the scanned path that passes the rule. |
| Core.ChildHitsSound | uv_tidy/core.py:130-143 | Every report of the listing loop names an entry below the directory that passes the rule. |
| Core.HitSound | uv_tidy/core.py:137-143 | Every report for one listed entry names an entry below the directory that passes the rule. |
| Core.ShortcutItemsMember | uv_tidy/core.py:124-127 | Every shortcut report is a `.uv/venvs` entry that is a directory and passes the rule. |
| Core.ShortcutSound | uv_tidy/core.py:122-127 | Every shortcut report names an entry below the scanned path that passes the rule. |
| Core.ShortcutEntrySound | uv_tidy/core.py:125-127 | A venv directly in `.uv/venvs` resolves below the scanned path and passes the rule. |
| Core.FoundVenvsSound | uv_tidy/core.py:112-143 | Every path `find_venvs` returns lies below `base_dir` and passes `is_uv_venv`. |
| Core.ScanShape | uv_tidy/core.py:106-143 | A report of a scan with `depth` levels extends the path in one of two ways: by at most `depth` names, none excluded; or by such a prefix followed by `.uv`, `venvs` and one name. |
| Core.ChildHitsShape | uv_tidy/core.py:130-143 | The listing loop's reports have the same shape bound. |
| Core.HitShape | uv_tidy/core.py:132-143 | One entry's reports have the same shape bound, starting with the entry's own non-excluded name. |
| Core.FoundVenvsShape | uv_tidy/core.py:99-143 | Reports stay within `max_depth` names below `base_dir` and avoid excluded names. The exception is the shortcut's last three names, to which the exclusions do not apply. |
| Core.HitInChildHits | uv_tidy/core.py:130-143 | The reports for any listed entry appear among the listing loop's reports. |
| Core.ClearPathFound | uv_tidy/core.py:137-142 | Take a path through listable, non-excluded, non-venv directories to a venv, not through `.uv/venvs`. If the depth covers it, the venv is reported. |
| Core.FoundAtDepthIff | uv_tidy/core.py:106-142 | Take a venv k levels below `base_dir` on such a path, and not directly in a `.uv/venvs`. It is returned iff `max_depth >= k`. |
| Core.FoundByDefaultIff | uv_tidy/core.py:85-142 | With the defaults, a venv on a clear path is returned iff it lies at most ten levels below `base_dir`. |
| Core.EnvVenvIsVenv | uv_tidy/core.py:183-187 | A directory with `bin`, `lib`, `include` and the interpreter passes the rule. |
| Core.NoCanonicalDirsNoVenv | uv_tidy/core.py:168-176 | A directory without any canonical subdirectory is not a venv. |
| Core.ProjectShortcut | uv_tidy/core.py:118-127 | The shortcut finds the venv in `.uv/venvs/env` of a project that is not itself a venv. |
| Core.DescentThroughUv | uv_tidy/core.py:137-143 | Descending into `.uv` finds that venv only with two more levels left. |
| Core.ProjectScan | uv_tidy/core.py:118-143 | Scanning the project reports the shortcut hit first, then the descent's hits when the depth allows. |
| Core.ShortcutReportsTwice | uv_tidy/core.py:122-143 | With `max_depth` 3 a venv in `base_dir/.uv/venvs` is reported twice: nothing is de-duplicated. |
| Core.ShortcutBeyondDepth | uv_tidy/core.py:106-143 | With `max_depth` 2 only the shortcut reports it. |
| Core.ShortcutIgnoresExclusions | uv_tidy/core.py:122-133 | Excluding `.uv` stops the descent but not the shortcut. |
| Core.KeepTagsFor | uv_tidy/core.py:235-247 | Each keep reason is present iff its condition holds. Age is checked on the exact age; size only when `min_size_mb` is present and non-zero; activity only with `unused_only`. The reasons are in the order age, size, active. |
| Core.EvaluateVenv | uv_tidy/core.py:190-271 | Every record carries the path and its basename. The status is error iff a stat call or timestamp formatting fails, and such a record has only path, name, status and reason. Otherwise the age is the elapsed time rounded to a tenth of a day. |
| Core.EvaluateDecision | uv_tidy/core.py:231-262 | An evaluable venv is removed iff it is old enough, large enough when a size is asked for, and not active when only unused venvs are wanted. A removed venv notes its size iff it exceeds 100 MiB. Otherwise it is kept with its reasons. |
| Core.NoTagsIffRemove | uv_tidy/core.py:249-255 | The reason list is empty iff all three removal conditions hold. |
| Core.RemovedStaysRemoved | uv_tidy/core.py:207-256 | Evaluating the same tree later never turns a removed venv into a kept one. |
| Core.WithStatus | uv_tidy/core.py:302-304 | The records with a given status are exactly those input records, in order. |
| Core.StatusCountsAddUp | uv_tidy/core.py:302-336 | When every status is keep, remove or error, the three counts add up to the total. |
| Core.RemovedSizeAtMostTotal | uv_tidy/core.py:306 | The bytes to free, with a missing size as 0, are between 0 and the total of all sizes. |
| Core.OldestNewest | uv_tidy/core.py:310-330 | The scan skips records without `created` and keeps the first strict minimum and maximum. It raises (KeyError) iff the first record lacks `created` and a later one has it. It gives the first record when none has it. |
| Core.SummarizeVenvs | uv_tidy/core.py:292-341 | The summary holds: the counts per status; the sum of the sizes to remove (missing as 0) and that sum in MiB to two places; oldest and newest as the first records with minimal and maximal `created`. Both are None when nothing is removed, and the summary fails exactly where the scan raises. |
| Core.FirstMinUnique | uv_tidy/core.py:324-325 | The oldest record is well defined: one index at most is the first minimum. |
| Core.FirstMaxUnique | uv_tidy/core.py:326-327 | The newest record is well defined: one index at most is the first maximum. |
| Rules.MakeCriteria | uv_tidy/rules.py:11-30 | The criteria copy `min_age_days` (default 30) and `unused_only` (default true). They have `min_size_mb` exactly when the arguments carry one, 0 included. |
| Rules.MadeCriteriaAsEvaluated | uv_tidy/rules.py:21-28 | The evaluator reads the given or default age and activity settings from made criteria. It checks size only for a non-zero `min_size_mb`. |
| Rules.SortFieldOf | uv_tidy/rules.py:47-56 | "size", "name", "accessed", "modified" and "created" select their fields after lower-casing; anything else selects the age. |
| Rules.SortFieldIgnoresCase | uv_tidy/rules.py:56 | The chosen field does not depend on letter case. |
| Rules.InsertPermutes | uv_tidy/rules.py:76 | Insertion adds the record and keeps every other. |
| Rules.InsertSorted | uv_tidy/rules.py:76 | Insertion into a sorted list gives a sorted list. |
| Rules.InsertStable | uv_tidy/rules.py:76 | Insertion places the record before every record of equal key. |
| Rules.StableSortPermutes | uv_tidy/rules.py:76 | The sort returns the same records, each as many times. |
| Rules.StableSortSorted | uv_tidy/rules.py:57-76 | No record is placed after one that must precede it. |
| Rules.StableSortStable | uv_tidy/rules.py:76 | For every key, the records with that key keep their input order. |
| Rules.SortVenvs | uv_tidy/rules.py:44-45 | The empty list sorts to the empty list. |
| Rules.SortVenvsMeaning | uv_tidy/rules.py:33-76 | The output is a permutation of the input. Keys do not increase, except for the name, where they do not decrease. Missing fields count as 0 or "". Records of equal key keep their input order. |
| Rules.SortThreeByAgeAndSize | tests/test_rules.py:29-39 | Records 10, 30 and 20 days old and 1000, 5000 and 3000 bytes large sort by age, and by size in any case, as the second, third, first. |
| Rules.PruneCandidatesMeaning | uv_tidy/rules.py:79-96 | The result is a prefix of the remove records, in input order, and a subsequence of the input. Without a limit, or with one not below their count, it is all of them. Otherwise it holds `limit` records; a negative limit drops that many from the end. |
| Rules.WithStatusIsSubsequence | uv_tidy/rules.py:90 | The remove records are an order-preserving subsequence of the input. |
| Rules.PruneFiveRecords | tests/test_rules.py:69-91 | For statuses remove, keep, remove, remove, error, the result is the first, third and fourth records with no limit or a limit of 10, and the first and third with a limit of 2. |
| Rules.AutoAdjustCriteria | uv_tidy/rules.py:99-127 | `unused_only` is true, no size is set and `min_age_days` is at least 7. It is exactly 7 for an empty list, a target at most 0, or a target at least the number of records. |
| Rules.AgeOrderAround | uv_tidy/rules.py:116 | In the oldest-first order, records before an index are at least as old as the one there, and records after it are no older. |
| Rules.ThresholdCountAtLeast | uv_tidy/rules.py:116-120 | If the record at index i of the oldest-first order meets an age, at least i+1 records meet it. |
| Rules.ThresholdCountExact | uv_tidy/rules.py:116-120 | If the records at i-1 and i straddle an age, exactly i records meet it. |
| Rules.ThresholdCountAtMost | uv_tidy/rules.py:116-120 | If the record at index i of the oldest-first order is younger than an age, at most i records meet it. |
| Rules.WholeDaysBelow | uv_tidy/rules.py:123 | For a threshold of at least seven days, the truncated whole days never exceed it. |
| Rules.AutoAdjustOvershoots | uv_tidy/rules.py:116-127 | When the threshold record has an age of at least seven days, `min_age_days` is that age truncated to whole days. At least target+1 records meet it, and at most `target` records are a day older. |
| Rules.AutoAdjustWholeDays | uv_tidy/rules.py:116-123 | For a threshold record at least seven days old, `min_age_days` is its age in whole days. |
| Rules.AutoAdjustYoungThreshold | uv_tidy/rules.py:119-123 | When the threshold record has no age, or is younger than seven days, `min_age_days` is 7. |
| Rules.SevenAgesSorted | tests/test_rules.py:96-104 | Records aged 5, 10, 15, 20, 30, 60 and 90 days sort oldest-first into the reverse order. |
| Rules.AutoAdjustSevenAges | uv_tidy/rules.py:116-123 | For those ages and target 3 the code returns 20 days, which four records meet. |
| Rules.AutoAdjustCriteriaIntended | tests/test_rules.py:106-108 | With the threshold read at index target-1: the same defaults, floor of 7, and `unused_only`. |
| Rules.AutoAdjustIntendedMeetsTarget | tests/test_rules.py:106-108 | With the corrected index, at least `target` records meet the threshold, and exactly `target` when the next record is younger. Fewer than `target` records are a day older. |
| Rules.AutoAdjustIntendedSevenAges | tests/test_rules.py:107-108 | With the corrected index, the seven ages with target 3 give 30 days, which exactly three records meet. |

## Left out

- `uv_tidy/cli.py` is not part of this model: argument parsing, logging setup, the confirmation prompt, exit codes and the orchestration loop.
- `remove_venv` (`uv_tidy/core.py:274-289`), a wrapper over `shutil.rmtree`: the model never changes the tree.
- `get_default_venv_dirs` (`uv_tidy/utils.py:196-243`): it depends on the home directory, environment variables and the platform.
- The copy of `is_uv_venv` at `uv_tidy/core.py:12-83` is shadowed by the later definition and never runs. It is identical to `uv_tidy/utils.py:12-83`, which is modelled once, in `Utils`.
- Logging calls are side effects only and are not modelled.
- `datetime.fromtimestamp(...).strftime(...)` depends on the local time zone. It is the parameter `fmt`, which may fail. The `created` strings are compared as strings.
- The texts of reasons, with their `:.1f` numbers, are modelled as tags: which phrases appear and in what order. The numbers inside them are left out.
- Floating-point arithmetic: ages and MiB sizes are rounded half-to-even from the exact quotient. Python rounds the nearest double, which can differ on a tie that is not exact in binary. Sizes above 2^53 bytes are likewise exact here.
- `str.lower` is modelled on ASCII letters only. Windows' case-insensitive names and `normcase` are not modelled: names match exactly.
- `fnmatch.fnmatch` is the parameter `matches` of `filter_paths`.
- Listing order is whatever order the tree gives. Symlinks, races between probes, and changes to the tree during a scan are not modelled beyond an unlistable directory.
- Exceptions: the model raises only where the tree says a lookup fails or a directory cannot be listed. An `OSError` from `getsize` other than a missing file or a permission error, and other failures of the walk itself, are not modelled.
- `os.name` and `platform.system()` are one parameter, `Platform`. A system where they disagree is not modelled.
- Core.Scan: the listing loop walks the child nodes themselves rather than resolving each name again. This is the same in a tree without two children of one name.
- Core.FoundVenvsSound: requires a well-formed tree (no directory lists two entries under one name). Every real filesystem guarantees this.
- `is_venv_active` reads `time.time()` itself (`uv_tidy/utils.py:138`), a moment after `evaluate_venv` reads it (`uv_tidy/core.py:203`). The model passes one `now` to both, so a file whose age crosses a window boundary between the two reads is not modelled.
- Rules.PruneCandidates: every record has a status, so the KeyError that a record without `"status"` raises at `uv_tidy/rules.py:90` is not modelled.
- Core.SummarizeVenvs: every record has a status. A record without one makes the source raise KeyError, which is not modelled.
- Rules.MakeCriteria: an argument present with the value None is treated as absent (`Args` has no "present but None"), except for `min_size_mb`, where the source treats them alike.
- Rules.AutoAdjustCriteria: `int()` truncates toward zero, where a floor is sometimes described. The two differ only for negative ages, which the floor of 7 hides.
- Rules.AutoAdjustOvershoots: the counts are proved only when the threshold record has an age of at least seven days. Otherwise the floor of 7 decides (Rules.AutoAdjustYoungThreshold), and how many records meet it depends on the other ages.

## Findings

| source | as written | input that shows it | evidently intended | confidence | as-written member | corrected member |
|---|---|---|---|---|---|---|
| uv_tidy/rules.py:119-120 | The threshold is read at index `target_count` of the oldest-first list, so at least `target_count + 1` venvs meet it. | Ages 5, 10, 15, 20, 30, 60, 90 days with target 3 give 20 days, which four venvs meet. tests/test_rules.py:107-108 expects 30. | Read index `target_count - 1`, giving 30 days, which exactly three venvs meet. | not executed | Rules.AutoAdjustOvershoots | Rules.AutoAdjustIntendedMeetsTarget |
