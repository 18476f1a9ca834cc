# A verified model of the YOLO dataset splitter

`split.py` is a one-shot batch script. It reads a flat folder of images and YOLO
`.txt` label files, and pairs each image with the label file of the same base
name. It then shuffles the pairs and sizes the train / validation / test splits
from the configured proportions. Finally it copies each split's pairs into
`<out>/<split>/images` and `<out>/<split>/labels`. This project models the three
deterministic stages of that script and the glue between them, and proves what
they promise.

- **Paths** (`paths.dfy`): the parts of `posixpath` the script relies on.
  - `splitext`: the extension starts at the last dot of the final component, but leading dots do not start one.
  - `join`, `basename`, and `str.lower` on ASCII letters.
- **Discovery** (`discovery.dfy`): the scan of the folder listing.
  - It fills the pair list, the list of images without a label and the list of labels without an image, and it updates the two file counters.
  - `DiscoverPairs` is a loop, proved equal to the closed form `ScanOf`.
  - Its inner search `FindImage` is a loop too. It is proved to find an image exactly when some lower-case image extension completes the base name to an existing name (`HasImageFor`).
  - The lemmas state exactly which names land in each list, in both directions.
- **Shuffling** (`shuffle.dfy`): `random.shuffle` as CPython's in-place Fisher–Yates walk over an array.
  - The random numbers are a parameter.
  - The result is proved to be a permutation of the input.
- **Sizing** (`sizing.dfy`): the accumulator loop that gives every split but the last the truncated product of the total and its proportion, and gives the last split the remainder.
  - The counts add up to the total whatever the proportions.
  - They lie in `[0, total]` when the proportions are non-negative and those before the last add up to at most one.
- **Materialization** (`materialization.dfy`): the nested copy loops with their shared cursor, the safety break, the per-split success counter and the destination paths.
  - The effects on the file system are an ordered log of directory creations and copy attempts.
  - Whether each copy raises is an oracle indexed by cursor position.
  - The lemmas prove that the splits take contiguous, disjoint slices, and that together the slices cover every pair when the counts add up to the number of pairs.
  - No split reports more copied pairs than it took.
  - Every copy keeps its file name.
- **Effects** (`effects.dfy`): the log entries for `os.makedirs` and `shutil.copy2`, and what it means for a copy to keep its file name.
- **Pipeline** (`pipeline.dfy`): the whole run.
  - When no pair is found, the run stops before anything is created.
  - Otherwise it shuffles, sizes and copies. With at least one split configured, every pair position falls in exactly one split, and the cursor ends at the number of pairs.

Where the code and the written description of the program differ, the model
follows the code:

- **The empty-folder stop.** The script stops with a bare `exit()`, which does not give a failing status. The model returns a `Stopped` result and does not model an exit status.
- **Integer conversion.** Counts are computed with `int(...)`, which truncates toward zero rather than flooring. `Sizing.Trunc` models truncation, which agrees with floor for non-negative proportions.
- **Extension case.** Extensions are compared in lower case when an entry is classified. But the search for the image of a label tries only the lower-case image extensions, and only the exact name `base + ".txt"` is looked up for a label. So an image `a.JPG` with a label `a.txt` is paired, and the same `a.txt` is also reported as a label without an image (`Discovery.UpperCaseImageExtension`).

## Model

| member | source | states |
|---|---|---|
| Paths.SplitExt | split.py:50 | the base and the extension concatenate back to the name; a non-empty extension starts with a dot and holds no further dot or separator |
| Paths.SplitExtHasExtension | split.py:50 | a name has an extension exactly when its final component holds a dot preceded in that component by a character other than a dot |
| Paths.SplitExtOfBasePlusExt | split.py:50-55 | replacing a name's extension by another extension splits back into the same base and the new extension |
| Paths.BasenameOfJoin | split.py:128-133 | joining a directory with a plain file name and taking the basename returns that file name |
| Discovery.FindImage | split.py:64-69 | the extension search finds an image exactly when some lower-case image extension completes the base name to an existing name |
| Discovery.ScanEntry | split.py:47-70 | one entry extends the pairs, the two diagnostic lists and the two counters exactly as its classification dictates |
| Discovery.DiscoverPairs | split.py:46-70 | the scan loop computes the fold of the per-entry step over the listing, in listing order |
| Discovery.ScanCounters | split.py:46-70 | the image counter is the number of entries that are image files and the label counter the number that are label files; images found = pairs + images missing their label; labels missing their image never outnumber labels found |
| Discovery.MissingLabelsExactly | split.py:53-61 | a name is reported as missing its label iff it is a listed file with an image extension (any case) whose base name plus ".txt" does not exist |
| Discovery.MissingImagesExactly | split.py:62-70 | a name is reported as missing its image iff it is a listed file with extension ".txt" (any case) and no lower-case image extension completes its base name to an existing name |
| Discovery.PairsSound | split.py:50-59 | every pair belongs to a listed image file whose label exists; the image path is the folder joined with the image's own name, and the label path is the folder joined with the base name plus ".txt" |
| Discovery.PairsComplete | split.py:50-59 | every listed image file whose label exists yields its pair |
| Discovery.PairedExactly | split.py:50-61 | on a valid listing a pair is emitted for a name iff it is an image file whose label exists, and a paired image is never reported as missing its label |
| Discovery.PairImagesListed | split.py:46-59 | the image of every pair is one of the listed names |
| Discovery.PairsDistinct | split.py:46-59 | on a listing of distinct names no two pairs share an image path |
| Discovery.LabelSharesBase | split.py:55 | the label name of an image splits into the image's base name and ".txt" |
| Discovery.PairedLabelNotMissing | split.py:55-70 | the label of an image whose extension is already lower case is never reported as missing its image |
| Discovery.UpperCaseImageExtension | split.py:51-70 | for the listing "a.JPG", "a.txt", the pair is emitted and "a.txt" is also reported as missing its image |
| Shuffling.Shuffle | split.py:88 | the in-place walk leaves the array equal to the Fisher–Yates result for the given draws |
| Shuffling.ShufflePermutes | split.py:88 | the shuffled sequence has the same length and the same multiset of elements as the input |
| Sizing.Trunc | split.py:96 | int() of a real truncates toward zero: for either sign the result is the integer next to the value on the zero side |
| Sizing.ComputeSplitCounts | split.py:91-101 | the loop yields, per split in order, the truncated share, except for the last, which gets the total minus the earlier counts; the overwrite happens only for the last name |
| Sizing.TotalOfSizesPrefix | split.py:95-101 | the counts before any position add up to the sum of the earlier truncated shares (the running index) |
| Sizing.SplitSizesSumToTotal | split.py:95-101 | with at least one split, the counts add up to exactly the number of pairs, whatever the proportions |
| Sizing.SharesBelowFraction | split.py:96 | the truncated shares of non-negative proportions are non-negative and add up to at most the total times the sum of the proportions |
| Sizing.SplitSizesInRange | split.py:95-101 | with non-negative proportions whose sum before the last is at most one, every count lies in [0, total] |
| Sizing.HundredPairsExample | split.py:19-23 | 100 pairs at 0.7 / 0.2 / 0.1 give 70, 20, 10 |
| Sizing.NinetyFivePairsExample | split.py:19-23 | 95 pairs at 0.7 / 0.2 / 0.1 give 66, 19 and the remainder 10 |
| Materialization.Start | split.py:109-123 | the cursor at which a split starts never exceeds the number of pairs |
| Materialization.StartIsClippedRequested | split.py:109-143 | the cursor at which split k starts is the total number of loop iterations the earlier splits ask for, clipped at the number of pairs |
| Materialization.CopyPair | split.py:125-141 | the pair counts as copied exactly when both copies succeed; the image is copied into the images directory under its own basename, then the label into the labels directory under its own basename unless the image copy raised |
| Materialization.CopySplit | split.py:121-143 | one split's loop takes the pairs from the cursor up to the cursor plus its count, clipped at the number of pairs; it counts exactly the pairs whose two copies succeed and logs the attempted copies |
| Materialization.Materialize | split.py:108-143 | the loop over the splits creates both directories of each split in order, gives each split the slice from its start to the next split's start, and reports per split the successes in its slice |
| Materialization.StartMonotone | split.py:109-143 | a later split never starts before an earlier one |
| Materialization.SplitsDisjoint | split.py:109-143 | no cursor position lies in the slices of two different splits |
| Materialization.ExactlyOneSplit | split.py:109-143 | when the counts ask for at least as many pairs as there are, every pair position lies in the slice of exactly one split |
| Materialization.RequestedAtLeastTotal | split.py:121 | the iterations of range(count) over all splits are at least the sum of the counts (a negative count runs zero times) |
| Materialization.RequestedIsTotalWhenNonNegative | split.py:121 | with non-negative counts the iterations add up to exactly the sum of the counts |
| Materialization.SplitSliceAsCounted | split.py:109-143 | with non-negative counts adding up to the number of pairs, split k takes exactly the positions from the sum of the earlier counts to that sum plus its own count |
| Materialization.SuccessesAtMostRange | split.py:136-143 | the successes over a range of positions are at most its length, and equal to it when no copy raises |
| Materialization.CopiedAtMostCount | split.py:121-143 | a split reports at most as many copied pairs as it took, and takes at most its count; without copy failures it reports every pair it took |
| Materialization.CopyActionsKeepNames | split.py:128-138 | both copies of a pair keep the source file's basename in the destination |
| Materialization.CopyLogKeepsNames | split.py:121-143 | every copy of one split keeps its source file's basename |
| Materialization.LogKeepsFileNames | split.py:111-143 | every copy of the whole run keeps its source file's basename |
| Pipeline.Run | split.py:46-143 | the run stops iff discovery finds no pair, and then its log is empty (nothing created or copied); otherwise the report is the scan, its shuffle, the computed counts and the per-split successes, and the log is that of the copy loops |
| Pipeline.ShuffledArePairs | split.py:86-88 | the shuffled pairs are exactly the discovered pairs, reordered |
| Pipeline.EveryPairInOneSplit | split.py:91-143 | with at least one split configured, every position of the shuffled pairs falls in the slice of exactly one split, whatever the proportions |
| Pipeline.CursorReachesEnd | split.py:91-143 | with at least one split configured, the copy loops end with the cursor at the number of pairs |

## Left out

- The file system. `os.listdir`, `os.path.isfile` and `os.path.exists` are inputs. The listing is a sequence of names, the regular files are a set, and existence is membership in the listing. A case-insensitive file system, symbolic links and files changing during the scan are not modelled.
- `shutil.copy2` and `os.makedirs`. The effects are a log of the calls. Metadata preservation, `exist_ok` idempotence and overwriting existing files are not modelled. A raised copy is an oracle input, and the error message printed for it is left out. In the model `os.makedirs` always succeeds. In the script a failure of `os.makedirs` (split.py:115-116, outside the `try`, e.g. a permission error or a regular file at that path) aborts the run, and so does a failure of `os.listdir` (split.py:46, e.g. a missing input folder). Neither abort is modelled.
- `random.shuffle`: the random numbers are the `draw` parameter, reduced to the range CPython's `_randbelow` returns. The distribution is not modelled.
- Sizing.Trunc: the product `total_samples * proportion` is exact real arithmetic. IEEE double rounding can differ from it when the exact product is an integer or very close to one.
- Paths.Lower: lower-casing covers the ASCII letters only. The Unicode case mapping of `str.lower` is not modelled.
- Pipeline.Run: `copied_counts` is a `defaultdict`. The model keeps one count per configured split, so a split with no successful copy shows 0. The real dictionary has no key for it, which only changes the final summary print.
- Pipeline.Run: the bare `exit()` becomes the `Stopped` result. The process exit status is not modelled.
- All `print` output, the configuration echo (split.py:34-37), the warning prints (split.py:77-84) and the summary loop (split.py:145-151).
- The `os.path.abspath` calls used only in prints, and the module-level configuration constants, which appear as the arguments of `Pipeline.Run`.
