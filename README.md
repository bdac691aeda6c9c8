# Upper-cord segmentation evaluation, modelled in Dafny

These scripts evaluate segmentations of the spinal cord that have been
extended towards the upper cord. The scripts are written in Python, over
nibabel, pandas and the `sct_propseg` tool. This project models the
computational core of those scripts and proves its properties.

- **Offset evaluation** (`identity.dfy`, `volumes.dfy`, `offset.dfy`, `results.dfy`).
  - Segmentation and label files are found under a data tree, and each file gets a key of the form subject plus contrast (for example `sub-amu01T1w`).
  - Segmentation and label files are paired by key, and both images are reoriented to RAS.
  - The recorded value is the highest segmented Z plane minus the highest labelled Z plane, or `"N/A"`.
  - The records are merged, as one column per method, into a persistent CSV table keyed by `Sujet`.
  - The root `GT_vs_label.py` instead asks a yes/no question: does the segmentation reach the plane `margin` slices above the top label, clamped to the last slice?
- **C1 band coverage** (`coverage.dfy`, `coverage_run.dfy`).
  - The two top-most disc-label voxels bound a closed band of Z planes.
  - The coverage is the percentage of reference voxels in the band that a prediction also marks; the gain is the coverage of the extended segmentation minus that of the contrast segmentation.
  - The per-subject loop of the two analysis scripts skips subjects whose files are missing, and the two scripts differ in their reference-file policy.
- **Re-segmentation with PropSeg** (`propseg_params.dfy`, `propseg_files.dfy`).
  - Which rows of the offset table are segmented again, and with which parameters.
  - How the `Sujet` names are parsed and which image files they select.
  - Which `sct_propseg` commands are issued, with which output paths.
  - That a failing command never stops the loop.
- **QC manifest** (`manifest.dfy`). The entries of `qc_flags.json` that validate a `sct_deepseg_sc` QC, grouped per subject, and the two image paths written for each qualifying subject.
- **Summary** (`summary.dfy`). How `analyze_segmentation` coerces the offset table to numbers, then builds:
  - its two missing-value subject lists;
  - the `GT < 5` subset;
  - the one-row recap of mean, median, maximum and minimum per column.
- **Shared pieces** (`text.dfy` and `wrappers.dfy`). `text.dfy` holds the Python string built-ins the scripts use, including `sorted` on strings. `wrappers.dfy` holds `Option` and `Result`.

Several sources are near-copies of one another, and each copy is modelled once.

- `creer_GT/GT_vs_label.py` has the same functions and pairing as `creer_GT/seg_vs_label.py`.
- `analyser_segmentation_test/vertebre_C1.py` has the same `compute_c1_coverage` and top-two selection as `couverture_C1.py`, at lines 8-23 and 64-71. Its loop differs only in the reference-file policy (`GtPolicy`).
- `analyse_GT_vs_label.py` has the same `analyze_segmentation` as `creer_GT/analyse_GT_vs_label.py`.
- The `trouver_nom_sujet` functions of `modification_propseg.py` and `propseg_plusieurs_images.py` are identical. The same holds for the `generer_liste_images` functions of the two `creer_GT` propseg scripts, up to their filter, parameter rule and file pattern, which are parameters of the `Variant`.

Where the code departs from the comments or the documentation, the model follows the code:

- several files with one key: the pairing keeps the **last** file (a Python dict comprehension), not the first;
- files without a subject token: they are not excluded. They all get the key `"Unknown"`, and an unmatched segmentation is paired with an unmatched label;
- the adaptive `creer_GT/modification_propseg.py`: it keeps every row with a `propseg` value (there is no `< 5` filter);
- the `IndexError` branch of `make_yml.py`: it can never run, because every key holding `sct_deepseg_sc_qc` has enough `_` fields (`Manifest.QcKeysParse`).

What the scripts read or run is given to each model as a parameter:

- file contents (`images: string -> Option<Grid>`, where `None` is a load that raises);
- `glob` results as sequences or as a function of the pattern;
- `os.path.exists` as `present`;
- the user's regular expressions as `matches` predicates;
- the exit status of external commands as `succeeded`;
- what `pd.to_numeric` reads in a text cell as `numeral`.

## Model

| member | source | states |
|---|---|---|
| Identity.SearchFrom | creer_GT/seg_vs_label.py:139-140 | the position `re.search` finds: the leftmost start at or after `i` where the pattern can match, and no match at all when it returns none |
| Identity.AlnumRunEnd | creer_GT/seg_vs_label.py:139 | the greedy end of `[a-zA-Z0-9]+`: every character before it is alphanumeric and the one at it is not (or the text ends) |
| Identity.FindSubject | creer_GT/seg_vs_label.py:139 | no result exactly when `sub-[a-zA-Z0-9]+` matches nowhere; otherwise the greedy token at the leftmost match, which starts with `sub-` and has at least one more character |
| Identity.FindContrast | creer_GT/seg_vs_label.py:140 | no result exactly when `T[1-2]w` matches nowhere; otherwise the three characters at the leftmost match, `T1w` or `T2w` |
| Identity.SubjectName | modification_propseg.py:49-51 | `trouver_nom_sujet` (also propseg_plusieurs_images.py lines 19-21) is the greedy `sub-[a-zA-Z0-9]+` token at the leftmost match (`FindSubject`), and `"Unknown"` exactly when no subject token occurs |
| Identity.SubjectContrastKey | creer_GT/seg_vs_label.py:135-143 | `trouver_nom_sujet_contraste`: `"Unknown"` exactly when the subject pattern or the contrast pattern matches nowhere; otherwise the leftmost subject token followed directly by the leftmost contrast token |
| Identity.KeyFromFirstMatches | creer_GT/seg_vs_label.py:135-143 | the key is `"Unknown"` exactly when either pattern is absent; otherwise it is the leftmost subject token followed, with no separator, by the leftmost contrast token |
| Identity.KeyShape | creer_GT/GT_vs_label.py:58-63 | every key is `"Unknown"` or starts with `sub-` and ends with `T1w` or `T2w`, and a real key can never equal `"Unknown"` |
| Identity.KeyNonEmpty | creer_GT/seg_vs_label.py:248-249 | no key is the empty string, so the `if` guard of the two dict comprehensions drops nothing |
| Identity.UnmatchedFilesShareKey | creer_GT/seg_vs_label.py:143 | any two paths without a subject token get the same key `"Unknown"` |
| Identity.FindFiles | creer_GT/seg_vs_label.py:105-111 | a path is kept exactly when it was globbed, the user's pattern finds it and it does not contain `centerline` |
| Identity.FindFilesConcat | creer_GT/seg_vs_label.py:110 | filtering goes path by path, so the glob order is kept: filtering a concatenation concatenates the filtered parts |
| Identity.KeyMap | creer_GT/seg_vs_label.py:248 | the dict comprehension holds exactly the non-empty keys of the files, and maps each to a file of the list with that key |
| Identity.KeyMapLastWins | creer_GT/seg_vs_label.py:248 | the file kept for a key is the last file in list order that carries it |
| Identity.KeyMapKeepsEveryFile | creer_GT/seg_vs_label.py:248-249 | with the subject-contrast key, every file's key is in the dict |
| Identity.KeyOrder | creer_GT/seg_vs_label.py:250 | the keys of the dict, each exactly once |
| Identity.CommonKeys | creer_GT/seg_vs_label.py:250 | `sujets_communs`: exactly the keys present on both sides, each once |
| Identity.PairFiles | creer_GT/seg_vs_label.py:248-251 | each pair holds a segmentation file and a label file of the inputs with the same non-empty key; the pair keys are exactly the keys on both sides; the pairs are strictly increasing by key |
| Identity.PairingOrderIrrelevant | creer_GT/seg_vs_label.py:250-251 | whatever order the set `sujets_communs` is walked in, sorting gives the same list of pair keys |
| Identity.PairUsesLastFiles | creer_GT/seg_vs_label.py:248-251 | the pair of a common key holds the last segmentation file and the last label file with that key |
| Identity.SameKeyFilesArePaired | creer_GT/GT_vs_label.py:161-164 | one segmentation and one label with the same non-empty key give exactly that one pair |
| Identity.UnmatchedFilesArePaired | creer_GT/seg_vs_label.py:248-251 | a segmentation and a label that both lack a subject token are paired under `"Unknown"` |
| Volumes.Transform | creer_GT/seg_vs_label.py:128 | `as_reoriented(ornt_transform(...))`: a valid grid carrying the target codes, whose axes are the input's axes permuted to the target's world axes, each voxel taken from the corresponding input voxel |
| Volumes.TransformAt | creer_GT/seg_vs_label.py:128 | each voxel of the reoriented grid holds the input voxel one axis permutation and flip away |
| Volumes.MovedShapeRoundTrip | creer_GT/seg_vs_label.py:128 | moving the axes to the target and back restores the shape |
| Volumes.SourceCoordRoundTrip | creer_GT/seg_vs_label.py:128 | the voxel coordinate map of reorienting and reorienting back is the identity |
| Volumes.CheckAndReorient | creer_GT/seg_vs_label.py:115-131 | an image already in the desired codes is returned unchanged; codes naming three different world axes give `Transform` of the image (each voxel moved by one axis permutation and flip, `TransformAt`) in the desired codes; other codes fail |
| Volumes.ProperCodes | creer_GT/seg_vs_label.py:122-125 | codes `axcodes2ornt` can turn into an orientation: three codes, none undetermined, naming three different world axes |
| Volumes.ReorientRoundTrip | creer_GT/GT_vs_label.py:38-54 | reorienting to a target and back to the original codes gives back the original image: no voxel is lost, moved or duplicated |
| Volumes.ReorientIdempotent | creer_GT/GT_vs_label.py:38-54 | reorienting a reoriented image to the same codes changes nothing |
| Volumes.HighestZ | creer_GT/seg_vs_label.py:173 | `np.max(np.where(...)[2])`: none exactly when no voxel is selected, else the highest plane holding a selected voxel |
| Volumes.LowestZ | GT_vs_label.py:42 | none exactly when no voxel is selected, else the lowest plane holding a selected voxel |
| Volumes.ExtentOrdered | GT_vs_label.py:42-45 | the lowest and highest selected planes exist together, and the lowest is never above the highest |
| Offset.SliceOffset | creer_GT/seg_vs_label.py:164-187 | `"N/A"` exactly when the label has no voxel `!= 0` or the segmentation no voxel `> 0`; otherwise an integer |
| Offset.OffsetMeaning | creer_GT/seg_vs_label.py:172-187 | the offset is `d` exactly when the segmentation reaches plane `topLabel + d` and no plane above it, that is `max_z_seg - max_z_label` |
| Offset.OffsetNegative | creer_GT/seg_vs_label.py:13-14 | the offset is negative exactly when no segmented voxel lies on or above the highest labelled plane |
| Offset.ProcessSegmentation | creer_GT/seg_vs_label.py:147-192 | succeeds exactly when both images load and have orientable codes, and then records, under the key of the segmentation path, `SliceOffset` of the two images reoriented to RAS |
| Offset.RecordedOffset | creer_GT/seg_vs_label.py:164-192 | on the images reoriented to RAS, the recorded value is `"N/A"` exactly when either selects no voxel, and otherwise `d` exactly when the segmentation reaches plane `max_z_label + d` and no plane above it |
| Offset.Processor | creer_GT/seg_vs_label.py:147-192 | `process_segmentation` as the loop calls it: a pair gives a record exactly when both images load and have orientable codes, and the record carries the key of the segmentation path and `SliceOffset` of the two images reoriented to RAS |
| Offset.RasImagesUnchanged | creer_GT/seg_vs_label.py:156-157 | images already in RAS are measured as loaded |
| Offset.SubjectFromSegmentation | creer_GT/GT_vs_label.py:85-110 | the subject of a record never depends on the label path |
| Offset.EvaluateAll | creer_GT/seg_vs_label.py:260-264 | the loop succeeds exactly when every pair processes, with one record per pair in order; a failure is the exception of one of the pairs |
| Offset.EvaluatePairs | creer_GT/seg_vs_label.py:260-264 | the `for` loop appending to `results` computes `EvaluateAll` |
| Offset.RecordsHaveDistinctSubjects | creer_GT/seg_vs_label.py:248-264 | every record of `main` carries the key of its segmentation path, and no two records share a subject, so the merge is keyed |
| Offset.RecordSubjectIsKey | creer_GT/seg_vs_label.py:189-192 | the record of the `i`-th pair carries the key of that pair's segmentation path |
| Offset.SortedPairsGiveDistinctRecords | creer_GT/seg_vs_label.py:251 | pairs sorted strictly by key give records with distinct subjects |
| Offset.MainOutcome | creer_GT/seg_vs_label.py:237-266 | `main`: "no files" exactly when either filtered file list is empty; otherwise it fails exactly when some pair raises, with that pair's exception; and when it saves, the records are those of every pair in order, with distinct subjects, and the outcome is `save_results` of them on the stored file |
| Offset.RunMain | creer_GT/seg_vs_label.py:237-266 | `main` on the result file: its outcome is `MainOutcome` on the stored file, the file changes only when the save writes, and then it holds the written table |
| Offset.UpperLimit | GT_vs_label.py:38-39 | `z_upper_limit` is at most `max_z_label + margin` and at most the last slice, and equals one of them |
| Offset.ResolveIndex | GT_vs_label.py:48 | numpy's reading of an index into the Z axis: negative indices count from the end, and below `-depth` it raises |
| Offset.SegExtent | GT_vs_label.py:42-45 | none exactly when the segmentation is empty; else `min_z_seg <= max_z_seg < depth`, and no segmented voxel lies outside that range |
| Offset.TouchesPlane | GT_vs_label.py:28-55 | `False` without a label voxel; an error (`np.min` of nothing) for an empty segmentation; otherwise an answer exactly when the check plane index resolves (`IndexError` when it does not), and then `True` exactly when a segmented voxel lies on that plane |
| Offset.PlaneAboveLabel | GT_vs_label.py:12-39 | with a non-negative margin (default 5), the check plane is `min(max_z_label + margin, depth - 1)` |
| Offset.OnlyThePlaneMatters | GT_vs_label.py:48-55 | two segmentations that agree on the check plane give the same answer, so voxels on other planes never matter |
| Results.NewTable | creer_GT/seg_vs_label.py:216 | `pd.DataFrame(new_results)`: no column for no record; else the columns `Sujet` and the method, with one row per record holding its subject and value; under the method name `Sujet` the two keys collapse to one column holding the values |
| Results.SubjectMethodLosesSubjects | creer_GT/seg_vs_label.py:189-192 | under the method name `Sujet` each row of the new frame holds only the record's value, under `Sujet`, and the subject is lost |
| Results.NewTableKeyed | creer_GT/seg_vs_label.py:216-220 | the records' frame is well formed, and keyed when there are records and the method is not `Sujet` |
| Results.MergedSubjects | creer_GT/seg_vs_label.py:229 | the subjects of an outer join: those of either side, each once, sorted |
| Results.MergeOuter | creer_GT/seg_vs_label.py:229 | `merge(on="Sujet", how="outer")`: a keyed table, sorted by subject, whose subjects are those of either side and whose rows join each subject's row on both sides; the existing columns come first |
| Results.MergeKeepsOldCells | creer_GT/seg_vs_label.py:229 | every cell of the existing table appears unchanged under its subject |
| Results.MergeTakesNewCells | creer_GT/GT_vs_label.py:143 | every cell of the new records appears unchanged under its subject |
| Results.MergeMissingCells | creer_GT/seg_vs_label.py:229 | a subject missing on one side gets no cell (NaN) in the columns only the other side carries |
| Results.Save | creer_GT/seg_vs_label.py:205-233 | `save_results` on the loaded table: nothing is written exactly when the table is non-empty and already has the method column; an empty table is replaced by the records' frame; otherwise nothing is written exactly when `Sujet` is missing, when there is no record (the merge raises) or when `Sujet` is the only column (a key of numbers cannot be merged on text keys); in the remaining case the outer join `MergeOuter` of the table and the records' frame is written |
| Results.SaveWellFormed | creer_GT/seg_vs_label.py:205-233 | the table stays well formed across every outcome, for every method name |
| Results.SaveWrites | creer_GT/GT_vs_label.py:137-143 | after a write of some records the method column is present and the table is not empty; under a method other than `Sujet` the table is keyed and its subjects are exactly the old subjects together with the records' |
| Results.SaveTakesRecords | creer_GT/seg_vs_label.py:216-232 | after a write under a method other than `Sujet`, every record's value sits in the method column of its subject's row |
| Results.SaveKeepsCells | creer_GT/seg_vs_label.py:229-232 | a write onto a non-empty table keeps every cell of it, unchanged, in the row of its subject |
| Results.SaveIdempotent | creer_GT/GT_vs_label.py:125-127 | on the file, through `to_csv` and `read_csv`: saving the same method and records a second time leaves the file as the first save left it, and that file is well formed |
| Results.ReadBack | creer_GT/seg_vs_label.py:200 | `read_csv` of what `to_csv(index=False)` wrote: the same columns and rows, each row as `ReadBackRow` gives it back |
| Results.ReadBackRow | creer_GT/seg_vs_label.py:200 | a cell outside `Sujet` whose text is one of pandas' default missing-value spellings comes back as NaN (absent); every other cell comes back unchanged |
| Results.ReadBackWellFormed | creer_GT/seg_vs_label.py:200 | reading back keeps every subject and column, so a well-formed table stays well formed and a keyed one keyed, with the same subjects |
| Results.ReadBackKeepsCell | creer_GT/seg_vs_label.py:200 | a cell that is not a missing-value spelling is read back as written |
| Results.NotAvailableReadsAsNaN | creer_GT/seg_vs_label.py:166-181 | the `"N/A"` stored for an empty voxel set reads back as NaN |
| Results.Load | creer_GT/seg_vs_label.py:195-201 | `load_existing_results` on the file: an empty frame without file; an `EmptyDataError` exactly when the file was written from a frame without column, since `to_csv` then writes no header; otherwise the table as read back, with its columns |
| Results.SaveToFile | creer_GT/seg_vs_label.py:205-233 | `save_results` on the file: it raises exactly when loading raises, and otherwise it is `Save` on the well-formed table loaded |
| Results.SaveToFileWellFormed | creer_GT/seg_vs_label.py:205-233 | the file stays well formed across every outcome, through `to_csv` and `read_csv` |
| Results.ResultFile.constructor | creer_GT/seg_vs_label.py:199-201 | a result file that does not exist yet |
| Results.ResultFile.LoadExisting | creer_GT/seg_vs_label.py:195-201 | `load_existing_results`: `Load` of the stored file, a well-formed table or the `EmptyDataError` |
| Results.ResultFile.SaveResults | creer_GT/seg_vs_label.py:205-233 | the outcome is `SaveToFile` on the stored file, the file holds the new table exactly when it is written, and it stays well formed |
| C1Coverage.CountGrid | analyser_segmentation_test/couverture_C1.py:71 | the count of selected voxels of a plane is positive exactly when one is selected |
| C1Coverage.OverlapGrid | analyser_segmentation_test/couverture_C1.py:75 | `np.sum((pred > 0) & (gt > 0))` on one plane: never more than the reference voxels, and all of them when the prediction marks every one |
| C1Coverage.PositiveCounts | analyser_segmentation_test/couverture_C1.py:68-71 | per plane, the number of voxels `> 0`: reference voxels, or disc labels |
| C1Coverage.CoveredCounts | analyser_segmentation_test/couverture_C1.py:68-75 | per plane, the overlap count, which never exceeds that plane's reference count |
| C1Coverage.BandSumZero | analyser_segmentation_test/couverture_C1.py:72-73 | a band sum is zero exactly when every count in the band is zero |
| C1Coverage.BandSymmetric | analyser_segmentation_test/couverture_C1.py:62-66 | the band sum does not depend on which label is called `sup` |
| C1Coverage.BandCoverage | analyser_segmentation_test/couverture_C1.py:71-76 | `(covered / total_gt) * 100`: 0.0 when the band holds no reference voxel, else the percentage `r` with `r * total == covered * 100`; never negative, and at most 100 when no plane covers more than it holds |
| C1Coverage.Coverage | analyser_segmentation_test/couverture_C1.py:68-76 | a coverage lies in [0, 100] |
| C1Coverage.CoverageSymmetric | analyser_segmentation_test/vertebre_C1.py:8-13 | swapping `label_sup` and `label_inf` leaves the coverage unchanged |
| C1Coverage.CoverageWithoutGroundTruth | analyser_segmentation_test/couverture_C1.py:68-73 | with no reference voxel in the band the coverage is exactly 0.0 |
| C1Coverage.FullCoverage | analyser_segmentation_test/couverture_C1.py:62-76 | a prediction marking every reference voxel of a band that holds some gives exactly 100 |
| C1Coverage.CoverageLocal | analyser_segmentation_test/couverture_C1.py:62-69 | volumes that agree on the band planes give the same coverage, so voxels outside the band never count |
| C1Coverage.Gain | analyser_segmentation_test/couverture_C1.py:129-131 | the difference of two coverages lies in [-100, 100] |
| C1Coverage.GainZeroWhenMasksAgree | analyser_segmentation_test/couverture_C1.py:129-131 | two predictions that agree inside the band give a gain of 0 |
| C1Coverage.BandMask | analyser_segmentation_test/couverture_C1.py:62-66 | `mask_c1` flags exactly the planes of the closed band between the two labels, clipped to the volume, and one plane when `sup == inf` |
| C1Coverage.MaskedSum | analyser_segmentation_test/couverture_C1.py:71-73 | the loop summing the counts of masked planes computes the band sum |
| C1Coverage.ComputeC1Coverage | analyser_segmentation_test/couverture_C1.py:61-76 | `compute_c1_coverage` computes `Coverage`, the percentage of band reference voxels the prediction marks, or 0.0 |
| C1Coverage.TopTwo | analyser_segmentation_test/couverture_C1.py:117-124 | fewer than two labelled voxels raise (none); otherwise `label_sup` is the highest labelled plane, and `label_inf <= label_sup` is the plane where, counting down, the second labelled voxel is met |
| C1Coverage.LastPositiveIsHighest | analyser_segmentation_test/vertebre_C1.py:64-71 | the highest plane with a positive count is the highest labelled plane (`HighestZ`) |
| C1Coverage.PlaneHasIffCount | analyser_segmentation_test/couverture_C1.py:117-120 | a plane holds a labelled voxel exactly when its count is positive |
| C1Run.SubjectAndContrast | analyser_segmentation_test/couverture_C1.py:91-92 | the file name with `_seg_nnunet.nii.gz` removed holds no `/` |
| C1Run.SubjectOf | analyser_segmentation_test/couverture_C1.py:94 | `subject` is a prefix of `subject_and_contrast` holding no `_` |
| C1Run.ContrastFile | analyser_segmentation_test/couverture_C1.py:97 | `contrast_file` ends with `<subject_and_contrast>_contrast.nii.gz` and lies in `output_contrast` when that name holds no `/` |
| C1Run.SoftsegFile | analyser_segmentation_test/couverture_C1.py:98 | `gt_file` ends with `<subject>/anat/<subject_and_contrast>_desc-softseg_label-SC_seg.nii.gz`, and lies in `labels_softseg_bin` when the subject is non-empty and the name holds no `/`; with an empty subject the second part is absolute and `os.path.join` drops the directory |
| C1Run.FusionFile | analyser_segmentation_test/vertebre_C1.py:45 | the first `gt_file` of vertebre_C1.py ends with `<subject_and_contrast>_fusion_cropped.nii.gz` and lies in `propseg_fusion_cropped_2004` when that name holds no `/` |
| C1Run.DiscsFile | analyser_segmentation_test/couverture_C1.py:110 | `label_file` ends with `<subject_and_contrast>_label-discs_dlabel.nii.gz` |
| C1Run.GtFile | analyser_segmentation_test/vertebre_C1.py:44-52 | couverture_C1.py skips exactly when its `labels_softseg_bin` file is missing; vertebre_C1.py reads the fusion file when present and otherwise the fallback, without checking it |
| C1Run.FallbackIsSoftseg | analyser_segmentation_test/vertebre_C1.py:50-52 | the fallback of vertebre_C1.py is the very file couverture_C1.py reads |
| C1Run.MeasureAgainst | analyser_segmentation_test/couverture_C1.py:107-139 | the script raises exactly when the contrast segmentation, the reference or the disc labels fail to load, when fewer than two disc voxels exist, or when the shapes differ; otherwise the record holds `compute_c1_coverage` of the reference against the contrast and the extended segmentation over the band of the two top disc voxels, and gain = extend minus contrast |
| C1Run.MeasureSubject | analyser_segmentation_test/couverture_C1.py:94-139 | an extended segmentation that cannot be loaded crashes the run before anything else is checked (line 95); when it loads, the subject is skipped exactly when its contrast segmentation or its reference file is missing, and otherwise it is `MeasureAgainst` the reference the policy names; a record carries the subject, loadable disc labels and coverages in [0, 100] |
| C1Run.PoliciesAgreeWithoutFusion | analyser_segmentation_test/vertebre_C1.py:44-52 | without a fusion file and with a `labels_softseg_bin` file the two scripts measure a subject alike |
| C1Run.CoverageRun | analyser_segmentation_test/couverture_C1.py:90-139 | the run succeeds exactly when no step raises; then it holds the record of every measured subject and only such records; else the exception of one step |
| C1Run.VisitAll | analyser_segmentation_test/couverture_C1.py:90-139 | the `for` loop with `continue` and `append` computes `CoverageRun` |
| C1Run.RunCoverage | analyser_segmentation_test/vertebre_C1.py:37-86 | the whole script visits `sorted(glob(...))` and yields `CoverageRun` of it |
| C1Run.GlobOrderIrrelevant | analyser_segmentation_test/couverture_C1.py:90 | the rows do not depend on the order `glob` lists the files in |
| PropsegParams.MatchSujet | creer_GT/modification_propseg.py:85-91 | no match exactly when `^(sub-[a-zA-Z0-9]+)` followed by `T1w` or `T2w` cannot match; otherwise group 1 is a prefix `sub-` plus alphanumerics followed by a contrast, group 2 the `T1w` or `T2w` right after it, and group 1 is the longest such prefix, as the greedy `+` backtracks |
| PropsegParams.MatchSujetRoundTrip | creer_GT/mod_propseg_retro.py:28-34 | a `Sujet` built as subject plus contrast parses back into those two parts |
| PropsegParams.PropsegContrast | creer_GT/modification_propseg.py:94-97 | `T1w` gives `t1` and `T2w` gives `t2` (same mapping at creer_GT/mod_propseg_retro.py lines 37-40) |
| PropsegParams.Kept | creer_GT/modification_propseg.py:78 | a row is kept exactly when it has a `propseg` value, and for the retrospective script (creer_GT/mod_propseg_retro.py line 21) when that value is below 5 |
| PropsegParams.FilePattern | creer_GT/modification_propseg.py:100-105 | the adaptive pattern ends with `<sujet>_<contrast>.nii.gz`; the retrospective one (creer_GT/mod_propseg_retro.py lines 43-48) ends with `*<contrast>*.nii.gz` |
| PropsegParams.OutputPath | creer_GT/modification_propseg.py:128 | the output ends with `<sujet>_<contrast>_propseg.nii.gz` and lies in `output_dir` when `sujet` holds no `/` |
| PropsegParams.AdaptiveParams | creer_GT/modification_propseg.py:113-125 | above 5: (120, 2.5, 50); above 2 up to 5: (300, 5, 30); at most 2: (400, 6, 20) |
| PropsegParams.AdaptiveParamsMonotone | creer_GT/modification_propseg.py:112-125 | a lower offset never gives a smaller area or deformation, nor a larger contrast threshold |
| PropsegParams.RetroParams | creer_GT/mod_propseg_retro.py:56-63 | below 2: (100, 2.0, 30); otherwise (150, 3.0, 50) |
| PropsegParams.RetroParamsMonotone | creer_GT/mod_propseg_retro.py:55-63 | a lower offset never gives a larger area, deformation or contrast threshold |
| PropsegParams.FileEntries | creer_GT/mod_propseg_retro.py:65-76 | one entry per matched file, in order, each carrying the same row data and parameters |
| PropsegParams.AppendFiles | creer_GT/modification_propseg.py:127-138 | the `append` loop over `matched_files` computes `FileEntries` |
| PropsegParams.RowEntries | creer_GT/modification_propseg.py:82-138 | a row not kept or not parsable contributes nothing; otherwise one entry per file globbed for it, each for that kept, parsable row, naming a file globbed for its pattern and carrying the row's subject, contrast, value, parameters and output path |
| PropsegParams.RowImages | creer_GT/mod_propseg_retro.py:25-76 | the body of the row loop computes the entries of that row |
| PropsegParams.ImageParamsConcat | creer_GT/modification_propseg.py:82-138 | the list is the rows' contributions in row order |
| PropsegParams.ImageParams | creer_GT/modification_propseg.py:76-140 | every entry of `image_param_list` comes from one of the table's rows |
| PropsegParams.GenererListeImages | creer_GT/modification_propseg.py:76-140 | `generer_liste_images` visits the rows in order and computes the list of entries |
| PropsegParams.HighOffsetRows | creer_GT/mod_propseg_retro.py:21 | a row at 5 or above with files gives the adaptive list entries and the retrospective list none; above 5 the adaptive entries get the tightest parameters |
| PropsegParams.MissingValueRows | creer_GT/modification_propseg.py:78 | a row without a `propseg` value contributes to neither list |
| PropsegParams.SuccessLog | creer_GT/modification_propseg.py:171-186 | the log never holds more entries than there were runs |
| PropsegParams.SuccessLogMembers | creer_GT/modification_propseg.py:171-186 | exactly the successful runs are logged |
| PropsegParams.SuccessLogConcat | creer_GT/mod_propseg_retro.py:109-124 | a failure does not stop the loop: the log of a run is the log of its first part followed by the log of the rest |
| PropsegParams.RunPropseg | creer_GT/modification_propseg.py:143-186 | `run_propseg` with a log file computes `SuccessLog` |
| PropsegFiles.FilteredNames | modification_propseg.py:24-29 | the `Sujet` values kept are exactly those of rows with a `propseg` value below 5 |
| PropsegFiles.SplitName | modification_propseg.py:29-33 | `rsplit('T', 1)` gives two parts exactly when the name holds a `T`; then `sujet + contraste == name`, and `contraste` is `T` followed by text without `T` |
| PropsegFiles.SplitNameRoundTrip | modification_propseg.py:30-33 | subject plus a contrast with no later `T` splits back into exactly those two parts |
| PropsegFiles.GroupNames | modification_propseg.py:27-37 | `subject_dict`: its keys are the subjects listed in its order, each with a non-empty list, and there are no more subjects than names |
| PropsegFiles.GroupNamesSpec | modification_propseg.py:34-37 | `subject_dict` holds each subject once, its keys ordered by the first name of each subject (`FirstKeyed`), with the contrasts of all its names in row order, duplicates kept |
| PropsegFiles.GroupNamesFirstSeen | modification_propseg.py:34-37 | every key of `subject_dict` comes from some name, and a key comes before another only when its first name comes before the other's, so the keys are in first-seen order |
| PropsegFiles.FilesContaining | modification_propseg.py:44 | exactly the files whose path contains the contrast |
| PropsegFiles.FilesForContrasts | modification_propseg.py:43-44 | exactly the files whose path contains one of the subject's contrasts |
| PropsegFiles.MatchedFromMembers | modification_propseg.py:40-46 | a file is matched exactly when, for some subject of the dict, it is among the files found for one of its contrasts |
| PropsegFiles.ListeFichiers | modification_propseg.py:19-46 | a file is listed exactly when a kept name splits into a subject and contrast, `glob` returned the file for that subject, and its path contains that contrast |
| PropsegFiles.RepeatedContrastRepeatsFiles | modification_propseg.py:43-44 | a contrast listed twice adds its files twice |
| PropsegFiles.ExtendForContrasts | modification_propseg.py:43-44 | the inner `extend` loop computes `FilesForContrasts` |
| PropsegFiles.BuildSubjectDict | modification_propseg.py:27-37 | the first loop builds the grouping of the kept names |
| PropsegFiles.MatchSubjects | modification_propseg.py:40-45 | the second loop computes `MatchedFrom` over the dict |
| PropsegFiles.ListeFichiersLoop | modification_propseg.py:19-46 | `liste_fichiers` computes `ListeFichiers` |
| PropsegFiles.ContrastSuffixesExclusive | modification_propseg.py:55 | no path ends in both `_T1w.nii.gz` and `_T2w.nii.gz` |
| PropsegFiles.ExtraireContraste | modification_propseg.py:54-56 | `T1w` (resp. `T2w`) exactly when the path ends with `_T1w.nii.gz` (resp. `_T2w.nii.gz`), allowing one final newline as `$` does; otherwise none |
| PropsegFiles.ExtraireContrasteOfNames | modification_propseg.py:54-56 | a BIDS name's contrast is found again, and a derivative such as `_T2w_seg.nii.gz` has none |
| PropsegFiles.NextContrast | modification_propseg.py:67-70 | the `if`/`elif` sets the mapped contrast for `T1w`/`T2w` and keeps the previous value otherwise |
| PropsegFiles.RunOf | modification_propseg.py:61-81 | no more commands than images, and one per image when `contrast` is never unbound |
| PropsegFiles.ContrastAfterUnbound | modification_propseg.py:67-76 | `contrast` is still unbound exactly when no image so far had a recognisable contrast |
| PropsegFiles.RunUnbound | modification_propseg.py:61-76 | the loop stops with `UnboundLocalError`, before any command, exactly when the first image has no recognisable contrast |
| PropsegFiles.RunCommands | modification_propseg.py:61-81 | otherwise there is one command per image, in order, built with the contrast then held |
| PropsegFiles.StaleContrast | modification_propseg.py:67-70 | an image without a recognisable contrast is segmented with the contrast of the image before it |
| PropsegFiles.UnboundSticks | modification_propseg.py:61-76 | once the error is raised nothing more happens |
| PropsegFiles.RunLoop | modification_propseg.py:61-88 | the `for` loop computes `RunOf` |
| PropsegFiles.Propseg | modification_propseg.py:59-88 | `propseg` issues the commands of `RunOf` whichever commands fail |
| PropsegFiles.PropsegCommands | modification_propseg.py:73-81 | each command is for its image, with the user's three parameters, the output `test/anat/<sujet>_<nom_contraste>_propseg.nii.gz` and the contrast then held |
| PropsegFiles.TestOutput | modification_propseg.py:77 | the output path starts with `test/anat/<sujet>` and ends with `_<nom_contraste>_propseg.nii.gz`, `None` spelled out |
| PropsegFiles.FindImages | propseg_plusieurs_images.py:14-17 | exactly the globbed paths the user's pattern finds |
| PropsegFiles.FindImagesConcat | propseg_plusieurs_images.py:16 | filtering keeps the glob order |
| PropsegFiles.FindImagesKeepsCenterline | propseg_plusieurs_images.py:16 | unlike `find_files`, `find_images` keeps centerline files |
| PropsegFiles.SegmentOutput | propseg_plusieurs_images.py:35 | the output path starts with `extend-seg-upper-cord/anat/<sujet>` and ends with `_<contrast>_propseg.nii.gz` |
| PropsegFiles.SegmentOutputShape | propseg_plusieurs_images.py:35 | every output lies in `extend-seg-upper-cord/anat/` and is named after a `sub-` subject or `Unknown` |
| PropsegFiles.Commands | propseg_plusieurs_images.py:25-36 | one command per image, in list order |
| PropsegFiles.FailedImages | propseg_plusieurs_images.py:38-42 | exactly the images whose command fails are reported |
| PropsegFiles.SegmentEach | propseg_plusieurs_images.py:25-42 | the loop issues every command and reports the failures |
| PropsegFiles.SegmentImages | propseg_plusieurs_images.py:23-42 | `segment_images` issues one command per image whichever fail, using the user's contrast |
| PropsegFiles.SegmentFound | propseg_plusieurs_images.py:44-57 | `main` segments the images found, and issues no command exactly when none is found |
| Manifest.ParseKey | make_yml.py:52-58 | fails (`IndexError`) exactly when the key has fewer than two `_`; otherwise subject and contrast hold no `_`, and the contrast no `.` |
| Manifest.ParseKeyShape | make_yml.py:51-55 | a key shaped `<date>_<subject>_<contrast>.<ext>_...` gives that subject and contrast |
| Manifest.QcEntry | make_yml.py:50-58 | an item gives a subject and contrast exactly when it validates a `sct_deepseg_sc_qc` entry and its key has two `_`; the subject holds no `_`, the contrast no `_` or `.` |
| Manifest.KeysWithTheTaskParse | make_yml.py:50-55 | a key containing a name with two or more `_` always has the fields the parse reads |
| Manifest.QcKeysParse | make_yml.py:57-58 | every key that passes the `sct_deepseg_sc_qc` filter parses, so the `IndexError` branch never runs |
| Manifest.ValidationsSpec | make_yml.py:46-56 | `subjects_validated` holds each subject once, with exactly the contrasts its validated entries gave |
| Manifest.ValidationsFirstSeen | make_yml.py:46-56 | every key of `subjects_validated` comes from some validated entry, and a key comes before another only when its first entry comes before the other's, so the keys are in first-seen order |
| Manifest.ValidationsOf | make_yml.py:46-56 | `subjects_validated`: its keys are the subjects listed in its order, each with a non-empty set, and there are no more subjects than items |
| Manifest.RepeatedValidationCollapses | make_yml.py:46-56 | an entry repeating an earlier one changes nothing, since contrasts form a set |
| Manifest.CollectValidations | make_yml.py:46-58 | the first loop computes `ValidationsOf` |
| Manifest.QualifyingSubjects | make_yml.py:62-64 | exactly the subjects with a validated `T1w` or `T2w` |
| Manifest.QualifyingKeepsOrder | make_yml.py:62-64 | the subjects that are written keep the dictionary's relative order: any strict ranking of the dictionary's keys also ranks them |
| Manifest.ManifestOf | make_yml.py:61-67 | paths come in pairs, at most two per subject |
| Manifest.ManifestShape | make_yml.py:61-67 | two paths per qualifying subject, `<s>/anat/<s>_T1w.nii.gz` then `<s>/anat/<s>_T2w.nii.gz`, subjects in dictionary order, length twice their number |
| Manifest.BuildManifest | make_yml.py:61-67 | the second loop computes the manifest |
| Manifest.MakeYml | make_yml.py:46-67 | the whole script computes the manifest of the collected validations |
| Manifest.ManifestSubjects | make_yml.py:49-67 | the manifest's subjects are, each once, exactly those with a validated `T1w` or `T2w` entry |
| Manifest.ManifestFirstSeen | make_yml.py:46-67 | the manifest writes its subjects in the order of their first validated QC entry in the file |
| Summary.CoerceCell | creer_GT/analyse_GT_vs_label.py:49-50 | `to_numeric(errors="coerce")` on one cell: numbers stay, empty stays missing, text becomes missing exactly when no number reads in it |
| Summary.Coerce | analyse_GT_vs_label.py:9-10 | both columns are rebound to numbers or missing, row for row; subjects and the other columns are untouched |
| Summary.CoerceIdempotent | creer_GT/analyse_GT_vs_label.py:49-50 | coercing twice is coercing once |
| Summary.NonNumericBecomesMissing | creer_GT/analyse_GT_vs_label.py:49-50 | a cell such as `"N/A"` becomes missing |
| Summary.Where | creer_GT/analyse_GT_vs_label.py:59 | a boolean mask keeps exactly the whole rows it selects |
| Summary.WhereConcat | analyse_GT_vs_label.py:19 | filtering keeps the table's order |
| Summary.Subjects | creer_GT/analyse_GT_vs_label.py:53 | `["Sujet"].tolist()`, one subject per row in order |
| Summary.MissingLists | creer_GT/analyse_GT_vs_label.py:53-56 | the two lists hold exactly the subjects with a missing `GT` (resp. missing `propseg`); the same lines are analyse_GT_vs_label.py lines 13-16 |
| Summary.GtNegativeRows | creer_GT/analyse_GT_vs_label.py:59 | the subset holds whole rows, exactly those with a `GT` value below 5, never one with a missing `GT` |
| Summary.Values | creer_GT/analyse_GT_vs_label.py:65-72 | the non-missing values of a column, exactly |
| Summary.Min | creer_GT/analyse_GT_vs_label.py:68 | `.min()`: NaN over no value, else a value below all the others |
| Summary.Max | creer_GT/analyse_GT_vs_label.py:67 | `.max()`: NaN over no value, else a value above all the others |
| Summary.Mean | creer_GT/analyse_GT_vs_label.py:65 | `.mean()`: NaN exactly over no value |
| Summary.Median | creer_GT/analyse_GT_vs_label.py:66 | `.median()`: NaN exactly over no value |
| Summary.SortReals | creer_GT/analyse_GT_vs_label.py:66 | the values sorted, as a permutation of them |
| Summary.MeanBetween | analyse_GT_vs_label.py:25-32 | the mean lies between the minimum and the maximum |
| Summary.MedianBetween | analyse_GT_vs_label.py:25-32 | the median lies between the minimum and the maximum |
| Summary.StatsOf | creer_GT/analyse_GT_vs_label.py:65-72 | each of the four statistics is NaN exactly when the column has no value |
| Summary.StatsOrdered | creer_GT/analyse_GT_vs_label.py:65-72 | the statistics are present exactly when some cell is numeric, and then min <= median <= max and min <= mean <= max |
| Summary.AnalyzeSpec | creer_GT/analyse_GT_vs_label.py:62-75 | the recap's two counts are the lengths of the missing lists, and a text cell reading as no number counts as missing and never enters `gt_negatif` |
| Summary.Analyze | creer_GT/analyse_GT_vs_label.py:62-75 | the two counts and `gt_negatif` are no longer than the table, and a column's mean is NaN exactly when the coerced column holds no value |
| Text.Split | make_yml.py:52 | `str.split` on one character: one more part than separators, and no part holds the separator |
| Text.SplitRoundTrip | make_yml.py:52 | joining the parts with the separator gives back the text |
| Text.FirstFieldIsPrefix | analyser_segmentation_test/couverture_C1.py:94 | `split('_')[0]` is the text before the first `_` |
| Text.RSplitOnce | modification_propseg.py:30 | `rsplit(sep, 1)` gives two parts exactly when `sep` occurs; they surround the last `sep` |
| Text.RemoveAll | analyser_segmentation_test/couverture_C1.py:92 | `replace(pat, "")` never lengthens the text |
| Text.RemoveAllSuffix | analyser_segmentation_test/couverture_C1.py:92 | removing the suffix from a file name where it occurs only at the end gives the rest of the name |
| Text.RemoveAllKeepsOut | analyser_segmentation_test/couverture_C1.py:92 | removal never brings in a character the text did not hold |
| Text.Strip | make_yml.py:50 | `strip()` removes only whitespace, from both ends, and leaves ends that are not whitespace |
| Text.PathJoin | analyser_segmentation_test/couverture_C1.py:97 | `os.path.join` ends with its second part, and starts with the first unless the second is absolute |
| Text.Basename | creer_GT/modification_propseg.py:177 | `os.path.basename`: the suffix of the path after its last `/`, holding no `/` (empty after a trailing `/`); `Path(p).name` at analyser_segmentation_test/couverture_C1.py:91 agrees on the globbed paths, which never end in `/` |
| Text.SortStrings | analyser_segmentation_test/couverture_C1.py:90 | `sorted` on strings: sorted in code-point order and a permutation of the input |
| Text.SortedUnique | creer_GT/seg_vs_label.py:251 | two strictly sorted lists with the same elements are equal, so a sort result does not depend on input order |

## Left out

- NIfTI loading and saving, `glob`, `os.path.exists`, and reading or writing CSV, JSON and YAML are I/O. Their results are parameters: images, path lists, presence predicates, tables and the QC items in file order.
- `aff2axcodes` works on a floating-point affine. The model takes the axis codes as given, with `None` for an axis the affine leaves undetermined.
- Reorientation is modelled as the axis permutation and flip nibabel performs. The affine itself is not modelled.
- Voxel values are `real`, not IEEE floats. This covers the `>` and `!=` tests, the percentages, `2.5`-style parameters and the recap statistics; NaN is a missing cell or `None`.
- `subprocess.run` and the `sct_propseg` tool are external. Their exit status is the `succeeded` predicate, and a command is a record of its arguments.
- The log-CSV writing of `run_propseg` (creer_GT/modification_propseg.py:188-194, creer_GT/mod_propseg_retro.py:126-132) is not modelled. It uses a `csv` module that is never imported, and `log_entries[0]` raises on an empty log. `run_propseg` without a log file is the same loop minus the log.
- `os.makedirs` in `run_propseg` is not modelled, because it is I/O.
- The `str()` of the numeric parameters, as placed on a command line, is not modelled: commands keep the numbers.
- The grammar of numerals accepted by `pd.to_numeric` is the `numeral` parameter. pandas dtype inference and the promotion of an integer column to float by `merge` are not modelled.
- The user's regular expressions (`--regex`, `-seg_regex`, `-label_regex`) are `matches` predicates. `re.search(contraste, f)` in `liste_fichiers` is a literal substring test, since the contrasts it receives hold no regex metacharacter. That last point holds for real data, not for every name.
- `argparse` and every `print` diagnostic are left out.
- JSON with duplicate keys is outside the model: the QC file arrives as the list of items `json.load` keeps.
- Set iteration order is abstracted. `sujets_communs` is walked in first-seen order, and `Identity.PairingOrderIrrelevant` proves the sorted pairs do not depend on that walk.
- compute_dice_scores.py and analyser_segmentation_test/compute_dice_scores.py are not part of this model. Each wraps an external Dice tool and float statistics.
- appliquer_facteur_echelle.py and creer_GT/appliquer_facteur_echelle.py are not part of this model. Their work is scipy `zoom` and `center_of_mass` numerics.
- batch_process.py is not part of this model. It only spawns processes.
- C1Run.CoverageRun: its own contract states which records appear, not their order. The order is the visiting order of its definition, which `C1Run.VisitAll` and `C1Run.RunCoverage` compute exactly.
- C1Run.MeasureAgainst: any two different shapes are modelled as the script raising. numpy raises when the shapes cannot broadcast; shapes that broadcast (a size-1 axis against a longer one) would compute a value, which the model does not.
- Results.ResultFile.LoadExisting: reading back turns a missing-value spelling into NaN in every column except `Sujet`. The keys the scripts write are `sub-…` keys or `Unknown`, which are never such a spelling. Under `-seg_method Sujet` the `Sujet` column holds the values, and an `"N/A"` there is kept as text. pandas dtype inference on reading (an integer column with NaN becomes float) is not modelled; cells keep their kind. `Results.Load` has the same limits.
- Results.Save: a stored table whose only column is `Sujet` is taken to be one a run under the method name `Sujet` wrote, whose `Sujet` column holds numbers or NaN. Merging text keys onto it raises `ValueError` (`KeyTypeMismatch`). A hand-made file holding only a text `Sujet` column would merge instead, and the model does not cover that.
- Summary.Mean: its contract states only when it is NaN. Its value is bounded by `Summary.MeanBetween`, not computed as a float sum.
- Summary.Median: as for `Summary.Mean`. `Summary.MedianBetween` bounds it.
- PropsegParams.SuccessLog: its contract states only the length bound. Membership is `PropsegParams.SuccessLogMembers`.
- Text.RemoveAll: its contract states only that the text does not grow. What it removes is stated by `Text.RemoveAllSuffix` and `Text.RemoveAllKeepsOut`.
