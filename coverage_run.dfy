/** The per-subject loop of analyser_segmentation_test/couverture_C1.py and
    analyser_segmentation_test/vertebre_C1.py: file names, the GT file each
    script reads, and the rows of the coverage CSV. */
module C1Run {
  import opened Wrappers
  import opened Text
  import opened Volumes
  import opened C1Coverage

  // ---------------------------------------------------------------------
  // The loop over the extended segmentations
  // ---------------------------------------------------------------------

  const DiscsDir := "data-multi-subject/derivatives/labels"
  const ContrastDir := "output_contrast"
  const SoftsegDir := "data-multi-subject/derivatives/labels_softseg_bin"
  const FusionDir := "propseg_fusion_cropped_2004"
  const SegSuffix := "_seg_nnunet.nii.gz"
  const SoftsegSuffix := "_desc-softseg_label-SC_seg.nii.gz"

  /** One row of the coverage CSV. */
  datatype CoverageRecord = CoverageRecord(subject: string, contrastCoverage: real, extendCoverage: real, gain: real)

  /** Where the reference segmentation comes from: couverture_C1.py skips a
      subject without `labels_softseg_bin` file; vertebre_C1.py reads
      `propseg_fusion_cropped_2004` and falls back on `labels_softseg_bin`
      without checking that it exists. */
  datatype GtPolicy = SkipIfMissing | FallBack

  /** What one iteration of the loop does. */
  datatype Step =
    | Skipped                    // `continue`
    | Crashed(reason: string)    // an exception ends the script: no CSV is written
    | Measured(record: CoverageRecord)

  /** `subject_and_contrast`: the file name without `_seg_nnunet.nii.gz`. */
  function SubjectAndContrast(segPath: string): (sc: string)
    ensures '/' !in sc
  {
    RemoveAllKeepsOut(Basename(segPath), SegSuffix, '/');
    RemoveAll(Basename(segPath), SegSuffix)
  }

  /** `subject`: the text before the first `_`. */
  function SubjectOf(sc: string): (s: string)
    ensures StartsWith(sc, s) && '_' !in s
  {
    FirstFieldIsPrefix(sc, '_');
    Split(sc, '_')[0]
  }

  /** The contrast-agnostic segmentation of a subject. */
  function ContrastFile(sc: string): (f: string)
    ensures EndsWith(f, sc + "_contrast.nii.gz")
    ensures '/' !in sc ==> StartsWith(f, ContrastDir)
  {
    var name := sc + "_contrast.nii.gz";
    assert '/' !in sc ==> name[0] != '/' by { assert name[0] == if sc == "" then '_' else sc[0]; }
    PathJoin(ContrastDir, name)
  }

  /** `gt_file` of couverture_C1.py; with an empty subject the second part
      begins with `/` and `os.path.join` drops the directory. */
  function SoftsegFile(sc: string): (f: string)
    ensures EndsWith(f, SubjectOf(sc) + "/anat/" + sc + SoftsegSuffix)
    ensures SubjectOf(sc) != "" && '/' !in sc ==> StartsWith(f, SoftsegDir)
    ensures SubjectOf(sc) == "" ==> f == "/anat/" + sc + SoftsegSuffix
  {
    var name := SubjectOf(sc) + "/anat/" + sc + SoftsegSuffix;
    assert SubjectOf(sc) != "" && '/' !in sc ==> !StartsWith(name, "/") by {
      if SubjectOf(sc) != "" && '/' !in sc {
        assert name[0] == sc[0];
      }
    }
    assert SubjectOf(sc) == "" ==> StartsWith(name, "/");
    PathJoin(SoftsegDir, name)
  }

  /** `gt_file` of vertebre_C1.py, before the fallback. */
  function FusionFile(sc: string): (f: string)
    ensures EndsWith(f, sc + "_fusion_cropped.nii.gz")
    ensures '/' !in sc ==> StartsWith(f, FusionDir)
  {
    var name := sc + "_fusion_cropped.nii.gz";
    assert '/' !in sc ==> name[0] != '/' by { assert name[0] == if sc == "" then '_' else sc[0]; }
    PathJoin(FusionDir, name)
  }

  /** The fallback `gt_file` of vertebre_C1.py. */
  function FallbackFile(sc: string): string {
    PathJoin(SoftsegDir + "/" + SubjectOf(sc) + "/anat", sc + SoftsegSuffix)
  }

  /** `label_file`: `os.path.join(label_path, subject, "anat", ...)`. */
  function DiscsFile(sc: string): (f: string)
    ensures EndsWith(f, sc + "_label-discs_dlabel.nii.gz")
  {
    PathJoin(PathJoin(PathJoin(DiscsDir, SubjectOf(sc)), "anat"), sc + "_label-discs_dlabel.nii.gz")
  }

  /** The GT file a policy reads, or `None` when the subject is skipped. */
  function GtFile(policy: GtPolicy, sc: string, present: string -> bool): (r: Option<string>)
    ensures r.None? <==> policy == SkipIfMissing && !present(SoftsegFile(sc))
    ensures policy == SkipIfMissing && r.Some? ==> r.value == SoftsegFile(sc)
    ensures policy == FallBack ==> r == Some(if present(FusionFile(sc)) then FusionFile(sc) else FallbackFile(sc))
  {
    match policy
    case SkipIfMissing => if present(SoftsegFile(sc)) then Some(SoftsegFile(sc)) else None
    case FallBack => Some(if present(FusionFile(sc)) then FusionFile(sc) else FallbackFile(sc))
  }

  /** Joining `subject/anat/rest` onto a directory, or `rest` onto
      `directory/subject/anat`, names the same file. */
  lemma NestedJoin(dir: string, subject: string, rest: string)
    requires dir != [] && dir[|dir| - 1] != '/'
    requires subject != [] && subject[0] != '/'
    requires rest != [] && rest[0] != '/'
    ensures PathJoin(dir, subject + "/anat/" + rest) == PathJoin(dir + "/" + subject + "/anat", rest)
  {
    var b := subject + "/anat/" + rest;
    assert b[0] == subject[0];
    assert !EndsWith(dir, "/");
    var a' := dir + "/" + subject + "/anat";
    assert a'[|a'| - 1] == 't';
    assert a' + "/" + rest == dir + "/" + b;
  }

  /** For a subject name that is not empty, the fallback of vertebre_C1.py
      is the very file couverture_C1.py reads. */
  lemma FallbackIsSoftseg(sc: string)
    requires '/' !in sc && SubjectOf(sc) != ""
    ensures FallbackFile(sc) == SoftsegFile(sc)
  {
    var subject := SubjectOf(sc);
    assert subject[0] == sc[0];
    var rest := sc + SoftsegSuffix;
    assert rest[0] == sc[0];
    SoftsegDirShape();
    NestedJoin(SoftsegDir, subject, rest);
    assert subject + "/anat/" + sc + SoftsegSuffix == subject + "/anat/" + rest;
  }

  lemma SoftsegDirShape()
    ensures SoftsegDir != [] && SoftsegDir[|SoftsegDir| - 1] != '/'
  {
  }

  /** The rest of a turn once the extended segmentation `extend` is loaded
      and the GT file chosen. Loading a missing or unreadable file raises;
      so does `sorted_coords[1]` with fewer than two labelled voxels, and the
      voxel-wise `&` of volumes of different shapes. */
  function MeasureAgainst(sc: string, extend: Grid, gtFile: string, images: string -> Option<Grid>): (s: Step)
    ensures !s.Skipped?
    ensures s.Crashed? <==>
              || images(ContrastFile(sc)).None? || images(gtFile).None? || images(DiscsFile(sc)).None?
              || TopTwo(images(DiscsFile(sc)).value).None?
              || images(gtFile).value.shape != images(ContrastFile(sc)).value.shape
              || images(gtFile).value.shape != extend.shape
    ensures images(ContrastFile(sc)).None? ==> s == Crashed(ContrastFile(sc))
    ensures s.Measured? ==> s.record.subject == sc
    ensures s.Measured? ==>
              var gt := images(gtFile).value;
              var band := TopTwo(images(DiscsFile(sc)).value).value;
              && s.record.contrastCoverage == Coverage(gt, images(ContrastFile(sc)).value, band.0, band.1)
              && s.record.extendCoverage == Coverage(gt, extend, band.0, band.1)
    ensures s.Measured? ==> 0.0 <= s.record.contrastCoverage <= 100.0 && 0.0 <= s.record.extendCoverage <= 100.0
    ensures s.Measured? ==> s.record.gain == s.record.extendCoverage - s.record.contrastCoverage
  {
    match images(ContrastFile(sc))
    case None => Crashed(ContrastFile(sc))
    case Some(contrast) =>
      match images(gtFile)
      case None => Crashed(gtFile)
      case Some(gt) =>
        match images(DiscsFile(sc))
        case None => Crashed(DiscsFile(sc))
        case Some(discs) =>
          match TopTwo(discs)
          case None => Crashed("IndexError: " + DiscsFile(sc))
          case Some((sup, inf)) =>
            if gt.shape != contrast.shape || gt.shape != extend.shape then Crashed("shape mismatch: " + sc)
            else
              Measured(CoverageRecord(sc, Coverage(gt, contrast, sup, inf), Coverage(gt, extend, sup, inf),
                                      Gain(gt, extend, contrast, sup, inf)))
  }

  /** One turn of the loop for the segmentation `segPath`: load it, skip
      the subject when its contrast-agnostic segmentation (or, for
      couverture_C1.py, its GT) is missing, and measure it otherwise. */
  function MeasureSubject(segPath: string, policy: GtPolicy, present: string -> bool, images: string -> Option<Grid>): (s: Step)
    ensures s.Skipped? <==> images(segPath).Some? && (!present(ContrastFile(SubjectAndContrast(segPath))) || GtFile(policy, SubjectAndContrast(segPath), present).None?)
    ensures images(segPath).None? ==> s == Crashed(segPath)
    ensures s.Measured? ==> s.record.subject == SubjectAndContrast(segPath)
    ensures s.Measured? ==> present(ContrastFile(s.record.subject)) && images(DiscsFile(s.record.subject)).Some? && TopTwo(images(DiscsFile(s.record.subject)).value).Some?
    ensures s.Measured? ==> 0.0 <= s.record.contrastCoverage <= 100.0 && 0.0 <= s.record.extendCoverage <= 100.0
    ensures s.Measured? ==> s.record.gain == s.record.extendCoverage - s.record.contrastCoverage
    ensures images(segPath).Some? && present(ContrastFile(SubjectAndContrast(segPath)))
              && GtFile(policy, SubjectAndContrast(segPath), present).Some? ==>
              s == MeasureAgainst(SubjectAndContrast(segPath), images(segPath).value,
                                  GtFile(policy, SubjectAndContrast(segPath), present).value, images)
  {
    var sc := SubjectAndContrast(segPath);
    match images(segPath)
    case None => Crashed(segPath)
    case Some(extend) =>
      if !present(ContrastFile(sc)) then Skipped
      else
        match GtFile(policy, sc, present)
        case None => Skipped
        case Some(gtFile) => MeasureAgainst(sc, extend, gtFile, images)
  }

  /** With no fusion file and a `labels_softseg_bin` file, the two scripts
      measure a subject alike. */
  lemma PoliciesAgreeWithoutFusion(segPath: string, present: string -> bool, images: string -> Option<Grid>)
    requires SubjectOf(SubjectAndContrast(segPath)) != ""
    requires !present(FusionFile(SubjectAndContrast(segPath))) && present(SoftsegFile(SubjectAndContrast(segPath)))
    ensures MeasureSubject(segPath, FallBack, present, images) == MeasureSubject(segPath, SkipIfMissing, present, images)
  {
    var sc := SubjectAndContrast(segPath);
    FallbackIsSoftseg(sc);
    assert GtFile(FallBack, sc, present) == GtFile(SkipIfMissing, sc, present);
  }

  function StepFor(policy: GtPolicy, present: string -> bool, images: string -> Option<Grid>): string -> Step {
    p => MeasureSubject(p, policy, present, images)
  }

  /** The loop over the sorted segmentation paths: the records of the
      measured subjects, or the first exception. */
  function CoverageRun(paths: seq<string>, step: string -> Step): (r: Result<seq<CoverageRecord>, string>)
    ensures r.Ok? <==> forall i | 0 <= i < |paths| :: !step(paths[i]).Crashed?
    ensures r.Ok? ==> |r.value| <= |paths|
    ensures r.Ok? ==> forall i | 0 <= i < |paths| && step(paths[i]).Measured? :: step(paths[i]).record in r.value
    ensures r.Ok? ==> forall k | 0 <= k < |r.value| :: exists i | 0 <= i < |paths| :: step(paths[i]) == Measured(r.value[k])
    ensures r.Err? ==> exists i | 0 <= i < |paths| :: step(paths[i]) == Crashed(r.error)
    decreases |paths|
  {
    if paths == [] then Ok([])
    else
      assert forall i | 1 <= i < |paths| :: paths[i] == paths[1..][i - 1];
      match step(paths[0])
      case Crashed(e) => Err(e)
      case Skipped => CoverageRun(paths[1..], step)
      case Measured(rec) =>
        match CoverageRun(paths[1..], step)
        case Err(e) => Err(e)
        case Ok(rest) =>
          assert forall k | 1 <= k < |[rec] + rest| :: ([rec] + rest)[k] == rest[k - 1];
          Ok([rec] + rest)
  }

  /** What the loop yields once `done` holds the records so far and `rest`
      the paths still to visit. */
  function ResumeRun(done: seq<CoverageRecord>, rest: seq<string>, step: string -> Step): Result<seq<CoverageRecord>, string> {
    match CoverageRun(rest, step)
    case Ok(more) => Ok(done + more)
    case Err(e) => Err(e)
  }

  /** One turn of the loop. */
  lemma ResumeRunStep(done: seq<CoverageRecord>, rest: seq<string>, step: string -> Step)
    requires rest != []
    ensures ResumeRun(done, rest, step) ==
              match step(rest[0])
              case Crashed(e) => Err(e)
              case Skipped => ResumeRun(done, rest[1..], step)
              case Measured(rec) => ResumeRun(done + [rec], rest[1..], step)
  {
    if step(rest[0]).Measured? {
      var rec := step(rest[0]).record;
      match CoverageRun(rest[1..], step)
      case Ok(more) => assert done + ([rec] + more) == done + [rec] + more;
      case Err(e) =>
    }
  }

  /** The `for seg_path in ...` loop: visit the paths in order, stop at
      the first exception, collect the measured rows. */
  method VisitAll(paths: seq<string>, step: string -> Step) returns (r: Result<seq<CoverageRecord>, string>)
    ensures r == CoverageRun(paths, step)
  {
    var results: seq<CoverageRecord> := [];
    var i := 0;
    assert paths[0..] == paths;
    if CoverageRun(paths, step).Ok? {
      assert [] + CoverageRun(paths, step).value == CoverageRun(paths, step).value;
    }
    while i < |paths|
      invariant 0 <= i <= |paths|
      invariant CoverageRun(paths, step) == ResumeRun(results, paths[i..], step)
    {
      ResumeRunStep(results, paths[i..], step);
      assert paths[i..][0] == paths[i] && paths[i..][1..] == paths[i + 1..];
      match step(paths[i]) {
        case Crashed(e) => return Err(e);
        case Skipped =>
        case Measured(rec) => results := results + [rec];
      }
      i := i + 1;
    }
    assert paths[i..] == [];
    assert results + [] == results;
    r := Ok(results);
  }

  /** The script body: visit `sorted(glob(...))` and collect the rows of
      the CSV. */
  method RunCoverage(globbed: seq<string>, policy: GtPolicy, present: string -> bool, images: string -> Option<Grid>)
    returns (r: Result<seq<CoverageRecord>, string>)
    ensures r == CoverageRun(SortStrings(globbed), StepFor(policy, present, images))
  {
    r := VisitAll(SortStrings(globbed), StepFor(policy, present, images));
  }

  /** `sorted` makes the rows independent of the order `glob` lists the
      files in. */
  lemma GlobOrderIrrelevant(g1: seq<string>, g2: seq<string>, step: string -> Step)
    requires Distinct(g1) && Distinct(g2)
    requires forall p :: p in g1 <==> p in g2
    ensures CoverageRun(SortStrings(g1), step) == CoverageRun(SortStrings(g2), step)
  {
    SortDistinctIsStrict(g1);
    SortDistinctIsStrict(g2);
    MultisetMembers(g1, SortStrings(g1));
    MultisetMembers(g2, SortStrings(g2));
    SortedUnique(SortStrings(g1), SortStrings(g2));
  }
}
