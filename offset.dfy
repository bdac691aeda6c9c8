/** Highest-slice offset between a segmentation and a vertebral label image:
    `process_segmentation` and `main` of creer_GT/seg_vs_label.py (and of its
    copy creer_GT/GT_vs_label.py), and the single-plane check of
    GT_vs_label.py. */
module Offset {
  import opened Wrappers
  import opened Text
  import opened Identity
  import opened Volumes
  import opened Results

  // ---------------------------------------------------------------------
  // process_segmentation
  // ---------------------------------------------------------------------

  /** The value recorded for one pair of reoriented volumes: the highest
      segmented plane minus the highest labelled plane, or `"N/A"` when
      either image selects no voxel. */
  function SliceOffset(seg: Volume, labelImg: Volume): (c: Cell)
    requires Valid(seg) && Valid(labelImg)
    ensures c == Text(NotAvailable) <==> HighestZ(labelImg, NonZero).None? || HighestZ(seg, Positive).None?
    ensures c.Text? || c.Int?
  {
    match (HighestZ(labelImg, NonZero), HighestZ(seg, Positive))
    case (Some(topLabel), Some(topSeg)) => Int(topSeg as int - topLabel as int)
    case _ => Text(NotAvailable)
  }

  /** The offset is `d` exactly when the segmentation reaches plane
      `topLabel + d` and nothing above it. */
  lemma OffsetMeaning(seg: Volume, labelImg: Volume, d: int)
    requires Valid(seg) && Valid(labelImg) && HighestZ(labelImg, NonZero).Some?
    ensures var topLabel := HighestZ(labelImg, NonZero).value;
            SliceOffset(seg, labelImg) == Int(d) <==>
              && topLabel + d >= 0
              && PlaneHas(seg, Positive, topLabel + d)
              && forall z: nat | z > topLabel + d :: !PlaneHas(seg, Positive, z)
  {
    var topLabel := HighestZ(labelImg, NonZero).value;
    var top := HighestZ(seg, Positive);
    if top.Some? && topLabel + d >= 0 && PlaneHas(seg, Positive, topLabel + d)
       && forall z: nat | z > topLabel + d :: !PlaneHas(seg, Positive, z) {
      assert !(top.value > topLabel + d);
      assert !(top.value < topLabel + d);
    }
  }

  /** The offset is negative exactly when the segmentation stops below the
      highest labelled plane. */
  lemma OffsetNegative(seg: Volume, labelImg: Volume)
    requires Valid(seg) && Valid(labelImg)
    requires SliceOffset(seg, labelImg).Int?
    ensures var topLabel := HighestZ(labelImg, NonZero).value;
            SliceOffset(seg, labelImg).i < 0 <==> forall z: nat | z >= topLabel :: !PlaneHas(seg, Positive, z)
  {
  }

  /** `process_segmentation(seg_file, label_file, methode)`: load both images
      (`images` stands for `nib.load` followed by `get_fdata`; `None` is a load
      that raises), reorient each to RAS, and record the offset under the
      key of the segmentation path. */
  function ProcessSegmentation(segPath: string, labelPath: string, images: string -> Option<Grid>): (r: Result<Record, string>)
    ensures r.Ok? ==> r.value.subject == SubjectContrastKey(segPath)
    ensures r.Ok? <==> images(segPath).Some? && images(labelPath).Some?
                        && ProperCodes(images(segPath).value.codes) && ProperCodes(images(labelPath).value.codes)
    ensures r.Ok? ==> var seg := CheckAndReorient(images(segPath).value, RAS);
                      var labelImg := CheckAndReorient(images(labelPath).value, RAS);
                      seg.Ok? && labelImg.Ok? && r.value.value == SliceOffset(seg.value, labelImg.value)
  {
    match (images(segPath), images(labelPath))
    case (Some(seg), Some(labelImg)) =>
      (match (CheckAndReorient(seg, RAS), CheckAndReorient(labelImg, RAS))
       case (Ok(s), Ok(l)) => Ok(Record(SubjectContrastKey(segPath), SliceOffset(s, l)))
       case (Err(e), _) => Err(e)
       case (_, Err(e)) => Err(e))
    case (None, _) => Err("cannot load " + segPath)
    case (_, None) => Err("cannot load " + labelPath)
  }

  /** What `main` records for a pair, read on the images reoriented to RAS:
      `"N/A"` exactly when either selects no voxel, and otherwise `d`
      exactly when the segmentation reaches plane `max_z_label + d` and no
      plane above it. */
  lemma RecordedOffset(segPath: string, labelPath: string, images: string -> Option<Grid>, seg: Volume, labelImg: Volume, d: int)
    requires images(segPath).Some? && CheckAndReorient(images(segPath).value, RAS) == Ok(seg)
    requires images(labelPath).Some? && CheckAndReorient(images(labelPath).value, RAS) == Ok(labelImg)
    ensures Valid(seg) && Valid(labelImg) && ProcessSegmentation(segPath, labelPath, images).Ok?
    ensures var v := ProcessSegmentation(segPath, labelPath, images).value.value;
            && (v == Text(NotAvailable) <==> HighestZ(labelImg, NonZero).None? || HighestZ(seg, Positive).None?)
            && (HighestZ(labelImg, NonZero).Some? ==>
                  (v == Int(d) <==>
                     && HighestZ(labelImg, NonZero).value + d >= 0
                     && PlaneHas(seg, Positive, HighestZ(labelImg, NonZero).value + d)
                     && forall z: nat | z > HighestZ(labelImg, NonZero).value + d :: !PlaneHas(seg, Positive, z)))
  {
    if HighestZ(labelImg, NonZero).Some? {
      OffsetMeaning(seg, labelImg, d);
    }
  }

  /** Images already in RAS are measured as they are. */
  lemma RasImagesUnchanged(segPath: string, labelPath: string, images: string -> Option<Grid>)
    requires images(segPath).Some? && images(segPath).value.codes == Somes(RAS)
    requires images(labelPath).Some? && images(labelPath).value.codes == Somes(RAS)
    ensures ProcessSegmentation(segPath, labelPath, images)
         == Ok(Record(SubjectContrastKey(segPath), SliceOffset(images(segPath).value, images(labelPath).value)))
  {
  }

  /** The label path never decides the subject of a record. */
  lemma SubjectFromSegmentation(segPath: string, labelA: string, labelB: string, images: string -> Option<Grid>)
    requires ProcessSegmentation(segPath, labelA, images).Ok? && ProcessSegmentation(segPath, labelB, images).Ok?
    ensures ProcessSegmentation(segPath, labelA, images).value.subject
         == ProcessSegmentation(segPath, labelB, images).value.subject
  {
  }

  // ---------------------------------------------------------------------
  // main
  // ---------------------------------------------------------------------

  /** `process_segmentation` with the images fixed, as the loop calls it. */
  function Processor(images: string -> Option<Grid>): (process: ((string, string)) -> Result<Record, string>)
    ensures forall pair :: process(pair).Ok? <==>
              images(pair.0).Some? && images(pair.1).Some?
              && ProperCodes(images(pair.0).value.codes) && ProperCodes(images(pair.1).value.codes)
    ensures forall pair :: process(pair).Ok? ==> process(pair).value.subject == SubjectContrastKey(pair.0)
    ensures forall pair :: process(pair).Ok? ==>
              && CheckAndReorient(images(pair.0).value, RAS).Ok? && CheckAndReorient(images(pair.1).value, RAS).Ok?
              && process(pair).value.value
                 == SliceOffset(CheckAndReorient(images(pair.0).value, RAS).value, CheckAndReorient(images(pair.1).value, RAS).value)
  {
    (pair: (string, string)) => ProcessSegmentation(pair.0, pair.1, images)
  }

  /** The records of `main`'s loop, one per pair in order, or the first
      exception raised. */
  function EvaluateAll(pairs: seq<(string, string)>, process: ((string, string)) -> Result<Record, string>): (r: Result<seq<Record>, string>)
    ensures r.Ok? <==> forall i | 0 <= i < |pairs| :: process(pairs[i]).Ok?
    ensures r.Ok? ==> |r.value| == |pairs| && forall i | 0 <= i < |pairs| :: r.value[i] == process(pairs[i]).value
    ensures r.Err? ==> exists i | 0 <= i < |pairs| :: process(pairs[i]) == Err(r.error)
    decreases |pairs|
  {
    if pairs == [] then Ok([])
    else
      assert forall i | 1 <= i < |pairs| :: pairs[i] == pairs[1..][i - 1];
      match process(pairs[0])
      case Err(e) => Err(e)
      case Ok(first) =>
        match EvaluateAll(pairs[1..], process)
        case Err(e) => Err(e)
        case Ok(rest) => Ok([first] + rest)
  }

  /** The `for seg_file, label_file in paired_files` loop of `main`. */
  method EvaluatePairs(pairs: seq<(string, string)>, process: ((string, string)) -> Result<Record, string>)
    returns (r: Result<seq<Record>, string>)
    ensures r == EvaluateAll(pairs, process)
  {
    var results: seq<Record> := [];
    var i := 0;
    assert pairs[0..] == pairs;
    if EvaluateAll(pairs, process).Ok? {
      assert [] + EvaluateAll(pairs, process).value == EvaluateAll(pairs, process).value;
    }
    while i < |pairs|
      invariant 0 <= i <= |pairs|
      invariant EvaluateAll(pairs, process) == ResumeFrom(results, pairs[i..], process)
    {
      ResumeStep(results, pairs[i..], process);
      assert pairs[i..][0] == pairs[i] && pairs[i..][1..] == pairs[i + 1..];
      var result := process(pairs[i]);
      if result.Err? {
        return Err(result.error);
      }
      results := results + [result.value];
      i := i + 1;
    }
    assert pairs[i..] == [];
    assert results + [] == results;
    r := Ok(results);
  }

  /** What the loop yields when `done` holds the records so far and `rest`
      the pairs still to process. */
  function ResumeFrom(done: seq<Record>, rest: seq<(string, string)>, process: ((string, string)) -> Result<Record, string>)
    : Result<seq<Record>, string>
  {
    match EvaluateAll(rest, process)
    case Ok(more) => Ok(done + more)
    case Err(e) => Err(e)
  }

  /** One turn of the loop: the next pair either raises or adds its record. */
  lemma ResumeStep(done: seq<Record>, rest: seq<(string, string)>, process: ((string, string)) -> Result<Record, string>)
    requires rest != []
    ensures var r := process(rest[0]);
            ResumeFrom(done, rest, process) == if r.Err? then Err(r.error) else ResumeFrom(done + [r.value], rest[1..], process)
  {
    var r := process(rest[0]);
    if r.Ok? {
      match EvaluateAll(rest[1..], process)
      case Ok(more) => assert done + ([r.value] + more) == done + [r.value] + more;
      case Err(e) =>
    }
  }

  /** Each record of the loop carries the key of its segmentation path, and
      pairs built by `PairFiles` give records with distinct subjects. */
  lemma RecordsHaveDistinctSubjects(segFiles: seq<string>, labelFiles: seq<string>, images: string -> Option<Grid>)
    requires EvaluateAll(PairFiles(segFiles, labelFiles, SubjectContrastKey), Processor(images)).Ok?
    ensures var pairs := PairFiles(segFiles, labelFiles, SubjectContrastKey);
            var records := EvaluateAll(pairs, Processor(images)).value;
            && (forall i | 0 <= i < |pairs| :: records[i].subject == SubjectContrastKey(pairs[i].0))
            && DistinctSubjects(records)
  {
    var pairs := PairFiles(segFiles, labelFiles, SubjectContrastKey);
    forall i | 0 <= i < |pairs| ensures EvaluateAll(pairs, Processor(images)).value[i].subject == SubjectContrastKey(pairs[i].0) {
      RecordSubjectIsKey(pairs, images, i);
    }
    SortedPairsGiveDistinctRecords(pairs, images);
  }

  /** The record of the `i`-th pair carries the key of its segmentation path. */
  lemma RecordSubjectIsKey(pairs: seq<(string, string)>, images: string -> Option<Grid>, i: nat)
    requires EvaluateAll(pairs, Processor(images)).Ok?
    requires i < |pairs|
    ensures EvaluateAll(pairs, Processor(images)).value[i].subject == SubjectContrastKey(pairs[i].0)
  {
    ProcessorApplies(images, pairs[i]);
  }

  /** Pairs with strictly increasing keys give records with distinct
      subjects. */
  lemma SortedPairsGiveDistinctRecords(pairs: seq<(string, string)>, images: string -> Option<Grid>)
    requires StrictlySorted(PairKeys(pairs, SubjectContrastKey))
    requires EvaluateAll(pairs, Processor(images)).Ok?
    ensures DistinctSubjects(EvaluateAll(pairs, Processor(images)).value)
  {
    var records := EvaluateAll(pairs, Processor(images)).value;
    var keys := PairKeys(pairs, SubjectContrastKey);
    forall i | 0 <= i < |pairs| ensures records[i].subject == keys[i] {
      ProcessorApplies(images, pairs[i]);
    }
    KeyedRecordsAreDistinct(records, keys);
  }

  lemma ProcessorApplies(images: string -> Option<Grid>, pair: (string, string))
    ensures Processor(images)(pair) == ProcessSegmentation(pair.0, pair.1, images)
  {
  }

  /** Records whose subjects follow strictly increasing keys have distinct
      subjects. */
  lemma KeyedRecordsAreDistinct(records: seq<Record>, keys: seq<string>)
    requires |records| == |keys| && forall i | 0 <= i < |keys| :: records[i].subject == keys[i]
    requires StrictlySorted(keys)
    ensures DistinctSubjects(records)
  {
    assert RecordSubjects(records) == keys;
    StrictlySortedIsDistinct(keys);
  }

  lemma StrictlySortedIsDistinct(keys: seq<string>)
    requires StrictlySorted(keys)
    ensures Distinct(keys)
  {
    forall i, j | 0 <= i < j < |keys| ensures keys[i] != keys[j] {
      assert LexLess(keys[i], keys[j]);
      LexLessIrreflexive(keys[i]);
    }
  }

  /** How a run of `main` ends. */
  datatype RunOutcome =
    | NoFiles               // one of the two file lists is empty: nothing is saved
    | Failed(reason: string) // an image could not be loaded or reoriented
    | Saved(outcome: SaveOutcome)

  /** `main` of creer_GT/seg_vs_label.py as a value: the outcome for given
      glob results, user patterns, images, file contents and method name.
      It stops without files; otherwise it evaluates every pair, stopping at
      the first exception, and saves the records into the file. */
  function MainOutcome(segGlob: seq<string>, labelGlob: seq<string>, segMatches: string -> bool, labelMatches: string -> bool,
               images: string -> Option<Grid>, stored: Option<Table>, methode: string): (o: RunOutcome)
    requires stored.Some? ==> WellFormed(stored.value)
    ensures o == NoFiles <==> FindFiles(segGlob, segMatches) == [] || FindFiles(labelGlob, labelMatches) == []
    ensures var run := EvaluateAll(PairFiles(FindFiles(segGlob, segMatches), FindFiles(labelGlob, labelMatches), SubjectContrastKey),
                                   Processor(images));
            && (o.Failed? <==> FindFiles(segGlob, segMatches) != [] && FindFiles(labelGlob, labelMatches) != [] && run.Err?)
            && (o.Failed? ==> o.reason == run.error)
            && (o.Saved? ==> run.Ok? && DistinctSubjects(run.value) && o.outcome == SaveToFile(stored, run.value, methode))
  {
    var segFiles := FindFiles(segGlob, segMatches);
    var labelFiles := FindFiles(labelGlob, labelMatches);
    var pairs := PairFiles(segFiles, labelFiles, SubjectContrastKey);
    if segFiles == [] || labelFiles == [] then NoFiles
    else
      match EvaluateAll(pairs, Processor(images))
      case Err(e) => Failed(e)
      case Ok(records) =>
        RecordsHaveDistinctSubjects(segFiles, labelFiles, images);
        Saved(SaveToFile(stored, records, methode))
  }

  /** `main`: find, pair, evaluate, and save into the result file. */
  method RunMain(file: ResultFile, segGlob: seq<string>, labelGlob: seq<string>,
              segMatches: string -> bool, labelMatches: string -> bool,
              images: string -> Option<Grid>, methode: string) returns (o: RunOutcome)
    requires file.Valid()
    modifies file
    ensures file.Valid()
    ensures o == MainOutcome(segGlob, labelGlob, segMatches, labelMatches, images, old(file.stored), methode)
    ensures file.stored == (if o.Saved? then AfterFile(old(file.stored), o.outcome) else old(file.stored))
  {
    var segFiles := FindFiles(segGlob, segMatches);
    var labelFiles := FindFiles(labelGlob, labelMatches);
    var pairs := PairFiles(segFiles, labelFiles, SubjectContrastKey);
    if segFiles == [] || labelFiles == [] {
      return NoFiles;
    }
    var results := EvaluatePairs(pairs, Processor(images));
    if results.Err? {
      return Failed(results.error);
    }
    RecordsHaveDistinctSubjects(segFiles, labelFiles, images);
    var saved := file.SaveResults(results.value, methode);
    o := Saved(saved);
  }

  // ---------------------------------------------------------------------
  // GT_vs_label.py
  // ---------------------------------------------------------------------

  /** The default `-margin`. */
  const DefaultMargin := 5

  /** Why the root script stops with an exception. */
  datatype PlaneError =
    | EmptySegmentation // `np.min` of no index
    | PlaneOutOfRange   // an index below `-depth`

  /** `z_upper_limit`: `min(topLabel + margin, depth - 1)`. */
  function UpperLimit(topLabel: nat, margin: int, depth: nat): (z: int)
    ensures z <= topLabel + margin && z <= depth - 1
    ensures z == topLabel + margin || z == depth - 1
  {
    if topLabel + margin < depth - 1 then topLabel + margin else depth - 1
  }

  /** The plane numpy reads for index `z` of an axis of length `depth`:
      negative indices count from the end, and below `-depth` is an error. */
  function ResolveIndex(z: int, depth: nat): (p: Option<nat>)
    requires z < depth
    ensures p.Some? <==> -(depth as int) <= z
    ensures p.Some? ==> p.value < depth && (p.value == z || p.value == z + depth)
  {
    if z < -(depth as int) then None
    else if z < 0 then Some(z + depth)
    else Some(z)
  }

  /** `(min_z_seg, max_z_seg)`, printed before the check. */
  function SegExtent(seg: Volume): (e: Option<(nat, nat)>)
    requires Valid(seg)
    ensures e.None? <==> forall z: nat :: !PlaneHas(seg, Positive, z)
    ensures e.Some? ==> e.value.0 <= e.value.1 < seg.shape[2]
    ensures e.Some? ==> forall z: nat | z < e.value.0 || z > e.value.1 :: !PlaneHas(seg, Positive, z)
  {
    ExtentOrdered(seg, Positive);
    match (LowestZ(seg, Positive), HighestZ(seg, Positive))
    case (Some(lo), Some(hi)) => Some((lo, hi))
    case _ => None
  }

  /** `main` of GT_vs_label.py: `False` without a label; otherwise whether
      some segmented voxel lies on the plane `margin` slices above the
      highest labelled plane, clamped to the last slice. */
  function TouchesPlane(seg: Volume, labelImg: Volume, margin: int): (r: Result<bool, PlaneError>)
    requires Valid(seg) && Valid(labelImg)
    ensures HighestZ(labelImg, NonZero).None? ==> r == Ok(false)
    ensures HighestZ(labelImg, NonZero).Some? && SegExtent(seg).None? ==> r == Err(EmptySegmentation)
    ensures r.Ok? && HighestZ(labelImg, NonZero).Some? ==>
              var p := ResolveIndex(UpperLimit(HighestZ(labelImg, NonZero).value, margin, seg.shape[2]), seg.shape[2]);
              p.Some? && (r.value <==> PlaneHas(seg, Positive, p.value))
    ensures HighestZ(labelImg, NonZero).Some? && SegExtent(seg).Some? ==>
              var p := ResolveIndex(UpperLimit(HighestZ(labelImg, NonZero).value, margin, seg.shape[2]), seg.shape[2]);
              (r.Ok? <==> p.Some?) && (r.Err? ==> r.error == PlaneOutOfRange)
  {
    match HighestZ(labelImg, NonZero)
    case None => Ok(false)
    case Some(topLabel) =>
      var limit := UpperLimit(topLabel, margin, seg.shape[2]);
      if SegExtent(seg).None? then Err(EmptySegmentation)
      else
        match ResolveIndex(limit, seg.shape[2])
        case None => Err(PlaneOutOfRange)
        case Some(p) => Ok(PlaneHas(seg, Positive, p))
  }

  /** With a non-negative margin the plane checked is `margin` slices above
      the highest labelled plane, or the last slice when that lies beyond it. */
  lemma PlaneAboveLabel(seg: Volume, labelImg: Volume, margin: int)
    requires Valid(seg) && Valid(labelImg) && margin >= 0
    requires HighestZ(labelImg, NonZero).Some? && SegExtent(seg).Some?
    ensures var topLabel := HighestZ(labelImg, NonZero).value;
            var depth := seg.shape[2];
            TouchesPlane(seg, labelImg, margin).Ok?
            && (TouchesPlane(seg, labelImg, margin).value <==>
                  PlaneHas(seg, Positive, if topLabel + margin <= depth - 1 then topLabel + margin else depth - 1))
  {
  }

  /** Voxels off the checked plane never change the answer. */
  lemma OnlyThePlaneMatters(seg1: Volume, seg2: Volume, labelImg: Volume, margin: int, p: nat)
    requires Valid(seg1) && Valid(seg2) && Valid(labelImg) && seg1.shape == seg2.shape
    requires HighestZ(labelImg, NonZero).Some?
    requires SegExtent(seg1).Some? && SegExtent(seg2).Some?
    requires ResolveIndex(UpperLimit(HighestZ(labelImg, NonZero).value, margin, seg1.shape[2]), seg1.shape[2]) == Some(p)
    requires forall x, y | 0 <= x < seg1.shape[0] && 0 <= y < seg1.shape[1] :: seg1.data[x][y][p] == seg2.data[x][y][p]
    ensures TouchesPlane(seg1, labelImg, margin) == TouchesPlane(seg2, labelImg, margin)
  {
    SamePlaneSameAnswer(seg1, seg2, p);
  }

  lemma SamePlaneSameAnswer(seg1: Volume, seg2: Volume, p: nat)
    requires Valid(seg1) && Valid(seg2) && seg1.shape == seg2.shape && p < seg1.shape[2]
    requires forall x, y | 0 <= x < seg1.shape[0] && 0 <= y < seg1.shape[1] :: seg1.data[x][y][p] == seg2.data[x][y][p]
    ensures PlaneHas(seg1, Positive, p) == PlaneHas(seg2, Positive, p)
  {
    if PlaneHas(seg1, Positive, p) {
      var x, y :| 0 <= x < seg1.shape[0] && 0 <= y < seg1.shape[1] && Selected(Positive, seg1.data[x][y][p]);
      assert Selected(Positive, seg2.data[x][y][p]);
    }
    if PlaneHas(seg2, Positive, p) {
      var x, y :| 0 <= x < seg2.shape[0] && 0 <= y < seg2.shape[1] && Selected(Positive, seg2.data[x][y][p]);
      assert Selected(Positive, seg1.data[x][y][p]);
    }
  }
}
