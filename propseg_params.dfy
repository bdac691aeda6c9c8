/** Adaptive PropSeg runs of creer_GT/modification_propseg.py and
    creer_GT/mod_propseg_retro.py: which rows of the offset table are
    re-segmented, with which parameters, from which files and into which
    output paths, and which runs are logged. */
module PropsegParams {
  import opened Wrappers
  import opened Text
  import opened Identity

  // ---------------------------------------------------------------------
  // re.match(r"(sub-[a-zA-Z0-9]+)(T1w|T2w)", Sujet)
  // ---------------------------------------------------------------------

  /** `T1w` or `T2w` starts at `k`. */
  predicate ContrastAt(s: string, k: nat) {
    k + 3 <= |s| && (s[k..k + 3] == "T1w" || s[k..k + 3] == "T2w")
  }

  /** The pattern, anchored at the start, matches with its first group
      ending at `k`: `sub-`, one or more `[a-zA-Z0-9]`, then a contrast. */
  predicate GroupsSplitAt(s: string, k: nat) {
    && StartsWith(s, "sub-") && 5 <= k && ContrastAt(s, k)
    && (forall j | 4 <= j < k :: IsAlnum(s[j]))
  }

  /** The largest `j` in `[5, k]` at which a contrast starts. */
  function LastContrastUpTo(s: string, k: nat): (r: Option<nat>)
    ensures r.Some? ==> 5 <= r.value <= k && ContrastAt(s, r.value)
    ensures forall j: nat | 5 <= j <= k && ContrastAt(s, j) :: r.Some? && j <= r.value
    decreases k
  {
    if k < 5 then None
    else if ContrastAt(s, k) then Some(k)
    else LastContrastUpTo(s, k - 1)
  }

  /** Where the greedy first group ends: `[a-zA-Z0-9]+` takes as much as
      it can and gives back characters until a contrast follows. */
  function GreedySplit(s: string): (r: Option<nat>)
    ensures r.Some? ==> GroupsSplitAt(s, r.value)
    ensures forall k: nat | GroupsSplitAt(s, k) :: r.Some? && k <= r.value
  {
    if !StartsWith(s, "sub-") then None
    else
      var e := AlnumRunEnd(s, 4);
      var r := LastContrastUpTo(s, e);
      r
  }

  /** `(match.group(1), match.group(2))`, or `None` when `re.match` fails. */
  function MatchSujet(name: string): (r: Option<(string, string)>)
    ensures r.None? <==> forall k: nat :: !GroupsSplitAt(name, k)
    ensures r.Some? ==> StartsWith(name, r.value.0 + r.value.1)
    ensures r.Some? ==> StartsWith(r.value.0, "sub-") && |r.value.0| >= 5
    ensures r.Some? ==> r.value.1 == "T1w" || r.value.1 == "T2w"
    ensures r.Some? ==> forall k: nat | GroupsSplitAt(name, k) :: k <= |r.value.0|
    ensures r.Some? ==> GroupsSplitAt(name, |r.value.0|) && r.value.1 == name[|r.value.0|..|r.value.0| + 3]
  {
    match GreedySplit(name)
    case None => None
    case Some(k) =>
      assert name[..k + 3] == name[..k] + name[k..k + 3];
      assert name[..k][..4] == name[..4];
      Some((name[..k], name[k..k + 3]))
  }

  /** A `Sujet` column value built as subject plus contrast parses back. */
  lemma MatchSujetRoundTrip(subject: string, contrast: string)
    requires StartsWith(subject, "sub-") && |subject| >= 5
    requires forall j | 4 <= j < |subject| :: IsAlnum(subject[j])
    requires contrast == "T1w" || contrast == "T2w"
    requires forall j: nat | 5 <= j < |subject| :: !ContrastAt(subject + contrast, j)
    ensures MatchSujet(subject + contrast) == Some((subject, contrast))
  {
    var s := subject + contrast;
    var k := |subject|;
    assert s[k..k + 3] == contrast;
    assert s[..4] == subject[..4];
    assert GroupsSplitAt(s, k);
    assert s[..k] == subject;
  }

  /** `contrast`: the PropSeg contrast name of a BIDS suffix. */
  function PropsegContrast(nomContraste: string): (c: string)
    requires nomContraste == "T1w" || nomContraste == "T2w"
    ensures nomContraste == "T1w" <==> c == "t1"
    ensures c == "t1" || c == "t2"
  {
    if nomContraste == "T1w" then "t1" else "t2"
  }

  // ---------------------------------------------------------------------
  // Parameter rules
  // ---------------------------------------------------------------------

  /** `max_area`, `max_deformation`, `min_contrast` of one `sct_propseg`
      command. */
  datatype Params = Params(maxArea: int, maxDeformation: real, minContrast: int)

  /** The rule of creer_GT/modification_propseg.py. */
  function AdaptiveParams(value: real): (p: Params)
    ensures value > 5.0 ==> p == Params(120, 2.5, 50)
    ensures 2.0 < value <= 5.0 ==> p == Params(300, 5.0, 30)
    ensures value <= 2.0 ==> p == Params(400, 6.0, 20)
  {
    if value > 5.0 then Params(120, 2.5, 50)
    else if value > 2.0 then Params(300, 5.0, 30)
    else Params(400, 6.0, 20)
  }

  /** The rule of creer_GT/mod_propseg_retro.py. */
  function RetroParams(value: real): (p: Params)
    ensures value < 2.0 ==> p == Params(100, 2.0, 30)
    ensures value >= 2.0 ==> p == Params(150, 3.0, 50)
  {
    if value < 2.0 then Params(100, 2.0, 30) else Params(150, 3.0, 50)
  }

  /** The lower the offset, the more freedom the adaptive rule gives
      PropSeg: never a smaller area or deformation, never a larger
      contrast threshold. */
  lemma AdaptiveParamsMonotone(v: real, w: real)
    requires v <= w
    ensures AdaptiveParams(v).maxArea >= AdaptiveParams(w).maxArea
    ensures AdaptiveParams(v).maxDeformation >= AdaptiveParams(w).maxDeformation
    ensures AdaptiveParams(v).minContrast <= AdaptiveParams(w).minContrast
  {
  }

  /** The retrospective rule goes the other way: a lower offset never gives
      a larger area or deformation, nor a larger contrast threshold. */
  lemma RetroParamsMonotone(v: real, w: real)
    requires v <= w
    ensures RetroParams(v).maxArea <= RetroParams(w).maxArea
    ensures RetroParams(v).maxDeformation <= RetroParams(w).maxDeformation
    ensures RetroParams(v).minContrast <= RetroParams(w).minContrast
  {
  }

  // ---------------------------------------------------------------------
  // generer_liste_images
  // ---------------------------------------------------------------------

  /** The script: creer_GT/modification_propseg.py or
      creer_GT/mod_propseg_retro.py. */
  datatype Variant = Adaptive | Retro

  /** A row of the offset table: `Sujet` and `propseg`, missing as `None`. */
  datatype Row = Row(sujet: string, propseg: Option<real>)

  /** One element of `image_param_list`. */
  datatype ImageParam = ImageParam(path: string, subject: string, contrast: string, propsegValue: real,
                                   params: Params, outputPath: string)

  /** The row filter: `propseg` present, and below 5 for the
      retrospective script. */
  predicate Kept(variant: Variant, row: Row)
    ensures Kept(variant, row) <==> row.propseg.Some? && (variant == Retro ==> row.propseg.value < 5.0)
  {
    match variant
    case Adaptive => row.propseg.Some?
    case Retro => row.propseg.Some? && row.propseg.value < 5.0
  }

  function ParamsFor(variant: Variant, value: real): Params {
    match variant
    case Adaptive => AdaptiveParams(value)
    case Retro => RetroParams(value)
  }

  /** `file_pattern`: one file of `data-multi-subject`, or every BIDS file
      of the contrast under `data_preprocessed`. */
  function FilePattern(variant: Variant, sujet: string, nomContraste: string): (pattern: string)
    ensures variant == Adaptive ==> EndsWith(pattern, sujet + "_" + nomContraste + ".nii.gz")
    ensures variant == Retro ==> EndsWith(pattern, "*" + nomContraste + "*.nii.gz")
  {
    match variant
    case Adaptive =>
      PathJoin(PathJoin(PathJoin("data-multi-subject", sujet), "anat"), sujet + "_" + nomContraste + ".nii.gz")
    case Retro =>
      PathJoin(PathJoin(PathJoin("data-multi-subject/derivatives/data_preprocessed", sujet), "anat"), "*" + nomContraste + "*.nii.gz")
  }

  /** `os.path.join(output_dir, f"{sujet}_{nom_contraste}_propseg.nii.gz")`. */
  function OutputPath(outputDir: string, sujet: string, nomContraste: string): (path: string)
    ensures EndsWith(path, sujet + "_" + nomContraste + "_propseg.nii.gz")
    ensures '/' !in sujet ==> StartsWith(path, outputDir)
  {
    var name := sujet + "_" + nomContraste + "_propseg.nii.gz";
    assert '/' !in sujet ==> name[0] != '/' by { assert name[0] == if sujet == "" then '_' else sujet[0]; }
    PathJoin(outputDir, name)
  }

  /** One entry per file, the file in `path` and everything else from
      `t`. */
  function FileEntries(files: seq<string>, t: ImageParam): (r: seq<ImageParam>)
    ensures |r| == |files|
    ensures forall i | 0 <= i < |r| :: r[i] == t.(path := files[i])
    decreases |files|
  {
    if files == [] then [] else FileEntries(files[..|files| - 1], t) + [t.(path := files[|files| - 1])]
  }

  /** The entry a kept, parsable row gives each of its files. */
  function RowTemplate(variant: Variant, row: Row, outputDir: string): ImageParam
    requires Kept(variant, row) && MatchSujet(row.sujet).Some?
  {
    var (sujet, nom) := MatchSujet(row.sujet).value;
    var value := row.propseg.value;
    ImageParam("", sujet, PropsegContrast(nom), value, ParamsFor(variant, value), OutputPath(outputDir, sujet, nom))
  }

  /** The files `glob` returns for a kept, parsable row's pattern. */
  function RowFiles(variant: Variant, row: Row, glob: string -> seq<string>): seq<string>
    requires MatchSujet(row.sujet).Some?
  {
    var (sujet, nom) := MatchSujet(row.sujet).value;
    glob(FilePattern(variant, sujet, nom))
  }

  /** The entries one row contributes: one per file `glob` returns for its
      pattern, none for a filtered-out or unparsable row. */
  function RowEntries(variant: Variant, row: Row, outputDir: string, glob: string -> seq<string>): (entries: seq<ImageParam>)
    ensures !Kept(variant, row) || MatchSujet(row.sujet).None? ==> entries == []
    ensures Kept(variant, row) && MatchSujet(row.sujet).Some? ==> |entries| == |RowFiles(variant, row, glob)|
    ensures forall e | e in entries :: FromRow(variant, row, outputDir, glob, e)
  {
    if Kept(variant, row) && MatchSujet(row.sujet).Some? then
      var entries := FileEntries(RowFiles(variant, row, glob), RowTemplate(variant, row, outputDir));
      assert forall e | e in entries :: FromRow(variant, row, outputDir, glob, e) by {
        forall e | e in entries ensures FromRow(variant, row, outputDir, glob, e) {
          var k :| 0 <= k < |entries| && entries[k] == e;
          assert e.path == RowFiles(variant, row, glob)[k];
        }
      }
      entries
    else []
  }

  /** The entries of the rows `rows`, each row's contribution after the
      previous rows'. */
  function Collect(rows: seq<Row>, contribution: Row -> seq<ImageParam>): seq<ImageParam>
    decreases |rows|
  {
    if rows == [] then []
    else Collect(rows[..|rows| - 1], contribution) + contribution(rows[|rows| - 1])
  }

  lemma {:induction false} CollectConcat(a: seq<Row>, b: seq<Row>, contribution: Row -> seq<ImageParam>)
    ensures Collect(a + b, contribution) == Collect(a, contribution) + Collect(b, contribution)
    decreases |b|
  {
    if b == [] {
      assert a + b == a;
    } else {
      var b' := b[..|b| - 1];
      assert (a + b)[..|a + b| - 1] == a + b';
      assert (a + b)[|a + b| - 1] == b[|b| - 1];
      CollectConcat(a, b', contribution);
    }
  }

  lemma {:induction false} CollectMembers(rows: seq<Row>, contribution: Row -> seq<ImageParam>, e: ImageParam)
    requires e in Collect(rows, contribution)
    ensures exists i | 0 <= i < |rows| :: e in contribution(rows[i])
    decreases |rows|
  {
    var init := rows[..|rows| - 1];
    if e in Collect(init, contribution) {
      CollectMembers(init, contribution, e);
      var i :| 0 <= i < |init| && e in contribution(init[i]);
      assert rows[i] == init[i];
    }
  }

  function Contribution(variant: Variant, outputDir: string, glob: string -> seq<string>): Row -> seq<ImageParam> {
    row => RowEntries(variant, row, outputDir, glob)
  }

  /** `image_param_list` after the rows `rows`: every entry comes from
      one of the rows. */
  function ImageParams(variant: Variant, rows: seq<Row>, outputDir: string, glob: string -> seq<string>): (list: seq<ImageParam>)
    ensures forall e | e in list :: exists i | 0 <= i < |rows| :: FromRow(variant, rows[i], outputDir, glob, e)
  {
    var contribution := Contribution(variant, outputDir, glob);
    var list := Collect(rows, contribution);
    assert forall e | e in list :: exists i | 0 <= i < |rows| :: FromRow(variant, rows[i], outputDir, glob, e) by {
      forall e | e in list ensures exists i | 0 <= i < |rows| :: FromRow(variant, rows[i], outputDir, glob, e) {
        CollectMembers(rows, contribution, e);
        var i :| 0 <= i < |rows| && e in contribution(rows[i]);
        assert e in RowEntries(variant, rows[i], outputDir, glob);
      }
    }
    list
  }

  /** The list is the rows' contributions in row order: the list of a
      table is the list of its first rows followed by the list of the
      others. */
  lemma ImageParamsConcat(variant: Variant, a: seq<Row>, b: seq<Row>, outputDir: string, glob: string -> seq<string>)
    ensures ImageParams(variant, a + b, outputDir, glob) == ImageParams(variant, a, outputDir, glob) + ImageParams(variant, b, outputDir, glob)
  {
    CollectConcat(a, b, Contribution(variant, outputDir, glob));
  }

  /** `e` is one of the entries the row `row` contributes: the row is
      kept and parses, `e` names a file `glob` returned for the row's
      pattern, and carries the row's subject, contrast, value, the rule's
      parameters for that value and the row's output path. */
  predicate FromRow(variant: Variant, row: Row, outputDir: string, glob: string -> seq<string>, e: ImageParam) {
    && Kept(variant, row) && MatchSujet(row.sujet).Some?
    && var (sujet, nom) := MatchSujet(row.sujet).value;
    && e.subject == sujet && e.contrast == PropsegContrast(nom)
    && e.path in glob(FilePattern(variant, sujet, nom))
    && e.propsegValue == row.propseg.value && e.params == ParamsFor(variant, e.propsegValue)
    && e.outputPath == OutputPath(outputDir, sujet, nom)
  }

  /** `for fichier in fichiers: image_param_list.append(...)`. */
  method AppendFiles(files: seq<string>, t: ImageParam) returns (entries: seq<ImageParam>)
    ensures entries == FileEntries(files, t)
  {
    entries := [];
    var j := 0;
    while j < |files|
      invariant 0 <= j <= |files|
      invariant entries == FileEntries(files[..j], t)
    {
      assert files[..j + 1][..j] == files[..j];
      entries := entries + [t.(path := files[j])];
      j := j + 1;
    }
    assert files[..j] == files;
  }

  /** The entries of one row. */
  method RowImages(variant: Variant, row: Row, outputDir: string, glob: string -> seq<string>) returns (entries: seq<ImageParam>)
    ensures entries == RowEntries(variant, row, outputDir, glob)
  {
    entries := [];
    if Kept(variant, row) && MatchSujet(row.sujet).Some? {
      entries := AppendFiles(RowFiles(variant, row, glob), RowTemplate(variant, row, outputDir));
    }
  }

  /** The rows of the table are visited in order and each appends its
      entries. */
  method GenererListeImages(variant: Variant, rows: seq<Row>, outputDir: string, glob: string -> seq<string>)
    returns (imageParams: seq<ImageParam>)
    ensures imageParams == ImageParams(variant, rows, outputDir, glob)
  {
    ghost var contribution := Contribution(variant, outputDir, glob);
    imageParams := [];
    var i := 0;
    while i < |rows|
      invariant 0 <= i <= |rows|
      invariant imageParams == Collect(rows[..i], contribution)
    {
      assert rows[..i + 1][..i] == rows[..i];
      var entries := RowImages(variant, rows[i], outputDir, glob);
      assert entries == contribution(rows[i]);
      imageParams := imageParams + entries;
      i := i + 1;
    }
    assert rows[..i] == rows;
  }

  /** The adaptive script re-segments rows whatever their offset, the
      retrospective one only those below 5: a row at 5 or above with files
      gives the adaptive list entries and the retrospective list none, and
      above 5 the entries carry the tightest parameters. */
  lemma HighOffsetRows(row: Row, outputDir: string, glob: string -> seq<string>)
    requires row.propseg.Some? && row.propseg.value >= 5.0 && MatchSujet(row.sujet).Some?
    requires RowFiles(Adaptive, row, glob) != []
    ensures RowEntries(Adaptive, row, outputDir, glob) != []
    ensures RowEntries(Retro, row, outputDir, glob) == []
    ensures row.propseg.value > 5.0 ==> RowEntries(Adaptive, row, outputDir, glob)[0].params == Params(120, 2.5, 50)
  {
  }

  /** A row without a `propseg` value contributes to neither list. */
  lemma MissingValueRows(variant: Variant, row: Row, outputDir: string, glob: string -> seq<string>)
    requires row.propseg.None?
    ensures RowEntries(variant, row, outputDir, glob) == []
  {
  }

  // ---------------------------------------------------------------------
  // run_propseg
  // ---------------------------------------------------------------------

  /** One element of `log_entries`. */
  datatype LogEntry = LogEntry(subject: string, image: string, contrast: string, propsegValue: real,
                               params: Params, outputPath: string)

  function LogOf(e: ImageParam): LogEntry {
    LogEntry(e.subject, Basename(e.path), e.contrast, e.propsegValue, e.params, e.outputPath)
  }

  /** The log after the runs `entries`, where `succeeded` tells which
      `sct_propseg` commands exit with status 0. */
  function SuccessLog(entries: seq<ImageParam>, succeeded: ImageParam -> bool): (log: seq<LogEntry>)
    ensures |log| <= |entries|
    decreases |entries|
  {
    if entries == [] then []
    else
      var before := SuccessLog(entries[..|entries| - 1], succeeded);
      var last := entries[|entries| - 1];
      if succeeded(last) then before + [LogOf(last)] else before
  }

  /** Exactly the successful runs are logged. */
  lemma {:induction false} SuccessLogMembers(entries: seq<ImageParam>, succeeded: ImageParam -> bool)
    ensures forall e | e in entries && succeeded(e) :: LogOf(e) in SuccessLog(entries, succeeded)
    ensures forall l | l in SuccessLog(entries, succeeded) :: exists e | e in entries :: succeeded(e) && l == LogOf(e)
    decreases |entries|
  {
    if entries != [] {
      var init := entries[..|entries| - 1];
      var last := entries[|entries| - 1];
      SuccessLogMembers(init, succeeded);
      assert forall e | e in entries :: e in init || e == last;
      forall l | l in SuccessLog(entries, succeeded)
        ensures exists e | e in entries :: succeeded(e) && l == LogOf(e)
      {
        if l in SuccessLog(init, succeeded) {
          var e :| e in init && succeeded(e) && l == LogOf(e);
          assert e in entries;
        } else {
          assert last in entries;
        }
      }
    }
  }

  /** A failing command does not stop the loop: the log of a run is the
      log of its first part followed by the log of the rest. */
  lemma {:induction false} SuccessLogConcat(a: seq<ImageParam>, b: seq<ImageParam>, succeeded: ImageParam -> bool)
    ensures SuccessLog(a + b, succeeded) == SuccessLog(a, succeeded) + SuccessLog(b, succeeded)
    decreases |b|
  {
    if b == [] {
      assert a + b == a;
    } else {
      var b' := b[..|b| - 1];
      assert (a + b)[..|a + b| - 1] == a + b';
      assert (a + b)[|a + b| - 1] == b[|b| - 1];
      SuccessLogConcat(a, b', succeeded);
    }
  }

  /** `run_propseg` with a log file: one command per entry, a log entry for
      each command that succeeds. */
  method RunPropseg(entries: seq<ImageParam>, succeeded: ImageParam -> bool) returns (log: seq<LogEntry>)
    ensures log == SuccessLog(entries, succeeded)
  {
    log := [];
    var i := 0;
    while i < |entries|
      invariant 0 <= i <= |entries|
      invariant log == SuccessLog(entries[..i], succeeded)
    {
      assert entries[..i + 1][..i] == entries[..i];
      if succeeded(entries[i]) {
        log := log + [LogOf(entries[i])];
      }
      i := i + 1;
    }
    assert entries[..i] == entries;
  }
}
