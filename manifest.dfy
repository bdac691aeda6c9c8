/** make_yml.py: the subjects whose `sct_deepseg_sc` QC was validated, and
    the manifest of their anatomical images. The QC file is given as the
    list of its `(key, value)` items in file order. */
module Manifest {
  import opened Wrappers
  import opened Text

  /** The QC task whose validations count. */
  const QcTask := "sct_deepseg_sc_qc"

  /** The validation mark, U+2705. */
  const Validated := "\U{2705}"

  /** The two contrasts written for every qualifying subject, in order. */
  const ManifestContrasts := ["T1w", "T2w"]

  // ---------------------------------------------------------------------
  // One QC entry
  // ---------------------------------------------------------------------

  /** The entry is a validated `sct_deepseg_sc` QC. */
  predicate IsValidation(key: string, value: string) {
    Contains(key, QcTask) && Strip(value) == Validated
  }

  /** `parts[1]` and `parts[2].split(".")[0]` of `key.split("_")`, or
      `None` where they raise `IndexError`. */
  function ParseKey(key: string): (r: Option<(string, string)>)
    ensures r.None? <==> CountChar(key, '_') < 2
    ensures r.Some? ==> '_' !in r.value.0 && '_' !in r.value.1 && '.' !in r.value.1
  {
    var parts := Split(key, '_');
    if |parts| < 3 then None
    else
      var fields := Split(parts[2], '.');
      assert StartsWith(parts[2], fields[0]) by { FirstFieldIsPrefix(parts[2], '.'); }
      assert forall c | c in fields[0] :: c in parts[2];
      Some((parts[1], fields[0]))
  }

  /** What one `(key, value)` item contributes: the subject and contrast
      of a validation whose key has enough fields. */
  function QcEntry(item: (string, string)): (r: Option<(string, string)>)
    ensures r.Some? <==> IsValidation(item.0, item.1) && CountChar(item.0, '_') >= 2
    ensures r.Some? ==> '_' !in r.value.0 && '_' !in r.value.1 && '.' !in r.value.1
  {
    if IsValidation(item.0, item.1) then ParseKey(item.0) else None
  }

  /** `Split` on a string whose first field is `a`. */
  lemma SplitAfterFirst(a: string, rest: string, sep: char)
    requires sep !in a
    ensures Split(a + [sep] + rest, sep) == [a] + Split(rest, sep)
  {
    var s := a + [sep] + rest;
    var i := IndexOf(s, sep).value;
    assert s[|a|] == sep;
    assert s[..|a|] == a;
    assert i == |a|;
    assert s[i + 1..] == rest;
  }

  /** The task name holds three underscores. */
  lemma QcTaskUnderscores()
    ensures CountChar(QcTask, '_') == 3
  {
    QcTaskParts();
    var qc, sc, deepseg, sct := "qc", "sc", "deepseg", "sct";
    CountCharZero(qc, '_');
    CountOneSeparator(sc, qc, '_');
    CountOneSeparator(deepseg, sc + "_" + qc, '_');
    CountOneSeparator(sct, deepseg + "_" + (sc + "_" + qc), '_');
  }

  /** The task name is `sct`, `deepseg`, `sc` and `qc` joined by `_`. */
  lemma QcTaskParts()
    ensures QcTask == "sct" + "_" + ("deepseg" + "_" + ("sc" + "_" + "qc"))
  {
  }

  /** A separator after a part without one adds one to the count. */
  lemma CountOneSeparator(a: string, b: string, c: char)
    requires c !in a
    ensures CountChar(a + [c] + b, c) == 1 + CountChar(b, c)
  {
    CountCharConcat(a + [c], b, c);
    CountCharConcat(a, [c], c);
    CountCharZero(a, c);
  }

  /** A key holding a name with two underscores or more always has the
      fields the parse reads. */
  lemma KeysWithTheTaskParse(key: string, task: string)
    requires Contains(key, task) && CountChar(task, '_') >= 2
    ensures ParseKey(key).Some?
  {
    ContainsCountChar(key, task, '_');
  }

  /** So the `IndexError` branch never runs for a key that passes the
      filter. */
  lemma QcKeysParse(key: string)
    requires Contains(key, QcTask)
    ensures ParseKey(key).Some?
  {
    QcTaskUnderscores();
    KeysWithTheTaskParse(key, QcTask);
  }

  /** A key of the documented shape `<date>_<subject>_<contrast>.<ext>_...`
      gives its subject and contrast. */
  lemma ParseKeyShape(date: string, subject: string, contrast: string, ext: string, tail: string)
    requires '_' !in date && '_' !in subject && '_' !in contrast && '_' !in ext && '.' !in contrast
    ensures ParseKey(date + ['_'] + subject + ['_'] + (contrast + ['.'] + ext) + ['_'] + tail) == Some((subject, contrast))
  {
    var third := contrast + ['.'] + ext;
    assert '_' !in third;
    assert date + ['_'] + subject + ['_'] + third + ['_'] + tail == date + ['_'] + (subject + ['_'] + (third + ['_'] + tail));
    SplitAfterFirst(date, subject + ['_'] + (third + ['_'] + tail), '_');
    SplitAfterFirst(subject, third + ['_'] + tail, '_');
    SplitAfterFirst(third, tail, '_');
    SplitAfterFirst(contrast, ext, '.');
  }

  // ---------------------------------------------------------------------
  // subjects_validated
  // ---------------------------------------------------------------------

  /** `subjects_validated`: its keys in insertion order, and their sets. */
  datatype Validations = Validations(order: seq<string>, contrasts: map<string, set<string>>)

  /** `subjects_validated[subject].add(contrast)`. */
  function AddValidation(v: Validations, subject: string, contrast: string): Validations {
    if subject in v.contrasts then v.(contrasts := v.contrasts[subject := v.contrasts[subject] + {contrast}])
    else Validations(v.order + [subject], v.contrasts[subject := {contrast}])
  }

  /** The dictionary after the items `items`, `entry` telling what each
      contributes. */
  function ValidationsOf(items: seq<(string, string)>, entry: ((string, string)) -> Option<(string, string)>): (v: Validations)
    ensures forall s :: s in v.contrasts <==> s in v.order
    ensures forall s | s in v.contrasts :: v.contrasts[s] != {}
    ensures |v.order| <= |items|
    decreases |items|
  {
    if items == [] then Validations([], map[])
    else
      var v := ValidationsOf(items[..|items| - 1], entry);
      var item := items[|items| - 1];
      match entry(item)
      case None => v
      case Some((subject, contrast)) => AddValidation(v, subject, contrast)
  }

  /** An item contributes `(s, c)`. */
  predicate Contributes(items: seq<(string, string)>, entry: ((string, string)) -> Option<(string, string)>, i: int, s: string, c: string) {
    0 <= i < |items| && entry(items[i]) == Some((s, c))
  }

  /** Each subject is held once, with exactly the contrasts its entries
      gave. */
  lemma {:induction false} ValidationsSpec(items: seq<(string, string)>, entry: ((string, string)) -> Option<(string, string)>)
    ensures Distinct(ValidationsOf(items, entry).order)
    ensures forall s :: s in ValidationsOf(items, entry).contrasts <==> s in ValidationsOf(items, entry).order
    ensures forall s, c | s in ValidationsOf(items, entry).contrasts ::
              c in ValidationsOf(items, entry).contrasts[s] <==> exists i :: Contributes(items, entry, i, s, c)
    ensures forall s, c, i | Contributes(items, entry, i, s, c) :: s in ValidationsOf(items, entry).contrasts
    decreases |items|
  {
    if items != [] {
      var init := items[..|items| - 1];
      ValidationsSpec(init, entry);
      forall s, c, i | Contributes(init, entry, i, s, c) ensures Contributes(items, entry, i, s, c) {
        assert items[i] == init[i];
      }
      forall s, c, i | Contributes(items, entry, i, s, c) && i < |init| ensures Contributes(init, entry, i, s, c) {
        assert items[i] == init[i];
      }
      var v0 := ValidationsOf(init, entry);
      var v := ValidationsOf(items, entry);
      var last := items[|items| - 1];
      match entry(last)
      case None =>
      case Some((s, c)) =>
        assert Contributes(items, entry, |items| - 1, s, c);
        if s !in v0.contrasts {
          forall a, b | 0 <= a < b < |v.order| ensures v.order[a] != v.order[b] {
            if b == |v0.order| {
              assert v.order[a] == v0.order[a];
            }
          }
        }
        forall t, d | t in v.contrasts
          ensures d in v.contrasts[t] <==> exists i :: Contributes(items, entry, i, t, d)
        {
          if exists i :: Contributes(items, entry, i, t, d) {
            var i :| Contributes(items, entry, i, t, d);
            if i < |init| {
              assert Contributes(init, entry, i, t, d);
            }
          }
        }
    }
  }

  /** The dictionary's keys come in first-seen order: each was seen among
      the items, and a key comes before another exactly as its first entry
      comes before the other's. */
  lemma {:induction false} ValidationsFirstSeen(items: seq<(string, string)>, entry: ((string, string)) -> Option<(string, string)>)
    ensures FirstSeenOrder(items, entry, ValidationsOf(items, entry).order)
    decreases |items|
  {
    if items != [] {
      var init := items[..|items| - 1];
      ValidationsFirstSeen(init, entry);
      var v0 := ValidationsOf(init, entry);
      match entry(items[|items| - 1])
      case None =>
        FirstSeenExtends(items, entry, v0.order);
      case Some((s, c)) =>
        if s in v0.contrasts {
          FirstSeenExtends(items, entry, v0.order);
        } else {
          assert FirstKeyed(init, entry, s) == |init| by {
            ValidationsSpec(init, entry);
            var k := FirstKeyed(init, entry, s);
            if k < |init| {
              assert Contributes(init, entry, k, s, entry(init[k]).value.1);
            }
          }
          FirstSeenAppends(items, entry, v0.order, s);
        }
    }
  }

  /** Sets collapse repetitions: an entry repeating an earlier one, such as
      a second validation of the same image, changes nothing. */
  lemma RepeatedValidationCollapses(items: seq<(string, string)>, entry: ((string, string)) -> Option<(string, string)>,
                                    i: nat, item: (string, string))
    requires i < |items| && entry(items[i]) == entry(item)
    ensures ValidationsOf(items + [item], entry) == ValidationsOf(items, entry)
  {
    assert (items + [item])[..|items|] == items;
    match entry(item)
    case None =>
    case Some((s, c)) =>
      ContributionIsHeld(items, entry, i, s, c);
      AddHeldValidation(ValidationsOf(items, entry), s, c);
  }

  /** What an item contributed is in the dictionary. */
  lemma ContributionIsHeld(items: seq<(string, string)>, entry: ((string, string)) -> Option<(string, string)>,
                           i: nat, s: string, c: string)
    requires Contributes(items, entry, i, s, c)
    ensures s in ValidationsOf(items, entry).contrasts && c in ValidationsOf(items, entry).contrasts[s]
  {
    ValidationsSpec(items, entry);
  }

  /** Adding a contrast already held changes nothing. */
  lemma AddHeldValidation(v: Validations, s: string, c: string)
    requires s in v.contrasts && c in v.contrasts[s]
    ensures AddValidation(v, s, c) == v
  {
    assert v.contrasts[s] + {c} == v.contrasts[s];
    assert v.contrasts[s := v.contrasts[s]] == v.contrasts;
  }

  /** The first loop of make_yml.py. */
  method CollectValidations(items: seq<(string, string)>) returns (order: seq<string>, contrasts: map<string, set<string>>)
    ensures Validations(order, contrasts) == ValidationsOf(items, QcEntry)
  {
    order := [];
    contrasts := map[];
    var i := 0;
    while i < |items|
      invariant 0 <= i <= |items|
      invariant Validations(order, contrasts) == ValidationsOf(items[..i], QcEntry)
    {
      assert items[..i + 1][..i] == items[..i];
      var (key, value) := items[i];
      if Contains(key, QcTask) && Strip(value) == Validated {
        var parts := Split(key, '_');
        if |parts| >= 3 {
          var subject := parts[1];
          var contrast := Split(parts[2], '.')[0];
          if subject in contrasts {
            contrasts := contrasts[subject := contrasts[subject] + {contrast}];
          } else {
            order := order + [subject];
            contrasts := contrasts[subject := {contrast}];
          }
        }
      }
      i := i + 1;
    }
    assert items[..i] == items;
  }

  // ---------------------------------------------------------------------
  // subjects_yml["data-multi-subject"]
  // ---------------------------------------------------------------------

  /** `f"{subject}/anat/{subject}_{contrast}.nii.gz"`. */
  function ManifestPath(subject: string, contrast: string): string {
    subject + "/anat/" + subject + "_" + contrast + ".nii.gz"
  }

  /** A subject is written when `T1w` or `T2w` was validated. */
  predicate Qualifies(contrasts: set<string>) {
    "T1w" in contrasts || "T2w" in contrasts
  }

  /** Reference: the subjects that are written, in dictionary order. */
  function QualifyingSubjects(order: seq<string>, contrasts: map<string, set<string>>): (q: seq<string>)
    ensures forall s :: s in q <==> s in order && s in contrasts && Qualifies(contrasts[s])
    decreases |order|
  {
    if order == [] then []
    else
      var init := order[..|order| - 1];
      var s := order[|order| - 1];
      assert forall t | t in order :: t in init || t == s;
      QualifyingSubjects(init, contrasts) + (if s in contrasts && Qualifies(contrasts[s]) then [s] else [])
  }

  /** The manifest, one pair of paths after another. */
  function ManifestOf(order: seq<string>, contrasts: map<string, set<string>>): (paths: seq<string>)
    ensures |paths| % 2 == 0 && |paths| <= 2 * |order|
    decreases |order|
  {
    if order == [] then []
    else
      var s := order[|order| - 1];
      ManifestOf(order[..|order| - 1], contrasts)
      + (if s in contrasts && Qualifies(contrasts[s]) then [ManifestPath(s, "T1w"), ManifestPath(s, "T2w")] else [])
  }

  /** Two paths per qualifying subject, its `T1w` image then its `T2w`
      image, subjects in dictionary order. */
  lemma {:induction false} ManifestShape(order: seq<string>, contrasts: map<string, set<string>>)
    ensures |ManifestOf(order, contrasts)| == 2 * |QualifyingSubjects(order, contrasts)|
    ensures forall j | 0 <= j < |QualifyingSubjects(order, contrasts)| ::
              && ManifestOf(order, contrasts)[2 * j] == ManifestPath(QualifyingSubjects(order, contrasts)[j], "T1w")
              && ManifestOf(order, contrasts)[2 * j + 1] == ManifestPath(QualifyingSubjects(order, contrasts)[j], "T2w")
    decreases |order|
  {
    if order != [] {
      ManifestShape(order[..|order| - 1], contrasts);
    }
  }

  /** The second loop of make_yml.py. */
  method BuildManifest(order: seq<string>, contrasts: map<string, set<string>>) returns (paths: seq<string>)
    ensures paths == ManifestOf(order, contrasts)
  {
    paths := [];
    var k := 0;
    while k < |order|
      invariant 0 <= k <= |order|
      invariant paths == ManifestOf(order[..k], contrasts)
    {
      assert order[..k + 1][..k] == order[..k];
      var subject := order[k];
      if subject in contrasts && ("T1w" in contrasts[subject] || "T2w" in contrasts[subject]) {
        ghost var before := paths;
        var j := 0;
        while j < |ManifestContrasts|
          invariant 0 <= j <= |ManifestContrasts|
          invariant paths == before + seq(j, m requires 0 <= m < j => ManifestPath(subject, ManifestContrasts[m]))
        {
          paths := paths + [ManifestPath(subject, ManifestContrasts[j])];
          j := j + 1;
        }
      }
      k := k + 1;
    }
    assert order[..k] == order;
  }

  /** The whole script: validations collected, then the manifest. */
  method MakeYml(items: seq<(string, string)>) returns (paths: seq<string>)
    ensures paths == ManifestOf(ValidationsOf(items, QcEntry).order, ValidationsOf(items, QcEntry).contrasts)
  {
    var order, contrasts := CollectValidations(items);
    paths := BuildManifest(order, contrasts);
  }

  /** The manifest lists the `T1w` and `T2w` images of exactly the subjects
      with a validated `T1w` or `T2w` QC, each subject once. */
  lemma ManifestSubjects(items: seq<(string, string)>)
    ensures var v := ValidationsOf(items, QcEntry);
            && Distinct(QualifyingSubjects(v.order, v.contrasts))
            && forall s :: s in QualifyingSubjects(v.order, v.contrasts) <==>
                 exists i, c | c == "T1w" || c == "T2w" :: Contributes(items, QcEntry, i, s, c)
  {
    var v := ValidationsOf(items, QcEntry);
    ValidationsSpec(items, QcEntry);
    QualifyingDistinct(v.order, v.contrasts);
    forall s | s in QualifyingSubjects(v.order, v.contrasts)
      ensures exists i, c | c == "T1w" || c == "T2w" :: Contributes(items, QcEntry, i, s, c)
    {
      var c := if "T1w" in v.contrasts[s] then "T1w" else "T2w";
      var i :| Contributes(items, QcEntry, i, s, c);
    }
    forall s | exists i, c | c == "T1w" || c == "T2w" :: Contributes(items, QcEntry, i, s, c)
      ensures s in QualifyingSubjects(v.order, v.contrasts)
    {
      var i, c :| (c == "T1w" || c == "T2w") && Contributes(items, QcEntry, i, s, c);
      assert c in v.contrasts[s];
    }
  }

  /** Filtering keeps the dictionary's order: whatever strictly ranks the
      dictionary's subjects also ranks the written ones. */
  lemma {:induction false} QualifyingKeepsOrder(order: seq<string>, contrasts: map<string, set<string>>, rank: string -> int)
    requires forall a, b | 0 <= a < b < |order| :: rank(order[a]) < rank(order[b])
    ensures forall a, b | 0 <= a < b < |QualifyingSubjects(order, contrasts)| ::
              rank(QualifyingSubjects(order, contrasts)[a]) < rank(QualifyingSubjects(order, contrasts)[b])
    decreases |order|
  {
    if order != [] {
      var init := order[..|order| - 1];
      var last := order[|order| - 1];
      QualifyingKeepsOrder(init, contrasts, rank);
      var q0 := QualifyingSubjects(init, contrasts);
      var q := QualifyingSubjects(order, contrasts);
      forall a, b | 0 <= a < b < |q| ensures rank(q[a]) < rank(q[b]) {
        if b == |q0| {
          assert q[a] == q0[a] && q[b] == last;
          assert q0[a] in init;
          var i :| 0 <= i < |init| && init[i] == q0[a];
          assert order[i] == q0[a];
        }
      }
    }
  }

  /** The manifest's subjects come in the order of their first QC entry
      in the file. */
  lemma ManifestFirstSeen(items: seq<(string, string)>)
    ensures var v := ValidationsOf(items, QcEntry);
            forall a, b | 0 <= a < b < |QualifyingSubjects(v.order, v.contrasts)| ::
              FirstKeyed(items, QcEntry, QualifyingSubjects(v.order, v.contrasts)[a])
              < FirstKeyed(items, QcEntry, QualifyingSubjects(v.order, v.contrasts)[b])
  {
    var v := ValidationsOf(items, QcEntry);
    ValidationsFirstSeen(items, QcEntry);
    QualifyingKeepsOrder(v.order, v.contrasts, s => FirstKeyed(items, QcEntry, s));
  }

  lemma {:induction false} QualifyingDistinct(order: seq<string>, contrasts: map<string, set<string>>)
    requires Distinct(order)
    ensures Distinct(QualifyingSubjects(order, contrasts))
    decreases |order|
  {
    if order != [] {
      var init := order[..|order| - 1];
      assert Distinct(init) by {
        forall a, b | 0 <= a < b < |init| ensures init[a] != init[b] {
          assert init[a] == order[a] && init[b] == order[b];
        }
      }
      QualifyingDistinct(init, contrasts);
      assert order[|order| - 1] !in init;
    }
  }
}
