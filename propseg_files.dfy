/** The file lists and `sct_propseg` commands of modification_propseg.py
    (user-given parameters, `liste_fichiers`) and of
    propseg_plusieurs_images.py (`find_images`, `segment_images`). */
module PropsegFiles {
  import opened Wrappers
  import opened Text
  import opened Identity
  import opened PropsegParams

  // ---------------------------------------------------------------------
  // liste_fichiers: names, split at the last 'T'
  // ---------------------------------------------------------------------

  /** `df[(df['propseg'] < 5) & (df['propseg'].notna())]['Sujet']`, in
      table order. */
  function FilteredNames(rows: seq<Row>): (names: seq<string>)
    ensures |names| <= |rows|
    ensures forall n :: n in names <==> exists r | r in rows :: Kept(Retro, r) && r.sujet == n
    decreases |rows|
  {
    if rows == [] then []
    else
      var init := rows[..|rows| - 1];
      var last := rows[|rows| - 1];
      assert forall r | r in rows :: r in init || r == last;
      FilteredNames(init) + (if Kept(Retro, last) then [last.sujet] else [])
  }

  /** `name.rsplit('T', 1)` when it has two parts, as
      `(parts[0], 'T' + parts[1])`. */
  function SplitName(name: string): (r: Option<(string, string)>)
    ensures r.None? <==> 'T' !in name
    ensures r.Some? ==> r.value.0 + r.value.1 == name
    ensures r.Some? ==> |r.value.1| >= 1 && r.value.1[0] == 'T' && 'T' !in r.value.1[1..]
  {
    match RSplitOnce(name, 'T')
    case None => None
    case Some((sujet, rest)) =>
      assert ['T'] + rest == "T" + rest;
      assert ("T" + rest)[1..] == rest;
      Some((sujet, "T" + rest))
  }

  /** Splitting at a separator that occurs in neither tail is unique. */
  lemma LastSeparatorUnique(a: string, b: string, a2: string, b2: string, c: char)
    requires a + [c] + b == a2 + [c] + b2 && c !in b && c !in b2
    ensures a == a2 && b == b2
  {
    var s := a + [c] + b;
    assert s[|a|] == c && s[|a2|] == c;
    assert a == s[..|a|] && a2 == s[..|a2|];
    assert b == s[|a| + 1..] && b2 == s[|a2| + 1..];
  }

  /** A subject followed by a contrast with no later `'T'` splits back into
      exactly those two parts. */
  lemma SplitNameRoundTrip(sujet: string, rest: string)
    requires 'T' !in rest
    ensures SplitName(sujet + "T" + rest) == Some((sujet, "T" + rest))
  {
    var name := sujet + "T" + rest;
    assert name == sujet + ['T'] + rest;
    var (s2, t2) := RSplitOnce(name, 'T').value;
    LastSeparatorUnique(sujet, rest, s2, t2, 'T');
  }

  // ---------------------------------------------------------------------
  // liste_fichiers: subject_dict
  // ---------------------------------------------------------------------

  /** `subject_dict`: its keys in insertion order (the order of
      `.items()`), and its lists. */
  datatype SubjectDict = SubjectDict(order: seq<string>, contrasts: map<string, seq<string>>)

  /** `subject_dict[sujet].append(contraste)`, or a new key. */
  function AddContrast(d: SubjectDict, sujet: string, contraste: string): SubjectDict {
    if sujet in d.contrasts then d.(contrasts := d.contrasts[sujet := d.contrasts[sujet] + [contraste]])
    else SubjectDict(d.order + [sujet], d.contrasts[sujet := [contraste]])
  }

  /** `subject_dict` after the names `names`, each split by `split`; names
      it does not split are ignored. */
  function GroupNames(names: seq<string>, split: string -> Option<(string, string)>): (d: SubjectDict)
    ensures forall s :: s in d.contrasts <==> s in d.order
    ensures forall s | s in d.contrasts :: d.contrasts[s] != []
    ensures |d.order| <= |names|
    decreases |names|
  {
    if names == [] then SubjectDict([], map[])
    else
      var d := GroupNames(names[..|names| - 1], split);
      match split(names[|names| - 1])
      case None => d
      case Some((sujet, contraste)) => AddContrast(d, sujet, contraste)
  }

  /** Reference: the contrasts of the names of subject `s`, in name order,
      repetitions included. */
  function ContrastsOf(names: seq<string>, split: string -> Option<(string, string)>, s: string): (cs: seq<string>)
    ensures forall c :: c in cs <==> exists n | n in names :: split(n) == Some((s, c))
    decreases |names|
  {
    if names == [] then []
    else
      var init := names[..|names| - 1];
      var last := names[|names| - 1];
      assert forall n | n in names :: n in init || n == last;
      ContrastsOf(init, split, s) + (match split(last) case Some((t, c)) => if t == s then [c] else [] case None => [])
  }

  /** The dictionary's keys are its order, each subject once. */
  lemma {:induction false} GroupNamesOrder(names: seq<string>, split: string -> Option<(string, string)>)
    ensures Distinct(GroupNames(names, split).order)
    ensures forall s :: s in GroupNames(names, split).contrasts <==> s in GroupNames(names, split).order
    decreases |names|
  {
    if names != [] {
      var d := GroupNames(names[..|names| - 1], split);
      GroupNamesOrder(names[..|names| - 1], split);
      match split(names[|names| - 1])
      case None =>
      case Some((sujet, _)) =>
        if sujet !in d.contrasts {
          var o := d.order + [sujet];
          forall a, b | 0 <= a < b < |o| ensures o[a] != o[b] {
            if b == |d.order| {
              assert o[a] == d.order[a];
            }
          }
        }
    }
  }

  /** Each key's list holds the contrasts of its names in row order. */
  lemma GroupNamesContents(names: seq<string>, split: string -> Option<(string, string)>)
    ensures forall s :: s in GroupNames(names, split).contrasts <==> ContrastsOf(names, split, s) != []
    ensures forall s | s in GroupNames(names, split).contrasts :: GroupNames(names, split).contrasts[s] == ContrastsOf(names, split, s)
  {
    forall s ensures (s in GroupNames(names, split).contrasts <==> ContrastsOf(names, split, s) != [])
                     && (s in GroupNames(names, split).contrasts ==> GroupNames(names, split).contrasts[s] == ContrastsOf(names, split, s))
    {
      GroupNamesContentsOf(names, split, s);
    }
  }

  /** The list of one subject, by induction on the names. */
  lemma {:induction false} GroupNamesContentsOf(names: seq<string>, split: string -> Option<(string, string)>, s: string)
    ensures s in GroupNames(names, split).contrasts <==> ContrastsOf(names, split, s) != []
    ensures s in GroupNames(names, split).contrasts ==> GroupNames(names, split).contrasts[s] == ContrastsOf(names, split, s)
    decreases |names|
  {
    if names != [] {
      GroupNamesContentsOf(names[..|names| - 1], split, s);
    }
  }

  /** The keys come in first-seen order: each was seen among the names,
      and a key comes before another exactly as its first name comes
      before the other's. */
  lemma {:induction false} GroupNamesFirstSeen(names: seq<string>, split: string -> Option<(string, string)>)
    ensures FirstSeenOrder(names, split, GroupNames(names, split).order)
    decreases |names|
  {
    if names != [] {
      var init := names[..|names| - 1];
      GroupNamesFirstSeen(init, split);
      var d0 := GroupNames(init, split);
      match split(names[|names| - 1])
      case None =>
        FirstSeenExtends(names, split, d0.order);
      case Some((s, c)) =>
        if s in d0.contrasts {
          FirstSeenExtends(names, split, d0.order);
        } else {
          assert FirstKeyed(init, split, s) == |init| by {
            GroupNamesContentsOf(init, split, s);
          }
          FirstSeenAppends(names, split, d0.order, s);
        }
    }
  }

  /** The dictionary holds each subject once, in first-seen order, with
      the contrasts of all its names in row order. */
  lemma GroupNamesSpec(names: seq<string>, split: string -> Option<(string, string)>)
    ensures Distinct(GroupNames(names, split).order)
    ensures forall s :: s in GroupNames(names, split).contrasts <==> s in GroupNames(names, split).order
    ensures FirstSeenOrder(names, split, GroupNames(names, split).order)
    ensures forall s :: s in GroupNames(names, split).contrasts <==> ContrastsOf(names, split, s) != []
    ensures forall s | s in GroupNames(names, split).contrasts :: GroupNames(names, split).contrasts[s] == ContrastsOf(names, split, s)
  {
    GroupNamesOrder(names, split);
    GroupNamesFirstSeen(names, split);
    GroupNamesContents(names, split);
  }

  // ---------------------------------------------------------------------
  // liste_fichiers: matched_files
  // ---------------------------------------------------------------------

  /** `os.path.join(".../data_preprocessed", sujet, "anat", "*.nii.gz")`. */
  function SubjectFilesPattern(sujet: string): string {
    PathJoin(PathJoin(PathJoin("data-multi-subject/derivatives/data_preprocessed", sujet), "anat"), "*.nii.gz")
  }

  /** `all_files` of a subject: what `glob` returns for its pattern. */
  function SubjectFiles(glob: string -> seq<string>): string -> seq<string> {
    Globbed(glob, SubjectFilesPattern)
  }

  /** What `glob` returns for the pattern `pattern` gives a subject. */
  function Globbed(glob: string -> seq<string>, pattern: string -> string): string -> seq<string> {
    sujet => glob(pattern(sujet))
  }

  /** `[f for f in all_files if re.search(contraste, f)]`, with the
      contrast taken as a literal text. */
  function FilesContaining(files: seq<string>, c: string): (r: seq<string>)
    ensures forall f :: f in r <==> f in files && Contains(f, c)
    decreases |files|
  {
    if files == [] then []
    else
      var init := files[..|files| - 1];
      var last := files[|files| - 1];
      assert forall f | f in files :: f in init || f == last;
      FilesContaining(init, c) + (if Contains(last, c) then [last] else [])
  }

  /** The inner loop: one `extend` per contrast of the subject. */
  function FilesForContrasts(files: seq<string>, cs: seq<string>): (r: seq<string>)
    ensures forall f :: f in r <==> f in files && exists c | c in cs :: Contains(f, c)
    decreases |cs|
  {
    if cs == [] then []
    else
      var init := cs[..|cs| - 1];
      var last := cs[|cs| - 1];
      assert forall c | c in cs :: c in init || c == last;
      FilesForContrasts(files, init) + FilesContaining(files, last)
  }

  /** The outer loop, over the subjects `order`; `filesOf` gives a
      subject's `all_files`. */
  function MatchedFrom(order: seq<string>, contrasts: map<string, seq<string>>, filesOf: string -> seq<string>): seq<string>
    decreases |order|
  {
    if order == [] then []
    else
      var s := order[|order| - 1];
      MatchedFrom(order[..|order| - 1], contrasts, filesOf)
      + (if s in contrasts then FilesForContrasts(filesOf(s), contrasts[s]) else [])
  }

  lemma {:induction false} MatchedFromMembers(order: seq<string>, contrasts: map<string, seq<string>>, filesOf: string -> seq<string>, f: string)
    ensures f in MatchedFrom(order, contrasts, filesOf) <==>
            exists s | s in order && s in contrasts :: f in FilesForContrasts(filesOf(s), contrasts[s])
    decreases |order|
  {
    if order != [] {
      var init := order[..|order| - 1];
      MatchedFromMembers(init, contrasts, filesOf, f);
      assert forall s | s in order :: s in init || s == order[|order| - 1];
    }
  }

  /** `liste_fichiers(file_path)`: the rows kept, their `Sujet` values
      grouped and each subject's files searched for its contrasts. A file
      is listed exactly when some kept row's `Sujet` splits into a subject
      and a contrast, `glob` returned the file for that subject and the
      contrast occurs in its path. */
  function ListeFichiers(rows: seq<Row>, glob: string -> seq<string>): (files: seq<string>)
    ensures forall f :: f in files <==>
              exists n, s, c | n in FilteredNames(rows) && SplitName(n) == Some((s, c)) ::
                f in SubjectFiles(glob)(s) && Contains(f, c)
  {
    var d := GroupNames(FilteredNames(rows), SplitName);
    var files := MatchedFrom(d.order, d.contrasts, SubjectFiles(glob));
    assert forall f :: f in files <==>
             exists n, s, c | n in FilteredNames(rows) && SplitName(n) == Some((s, c)) ::
               f in SubjectFiles(glob)(s) && Contains(f, c) by {
      forall f ensures f in files <==>
                 exists n, s, c | n in FilteredNames(rows) && SplitName(n) == Some((s, c)) ::
                   f in SubjectFiles(glob)(s) && Contains(f, c) {
        GroupedMatchMembers(FilteredNames(rows), SplitName, SubjectFiles(glob), f);
      }
    }
    files
  }

  /** Grouping and matching, for any way of splitting the names and of
      listing a subject's files. */
  lemma GroupedMatchMembers(names: seq<string>, split: string -> Option<(string, string)>, filesOf: string -> seq<string>, f: string)
    ensures f in MatchedFrom(GroupNames(names, split).order, GroupNames(names, split).contrasts, filesOf) <==>
            exists n, s, c | n in names && split(n) == Some((s, c)) :: f in filesOf(s) && Contains(f, c)
  {
    var d := GroupNames(names, split);
    GroupNamesSpec(names, split);
    MatchedFromMembers(d.order, d.contrasts, filesOf, f);
    if f in MatchedFrom(d.order, d.contrasts, filesOf) {
      var s :| s in d.order && s in d.contrasts && f in FilesForContrasts(filesOf(s), d.contrasts[s]);
      var c :| c in d.contrasts[s] && Contains(f, c);
      var n :| n in names && split(n) == Some((s, c));
    }
    if exists n, s, c | n in names && split(n) == Some((s, c)) :: f in filesOf(s) && Contains(f, c) {
      var n, s, c :| n in names && split(n) == Some((s, c)) && f in filesOf(s) && Contains(f, c);
      assert c in ContrastsOf(names, split, s);
      assert f in FilesForContrasts(filesOf(s), d.contrasts[s]);
    }
  }

  /** Contrasts are not made unique: a subject listed twice with the same
      contrast gets its files twice. */
  lemma RepeatedContrastRepeatsFiles(files: seq<string>, c: string)
    ensures FilesForContrasts(files, [c, c]) == FilesContaining(files, c) + FilesContaining(files, c)
  {
    assert FilesForContrasts(files, [c]) == FilesContaining(files, c) by {
      assert [c][..0] == [];
    }
    assert [c, c][..1] == [c];
  }

  /** `for contraste in contrastes: matched_files.extend(...)`, returning
      what is appended. */
  method ExtendForContrasts(allFiles: seq<string>, contrastes: seq<string>) returns (added: seq<string>)
    ensures added == FilesForContrasts(allFiles, contrastes)
  {
    added := [];
    var j := 0;
    while j < |contrastes|
      invariant 0 <= j <= |contrastes|
      invariant added == FilesForContrasts(allFiles, contrastes[..j])
    {
      assert contrastes[..j + 1][..j] == contrastes[..j];
      var hits := [];
      var m := 0;
      while m < |allFiles|
        invariant 0 <= m <= |allFiles|
        invariant hits == FilesContaining(allFiles[..m], contrastes[j])
      {
        assert allFiles[..m + 1][..m] == allFiles[..m];
        if Contains(allFiles[m], contrastes[j]) {
          hits := hits + [allFiles[m]];
        }
        m := m + 1;
      }
      assert allFiles[..m] == allFiles;
      added := added + hits;
      j := j + 1;
    }
    assert contrastes[..j] == contrastes;
  }

  /** The first loop of `liste_fichiers`: `subject_dict` built from the kept
      names. */
  method BuildSubjectDict(rows: seq<Row>) returns (order: seq<string>, subjectDict: map<string, seq<string>>)
    ensures SubjectDict(order, subjectDict) == GroupNames(FilteredNames(rows), SplitName)
  {
    order := [];
    subjectDict := map[];
    var i := 0;
    while i < |rows|
      invariant 0 <= i <= |rows|
      invariant SubjectDict(order, subjectDict) == GroupNames(FilteredNames(rows[..i]), SplitName)
    {
      assert rows[..i + 1][..i] == rows[..i];
      ghost var names := FilteredNames(rows[..i + 1]);
      if !Kept(Retro, rows[i]) {
        assert names == FilteredNames(rows[..i]);
      } else {
        assert names == FilteredNames(rows[..i]) + [rows[i].sujet];
        assert names[..|names| - 1] == FilteredNames(rows[..i]);
        var parts := SplitName(rows[i].sujet);
        if parts.Some? {
          var (sujet, contraste) := parts.value;
          if sujet in subjectDict {
            subjectDict := subjectDict[sujet := subjectDict[sujet] + [contraste]];
          } else {
            order := order + [sujet];
            subjectDict := subjectDict[sujet := [contraste]];
          }
        }
      }
      i := i + 1;
    }
    assert rows[..i] == rows;
  }

  /** The second loop of `liste_fichiers`, for any file pattern. */
  method MatchSubjects(order: seq<string>, subjectDict: map<string, seq<string>>,
                       glob: string -> seq<string>, pattern: string -> string)
    returns (matchedFiles: seq<string>)
    ensures matchedFiles == MatchedFrom(order, subjectDict, Globbed(glob, pattern))
  {
    matchedFiles := [];
    var k := 0;
    while k < |order|
      invariant 0 <= k <= |order|
      invariant matchedFiles == MatchedFrom(order[..k], subjectDict, Globbed(glob, pattern))
    {
      assert order[..k + 1][..k] == order[..k];
      var sujet := order[k];
      var allFiles := glob(pattern(sujet));
      assert allFiles == Globbed(glob, pattern)(sujet);
      if sujet in subjectDict {
        var more := ExtendForContrasts(allFiles, subjectDict[sujet]);
        matchedFiles := matchedFiles + more;
      }
      k := k + 1;
    }
    assert order[..k] == order;
  }

  /** `liste_fichiers`: the dictionary, then `matched_files` subject by
      subject. */
  method ListeFichiersLoop(rows: seq<Row>, glob: string -> seq<string>) returns (matchedFiles: seq<string>)
    ensures matchedFiles == ListeFichiers(rows, glob)
  {
    var order, subjectDict := BuildSubjectDict(rows);
    matchedFiles := MatchSubjects(order, subjectDict, glob, SubjectFilesPattern);
  }

  // ---------------------------------------------------------------------
  // extraire_contraste
  // ---------------------------------------------------------------------

  /** `re.search(r'_(T1w|T2w)\.nii\.gz$', p)` matches with group `c`: the
      path ends with `_<c>.nii.gz`, or with that and one newline, which
      `$` also accepts. */
  predicate EndsWithContrast(p: string, c: string) {
    EndsWith(p, "_" + c + ".nii.gz") || EndsWith(p, "_" + c + ".nii.gz\n")
  }

  lemma EndsWithAt(p: string, t: string, k: nat)
    requires EndsWith(p, t) && k < |t|
    ensures p[|p| - |t| + k] == t[k]
  {
    assert p[|p| - |t|..][k] == t[k];
  }

  /** Two suffixes that differ `k` characters from the end cannot both
      end the same path. */
  lemma NotBothSuffixes(p: string, u: string, v: string, k: nat)
    requires 1 <= k <= |u| && k <= |v| && u[|u| - k] != v[|v| - k]
    ensures !(EndsWith(p, u) && EndsWith(p, v))
  {
  }

  /** The path cannot end in both contrasts. */
  lemma ContrastSuffixesExclusive(p: string)
    ensures !(EndsWithContrast(p, "T1w") && EndsWithContrast(p, "T2w"))
  {
    var a, b, a', b' := "_T1w.nii.gz", "_T2w.nii.gz", "_T1w.nii.gz\n", "_T2w.nii.gz\n";
    assert "_" + "T1w" + ".nii.gz" == a && "_" + "T2w" + ".nii.gz" == b;
    assert "_" + "T1w" + ".nii.gz\n" == a' && "_" + "T2w" + ".nii.gz\n" == b';
    NotBothSuffixes(p, a, b, 9);
    NotBothSuffixes(p, a', b', 10);
    NotBothSuffixes(p, a, b', 1);
    NotBothSuffixes(p, a', b, 1);
  }

  /** `extraire_contraste`. */
  function ExtraireContraste(p: string): (r: Option<string>)
    ensures r == Some("T1w") <==> EndsWithContrast(p, "T1w")
    ensures r == Some("T2w") <==> EndsWithContrast(p, "T2w")
    ensures r.None? <==> !EndsWithContrast(p, "T1w") && !EndsWithContrast(p, "T2w")
  {
    ContrastSuffixesExclusive(p);
    if EndsWithContrast(p, "T1w") then Some("T1w")
    else if EndsWithContrast(p, "T2w") then Some("T2w")
    else None
  }

  /** The contrast of a BIDS file name is found again; a derivative such as
      `_T2w_seg.nii.gz` has none. */
  lemma ExtraireContrasteOfNames(base: string, c: string)
    requires c == "T1w" || c == "T2w"
    ensures ExtraireContraste(base + "_" + c + ".nii.gz") == Some(c)
    ensures ExtraireContraste(base + "_" + c + "_seg.nii.gz").None?
  {
    var p := base + "_" + c + ".nii.gz";
    assert p[|p| - |"_" + c + ".nii.gz"|..] == "_" + c + ".nii.gz";
    var q := base + "_" + c + "_seg.nii.gz";
    var t := "_seg.nii.gz";
    assert EndsWith(q, t) by {
      assert q == (base + "_" + c) + t;
      assert q[|q| - |t|..] == t;
    }
    var o := if c == "T1w" then "T2w" else "T1w";
    NotBothSuffixes(q, t, "_" + c + ".nii.gz", 10);
    NotBothSuffixes(q, t, "_" + c + ".nii.gz\n", 1);
    NotBothSuffixes(q, t, "_" + o + ".nii.gz", 10);
    NotBothSuffixes(q, t, "_" + o + ".nii.gz\n", 1);
  }

  // ---------------------------------------------------------------------
  // propseg(image_list, max_area, max_deformation, min_contrast)
  // ---------------------------------------------------------------------

  /** One `sct_propseg` command line; the optional numbers are the
      command-line arguments, absent when not given. */
  datatype PropsegCommand = PropsegCommand(image: string, contrast: string, output: string,
                                           maxArea: Option<real>, maxDeformation: Option<real>, minContrast: Option<real>)

  /** The commands issued, and whether the loop stopped with an
      `UnboundLocalError` (no contrast was ever assigned). */
  datatype PropsegRun = PropsegRun(commands: seq<PropsegCommand>, unbound: bool)

  /** A value of `nom_contraste` that assigns `contrast`. */
  predicate Recognised(nom: Option<string>) {
    nom == Some("T1w") || nom == Some("T2w")
  }

  /** The `if`/`elif` on `nom_contraste`: `contrast` keeps its value when
      neither branch is taken. */
  function NextContrast(nom: Option<string>, contrast: Option<string>): (r: Option<string>)
    ensures Recognised(nom) ==> r == Some(PropsegContrast(nom.value))
    ensures !Recognised(nom) ==> r == contrast
  {
    if nom == Some("T1w") then Some("t1")
    else if nom == Some("T2w") then Some("t2")
    else contrast
  }

  /** The value of `contrast` after the images `images`, `nomOf` giving each
      image's `nom_contraste`; `None` while the variable is unbound. */
  function ContrastAfter(images: seq<string>, nomOf: string -> Option<string>): Option<string>
    decreases |images|
  {
    if images == [] then None
    else NextContrast(nomOf(images[|images| - 1]), ContrastAfter(images[..|images| - 1], nomOf))
  }

  /** The loop over the images; `command` builds the command of an image
      for the current `contrast`. */
  function RunOf(images: seq<string>, nomOf: string -> Option<string>, command: (string, string) -> PropsegCommand): (run: PropsegRun)
    ensures |run.commands| <= |images|
    ensures !run.unbound ==> |run.commands| == |images|
    decreases |images|
  {
    if images == [] then PropsegRun([], false)
    else
      var before := RunOf(images[..|images| - 1], nomOf, command);
      if before.unbound then before
      else
        match ContrastAfter(images, nomOf)
        case None => PropsegRun(before.commands, true)
        case Some(contrast) => PropsegRun(before.commands + [command(images[|images| - 1], contrast)], false)
  }

  lemma {:induction false} ContrastAfterUnbound(images: seq<string>, nomOf: string -> Option<string>)
    ensures ContrastAfter(images, nomOf).None? <==> forall i | 0 <= i < |images| :: !Recognised(nomOf(images[i]))
    decreases |images|
  {
    if images != [] {
      var init := images[..|images| - 1];
      ContrastAfterUnbound(init, nomOf);
      assert forall i | 0 <= i < |init| :: images[i] == init[i];
    }
  }

  /** The run stops, before any command, exactly when the first image has
      no recognisable contrast. */
  lemma {:induction false} RunUnbound(images: seq<string>, nomOf: string -> Option<string>, command: (string, string) -> PropsegCommand)
    ensures RunOf(images, nomOf, command).unbound <==> images != [] && !Recognised(nomOf(images[0]))
    ensures RunOf(images, nomOf, command).unbound ==> RunOf(images, nomOf, command).commands == []
    decreases |images|
  {
    if images != [] {
      var init := images[..|images| - 1];
      RunUnbound(init, nomOf, command);
      ContrastAfterUnbound(images, nomOf);
      ContrastAfterUnbound(init, nomOf);
      if |images| > 1 {
        assert images[0] == init[0];
      }
    }
  }

  /** The value of `contrast` when the command of image `i` is built. */
  function ContrastAt(images: seq<string>, nomOf: string -> Option<string>, i: nat): Option<string>
    requires i < |images|
  {
    ContrastAfter(images[..i + 1], nomOf)
  }

  /** Otherwise there is one command per image, built with the contrast
      `contrast` holds at that point. */
  lemma {:induction false} RunCommands(images: seq<string>, nomOf: string -> Option<string>, command: (string, string) -> PropsegCommand)
    requires !RunOf(images, nomOf, command).unbound
    ensures |RunOf(images, nomOf, command).commands| == |images|
    ensures forall i | 0 <= i < |images| ::
              ContrastAt(images, nomOf, i).Some?
              && RunOf(images, nomOf, command).commands[i] == command(images[i], ContrastAt(images, nomOf, i).value)
    decreases |images|
  {
    if images != [] {
      var init := images[..|images| - 1];
      RunCommands(init, nomOf, command);
      forall i | 0 <= i < |images|
        ensures ContrastAt(images, nomOf, i).Some?
                && RunOf(images, nomOf, command).commands[i] == command(images[i], ContrastAt(images, nomOf, i).value)
      {
        if i < |init| {
          assert images[..i + 1] == init[..i + 1];
          assert images[i] == init[i];
        } else {
          assert images[..i + 1] == images;
        }
      }
    }
  }

  /** An image without a recognisable contrast is segmented with the
      contrast of an earlier image. */
  lemma StaleContrast(images: seq<string>, nomOf: string -> Option<string>, i: nat)
    requires 0 < i < |images| && !Recognised(nomOf(images[i]))
    ensures ContrastAt(images, nomOf, i) == ContrastAt(images, nomOf, i - 1)
  {
    assert images[..i + 1][..i] == images[..i];
  }

  /** `cmd` of `propseg`, with `f"test/anat/{sujet}_{nom_contraste}_propseg.nii.gz"`
      as output, `str(None)` written for a missing contrast. */
  function PropsegCommandFor(maxArea: Option<real>, maxDeformation: Option<real>, minContrast: Option<real>): (string, string) -> PropsegCommand {
    (image, contrast) => PropsegCommand(image, contrast, TestOutput(image), maxArea, maxDeformation, minContrast)
  }

  /** The output of `propseg`: under `test/anat`, named after the subject
      and `str(nom_contraste)`. */
  function TestOutput(image: string): (out: string)
    ensures StartsWith(out, "test/anat/" + SubjectName(image))
    ensures EndsWith(out, "_" + ContrastText(ExtraireContraste(image)) + "_propseg.nii.gz")
  {
    var stem := "test/anat/" + SubjectName(image);
    var tail := "_" + ContrastText(ExtraireContraste(image)) + "_propseg.nii.gz";
    ConcatEnds(stem, tail);
    stem + tail
  }

  /** `str(nom_contraste)`. */
  function ContrastText(nom: Option<string>): string {
    match nom
    case Some(c) => c
    case None => "None"
  }

  /** The loop of `propseg`, for any `nom_contraste` and command builder. */
  method RunLoop(images: seq<string>, nomOf: string -> Option<string>, command: (string, string) -> PropsegCommand)
    returns (run: PropsegRun)
    ensures run == RunOf(images, nomOf, command)
  {
    var commands: seq<PropsegCommand> := [];
    var contrast: Option<string> := None;
    var i := 0;
    while i < |images|
      invariant 0 <= i <= |images|
      invariant RunOf(images[..i], nomOf, command) == PropsegRun(commands, false)
      invariant contrast == ContrastAfter(images[..i], nomOf)
    {
      assert images[..i + 1][..i] == images[..i];
      var nom := nomOf(images[i]);
      if nom == Some("T1w") {
        contrast := Some("t1");
      } else if nom == Some("T2w") {
        contrast := Some("t2");
      }
      if contrast.None? {
        UnboundSticks(images, i + 1, nomOf, command);
        return PropsegRun(commands, true);
      }
      commands := commands + [command(images[i], contrast.value)];
      i := i + 1;
    }
    assert images[..i] == images;
    run := PropsegRun(commands, false);
  }

  /** Once the error is raised nothing else happens. */
  lemma {:induction false} UnboundSticks(images: seq<string>, i: nat, nomOf: string -> Option<string>, command: (string, string) -> PropsegCommand)
    requires i <= |images| && RunOf(images[..i], nomOf, command).unbound
    ensures RunOf(images, nomOf, command) == RunOf(images[..i], nomOf, command)
    decreases |images| - i
  {
    if i < |images| {
      assert images[..i + 1][..i] == images[..i];
      UnboundSticks(images, i + 1, nomOf, command);
    } else {
      assert images[..i] == images;
    }
  }

  /** `propseg(image_list, max_area, max_deformation, min_contrast)`; the
      commands do not depend on which of them fail, since a failure is
      reported and the loop goes on. */
  method Propseg(images: seq<string>, maxArea: Option<real>, maxDeformation: Option<real>, minContrast: Option<real>)
    returns (run: PropsegRun)
    ensures run == RunOf(images, ExtraireContraste, PropsegCommandFor(maxArea, maxDeformation, minContrast))
  {
    run := RunLoop(images, ExtraireContraste, PropsegCommandFor(maxArea, maxDeformation, minContrast));
  }

  /** The commands of `propseg` when it does not stop: one per image, for
      that image, with the user's parameters, the `test/anat` output and the
      contrast then held. */
  lemma PropsegCommands(images: seq<string>, maxArea: Option<real>, maxDeformation: Option<real>, minContrast: Option<real>)
    requires !RunOf(images, ExtraireContraste, PropsegCommandFor(maxArea, maxDeformation, minContrast)).unbound
    ensures var cmds := RunOf(images, ExtraireContraste, PropsegCommandFor(maxArea, maxDeformation, minContrast)).commands;
            && |cmds| == |images|
            && forall i | 0 <= i < |images| ::
                 && cmds[i].image == images[i] && cmds[i].output == TestOutput(images[i])
                 && ContrastAt(images, ExtraireContraste, i) == Some(cmds[i].contrast)
                 && cmds[i].maxArea == maxArea && cmds[i].maxDeformation == maxDeformation && cmds[i].minContrast == minContrast
  {
    RunCommands(images, ExtraireContraste, PropsegCommandFor(maxArea, maxDeformation, minContrast));
  }

  // ---------------------------------------------------------------------
  // propseg_plusieurs_images.py
  // ---------------------------------------------------------------------

  /** `os.path.join(directory, "*", "anat", "*.nii.gz")`. */
  function ImagesPattern(directory: string): string {
    PathJoin(PathJoin(PathJoin(directory, "*"), "anat"), "*.nii.gz")
  }

  /** `find_images`: the globbed paths the user's pattern finds, in glob
      order; `matches` stands for `re.search(regex_pattern, f)`. */
  function FindImages(globbed: seq<string>, matches: string -> bool): (r: seq<string>)
    ensures forall f :: f in r <==> f in globbed && matches(f)
    ensures |r| <= |globbed|
    decreases |globbed|
  {
    if globbed == [] then []
    else
      var init := globbed[..|globbed| - 1];
      var last := globbed[|globbed| - 1];
      assert forall f | f in globbed :: f in init || f == last;
      FindImages(init, matches) + (if matches(last) then [last] else [])
  }

  /** Filtering is path by path, so the glob order is kept. */
  lemma {:induction false} FindImagesConcat(a: seq<string>, b: seq<string>, matches: string -> bool)
    ensures FindImages(a + b, matches) == FindImages(a, matches) + FindImages(b, matches)
    decreases |b|
  {
    if b == [] {
      assert a + b == a;
    } else {
      var b' := b[..|b| - 1];
      assert (a + b)[..|a + b| - 1] == a + b';
      assert (a + b)[|a + b| - 1] == b[|b| - 1];
      FindImagesConcat(a, b', matches);
    }
  }

  /** Unlike `find_files` of the evaluation scripts, `find_images` keeps
      centerline files. */
  lemma FindImagesKeepsCenterline(globbed: seq<string>, matches: string -> bool, f: string)
    requires f in globbed && matches(f) && Contains(f, Centerline)
    ensures f in FindImages(globbed, matches)
    ensures f !in FindFiles(globbed, matches)
  {
  }

  /** One `sct_propseg` command of `segment_images`. */
  datatype SegmentCommand = SegmentCommand(image: string, contrast: string, output: string)

  /** `f"extend-seg-upper-cord/anat/{sujet}_{contrast}_propseg.nii.gz"`,
      with `contrast` the user's argument. */
  function SegmentOutput(image: string, contrast: string): (out: string)
    ensures StartsWith(out, "extend-seg-upper-cord/anat/" + SubjectName(image))
    ensures EndsWith(out, "_" + contrast + "_propseg.nii.gz")
  {
    var stem := "extend-seg-upper-cord/anat/" + SubjectName(image);
    var tail := "_" + contrast + "_propseg.nii.gz";
    ConcatEnds(stem, tail);
    stem + tail
  }

  /** Every output lands in `extend-seg-upper-cord/anat` and is named after
      the image's subject, or `Unknown`. */
  lemma SegmentOutputShape(image: string, contrast: string)
    ensures StartsWith(SegmentOutput(image, contrast), "extend-seg-upper-cord/anat/sub-")
            || StartsWith(SegmentOutput(image, contrast), "extend-seg-upper-cord/anat/Unknown_")
  {
    var s := SubjectName(image);
    var o := SegmentOutput(image, contrast);
    if s == Unknown {
      assert o[..35] == "extend-seg-upper-cord/anat/Unknown_";
    } else {
      assert o[..31] == "extend-seg-upper-cord/anat/" + s[..4];
    }
  }

  /** The command of one image. */
  function SegmentFor(contrast: string): string -> SegmentCommand {
    image => SegmentCommand(image, contrast, SegmentOutput(image, contrast))
  }

  /** One command per image, in list order, built by `command`. */
  function Commands(images: seq<string>, command: string -> SegmentCommand): (cmds: seq<SegmentCommand>)
    ensures |cmds| == |images|
    ensures forall i | 0 <= i < |cmds| :: cmds[i] == command(images[i])
    decreases |images|
  {
    if images == [] then [] else Commands(images[..|images| - 1], command) + [command(images[|images| - 1])]
  }

  /** The images whose command fails, in list order. */
  function FailedImages(images: seq<string>, command: string -> SegmentCommand, succeeded: SegmentCommand -> bool): (r: seq<string>)
    ensures forall f :: f in r <==> exists i | 0 <= i < |images| :: f == images[i] && !succeeded(command(images[i]))
    decreases |images|
  {
    if images == [] then []
    else
      var init := images[..|images| - 1];
      var last := images[|images| - 1];
      assert forall i | 0 <= i < |init| :: images[i] == init[i];
      FailedImages(init, command, succeeded) + (if succeeded(command(last)) then [] else [last])
  }

  /** The loop of `segment_images`, for any way of building a command. */
  method SegmentEach(images: seq<string>, command: string -> SegmentCommand, succeeded: SegmentCommand -> bool)
    returns (commands: seq<SegmentCommand>, failed: seq<string>)
    ensures commands == Commands(images, command)
    ensures failed == FailedImages(images, command, succeeded)
  {
    commands := [];
    failed := [];
    var i := 0;
    while i < |images|
      invariant 0 <= i <= |images|
      invariant commands == Commands(images[..i], command)
      invariant failed == FailedImages(images[..i], command, succeeded)
    {
      assert images[..i + 1][..i] == images[..i];
      var cmd := command(images[i]);
      commands := commands + [cmd];
      if !succeeded(cmd) {
        failed := failed + [images[i]];
      }
      i := i + 1;
    }
    assert images[..i] == images;
  }

  /** `segment_images`: every image gets its command whichever commands
      fail; the failed images are the ones reported. */
  method SegmentImages(images: seq<string>, contrast: string, succeeded: SegmentCommand -> bool)
    returns (commands: seq<SegmentCommand>, failed: seq<string>)
    ensures commands == Commands(images, SegmentFor(contrast))
    ensures failed == FailedImages(images, SegmentFor(contrast), succeeded)
  {
    commands, failed := SegmentEach(images, SegmentFor(contrast), succeeded);
  }

  /** `main`: the images found under `directory`, segmented only when
      there is at least one. */
  method SegmentFound(directory: string, glob: string -> seq<string>, matches: string -> bool, contrast: string,
                      succeeded: SegmentCommand -> bool)
    returns (commands: seq<SegmentCommand>)
    ensures commands == Commands(FindImages(glob(ImagesPattern(directory)), matches), SegmentFor(contrast))
    ensures commands == [] <==> FindImages(glob(ImagesPattern(directory)), matches) == []
  {
    var images := FindImages(glob(ImagesPattern(directory)), matches);
    commands := [];
    if images != [] {
      var failed;
      commands, failed := SegmentImages(images, contrast, succeeded);
    }
  }
}
