/** Identity of an image file and pairing of segmentation and label files,
    as `find_files`, `trouver_nom_sujet_contraste` and the pairing lines of
    `main` do it in creer_GT/seg_vs_label.py (creer_GT/GT_vs_label.py holds
    the same three functions and the same pairing, line for line).

    The two regular expressions are searched the way `re.search` does: the
    leftmost position where a match starts wins, and `[a-zA-Z0-9]+` is greedy,
    so the subject token runs to the end of the alphanumeric run. */
module Identity {
  import opened Wrappers
  import opened Text

  /** The key given to a path in which one of the two patterns is absent. */
  const Unknown := "Unknown"

  /** Paths containing this are never kept by `find_files`. */
  const Centerline := "centerline"

  datatype Pattern = SubjectPattern | ContrastPattern

  /** A match of `sub-[a-zA-Z0-9]+` (resp. `T[1-2]w`) can start at `p`. */
  predicate MatchAt(pattern: Pattern, s: string, p: nat) {
    match pattern
    case SubjectPattern =>
      p + 5 <= |s| && s[p..p + 4] == "sub-" && IsAlnum(s[p + 4])
    case ContrastPattern =>
      p + 3 <= |s| && s[p] == 'T' && (s[p + 1] == '1' || s[p + 1] == '2') && s[p + 2] == 'w'
  }

  /** A match starts at `p` and at no earlier position: where `re.search` finds it. */
  predicate FirstMatchAt(pattern: Pattern, s: string, p: nat) {
    MatchAt(pattern, s, p) && forall q: nat | q < p :: !MatchAt(pattern, s, q)
  }

  /** The leftmost start of a match at or after `i`. */
  function SearchFrom(pattern: Pattern, s: string, i: nat): (r: Option<nat>)
    requires i <= |s|
    ensures r.Some? ==> i <= r.value < |s| && MatchAt(pattern, s, r.value)
    ensures r.Some? ==> forall q: nat | i <= q < r.value :: !MatchAt(pattern, s, q)
    ensures r.None? ==> forall q: nat | i <= q :: !MatchAt(pattern, s, q)
    decreases |s| - i
  {
    if i == |s| then None
    else if MatchAt(pattern, s, i) then Some(i)
    else SearchFrom(pattern, s, i + 1)
  }

  /** End of the run of `[a-zA-Z0-9]` characters that starts at `k`. */
  function AlnumRunEnd(s: string, k: nat): (e: nat)
    requires k <= |s|
    ensures k <= e <= |s|
    ensures forall j | k <= j < e :: IsAlnum(s[j])
    ensures e == |s| || !IsAlnum(s[e])
    decreases |s| - k
  {
    if k == |s| || !IsAlnum(s[k]) then k else AlnumRunEnd(s, k + 1)
  }

  /** `re.search(r"(sub-[a-zA-Z0-9]+)", s).group(1)`, or `None` without a match. */
  function FindSubject(s: string): (r: Option<string>)
    ensures r.None? <==> forall p: nat :: !MatchAt(SubjectPattern, s, p)
    ensures r.Some? ==> exists p: nat | FirstMatchAt(SubjectPattern, s, p) ::
                          r.value == s[p..AlnumRunEnd(s, p + 4)]
    ensures r.Some? ==> StartsWith(r.value, "sub-") && |r.value| >= 5
  {
    match SearchFrom(SubjectPattern, s, 0)
    case None => None
    case Some(p) => assert FirstMatchAt(SubjectPattern, s, p); Some(s[p..AlnumRunEnd(s, p + 4)])
  }

  /** `re.search(r"(T[1-2]w)", s).group(1)`, or `None` without a match. */
  function FindContrast(s: string): (r: Option<string>)
    ensures r.None? <==> forall q: nat :: !MatchAt(ContrastPattern, s, q)
    ensures r.Some? ==> exists q: nat | FirstMatchAt(ContrastPattern, s, q) :: r.value == s[q..q + 3]
    ensures r.Some? ==> r.value == "T1w" || r.value == "T2w"
  {
    match SearchFrom(ContrastPattern, s, 0)
    case None => None
    case Some(q) =>
      assert FirstMatchAt(ContrastPattern, s, q);
      assert s[q..q + 3] == [s[q], s[q + 1], s[q + 2]];
      Some(s[q..q + 3])
  }

  /** `trouver_nom_sujet` of modification_propseg.py and propseg_plusieurs_images.py. */
  function SubjectName(s: string): (r: string)
    ensures r == Unknown || StartsWith(r, "sub-")
    ensures (forall p: nat :: !MatchAt(SubjectPattern, s, p)) ==> r == Unknown
    ensures FindSubject(s).Some? ==> r == FindSubject(s).value
  {
    match FindSubject(s)
    case None => Unknown
    case Some(t) => t
  }

  /** `trouver_nom_sujet_contraste`: subject and contrast tokens glued together,
      or `"Unknown"` when either is missing. It never fails. */
  function SubjectContrastKey(s: string): (k: string)
    ensures k == Unknown <==> FindSubject(s).None? || FindContrast(s).None?
    ensures k != Unknown ==> k == FindSubject(s).value + FindContrast(s).value
  {
    match (FindSubject(s), FindContrast(s))
    case (Some(subject), Some(contrast)) =>
      assert Unknown[..4] == "Unkn";
      assert (subject + contrast)[..4] == subject[..4] == "sub-";
      subject + contrast
    case _ => Unknown
  }

  /** A key is either `"Unknown"` or `sub-…` followed by `T1w`/`T2w`, and a real
      key can never be mistaken for `"Unknown"`. */
  lemma KeyShape(s: string)
    ensures var k := SubjectContrastKey(s);
            k == Unknown || (StartsWith(k, "sub-") && (EndsWith(k, "T1w") || EndsWith(k, "T2w")))
    ensures SubjectContrastKey(s) != Unknown ==> StartsWith(SubjectContrastKey(s), "sub-")
    ensures !StartsWith(Unknown, "sub-")
  {
    assert Unknown[..4] == "Unkn";
    match (FindSubject(s), FindContrast(s))
    case (Some(subject), Some(contrast)) =>
      var k := subject + contrast;
      assert k[..4] == subject[..4];
      assert k[|k| - 3..] == contrast;
    case _ =>
  }

  /** The key is `"Unknown"` exactly when one of the two patterns has no match;
      otherwise it is the leftmost subject token followed by the leftmost
      contrast token, with no separator. */
  lemma KeyFromFirstMatches(s: string)
    ensures SubjectContrastKey(s) == Unknown <==>
              (forall p: nat :: !MatchAt(SubjectPattern, s, p))
              || (forall q: nat :: !MatchAt(ContrastPattern, s, q))
    ensures SubjectContrastKey(s) != Unknown ==>
              exists p: nat, q: nat | FirstMatchAt(SubjectPattern, s, p) && FirstMatchAt(ContrastPattern, s, q) ::
                SubjectContrastKey(s) == s[p..AlnumRunEnd(s, p + 4)] + s[q..q + 3]
  {
    KeyShape(s);
    match (FindSubject(s), FindContrast(s))
    case (Some(subject), Some(contrast)) =>
      assert SubjectContrastKey(s) == subject + contrast;
      assert (subject + contrast)[..4] == "sub-";
      assert Unknown[..4] == "Unkn";
    case _ =>
  }

  /** The guard `if trouver_nom_sujet_contraste(f)` in `main` keeps every file:
      no key is the empty string. */
  lemma KeyNonEmpty(s: string)
    ensures SubjectContrastKey(s) != ""
  {
    KeyShape(s);
  }

  /** Two files that both lack a subject token get the same key `"Unknown"`. */
  lemma UnmatchedFilesShareKey(a: string, b: string)
    requires FindSubject(a).None? && FindSubject(b).None?
    ensures SubjectContrastKey(a) == SubjectContrastKey(b) == Unknown
  {
  }

  // ---------------------------------------------------------------------
  // find_files
  // ---------------------------------------------------------------------

  /** `find_files`: the globbed paths that the user's pattern finds and that do
      not contain `"centerline"`, in glob order. `matches` stands for
      `re.search(regex_pattern, f)`. */
  function FindFiles(globbed: seq<string>, matches: string -> bool): (r: seq<string>)
    ensures forall f :: f in r <==> f in globbed && matches(f) && !Contains(f, Centerline)
    ensures |r| <= |globbed|
    decreases |globbed|
  {
    if globbed == [] then []
    else
      var rest := FindFiles(globbed[1..], matches);
      assert globbed == [globbed[0]] + globbed[1..];
      if matches(globbed[0]) && !Contains(globbed[0], Centerline) then [globbed[0]] + rest else rest
  }

  /** Filtering is done path by path, so the glob order is kept. */
  lemma {:induction false} FindFilesConcat(a: seq<string>, b: seq<string>, matches: string -> bool)
    ensures FindFiles(a + b, matches) == FindFiles(a, matches) + FindFiles(b, matches)
    decreases |a|
  {
    if a == [] {
      assert a + b == b;
    } else {
      assert (a + b)[0] == a[0];
      assert (a + b)[1..] == a[1..] + b;
      FindFilesConcat(a[1..], b, matches);
    }
  }

  // ---------------------------------------------------------------------
  // Pairing, as in main
  // ---------------------------------------------------------------------

  /** `{key(f): f for f in files if key(f)}`: files whose key is the empty
      string are dropped and later files overwrite earlier ones that share
      their key. `main` uses it with `key` = `SubjectContrastKey`. */
  function KeyMap(files: seq<string>, key: string -> string): (m: map<string, string>)
    ensures forall k :: k in m <==> k != "" && exists f | f in files :: key(f) == k
    ensures forall k | k in m :: m[k] in files && key(m[k]) == k
    decreases |files|
  {
    if files == [] then map[]
    else
      var n := |files| - 1;
      var f := files[n];
      var m := KeyMap(files[..n], key);
      assert files == files[..n] + [f];
      assert forall g :: g in files <==> g in files[..n] || g == f;
      if key(f) != "" then m[key(f) := f] else m
  }

  /** The file kept for a key is the last one in list order with that key. */
  lemma {:induction false} KeyMapLastWins(files: seq<string>, key: string -> string, i: nat)
    requires i < |files| && key(files[i]) != ""
    requires forall j | i < j < |files| :: key(files[j]) != key(files[i])
    ensures key(files[i]) in KeyMap(files, key)
    ensures KeyMap(files, key)[key(files[i])] == files[i]
    decreases |files|
  {
    var n := |files| - 1;
    var pre := files[..n];
    KeyMapStep(files, key);
    if i < n {
      forall j | i < j < |pre| ensures key(pre[j]) != key(pre[i]) {
        assert pre[j] == files[j];
      }
      KeyMapLastWins(pre, key, i);
      assert pre[i] == files[i];
      assert key(files[n]) != key(files[i]);
    }
  }

  /** One more file: the map before it, updated with that file when its key
      is not empty. */
  lemma KeyMapStep(files: seq<string>, key: string -> string)
    requires files != []
    ensures var n := |files| - 1;
            KeyMap(files, key) == if key(files[n]) != "" then KeyMap(files[..n], key)[key(files[n]) := files[n]]
                                  else KeyMap(files[..n], key)
  {
  }

  /** With the subject-contrast key the guard `if trouver_nom_sujet_contraste(f)`
      drops nothing: every file's key is in the map. */
  lemma KeyMapKeepsEveryFile(files: seq<string>, f: string)
    requires f in files
    ensures SubjectContrastKey(f) in KeyMap(files, SubjectContrastKey)
  {
    KeyNonEmpty(f);
  }

  /** The keys of `files`, each once, in the order they are first seen. */
  function KeyOrder(files: seq<string>, key: string -> string): (ks: seq<string>)
    ensures Distinct(ks)
    ensures forall k :: k in ks <==> k in KeyMap(files, key)
    decreases |files|
  {
    if files == [] then []
    else
      var n := |files| - 1;
      var pre := KeyOrder(files[..n], key);
      var k := key(files[n]);
      assert files == files[..n] + [files[n]];
      assert forall g :: g in files <==> g in files[..n] || g == files[n];
      if k == "" || k in pre then pre else pre + [k]
  }

  /** The keys of `ks` that are also keys of `labels`, in the order of `ks`. */
  function CommonKeys(ks: seq<string>, labels: map<string, string>): (r: seq<string>)
    requires Distinct(ks)
    ensures Distinct(r)
    ensures forall k :: k in r <==> k in ks && k in labels
    decreases |ks|
  {
    if ks == [] then []
    else
      var rest := CommonKeys(ks[1..], labels);
      assert ks == [ks[0]] + ks[1..];
      if ks[0] in labels then [ks[0]] + rest else rest
  }

  /** The key of the segmentation path of each pair. */
  function PairKeys(pairs: seq<(string, string)>, key: string -> string): (ks: seq<string>)
    ensures |ks| == |pairs|
    ensures forall i | 0 <= i < |pairs| :: ks[i] == key(pairs[i].0)
  {
    seq(|pairs|, i requires 0 <= i < |pairs| => key(pairs[i].0))
  }

  /** `paired_files` of `main`: for each key common to both file lists, the
      segmentation and label files the two dict comprehensions kept for it,
      sorted by the key of the segmentation path. The set `sujets_communs` is
      walked here in the first-seen order of the segmentation keys;
      `PairingOrderIrrelevant` shows that any other walk gives the same list. */
  function PairFiles(segFiles: seq<string>, labelFiles: seq<string>, key: string -> string): (pairs: seq<(string, string)>)
    ensures forall i | 0 <= i < |pairs| ::
              && pairs[i].0 in segFiles && pairs[i].1 in labelFiles
              && key(pairs[i].0) == key(pairs[i].1) != ""
    ensures forall k :: k in PairKeys(pairs, key) <==> k in KeyMap(segFiles, key) && k in KeyMap(labelFiles, key)
    ensures StrictlySorted(PairKeys(pairs, key))
  {
    var segs := KeyMap(segFiles, key);
    var labels := KeyMap(labelFiles, key);
    var common := CommonKeys(KeyOrder(segFiles, key), labels);
    var sorted := SortStrings(common);
    SortDistinctIsStrict(common);
    MultisetMembers(sorted, common);
    var pairs := seq(|sorted|, i requires 0 <= i < |sorted| => (segs[sorted[i]], labels[sorted[i]]));
    assert PairKeys(pairs, key) == sorted;
    pairs
  }

  /** Whatever order the common keys are walked in before sorting, the sorted
      list of keys is the same. */
  lemma PairingOrderIrrelevant(segFiles: seq<string>, labelFiles: seq<string>, key: string -> string, walk: seq<string>)
    requires Distinct(walk)
    requires forall k :: k in walk <==> k in KeyMap(segFiles, key) && k in KeyMap(labelFiles, key)
    ensures SortStrings(walk) == PairKeys(PairFiles(segFiles, labelFiles, key), key)
  {
    var sorted := SortStrings(walk);
    SortDistinctIsStrict(walk);
    MultisetMembers(sorted, walk);
    SortedUnique(sorted, PairKeys(PairFiles(segFiles, labelFiles, key), key));
  }

  /** Each pair holds the last segmentation file and the last label file,
      in list order, that carry its key. */
  lemma PairUsesLastFiles(segFiles: seq<string>, labelFiles: seq<string>, key: string -> string, i: nat, j: nat)
    requires i < |segFiles| && j < |labelFiles|
    requires key(segFiles[i]) == key(labelFiles[j]) != ""
    requires forall m | i < m < |segFiles| :: key(segFiles[m]) != key(segFiles[i])
    requires forall m | j < m < |labelFiles| :: key(labelFiles[m]) != key(labelFiles[j])
    ensures (segFiles[i], labelFiles[j]) in PairFiles(segFiles, labelFiles, key)
  {
    var k := key(segFiles[i]);
    KeyMapLastWins(segFiles, key, i);
    KeyMapLastWins(labelFiles, key, j);
    var segs := KeyMap(segFiles, key);
    var labels := KeyMap(labelFiles, key);
    var common := CommonKeys(KeyOrder(segFiles, key), labels);
    var sorted := SortStrings(common);
    MultisetMembers(sorted, common);
    assert k in sorted;
    var idx :| 0 <= idx < |sorted| && sorted[idx] == k;
    var pairs := seq(|sorted|, i requires 0 <= i < |sorted| => (segs[sorted[i]], labels[sorted[i]]));
    assert PairFiles(segFiles, labelFiles, key) == pairs;
    assert pairs[idx] == (segFiles[i], labelFiles[j]);
  }

  /** A lone segmentation and a lone label with the same non-empty key are
      paired. */
  lemma SameKeyFilesArePaired(segPath: string, labelPath: string, key: string -> string)
    requires key(segPath) == key(labelPath) != ""
    ensures PairFiles([segPath], [labelPath], key) == [(segPath, labelPath)]
  {
    var pairs := PairFiles([segPath], [labelPath], key);
    var keys := PairKeys(pairs, key);
    assert segPath in [segPath] && labelPath in [labelPath];
    assert key(segPath) in keys;
    assert pairs[0].0 in [segPath] && pairs[0].1 in [labelPath];
    if |pairs| > 1 {
      assert pairs[1].0 in [segPath];
      LexLessIrreflexive(key(segPath));
    }
  }

  /** Because the guard keeps every key, a segmentation and a label that both
      lack a subject token are paired with each other under `"Unknown"`. */
  lemma UnmatchedFilesArePaired(segPath: string, labelPath: string)
    requires FindSubject(segPath).None? && FindSubject(labelPath).None?
    ensures PairFiles([segPath], [labelPath], SubjectContrastKey) == [(segPath, labelPath)]
  {
    UnmatchedFilesShareKey(segPath, labelPath);
    SameKeyFilesArePaired(segPath, labelPath, SubjectContrastKey);
  }

}
