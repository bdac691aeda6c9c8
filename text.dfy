/** The few Python string operations the scripts rely on, over `seq<char>`:
    substring tests, `str.replace` used for removal, `str.split`,
    `str.rsplit(sep, 1)`, `str.strip()`, `os.path.join`, `os.path.basename`,
    and Python's ordering of strings (by code point) with the sort that
    `sorted` performs on lists of strings. */
module Text {
  import opened Wrappers

  /** The character class `[a-zA-Z0-9]`. */
  predicate IsAlnum(c: char) {
    ('a' <= c <= 'z') || ('A' <= c <= 'Z') || ('0' <= c <= '9')
  }

  predicate StartsWith(s: string, p: string) {
    |p| <= |s| && s[..|p|] == p
  }

  predicate EndsWith(s: string, p: string) {
    |p| <= |s| && s[|s| - |p|..] == p
  }

  predicate OccursAt(s: string, t: string, i: nat) {
    i + |t| <= |s| && s[i..i + |t|] == t
  }

  /** Python's `t in s` for two strings. */
  predicate Contains(s: string, t: string) {
    exists i: nat | i <= |s| :: OccursAt(s, t, i)
  }

  // ---------------------------------------------------------------------
  // Counting and finding one character
  // ---------------------------------------------------------------------

  function CountChar(s: string, c: char): nat
    decreases |s|
  {
    if s == [] then 0 else (if s[0] == c then 1 else 0) + CountChar(s[1..], c)
  }

  /** A concatenation starts with its first part and ends with its second. */
  lemma ConcatEnds(a: string, b: string)
    ensures StartsWith(a + b, a) && EndsWith(a + b, b)
  {
    assert (a + b)[..|a|] == a;
    assert (a + b)[|a|..] == b;
  }

  lemma {:induction false} CountCharConcat(a: string, b: string, c: char)
    ensures CountChar(a + b, c) == CountChar(a, c) + CountChar(b, c)
    decreases |a|
  {
    if a == [] {
      assert a + b == b;
    } else {
      assert (a + b)[1..] == a[1..] + b;
      CountCharConcat(a[1..], b, c);
    }
  }

  lemma {:induction false} CountCharZero(s: string, c: char)
    ensures CountChar(s, c) == 0 <==> c !in s
    decreases |s|
  {
    if s != [] {
      CountCharZero(s[1..], c);
      assert s == [s[0]] + s[1..];
    }
  }

  /** A string that contains `t` has at least as many of each character as `t`. */
  lemma ContainsCountChar(s: string, t: string, c: char)
    requires Contains(s, t)
    ensures CountChar(s, c) >= CountChar(t, c)
  {
    var i: nat :| i <= |s| && OccursAt(s, t, i);
    assert s == s[..i] + t + s[i + |t|..];
    CountCharConcat(s[..i] + t, s[i + |t|..], c);
    CountCharConcat(s[..i], t, c);
  }

  /** Index of the first `c` in `s`, as `str.find` would give it. */
  function IndexOf(s: string, c: char): (r: Option<nat>)
    ensures r.Some? ==> r.value < |s| && s[r.value] == c && c !in s[..r.value]
    ensures r.None? ==> c !in s
    decreases |s|
  {
    if s == [] then None
    else if s[0] == c then Some(0)
    else
      match IndexOf(s[1..], c)
      case None => None
      case Some(i) => assert s[..i + 1] == [s[0]] + s[1..][..i]; Some(i + 1)
  }

  /** Index of the last `c` in `s`, as `str.rfind` would give it. */
  function LastIndexOf(s: string, c: char): (r: Option<nat>)
    ensures r.Some? ==> r.value < |s| && s[r.value] == c && c !in s[r.value + 1..]
    ensures r.None? ==> c !in s
    decreases |s|
  {
    if s == [] then None
    else if s[|s| - 1] == c then Some(|s| - 1)
    else
      match LastIndexOf(s[..|s| - 1], c)
      case None => assert s == s[..|s| - 1] + [s[|s| - 1]]; None
      case Some(i) =>
        assert s[i + 1..] == s[..|s| - 1][i + 1..] + [s[|s| - 1]];
        Some(i)
  }

  // ---------------------------------------------------------------------
  // str.split, str.rsplit(sep, 1), str.replace(pat, "")
  // ---------------------------------------------------------------------

  /** `s.split(sep)` for a one-character separator. */
  function Split(s: string, sep: char): (parts: seq<string>)
    ensures |parts| == CountChar(s, sep) + 1
    ensures forall i | 0 <= i < |parts| :: sep !in parts[i]
    decreases |s|
  {
    match IndexOf(s, sep)
    case None => CountCharZero(s, sep); [s]
    case Some(i) =>
      CountAfterFirst(s, sep, i);
      [s[..i]] + Split(s[i + 1..], sep)
  }

  /** The first occurrence of `sep` is one of them; the rest lie after it. */
  lemma CountAfterFirst(s: string, sep: char, i: nat)
    requires i < |s| && s[i] == sep && sep !in s[..i]
    ensures CountChar(s, sep) == 1 + CountChar(s[i + 1..], sep)
  {
    assert s == s[..i] + [sep] + s[i + 1..];
    CountCharConcat(s[..i] + [sep], s[i + 1..], sep);
    CountCharConcat(s[..i], [sep], sep);
    CountCharZero(s[..i], sep);
  }

  /** Gluing the parts back with the separator gives the original string. */
  function JoinWith(parts: seq<string>, sep: char): string
    requires |parts| >= 1
    decreases |parts|
  {
    if |parts| == 1 then parts[0] else parts[0] + [sep] + JoinWith(parts[1..], sep)
  }

  lemma {:induction false} SplitRoundTrip(s: string, sep: char)
    ensures JoinWith(Split(s, sep), sep) == s
    decreases |s|
  {
    match IndexOf(s, sep)
    case None =>
    case Some(i) =>
      SplitRoundTrip(s[i + 1..], sep);
      assert s == s[..i] + [sep] + s[i + 1..];
  }

  /** The first field of `s.split(sep)` is the text before the first separator. */
  lemma FirstFieldIsPrefix(s: string, sep: char)
    ensures StartsWith(s, Split(s, sep)[0])
    ensures Split(s, sep)[0] == s || s[|Split(s, sep)[0]|] == sep
  {
  }

  /** `s.rsplit(sep, 1)` when it yields two parts; `None` when `sep` does not occur. */
  function RSplitOnce(s: string, sep: char): (r: Option<(string, string)>)
    ensures r.None? <==> sep !in s
    ensures r.Some? ==> s == r.value.0 + [sep] + r.value.1 && sep !in r.value.1
  {
    match LastIndexOf(s, sep)
    case None => None
    case Some(j) => assert s == s[..j] + [sep] + s[j + 1..]; Some((s[..j], s[j + 1..]))
  }

  /** `s.replace(pat, "")`: removes every occurrence of `pat`, scanning left to right. */
  function RemoveAll(s: string, pat: string): (r: string)
    requires pat != []
    ensures |r| <= |s|
    decreases |s|
  {
    if |s| < |pat| then s
    else if s[..|pat|] == pat then RemoveAll(s[|pat|..], pat)
    else [s[0]] + RemoveAll(s[1..], pat)
  }

  /** When no occurrence of `pat` starts inside `base`, removing `pat` from
      `base + pat` gives back `base`. */
  lemma {:induction false} RemoveAllSuffix(base: string, pat: string)
    requires pat != []
    requires forall i: nat | i < |base| :: !OccursAt(base + pat, pat, i)
    ensures RemoveAll(base + pat, pat) == base
    decreases |base|
  {
    var s := base + pat;
    if base == [] {
      assert s[..|pat|] == pat;
      assert s[|pat|..] == [];
    } else {
      assert !OccursAt(s, pat, 0);
      assert s[..|pat|] != pat;
      assert s[1..] == base[1..] + pat;
      forall i: nat | i < |base[1..]|
        ensures !OccursAt(base[1..] + pat, pat, i)
      {
        assert !OccursAt(s, pat, i + 1);
        assert (base[1..] + pat)[i..i + |pat|] == s[i + 1..i + 1 + |pat|];
      }
      RemoveAllSuffix(base[1..], pat);
    }
  }

  /** Removing a pattern never brings in a character the text did not hold. */
  lemma {:induction false} RemoveAllKeepsOut(s: string, pat: string, c: char)
    requires pat != [] && c !in s
    ensures c !in RemoveAll(s, pat)
    decreases |s|
  {
    if |s| >= |pat| {
      if s[..|pat|] == pat {
        assert forall k | 0 <= k < |s| - |pat| :: s[|pat|..][k] == s[k + |pat|];
        RemoveAllKeepsOut(s[|pat|..], pat, c);
      } else {
        assert forall k | 0 <= k < |s| - 1 :: s[1..][k] == s[k + 1];
        RemoveAllKeepsOut(s[1..], pat, c);
      }
    }
  }

  // ---------------------------------------------------------------------
  // str.strip()
  // ---------------------------------------------------------------------

  /** Python's `str.isspace` for one character. */
  predicate IsSpace(c: char) {
    ('\t' <= c <= '\r') || ('\U{1c}' <= c <= ' ')
    || c == '\U{85}' || c == '\U{a0}' || c == '\U{1680}'
    || ('\U{2000}' <= c <= '\U{200a}') || c == '\U{2028}' || c == '\U{2029}'
    || c == '\U{202f}' || c == '\U{205f}' || c == '\U{3000}'
  }

  function StripLeft(s: string): (r: string)
    ensures EndsWith(s, r)
    ensures r == [] || !IsSpace(r[0])
    ensures forall i | 0 <= i < |s| - |r| :: IsSpace(s[i])
    decreases |s|
  {
    if s != [] && IsSpace(s[0]) then StripLeft(s[1..]) else s
  }

  function StripRight(s: string): (r: string)
    ensures StartsWith(s, r)
    ensures r == [] || !IsSpace(r[|r| - 1])
    ensures forall i | |r| <= i < |s| :: IsSpace(s[i])
    decreases |s|
  {
    if s != [] && IsSpace(s[|s| - 1]) then StripRight(s[..|s| - 1]) else s
  }

  /** `s.strip()`: the part of `s` left after removing leading and trailing
      whitespace; everything removed is whitespace and the ends kept are not. */
  function Strip(s: string): (r: string)
    ensures exists i: nat, j: nat | i <= j <= |s| ::
              && r == s[i..j]
              && (forall k | 0 <= k < i :: IsSpace(s[k]))
              && (forall k | j <= k < |s| :: IsSpace(s[k]))
    ensures r == [] || (!IsSpace(r[0]) && !IsSpace(r[|r| - 1]))
  {
    var l := StripLeft(s);
    var r := StripRight(l);
    var i := |s| - |l|;
    assert l == s[i..];
    assert r == s[i..i + |r|];
    r
  }

  // ---------------------------------------------------------------------
  // Paths
  // ---------------------------------------------------------------------

  /** `os.path.join(a, b)` on POSIX: an absolute `b` replaces `a`; otherwise a
      slash is inserted unless `a` is empty or already ends with one. */
  function PathJoin(a: string, b: string): (r: string)
    ensures EndsWith(r, b)
    ensures !StartsWith(b, "/") ==> StartsWith(r, a)
  {
    if StartsWith(b, "/") then b
    else if a == "" || EndsWith(a, "/") then a + b
    else a + "/" + b
  }

  /** `os.path.basename(p)`: the text after the last slash, empty when `p`
      ends in one. `Path(p).name` gives the same text whenever `p` does not
      end in a slash, which holds for every globbed `*.nii.gz` path. */
  function Basename(p: string): (r: string)
    ensures EndsWith(p, r)
    ensures '/' !in r
    ensures |r| < |p| ==> p[|p| - |r| - 1] == '/'
    decreases |p|
  {
    if p == [] || p[|p| - 1] == '/' then []
    else
      var r := Basename(p[..|p| - 1]);
      assert p[|p| - |r| - 1..] == p[..|p| - 1][|p| - 1 - |r|..] + [p[|p| - 1]];
      r + [p[|p| - 1]]
  }

  // ---------------------------------------------------------------------
  // Python's ordering of strings, and sorting
  // ---------------------------------------------------------------------

  /** `a < b` on Python strings: code point by code point, a proper prefix first. */
  predicate LexLess(a: string, b: string)
    decreases |a|
  {
    if a == [] then b != []
    else if b == [] then false
    else if a[0] == b[0] then LexLess(a[1..], b[1..])
    else a[0] < b[0]
  }

  predicate LexLessEq(a: string, b: string) {
    a == b || LexLess(a, b)
  }

  lemma {:induction false} LexLessIrreflexive(a: string)
    ensures !LexLess(a, a)
    decreases |a|
  {
    if a != [] {
      LexLessIrreflexive(a[1..]);
    }
  }

  lemma {:induction false} LexLessTransitive(a: string, b: string, c: string)
    requires LexLess(a, b) && LexLess(b, c)
    ensures LexLess(a, c)
    decreases |a|
  {
    if a != [] && b != [] && c != [] && a[0] == b[0] && b[0] == c[0] {
      LexLessTransitive(a[1..], b[1..], c[1..]);
    }
  }

  /** Any two different strings are ordered one way or the other. */
  lemma {:induction false} LexLessTotal(a: string, b: string)
    ensures a == b || LexLess(a, b) || LexLess(b, a)
    decreases |a|
  {
    if a != [] && b != [] && a[0] == b[0] {
      LexLessTotal(a[1..], b[1..]);
      if a[1..] == b[1..] {
        assert a == [a[0]] + a[1..] && b == [b[0]] + b[1..];
      }
    }
  }

  lemma LexLessAsymmetric(a: string, b: string)
    requires LexLess(a, b)
    ensures !LexLess(b, a)
  {
    if LexLess(b, a) {
      LexLessTransitive(a, b, a);
      LexLessIrreflexive(a);
    }
  }

  predicate Sorted(s: seq<string>) {
    forall i, j | 0 <= i < j < |s| :: LexLessEq(s[i], s[j])
  }

  predicate StrictlySorted(s: seq<string>) {
    forall i, j | 0 <= i < j < |s| :: LexLess(s[i], s[j])
  }

  predicate Distinct<T(==)>(s: seq<T>) {
    forall i, j | 0 <= i < j < |s| :: s[i] != s[j]
  }

  /** `key` reads the element at `i` of `xs` as a pair whose first part
      is `s`. */
  predicate KeyedAt<T>(xs: seq<T>, key: T -> Option<(string, string)>, i: int, s: string) {
    0 <= i < |xs| && key(xs[i]).Some? && key(xs[i]).value.0 == s
  }

  /** Where `s` is first seen in `xs`: the least index keyed to `s`, or
      `|xs|` when there is none. */
  function FirstKeyed<T>(xs: seq<T>, key: T -> Option<(string, string)>, s: string): (k: nat)
    ensures k <= |xs|
    ensures k < |xs| ==> KeyedAt(xs, key, k, s)
    ensures forall i | 0 <= i < k :: !KeyedAt(xs, key, i, s)
    decreases |xs|
  {
    if xs == [] then 0
    else
      var init := xs[..|xs| - 1];
      var k := FirstKeyed(init, key, s);
      assert forall i | 0 <= i < |init| :: KeyedAt(init, key, i, s) == KeyedAt(xs, key, i, s);
      if k < |init| then k
      else if KeyedAt(xs, key, |init|, s) then |init|
      else |xs|
  }

  /** `order` lists subjects seen in `xs`, each first seen after the ones
      before it. */
  predicate FirstSeenOrder<T>(xs: seq<T>, key: T -> Option<(string, string)>, order: seq<string>) {
    && (forall s | s in order :: FirstKeyed(xs, key, s) < |xs|)
    && (forall a, b | 0 <= a < b < |order| :: FirstKeyed(xs, key, order[a]) < FirstKeyed(xs, key, order[b]))
  }

  /** One more element leaves the first sightings of the subjects seen
      already where they were. */
  lemma FirstSeenExtends<T>(xs: seq<T>, key: T -> Option<(string, string)>, order: seq<string>)
    requires xs != [] && FirstSeenOrder(xs[..|xs| - 1], key, order)
    ensures FirstSeenOrder(xs, key, order)
  {
    forall t | t in order ensures FirstKeyed(xs, key, t) == FirstKeyed(xs[..|xs| - 1], key, t) {
    }
  }

  /** A subject first seen at the last element follows everything seen
      before it. */
  lemma FirstSeenAppends<T>(xs: seq<T>, key: T -> Option<(string, string)>, order: seq<string>, s: string)
    requires xs != [] && FirstSeenOrder(xs[..|xs| - 1], key, order)
    requires KeyedAt(xs, key, |xs| - 1, s) && FirstKeyed(xs[..|xs| - 1], key, s) == |xs| - 1
    ensures FirstSeenOrder(xs, key, order + [s])
  {
    FirstSeenExtends(xs, key, order);
    var o := order + [s];
    forall a, b | 0 <= a < b < |o| ensures FirstKeyed(xs, key, o[a]) < FirstKeyed(xs, key, o[b]) {
      if b == |order| {
        assert o[a] == order[a] && order[a] in order;
      }
    }
  }

  lemma LexLessEqTransitive(a: string, b: string, c: string)
    requires LexLessEq(a, b) && LexLessEq(b, c)
    ensures LexLessEq(a, c)
  {
    if a != b && b != c {
      LexLessTransitive(a, b, c);
    }
  }

  function Insert(x: string, s: seq<string>): seq<string>
    decreases |s|
  {
    if s == [] then [x]
    else if LexLessEq(x, s[0]) then [x] + s
    else [s[0]] + Insert(x, s[1..])
  }

  /** Inserting adds exactly `x`. */
  lemma {:induction false} InsertMultiset(x: string, s: seq<string>)
    ensures multiset(Insert(x, s)) == multiset(s) + multiset{x}
    decreases |s|
  {
    if s != [] && !LexLessEq(x, s[0]) {
      InsertMultiset(x, s[1..]);
      assert s == [s[0]] + s[1..];
    }
  }

  /** A lower bound of `x` and of the list bounds the list after insertion. */
  lemma {:induction false} InsertBounded(x: string, s: seq<string>, lo: string)
    requires LexLessEq(lo, x) && forall k | 0 <= k < |s| :: LexLessEq(lo, s[k])
    ensures forall k | 0 <= k < |Insert(x, s)| :: LexLessEq(lo, Insert(x, s)[k])
    decreases |s|
  {
    if s != [] && !LexLessEq(x, s[0]) {
      InsertBounded(x, s[1..], lo);
      assert forall k | 1 <= k < |Insert(x, s)| :: Insert(x, s)[k] == Insert(x, s[1..])[k - 1];
    }
  }

  /** Inserting into a sorted list keeps it sorted and adds exactly `x`. */
  lemma {:induction false} InsertSorted(x: string, s: seq<string>)
    requires Sorted(s)
    ensures Sorted(Insert(x, s))
    ensures multiset(Insert(x, s)) == multiset(s) + multiset{x}
    decreases |s|
  {
    InsertMultiset(x, s);
    if s == [] {
    } else if LexLessEq(x, s[0]) {
      forall k | 0 <= k < |s| ensures LexLessEq(x, s[k]) {
        LexLessEqTransitive(x, s[0], s[k]);
      }
      SortedCons(x, s);
    } else {
      InsertSorted(x, s[1..]);
      LexLessTotal(x, s[0]);
      InsertBounded(x, s[1..], s[0]);
      SortedCons(s[0], Insert(x, s[1..]));
    }
  }

  /** A sorted list stays sorted with a first element below all of it. */
  lemma SortedCons(a: string, t: seq<string>)
    requires Sorted(t) && forall k | 0 <= k < |t| :: LexLessEq(a, t[k])
    ensures Sorted([a] + t)
  {
    var s := [a] + t;
    forall i, j | 0 <= i < j < |s| ensures LexLessEq(s[i], s[j]) {
      if i > 0 {
        assert s[i] == t[i - 1] && s[j] == t[j - 1];
      } else {
        assert s[j] == t[j - 1];
      }
    }
  }

  /** `sorted(xs)` for a list of strings (insertion sort; the order is total,
      so any correct sort gives the same list, see `SortedUnique`). */
  function SortStrings(s: seq<string>): (r: seq<string>)
    ensures Sorted(r)
    ensures multiset(r) == multiset(s)
    decreases |s|
  {
    if s == [] then []
    else
      assert s == [s[0]] + s[1..];
      InsertSorted(s[0], SortStrings(s[1..]));
      Insert(s[0], SortStrings(s[1..]))
  }

  /** Two sequences with the same multiset have the same members. */
  lemma MultisetMembers(a: seq<string>, b: seq<string>)
    requires multiset(a) == multiset(b)
    ensures forall k :: k in a <==> k in b
  {
    forall k ensures k in a <==> k in b {
      assert k in a <==> k in multiset(a);
      assert k in b <==> k in multiset(b);
    }
  }

  /** Sorting a list without repetitions orders it strictly. */
  lemma SortDistinctIsStrict(s: seq<string>)
    requires Distinct(s)
    ensures StrictlySorted(SortStrings(s))
    ensures Distinct(SortStrings(s))
  {
    var r := SortStrings(s);
    forall i, j | 0 <= i < j < |r| ensures r[i] != r[j] {
      if r[i] == r[j] {
        DistinctHasNoRepeats(s, r[i]);
        CountAtLeastTwo(r, i, j);
      }
    }
  }

  lemma {:induction false} DistinctHasNoRepeats<T>(s: seq<T>, x: T)
    requires Distinct(s)
    ensures multiset(s)[x] <= 1
    decreases |s|
  {
    if s != [] {
      assert s == [s[0]] + s[1..];
      DistinctHasNoRepeats(s[1..], x);
      if s[0] == x {
        assert x !in s[1..];
      }
    }
  }

  lemma CountAtLeastTwo<T>(s: seq<T>, i: nat, j: nat)
    requires i < j < |s| && s[i] == s[j]
    ensures multiset(s)[s[i]] >= 2
  {
    assert s == s[..i] + [s[i]] + s[i + 1..j] + [s[j]] + s[j + 1..];
  }

  /** Two strictly sorted lists with the same elements are equal: the order of
      a `sorted` result does not depend on the order its input came in. */
  lemma {:induction false} SortedUnique(a: seq<string>, b: seq<string>)
    requires StrictlySorted(a) && StrictlySorted(b)
    requires forall x :: x in a <==> x in b
    ensures a == b
    decreases |a|
  {
    if a != [] {
      assert a[0] in a;
    }
    if b != [] {
      assert b[0] in b;
    }
    if a != [] && b != [] {
      assert b[0] in a;
      assert a[0] in b;
      if a[0] != b[0] {
        var i :| 0 <= i < |a| && a[i] == b[0];
        var j :| 0 <= j < |b| && b[j] == a[0];
        assert i > 0 && j > 0;
        LexLessAsymmetric(a[0], a[i]);
      }
      forall x ensures x in a[1..] <==> x in b[1..] {
        if x in a[1..] {
          var i :| 0 <= i < |a[1..]| && a[1..][i] == x;
          assert a[i + 1] == x && LexLess(a[0], x);
          LexLessIrreflexive(x);
          assert x in b;
        }
        if x in b[1..] {
          var j :| 0 <= j < |b[1..]| && b[1..][j] == x;
          assert b[j + 1] == x && LexLess(b[0], x);
          LexLessIrreflexive(x);
          assert x in a;
        }
      }
      SortedUnique(a[1..], b[1..]);
      assert a == [a[0]] + a[1..] && b == [b[0]] + b[1..];
    }
  }
}
