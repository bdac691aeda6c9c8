/** analyse_GT_vs_label.py (both copies, which hold the same
    `analyze_segmentation`): the offsets table of `GT_vs_label.py` after
    coercion to numbers, its missing-value lists, the `GT < 5` subset and
    the one-row recap of statistics. */
module Summary {
  import opened Wrappers

  // ---------------------------------------------------------------------
  // The table
  // ---------------------------------------------------------------------

  /** A cell as `read_csv` gives it: a number, an empty cell, or text. */
  datatype Cell = Num(x: real) | Missing | Str(text: string)

  /** A row: the subject, the two offset columns and the other columns,
      which are carried through unchanged. */
  datatype Row = Row(sujet: string, gt: Cell, propseg: Cell, rest: seq<Cell>)

  datatype Column = GT | Propseg

  function CellOf(r: Row, col: Column): Cell {
    match col
    case GT => r.gt
    case Propseg => r.propseg
  }

  // ---------------------------------------------------------------------
  // pd.to_numeric(..., errors="coerce")
  // ---------------------------------------------------------------------

  /** One cell: text becomes the number `numeral` reads in it, or missing
      when it reads none. */
  function CoerceCell(c: Cell, numeral: string -> Option<real>): (r: Cell)
    ensures r.Num? || r.Missing?
    ensures c.Num? ==> r == c
    ensures c.Missing? ==> r.Missing?
    ensures c.Str? ==> (r.Missing? <==> numeral(c.text).None?)
  {
    match c
    case Num(_) => c
    case Missing => Missing
    case Str(t) => match numeral(t) case None => Missing case Some(x) => Num(x)
  }

  /** After coercion every offset cell is a number or missing. */
  predicate Numeric(r: Row) {
    (r.gt.Num? || r.gt.Missing?) && (r.propseg.Num? || r.propseg.Missing?)
  }

  function CoerceRow(r: Row, numeral: string -> Option<real>): Row {
    r.(gt := CoerceCell(r.gt, numeral), propseg := CoerceCell(r.propseg, numeral))
  }

  /** Both column rebindings. */
  function Coerce(rows: seq<Row>, numeral: string -> Option<real>): (r: seq<Row>)
    ensures |r| == |rows|
    ensures forall i | 0 <= i < |r| ::
              && Numeric(r[i])
              && r[i].sujet == rows[i].sujet && r[i].rest == rows[i].rest
              && r[i].gt == CoerceCell(rows[i].gt, numeral)
              && r[i].propseg == CoerceCell(rows[i].propseg, numeral)
  {
    seq(|rows|, i requires 0 <= i < |rows| => CoerceRow(rows[i], numeral))
  }

  /** Coercing twice is coercing once: numbers and missing cells stay put. */
  lemma CoerceIdempotent(rows: seq<Row>, numeral: string -> Option<real>)
    ensures Coerce(Coerce(rows, numeral), numeral) == Coerce(rows, numeral)
  {
    var once := Coerce(rows, numeral);
    var twice := Coerce(once, numeral);
    forall i | 0 <= i < |rows| ensures twice[i] == once[i] {
      assert once[i].gt.Num? || once[i].gt.Missing?;
      assert once[i].propseg.Num? || once[i].propseg.Missing?;
    }
  }

  /** A cell such as `"N/A"`, in which no number can be read, becomes
      missing. */
  lemma NonNumericBecomesMissing(rows: seq<Row>, numeral: string -> Option<real>, i: nat, col: Column)
    requires i < |rows| && CellOf(rows[i], col).Str? && numeral(CellOf(rows[i], col).text).None?
    ensures CellOf(Coerce(rows, numeral)[i], col) == Missing
  {
  }

  // ---------------------------------------------------------------------
  // Boolean filters
  // ---------------------------------------------------------------------

  /** `df[mask]`: the rows `keep` selects, whole and in order. */
  function Where(rows: seq<Row>, keep: Row -> bool): (r: seq<Row>)
    ensures |r| <= |rows|
    ensures forall x :: x in r <==> x in rows && keep(x)
    decreases |rows|
  {
    if rows == [] then []
    else
      var init := rows[..|rows| - 1];
      var last := rows[|rows| - 1];
      assert forall x | x in rows :: x in init || x == last;
      Where(init, keep) + (if keep(last) then [last] else [])
  }

  /** Filtering keeps the table's order. */
  lemma {:induction false} WhereConcat(a: seq<Row>, b: seq<Row>, keep: Row -> bool)
    ensures Where(a + b, keep) == Where(a, keep) + Where(b, keep)
    decreases |b|
  {
    if b == [] {
      assert a + b == a;
    } else {
      var init := b[..|b| - 1];
      var tail := if keep(b[|b| - 1]) then [b[|b| - 1]] else [];
      assert (a + b)[..|a + b| - 1] == a + init;
      assert (a + b)[|a + b| - 1] == b[|b| - 1];
      assert Where(a + b, keep) == Where(a + init, keep) + tail;
      WhereConcat(a, init, keep);
      assert Where(b, keep) == Where(init, keep) + tail;
      assert Where(a, keep) + Where(init, keep) + tail == Where(a, keep) + (Where(init, keep) + tail);
    }
  }

  /** `["Sujet"].tolist()`. */
  function Subjects(rows: seq<Row>): (r: seq<string>)
    ensures |r| == |rows|
    ensures forall i | 0 <= i < |rows| :: r[i] == rows[i].sujet
  {
    seq(|rows|, i requires 0 <= i < |rows| => rows[i].sujet)
  }

  predicate GtMissing(r: Row) {
    r.gt.Missing?
  }

  predicate PropsegMissing(r: Row) {
    r.propseg.Missing?
  }

  /** `df["GT"] < 5`: false on a missing value. */
  predicate GtBelowFive(r: Row) {
    r.gt.Num? && r.gt.x < 5.0
  }

  /** `propseg_only`: the subjects without a `GT` value. */
  function PropsegOnly(df: seq<Row>): seq<string> {
    Subjects(Where(df, GtMissing))
  }

  /** `gt_only`: the subjects without a `propseg` value. */
  function GtOnly(df: seq<Row>): seq<string> {
    Subjects(Where(df, PropsegMissing))
  }

  /** `gt_negative`. */
  function GtNegative(df: seq<Row>): seq<Row> {
    Where(df, GtBelowFive)
  }

  /** The two lists hold exactly the subjects of the rows with the other
      column missing. */
  lemma MissingLists(df: seq<Row>)
    ensures forall s :: s in PropsegOnly(df) <==> exists r | r in df :: r.sujet == s && r.gt.Missing?
    ensures forall s :: s in GtOnly(df) <==> exists r | r in df :: r.sujet == s && r.propseg.Missing?
  {
    forall s ensures s in PropsegOnly(df) <==> exists r | r in df :: r.sujet == s && r.gt.Missing? {
      var w := Where(df, GtMissing);
      if s in PropsegOnly(df) {
        var k :| 0 <= k < |w| && Subjects(w)[k] == s;
        assert w[k] in w;
      }
      if exists r | r in df :: r.sujet == s && r.gt.Missing? {
        var r :| r in df && r.sujet == s && r.gt.Missing?;
        var k :| 0 <= k < |w| && w[k] == r;
        assert Subjects(w)[k] == s;
      }
    }
    forall s ensures s in GtOnly(df) <==> exists r | r in df :: r.sujet == s && r.propseg.Missing? {
      var w := Where(df, PropsegMissing);
      if s in GtOnly(df) {
        var k :| 0 <= k < |w| && Subjects(w)[k] == s;
        assert w[k] in w;
      }
      if exists r | r in df :: r.sujet == s && r.propseg.Missing? {
        var r :| r in df && r.sujet == s && r.propseg.Missing?;
        var k :| 0 <= k < |w| && w[k] == r;
        assert Subjects(w)[k] == s;
      }
    }
  }

  /** The subset holds whole rows of the table, exactly those with a `GT`
      value below 5; a row with a missing `GT` is never in it. */
  lemma GtNegativeRows(df: seq<Row>)
    ensures forall r :: r in GtNegative(df) <==> r in df && r.gt.Num? && r.gt.x < 5.0
    ensures forall r | r in GtNegative(df) :: !r.gt.Missing?
  {
  }

  // ---------------------------------------------------------------------
  // Reductions, which skip missing values
  // ---------------------------------------------------------------------

  /** The non-missing values of one column, in table order. */
  function Values(df: seq<Row>, col: Column): (v: seq<real>)
    ensures |v| <= |df|
    ensures forall x :: x in v <==> exists r | r in df :: CellOf(r, col) == Num(x)
    decreases |df|
  {
    if df == [] then []
    else
      var init := df[..|df| - 1];
      var last := df[|df| - 1];
      assert forall r | r in df :: r in init || r == last;
      Values(init, col) + (match CellOf(last, col) case Num(x) => [x] case _ => [])
  }

  function Sum(s: seq<real>): real
    decreases |s|
  {
    if s == [] then 0.0 else Sum(s[..|s| - 1]) + s[|s| - 1]
  }

  /** `.min()`: `None` (NaN) over no value. */
  function Min(s: seq<real>): (m: Option<real>)
    ensures m.None? <==> s == []
    ensures m.Some? ==> m.value in s && forall x | x in s :: m.value <= x
    decreases |s|
  {
    if s == [] then None
    else
      var last := s[|s| - 1];
      assert forall x | x in s :: x in s[..|s| - 1] || x == last;
      match Min(s[..|s| - 1])
      case None => Some(last)
      case Some(m) => Some(if last < m then last else m)
  }

  /** `.max()`: `None` (NaN) over no value. */
  function Max(s: seq<real>): (m: Option<real>)
    ensures m.None? <==> s == []
    ensures m.Some? ==> m.value in s && forall x | x in s :: x <= m.value
    decreases |s|
  {
    if s == [] then None
    else
      var last := s[|s| - 1];
      assert forall x | x in s :: x in s[..|s| - 1] || x == last;
      match Max(s[..|s| - 1])
      case None => Some(last)
      case Some(m) => Some(if last > m then last else m)
  }

  /** `.mean()`: `None` (NaN) over no value. */
  function Mean(s: seq<real>): (m: Option<real>)
    ensures m.None? <==> s == []
  {
    if s == [] then None else Some(Sum(s) / (|s| as real))
  }

  predicate SortedReals(s: seq<real>) {
    forall i, j | 0 <= i < j < |s| :: s[i] <= s[j]
  }

  function InsertReal(x: real, s: seq<real>): seq<real>
    decreases |s|
  {
    if s == [] || x <= s[0] then [x] + s
    else [s[0]] + InsertReal(x, s[1..])
  }

  /** A sorted list stays sorted with a first element below all of it. */
  lemma SortedRealsCons(a: real, t: seq<real>)
    requires SortedReals(t) && forall k | 0 <= k < |t| :: a <= t[k]
    ensures SortedReals([a] + t)
  {
    var s := [a] + t;
    forall i, j | 0 <= i < j < |s| ensures s[i] <= s[j] {
      assert s[j] == t[j - 1];
      if i > 0 {
        assert s[i] == t[i - 1];
      }
    }
  }

  /** Inserting adds exactly `x`. */
  lemma {:induction false} InsertRealMultiset(x: real, s: seq<real>)
    ensures multiset(InsertReal(x, s)) == multiset(s) + multiset{x}
    decreases |s|
  {
    if s != [] && x > s[0] {
      InsertRealMultiset(x, s[1..]);
      assert s == [s[0]] + s[1..];
    }
  }

  /** A lower bound of `x` and of the list bounds the list after insertion. */
  lemma {:induction false} InsertRealBounded(x: real, s: seq<real>, lo: real)
    requires lo <= x && forall k | 0 <= k < |s| :: lo <= s[k]
    ensures forall k | 0 <= k < |InsertReal(x, s)| :: lo <= InsertReal(x, s)[k]
    decreases |s|
  {
    if s != [] && x > s[0] {
      InsertRealBounded(x, s[1..], lo);
      assert forall k | 1 <= k < |InsertReal(x, s)| :: InsertReal(x, s)[k] == InsertReal(x, s[1..])[k - 1];
    }
  }

  /** Inserting into a sorted list keeps it sorted and adds exactly `x`. */
  lemma {:induction false} InsertRealSorted(x: real, s: seq<real>)
    requires SortedReals(s)
    ensures SortedReals(InsertReal(x, s))
    ensures multiset(InsertReal(x, s)) == multiset(s) + multiset{x}
    decreases |s|
  {
    InsertRealMultiset(x, s);
    if s == [] {
    } else if x <= s[0] {
      SortedRealsCons(x, s);
    } else {
      InsertRealSorted(x, s[1..]);
      InsertRealBounded(x, s[1..], s[0]);
      SortedRealsCons(s[0], InsertReal(x, s[1..]));
    }
  }

  /** The values in increasing order. */
  function SortReals(s: seq<real>): (r: seq<real>)
    ensures SortedReals(r)
    ensures multiset(r) == multiset(s)
    decreases |s|
  {
    if s == [] then []
    else
      assert s == s[..|s| - 1] + [s[|s| - 1]];
      InsertRealSorted(s[|s| - 1], SortReals(s[..|s| - 1]));
      InsertReal(s[|s| - 1], SortReals(s[..|s| - 1]))
  }

  /** `.median()`: the middle value, or the mean of the two middle values
      of an even count; `None` (NaN) over no value. */
  function Median(s: seq<real>): (m: Option<real>)
    ensures m.None? <==> s == []
  {
    var t := SortReals(s);
    assert |t| == |multiset(t)| == |multiset(s)| == |s|;
    if s == [] then None
    else if |t| % 2 == 1 then Some(t[|t| / 2])
    else Some((t[|t| / 2 - 1] + t[|t| / 2]) / 2.0)
  }

  /** A lower bound on every value bounds the sum. */
  lemma {:induction false} SumAtLeast(s: seq<real>, lo: real)
    requires forall k | 0 <= k < |s| :: lo <= s[k]
    ensures Sum(s) >= (|s| as real) * lo
    decreases |s|
  {
    if s != [] {
      assert forall k | 0 <= k < |s| - 1 :: s[..|s| - 1][k] == s[k];
      SumAtLeast(s[..|s| - 1], lo);
    }
  }

  /** An upper bound on every value bounds the sum. */
  lemma {:induction false} SumAtMost(s: seq<real>, hi: real)
    requires forall k | 0 <= k < |s| :: s[k] <= hi
    ensures Sum(s) <= (|s| as real) * hi
    decreases |s|
  {
    if s != [] {
      assert forall k | 0 <= k < |s| - 1 :: s[..|s| - 1][k] == s[k];
      SumAtMost(s[..|s| - 1], hi);
    }
  }

  /** Dividing a bound on a sum of `n` values by `n`. */
  lemma DivideBounds(total: real, n: real, lo: real, hi: real)
    requires n > 0.0 && n * lo <= total <= n * hi
    ensures lo <= total / n <= hi
  {
    var q := total / n;
    assert total == n * q;
  }

  /** `min <= mean <= max`. */
  lemma MeanBetween(s: seq<real>)
    requires s != []
    ensures Min(s).value <= Mean(s).value <= Max(s).value
  {
    var lo, hi := Min(s).value, Max(s).value;
    forall k | 0 <= k < |s| ensures lo <= s[k] <= hi {
      assert s[k] in s;
    }
    SumAtLeast(s, lo);
    SumAtMost(s, hi);
    DivideBounds(Sum(s), |s| as real, lo, hi);
  }

  /** The sorted values start at the minimum and end at the maximum. */
  lemma SortedEnds(s: seq<real>)
    requires s != []
    ensures |SortReals(s)| == |s|
    ensures SortReals(s)[0] == Min(s).value && SortReals(s)[|s| - 1] == Max(s).value
  {
    var t := SortReals(s);
    assert |t| == |multiset(t)| == |multiset(s)| == |s|;
    assert forall x :: x in t <==> x in s by {
      forall x ensures x in t <==> x in s {
        assert x in t <==> x in multiset(t);
        assert x in s <==> x in multiset(s);
      }
    }
    assert t[0] in t && t[|t| - 1] in t;
    var lo := Min(s).value;
    var hi := Max(s).value;
    var i :| 0 <= i < |t| && t[i] == lo;
    var j :| 0 <= j < |t| && t[j] == hi;
    assert t[0] <= t[i] && t[j] <= t[|t| - 1];
  }

  /** `min <= median <= max`. */
  lemma MedianBetween(s: seq<real>)
    requires s != []
    ensures Min(s).value <= Median(s).value <= Max(s).value
  {
    SortedEnds(s);
    var t := SortReals(s);
    var n := |t|;
    if n % 2 == 1 {
      assert t[0] <= t[n / 2] <= t[n - 1];
    } else {
      assert t[0] <= t[n / 2 - 1] <= t[n - 1];
      assert t[0] <= t[n / 2] <= t[n - 1];
    }
  }

  // ---------------------------------------------------------------------
  // The recap
  // ---------------------------------------------------------------------

  /** Mean, median, max and min of one column. */
  datatype Stats = Stats(mean: Option<real>, median: Option<real>, max: Option<real>, min: Option<real>)

  /** The ten cells of `recapitulatif.csv`. */
  datatype Recap = Recap(propsegOnly: nat, gtOnly: nat, gt: Stats, propseg: Stats)

  /** What the script writes: the recap row and the `gt_negatif` rows. */
  datatype Analysis = Analysis(recap: Recap, gtNegative: seq<Row>)

  function StatsOf(df: seq<Row>, col: Column): (st: Stats)
    ensures var v := Values(df, col);
            && (st.mean.None? <==> v == []) && (st.median.None? <==> v == [])
            && (st.max.None? <==> v == []) && (st.min.None? <==> v == [])
  {
    var v := Values(df, col);
    Stats(Mean(v), Median(v), Max(v), Min(v))
  }

  /** `analyze_segmentation` on the table as read. */
  function Analyze(table: seq<Row>, numeral: string -> Option<real>): (a: Analysis)
    ensures a.recap.propsegOnly <= |table| && a.recap.gtOnly <= |table| && |a.gtNegative| <= |table|
    ensures var df := Coerce(table, numeral);
            && (a.recap.gt.mean.None? <==> Values(df, GT) == [])
            && (a.recap.propseg.mean.None? <==> Values(df, Propseg) == [])
  {
    var df := Coerce(table, numeral);
    Analysis(Recap(|PropsegOnly(df)|, |GtOnly(df)|, StatsOf(df, GT), StatsOf(df, Propseg)), GtNegative(df))
  }

  /** Each column's statistics are all present or all absent, and when
      present they are ordered as the minimum, median and mean lie between
      the extremes of the values actually in the column. */
  lemma StatsOrdered(df: seq<Row>, col: Column)
    ensures var st := StatsOf(df, col);
            && (st.min.Some? <==> exists r | r in df :: CellOf(r, col).Num?)
            && (st.min.Some? ==> st.mean.Some? && st.median.Some? && st.max.Some?
                                 && st.min.value <= st.median.value <= st.max.value
                                 && st.min.value <= st.mean.value <= st.max.value)
  {
    var v := Values(df, col);
    if exists r | r in df :: CellOf(r, col).Num? {
      var r :| r in df && CellOf(r, col).Num?;
      assert CellOf(r, col) == Num(CellOf(r, col).x);
      assert CellOf(r, col).x in v;
    }
    if v != [] {
      MeanBetween(v);
      MedianBetween(v);
    }
  }

  /** The counts of the recap are the lengths of the two lists, and the
      `GT` statistics range over exactly the numeric `GT` cells, text that
      reads as no number included as missing. */
  lemma AnalyzeSpec(table: seq<Row>, numeral: string -> Option<real>)
    ensures var a := Analyze(table, numeral);
            var df := Coerce(table, numeral);
            && a.recap.propsegOnly == |Where(df, GtMissing)|
            && a.recap.gtOnly == |Where(df, PropsegMissing)|
            && a.recap.propsegOnly <= |table| && a.recap.gtOnly <= |table|
            && |a.gtNegative| <= |table|
            && (forall i | 0 <= i < |table| && table[i].gt.Str? && numeral(table[i].gt.text).None? ::
                  df[i] in Where(df, GtMissing) && df[i] !in a.gtNegative)
  {
    var df := Coerce(table, numeral);
    forall i | 0 <= i < |table| && table[i].gt.Str? && numeral(table[i].gt.text).None?
      ensures df[i] in Where(df, GtMissing) && df[i] !in GtNegative(df)
    {
      assert df[i] in df;
    }
  }
}
