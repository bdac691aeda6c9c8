/** The per-method result table of creer_GT/seg_vs_label.py and
    creer_GT/GT_vs_label.py: records `{"Sujet": key, methode: value}`, the
    `pd.DataFrame` built from them, and the persistent CSV file that
    `save_results` extends by an outer join on `Sujet`. */
module Results {
  import opened Wrappers
  import opened Text

  /** The key column of the table. */
  const SubjectColumn := "Sujet"

  /** The sentinel stored when either voxel set is empty. */
  const NotAvailable := "N/A"

  /** A table cell; an absent cell (NaN in pandas) is a key absent from the row map. */
  datatype Cell = Text(s: string) | Int(i: int)

  type Row = map<string, Cell>

  /** A data frame: its column names in order and its rows in order. */
  datatype Table = Table(columns: seq<string>, rows: seq<Row>)

  /** One `process_segmentation` result: `{"Sujet": subject, methode: value}`. */
  datatype Record = Record(subject: string, value: Cell)

  /** `df.empty`: no column or no row. */
  predicate IsEmpty(t: Table) {
    |t.columns| == 0 || |t.rows| == 0
  }

  predicate HasSubject(r: Row) {
    SubjectColumn in r && r[SubjectColumn].Text?
  }

  predicate AllHaveSubject(rows: seq<Row>) {
    forall i | 0 <= i < |rows| :: HasSubject(rows[i])
  }

  function SubjectsOf(rows: seq<Row>): (ks: seq<string>)
    requires AllHaveSubject(rows)
    ensures |ks| == |rows|
    ensures forall i | 0 <= i < |rows| :: ks[i] == rows[i][SubjectColumn].s
  {
    seq(|rows|, i requires 0 <= i < |rows| => rows[i][SubjectColumn].s)
  }

  /** Every row carries a subject, no subject appears twice and no row holds
      a cell outside the columns. Every table `save_results` writes under a
      method other than `Sujet` is keyed. */
  predicate Keyed(t: Table) {
    && SubjectColumn in t.columns
    && AllHaveSubject(t.rows)
    && Distinct(SubjectsOf(t.rows))
    && forall i | 0 <= i < |t.rows| :: forall c | c in t.rows[i] :: c in t.columns
  }

  /** What the state invariant asks of a stored table: a table with a `Sujet`
      column is keyed, or holds that column alone, as a first run under the
      method name `Sujet` leaves it. */
  predicate WellFormed(t: Table) {
    SubjectColumn in t.columns ==> Keyed(t) || t.columns == [SubjectColumn]
  }

  /** The row of subject `s`, or the empty row when `s` has none. */
  function RowOf(rows: seq<Row>, s: string): (r: Row)
    requires AllHaveSubject(rows)
    ensures s !in SubjectsOf(rows) ==> r == map[]
    ensures s in SubjectsOf(rows) ==> r in rows && HasSubject(r) && r[SubjectColumn].s == s
    decreases |rows|
  {
    if rows == [] then map[]
    else if rows[0][SubjectColumn].s == s then rows[0]
    else
      assert SubjectsOf(rows) == [rows[0][SubjectColumn].s] + SubjectsOf(rows[1..]);
      RowOf(rows[1..], s)
  }

  /** With distinct subjects the row found is the one at its index. */
  lemma {:induction false} RowOfIndex(rows: seq<Row>, i: nat)
    requires AllHaveSubject(rows) && Distinct(SubjectsOf(rows)) && i < |rows|
    ensures RowOf(rows, rows[i][SubjectColumn].s) == rows[i]
    decreases |rows|
  {
    if i > 0 {
      assert SubjectsOf(rows)[0] != SubjectsOf(rows)[i];
      var tail := rows[1..];
      assert SubjectsOf(tail) == SubjectsOf(rows)[1..];
      RowOfIndex(tail, i - 1);
    }
  }

  /** `pd.DataFrame(new_results)`: no column at all for no record, else the
      columns `Sujet` and the method, one row per record in order. Under the
      method name `Sujet` the record `{"Sujet": key, "Sujet": value}` keeps
      its later entry only, and the one column holds the values. */
  function NewTable(records: seq<Record>, methode: string): (t: Table)
    ensures |t.rows| == |records|
    ensures records == [] ==> t.columns == []
    ensures records != [] && methode != SubjectColumn ==> t.columns == [SubjectColumn, methode]
    ensures records != [] && methode == SubjectColumn ==> t.columns == [SubjectColumn]
    ensures forall i | 0 <= i < |records| :: t.rows[i].Keys == {SubjectColumn, methode} && t.rows[i][methode] == records[i].value
    ensures methode != SubjectColumn ==> AllHaveSubject(t.rows) && SubjectsOf(t.rows) == RecordSubjects(records)
  {
    var rows := seq(|records|, i requires 0 <= i < |records| =>
                  map[SubjectColumn := Text(records[i].subject)][methode := records[i].value]);
    var t := Table(if records == [] then [] else if methode == SubjectColumn then [SubjectColumn] else [SubjectColumn, methode], rows);
    if methode != SubjectColumn then
      assert AllHaveSubject(t.rows);
      assert SubjectsOf(t.rows) == RecordSubjects(records);
      t
    else t
  }

  /** Under the method name `Sujet` every row of the new frame holds the
      record's value under `Sujet`, and its subject is lost. */
  lemma SubjectMethodLosesSubjects(records: seq<Record>, i: nat)
    requires i < |records|
    ensures NewTable(records, SubjectColumn).rows[i] == map[SubjectColumn := records[i].value]
  {
    var r := NewTable(records, SubjectColumn).rows[i];
    assert r.Keys == {SubjectColumn};
  }

  /** The subjects of a list of records. */
  function RecordSubjects(records: seq<Record>): (ks: seq<string>)
    ensures |ks| == |records| && forall i | 0 <= i < |records| :: ks[i] == records[i].subject
  {
    seq(|records|, i requires 0 <= i < |records| => records[i].subject)
  }

  /** The subjects of `a` followed by those of `b` that `a` lacks. */
  function UnionKeys(a: seq<string>, b: seq<string>): (u: seq<string>)
    requires Distinct(a) && Distinct(b)
    ensures Distinct(u)
    ensures forall k :: k in u <==> k in a || k in b
    decreases |b|
  {
    if b == [] then a
    else
      var n := |b| - 1;
      var u := UnionKeys(a, b[..n]);
      assert b == b[..n] + [b[n]];
      assert forall k :: k in b <==> k in b[..n] || k == b[n];
      if b[n] in u then u else u + [b[n]]
  }

  /** The columns of `b` that `a` lacks, in the order of `b`. */
  function ExtraColumns(a: seq<string>, b: seq<string>): (r: seq<string>)
    ensures forall c :: c in r <==> c in b && c !in a
    decreases |b|
  {
    if b == [] then []
    else
      assert b == [b[0]] + b[1..];
      (if b[0] in a then [] else [b[0]]) + ExtraColumns(a, b[1..])
  }

  /** The subjects of an outer join: those of either side, each once, sorted. */
  function MergedSubjects(left: Table, right: Table): (keys: seq<string>)
    requires Keyed(left) && Keyed(right)
    ensures StrictlySorted(keys) && Distinct(keys)
    ensures forall s :: s in keys <==> s in SubjectsOf(left.rows) || s in SubjectsOf(right.rows)
  {
    var union := UnionKeys(SubjectsOf(left.rows), SubjectsOf(right.rows));
    SortDistinctIsStrict(union);
    MultisetMembers(SortStrings(union), union);
    SortStrings(union)
  }

  /** A row of `rows` only holds cells of the table's columns. */
  lemma RowOfWithinColumns(t: Table, s: string)
    requires Keyed(t)
    ensures forall c | c in RowOf(t.rows, s) :: c in t.columns
  {
    var r := RowOf(t.rows, s);
    if s in SubjectsOf(t.rows) {
      var j :| 0 <= j < |t.rows| && t.rows[j] == r;
    }
  }

  /** The joined row of a subject of either side carries that subject and
      only cells of the joined columns. */
  lemma JoinedRow(left: Table, right: Table, s: string)
    requires Keyed(left) && Keyed(right)
    requires s in SubjectsOf(left.rows) || s in SubjectsOf(right.rows)
    ensures var r := RowOf(left.rows, s) + RowOf(right.rows, s);
            HasSubject(r) && r[SubjectColumn].s == s
            && forall c | c in r :: c in left.columns + ExtraColumns(left.columns, right.columns)
  {
    RowOfWithinColumns(left, s);
    RowOfWithinColumns(right, s);
  }

  /** `left.merge(right, on="Sujet", how="outer")` for tables without a shared
      non-key column: one row per subject of either side, sorted by subject,
      holding the cells of that subject's row on each side (a side without
      the subject contributes no cell, so its columns stay NaN); the columns
      of `left` come first. */
  function MergeOuter(left: Table, right: Table): (t: Table)
    requires Keyed(left) && Keyed(right)
    ensures Keyed(t)
    ensures StrictlySorted(SubjectsOf(t.rows))
    ensures forall s :: s in SubjectsOf(t.rows) <==> s in SubjectsOf(left.rows) || s in SubjectsOf(right.rows)
    ensures forall i | 0 <= i < |t.rows| ::
              t.rows[i] == RowOf(left.rows, SubjectsOf(t.rows)[i]) + RowOf(right.rows, SubjectsOf(t.rows)[i])
    ensures t.columns == left.columns + ExtraColumns(left.columns, right.columns)
  {
    var keys := MergedSubjects(left, right);
    var rows := seq(|keys|, i requires 0 <= i < |keys| => RowOf(left.rows, keys[i]) + RowOf(right.rows, keys[i]));
    var t := Table(left.columns + ExtraColumns(left.columns, right.columns), rows);
    assert AllHaveSubject(rows) && SubjectsOf(rows) == keys && Keyed(t) by {
      forall i | 0 <= i < |keys| ensures HasSubject(rows[i]) && rows[i][SubjectColumn].s == keys[i]
        && forall c | c in rows[i] :: c in t.columns
      {
        JoinedRow(left, right, keys[i]);
      }
    }
    t
  }

  /** Cells of the existing table are kept: for a subject of `left`, every
      cell of its row in a column `right` does not carry is unchanged. */
  lemma MergeKeepsOldCells(left: Table, right: Table, j: nat, c: string)
    requires Keyed(left) && Keyed(right)
    requires j < |left.rows| && c in left.rows[j] && (c !in right.columns || c == SubjectColumn)
    ensures exists i | 0 <= i < |MergeOuter(left, right).rows| ::
              MergeOuter(left, right).rows[i][SubjectColumn] == left.rows[j][SubjectColumn]
              && c in MergeOuter(left, right).rows[i]
              && MergeOuter(left, right).rows[i][c] == left.rows[j][c]
  {
    var s := left.rows[j][SubjectColumn].s;
    var t := MergeOuter(left, right);
    assert s in SubjectsOf(left.rows);
    var i :| 0 <= i < |t.rows| && SubjectsOf(t.rows)[i] == s;
    RowOfIndex(left.rows, j);
    RowOfWithinColumns(right, s);
    var r := RowOf(right.rows, s);
    assert t.rows[i] == left.rows[j] + r;
    if c in r {
      assert c == SubjectColumn;
    }
  }

  /** Cells of the new records appear under their subject. */
  lemma MergeTakesNewCells(left: Table, right: Table, j: nat, c: string)
    requires Keyed(left) && Keyed(right)
    requires j < |right.rows| && c in right.rows[j]
    ensures exists i | 0 <= i < |MergeOuter(left, right).rows| ::
              MergeOuter(left, right).rows[i][SubjectColumn] == right.rows[j][SubjectColumn]
              && c in MergeOuter(left, right).rows[i]
              && MergeOuter(left, right).rows[i][c] == right.rows[j][c]
  {
    var s := right.rows[j][SubjectColumn].s;
    var t := MergeOuter(left, right);
    assert s in SubjectsOf(right.rows);
    var i :| 0 <= i < |t.rows| && SubjectsOf(t.rows)[i] == s;
    RowOfIndex(right.rows, j);
    assert t.rows[i] == RowOf(left.rows, s) + right.rows[j];
  }

  /** A subject the records do not mention gets no cell in a column only the
      records carry (NaN), and a subject new to the table gets no cell in a
      column only the table carries. */
  lemma MergeMissingCells(left: Table, right: Table, i: nat, c: string)
    requires Keyed(left) && Keyed(right)
    requires i < |MergeOuter(left, right).rows|
    ensures var t := MergeOuter(left, right);
            var s := SubjectsOf(t.rows)[i];
            && (s !in SubjectsOf(right.rows) && c !in left.columns ==> c !in t.rows[i])
            && (s !in SubjectsOf(left.rows) && c !in right.columns ==> c !in t.rows[i])
  {
    var t := MergeOuter(left, right);
    var s := SubjectsOf(t.rows)[i];
    RowOfWithinColumns(left, s);
    RowOfWithinColumns(right, s);
  }

  // ---------------------------------------------------------------------
  // The CSV file: what `to_csv` writes and `read_csv` gives back
  // ---------------------------------------------------------------------

  /** The texts `pd.read_csv` reads as NaN by default. */
  const NaNSpellings: set<string> :=
    {"", "#N/A", "#N/A N/A", "#NA", "-1.#IND", "-1.#QNAN", "-NaN", "-nan", "1.#IND", "1.#QNAN",
     "<NA>", "N/A", "NA", "NULL", "NaN", "None", "n/a", "nan", "null"}

  predicate ReadsAsNaN(c: Cell) {
    c.Text? && c.s in NaNSpellings
  }

  /** A row as `read_csv` gives it back: a text cell outside `Sujet` that is
      spelled as a missing value comes back as NaN, an absent cell. */
  function ReadBackRow(r: Row): (r': Row)
    ensures forall c :: c in r' <==> c in r && (c == SubjectColumn || !ReadsAsNaN(r[c]))
    ensures forall c | c in r' :: r'[c] == r[c]
  {
    map c | c in r && (c == SubjectColumn || !ReadsAsNaN(r[c])) :: r[c]
  }

  /** The table `to_csv(index=False)` wrote, as `read_csv` gives it back. */
  function ReadBack(t: Table): (t': Table)
    ensures t'.columns == t.columns && |t'.rows| == |t.rows|
    ensures forall i | 0 <= i < |t.rows| :: t'.rows[i] == ReadBackRow(t.rows[i])
  {
    Table(t.columns, seq(|t.rows|, i requires 0 <= i < |t.rows| => ReadBackRow(t.rows[i])))
  }

  /** Reading back keeps every subject and every column, so a well-formed
      table stays well formed. */
  lemma ReadBackWellFormed(t: Table)
    requires WellFormed(t)
    ensures WellFormed(ReadBack(t))
    ensures Keyed(t) ==> Keyed(ReadBack(t)) && SubjectsOf(ReadBack(t).rows) == SubjectsOf(t.rows)
  {
    var b := ReadBack(t);
    if Keyed(t) {
      assert AllHaveSubject(b.rows);
      assert SubjectsOf(b.rows) == SubjectsOf(t.rows);
    }
  }

  /** A cell that `read_csv` does not turn into NaN comes back as written. */
  lemma ReadBackKeepsCell(t: Table, i: nat, c: string)
    requires i < |t.rows| && c in t.rows[i] && (c == SubjectColumn || !ReadsAsNaN(t.rows[i][c]))
    ensures c in ReadBack(t).rows[i] && ReadBack(t).rows[i][c] == t.rows[i][c]
  {
  }

  /** The `"N/A"` that `process_segmentation` stores comes back as NaN. */
  lemma NotAvailableReadsAsNaN(t: Table, i: nat, c: string)
    requires i < |t.rows| && c in t.rows[i] && c != SubjectColumn && t.rows[i][c] == Text(NotAvailable)
    ensures c !in ReadBack(t).rows[i]
  {
    assert ReadsAsNaN(t.rows[i][c]);
  }

  /** `load_existing_results` on the file's contents: an empty frame without
      file; `None` when the file was written from a frame without column
      (`to_csv` writes no header and `read_csv` raises `EmptyDataError`);
      the table as read back otherwise. */
  function Load(stored: Option<Table>): (r: Option<Table>)
    ensures stored.None? ==> r == Some(Table([], []))
    ensures stored.Some? ==> (r.None? <==> stored.value.columns == [])
    ensures stored.Some? && r.Some? ==> r.value == ReadBack(stored.value) && r.value.columns == stored.value.columns
  {
    match stored
    case None => Some(Table([], []))
    case Some(t) => if t.columns == [] then None else Some(ReadBack(t))
  }

  // ---------------------------------------------------------------------
  // save_results
  // ---------------------------------------------------------------------

  /** What one call of `save_results` does to the file. */
  datatype SaveOutcome =
    | Unreadable            // `read_csv` raises `EmptyDataError`: nothing is written
    | AlreadyPresent        // the method column exists: nothing is written
    | MissingSujet          // the existing table lacks `Sujet`: nothing is written
    | MergeFailed           // no record: merging on `Sujet` raises, nothing is written
    | KeyTypeMismatch       // `Sujet` is the file's only column, holding the numbers
                            // of a run under the method `Sujet`: merging them with
                            // text keys raises, nothing is written
    | Written(table: Table) // the file now holds `table`

  predicate DistinctSubjects(records: seq<Record>) {
    Distinct(RecordSubjects(records))
  }

  /** `save_results(new_results, methode)` against the loaded table. */
  function Save(existing: Table, records: seq<Record>, methode: string): (o: SaveOutcome)
    requires DistinctSubjects(records) && WellFormed(existing)
    ensures o != Unreadable
    ensures o == AlreadyPresent <==> !IsEmpty(existing) && methode in existing.columns
    ensures IsEmpty(existing) ==> o == Written(NewTable(records, methode))
    ensures o == MissingSujet <==> !IsEmpty(existing) && methode !in existing.columns && SubjectColumn !in existing.columns
    ensures o == MergeFailed <==>
              !IsEmpty(existing) && methode !in existing.columns && SubjectColumn in existing.columns && records == []
    ensures o == KeyTypeMismatch <==>
              !IsEmpty(existing) && methode !in existing.columns && existing.columns == [SubjectColumn] && records != []
    ensures methode == SubjectColumn && o.Written? ==> IsEmpty(existing)
    ensures !IsEmpty(existing) && methode !in existing.columns && SubjectColumn in existing.columns
            && existing.columns != [SubjectColumn] && records != [] ==>
              && Keyed(existing) && Keyed(NewTable(records, methode))
              && o == Written(MergeOuter(existing, NewTable(records, methode)))
  {
    if !IsEmpty(existing) && methode in existing.columns then AlreadyPresent
    else
      var incoming := NewTable(records, methode);
      if IsEmpty(existing) then Written(incoming)
      else if SubjectColumn !in existing.columns then MissingSujet
      else if records == [] then MergeFailed
      else if existing.columns == [SubjectColumn] then KeyTypeMismatch
      else
        assert Keyed(incoming);
        Written(MergeOuter(existing, incoming))
  }

  /** The table in the file after an outcome. */
  function After(existing: Table, o: SaveOutcome): Table {
    if o.Written? then o.table else existing
  }

  /** The file after an outcome. */
  function AfterFile(stored: Option<Table>, o: SaveOutcome): Option<Table> {
    if o.Written? then Some(o.table) else stored
  }

  /** The records as a table: keyed under any method other than `Sujet`. */
  lemma NewTableKeyed(records: seq<Record>, methode: string)
    requires DistinctSubjects(records)
    ensures WellFormed(NewTable(records, methode))
    ensures records != [] && methode != SubjectColumn ==> Keyed(NewTable(records, methode))
  {
  }

  /** Saving keeps the file well formed. */
  lemma SaveWellFormed(existing: Table, records: seq<Record>, methode: string)
    requires DistinctSubjects(records) && WellFormed(existing)
    ensures WellFormed(After(existing, Save(existing, records, methode)))
  {
    NewTableKeyed(records, methode);
  }

  /** After a write of some records the method column is present and the
      table is not empty; under a method other than `Sujet` it is keyed and
      its subject set is the union of the old subjects and the records'
      subjects. */
  lemma SaveWrites(existing: Table, records: seq<Record>, methode: string)
    requires DistinctSubjects(records) && WellFormed(existing)
    requires Save(existing, records, methode).Written? && records != []
    ensures var t := Save(existing, records, methode).table;
            && methode in t.columns && !IsEmpty(t)
            && (methode != SubjectColumn ==>
                  && Keyed(t)
                  && forall s :: s in SubjectsOf(t.rows) <==>
                       (!IsEmpty(existing) && s in SubjectsOf(existing.rows)) || s in RecordSubjects(records))
  {
    NewTableKeyed(records, methode);
    var t := Save(existing, records, methode).table;
    if !IsEmpty(existing) {
      var incoming := NewTable(records, methode);
      assert records[0].subject in SubjectsOf(incoming.rows);
      assert SubjectsOf(t.rows) != [];
    }
  }

  /** A write puts every record's value under its subject, in the method
      column. */
  lemma SaveTakesRecords(existing: Table, records: seq<Record>, methode: string, j: nat)
    requires DistinctSubjects(records) && WellFormed(existing)
    requires Save(existing, records, methode).Written? && methode != SubjectColumn && j < |records|
    ensures var t := Save(existing, records, methode).table;
            exists i | 0 <= i < |t.rows| ::
              && SubjectColumn in t.rows[i] && t.rows[i][SubjectColumn] == Text(records[j].subject)
              && methode in t.rows[i] && t.rows[i][methode] == records[j].value
  {
    var incoming := NewTable(records, methode);
    var t := Save(existing, records, methode).table;
    assert incoming.rows[j][SubjectColumn] == Text(records[j].subject);
    if IsEmpty(existing) {
      assert t.rows[j] == incoming.rows[j];
    } else {
      MergeTakesNewCells(existing, incoming, j, methode);
      var i :| 0 <= i < |t.rows| && t.rows[i][SubjectColumn] == incoming.rows[j][SubjectColumn]
               && methode in t.rows[i] && t.rows[i][methode] == incoming.rows[j][methode];
    }
  }

  /** A write onto a non-empty table keeps every cell of it under its
      subject. */
  lemma SaveKeepsCells(existing: Table, records: seq<Record>, methode: string, j: nat, c: string)
    requires DistinctSubjects(records) && WellFormed(existing)
    requires Save(existing, records, methode).Written? && !IsEmpty(existing)
    requires j < |existing.rows| && c in existing.rows[j]
    ensures var t := Save(existing, records, methode).table;
            exists i | 0 <= i < |t.rows| ::
              && SubjectColumn in t.rows[i] && t.rows[i][SubjectColumn] == existing.rows[j][SubjectColumn]
              && c in t.rows[i] && t.rows[i][c] == existing.rows[j][c]
  {
    MergeKeepsOldCells(existing, NewTable(records, methode), j, c);
  }

  /** `save_results` on the file: load it, then save against what was read. */
  function SaveToFile(stored: Option<Table>, records: seq<Record>, methode: string): (o: SaveOutcome)
    requires DistinctSubjects(records) && (stored.Some? ==> WellFormed(stored.value))
    ensures o == Unreadable <==> Load(stored).None?
    ensures Load(stored).Some? ==> WellFormed(Load(stored).value) && o == Save(Load(stored).value, records, methode)
  {
    match stored
    case None => Save(Table([], []), records, methode)
    case Some(t) =>
      if t.columns == [] then Unreadable
      else
        ReadBackWellFormed(t);
        Save(ReadBack(t), records, methode)
  }

  /** Saving keeps the file well formed, through `read_csv` and back. */
  lemma SaveToFileWellFormed(stored: Option<Table>, records: seq<Record>, methode: string)
    requires DistinctSubjects(records) && (stored.Some? ==> WellFormed(stored.value))
    ensures var after := AfterFile(stored, SaveToFile(stored, records, methode));
            after.Some? ==> WellFormed(after.value)
  {
    if Load(stored).Some? {
      SaveWellFormed(Load(stored).value, records, methode);
    }
  }

  /** Running `save_results` a second time with the same method and records
      leaves the file as the first run left it. */
  lemma SaveIdempotent(stored: Option<Table>, records: seq<Record>, methode: string)
    requires DistinctSubjects(records) && (stored.Some? ==> WellFormed(stored.value))
    ensures var once := AfterFile(stored, SaveToFile(stored, records, methode));
            && (once.Some? ==> WellFormed(once.value))
            && AfterFile(once, SaveToFile(once, records, methode)) == once
  {
    SaveToFileWellFormed(stored, records, methode);
    var o := SaveToFile(stored, records, methode);
    if o.Written? && o.table.columns != [] {
      var existing := Load(stored).value;
      assert records != [];
      SaveWrites(existing, records, methode);
      assert !IsEmpty(ReadBack(o.table));
    }
  }

  /** The state the scripts keep on disk: the CSV file `CSV_FILE`, absent
      until the first write. */
  class ResultFile {
    var stored: Option<Table>

    ghost predicate Valid()
      reads this
    {
      stored.Some? ==> WellFormed(stored.value)
    }

    constructor ()
      ensures stored == None && Valid()
    {
      stored := None;
    }

    /** `load_existing_results`: an empty frame without file, `None` when
        `read_csv` raises, else the file's table as read back. */
    method LoadExisting() returns (t: Option<Table>)
      requires Valid()
      ensures t == Load(stored)
      ensures t.Some? ==> WellFormed(t.value)
    {
      if stored.None? {
        t := Some(Table([], []));
      } else if stored.value.columns == [] {
        t := None;
      } else {
        ReadBackWellFormed(stored.value);
        t := Some(ReadBack(stored.value));
      }
    }

    /** `save_results`: merge the records under `methode` into the file. */
    method SaveResults(records: seq<Record>, methode: string) returns (o: SaveOutcome)
      requires Valid() && DistinctSubjects(records)
      modifies this
      ensures Valid()
      ensures o == SaveToFile(old(stored), records, methode)
      ensures stored == AfterFile(old(stored), o)
    {
      var existing := LoadExisting();
      if existing.None? {
        return Unreadable;
      }
      o := Save(existing.value, records, methode);
      SaveWellFormed(existing.value, records, methode);
      if o.Written? {
        stored := Some(o.table);
      }
    }
  }
}
