/** The in-memory tables the validation script works on: column names plus
    rows of cells aligned with them by position, the column resolver
    `find_column`, the header filter, `clean_all_text_columns`, and the row
    filters (`df[df[col] != '']`, `df[df[col].isin(keys)]`) the comparisons
    are built from. */
module Tables {
  import opened Wrappers
  import opened Text

  /** One row: its cells, position by position with the table's columns. */
  type Row = seq<string>

  /** A sheet as the spreadsheet reader delivers it: header names and rows
      whose cells may be missing (`NaN`). */
  datatype RawTable = RawTable(columns: seq<string>, rows: seq<seq<Option<string>>>)

  /** A sheet whose cells are all text. */
  datatype Table = Table(columns: seq<string>, rows: seq<Row>)

  /** Every row has one cell per column (what a data frame always has). */
  predicate RawRectangular(t: RawTable) {
    forall k :: 0 <= k < |t.rows| ==> |t.rows[k]| == |t.columns|
  }

  predicate Rectangular(t: Table) {
    forall k :: 0 <= k < |t.rows| ==> |t.rows[k]| == |t.columns|
  }

  /** Dropping the last element of `a + b`, with `b` not empty, drops the
      last element of `b`. */
  lemma AppendInit<T>(a: seq<T>, b: seq<T>)
    requires b != []
    ensures (a + b)[..|a + b| - 1] == a + b[..|b| - 1]
    ensures (a + b)[|a + b| - 1] == b[|b| - 1]
  {
  }

  /** No two columns share a name. The spreadsheet reader renames repeated
      header cells ("X", "X.1"), so every sheet as read has this; stripping
      the header names can break it ("Customer" and "Customer "). */
  predicate UniqueColumns(columns: seq<string>) {
    forall i, j :: 0 <= i < j < |columns| ==> columns[i] != columns[j]
  }

  /** Every row has a cell at position `i`. */
  predicate HasPosition(rows: seq<Row>, i: nat) {
    forall k :: 0 <= k < |rows| ==> i < |rows[k]|
  }

  /** The position of the first column named `name`: the column `df[name]`
      and `row[name]` read. */
  function IndexOf(columns: seq<string>, name: string): (i: nat)
    requires name in columns
    ensures i < |columns| && columns[i] == name
    ensures forall j :: 0 <= j < i ==> columns[j] != name
  {
    if columns[0] == name then 0 else 1 + IndexOf(columns[1..], name)
  }

  /** `row[name]`. */
  function Cell(columns: seq<string>, row: Row, name: string): string
    requires name in columns && |row| == |columns|
  {
    row[IndexOf(columns, name)]
  }

  // ------------------------------------------------------------ find_column

  /** `find_column(df, target)`: the first column whose lower-cased name equals
      the lower-cased target, or None when there is none. */
  function FindColumn(columns: seq<string>, target: string): (r: Option<string>)
    ensures r.None? <==> forall i :: 0 <= i < |columns| ==> !EqualsIgnoreCase(columns[i], target)
    ensures r.Some? ==>
      (r.value in columns && EqualsIgnoreCase(r.value, target)
       && forall j :: 0 <= j < IndexOf(columns, r.value) ==> !EqualsIgnoreCase(columns[j], target))
  {
    if columns == [] then None
    else if EqualsIgnoreCase(columns[0], target) then Some(columns[0])
    else
      var r := FindColumn(columns[1..], target);
      if r.Some? then
        assert columns[0] != r.value;
        assert IndexOf(columns, r.value) == 1 + IndexOf(columns[1..], r.value);
        r
      else
        r
  }

  // ----------------------------------------------------------- header filter

  /** `name` matches `^Unnamed` without regard to case: the name the
      spreadsheet reader makes up for a blank header cell. */
  predicate StartsWithUnnamed(name: string) {
    |name| >= 7 && EqualsIgnoreCase(name[..7], "Unnamed")
  }

  /** A stripped header name the filter keeps: not empty, and not a name
      the reader made up, whatever its case. */
  predicate KeepHeader(name: string)
    ensures KeepHeader(name) ==> name != ""
    ensures |name| >= 7 && name[..7] in {"Unnamed", "unnamed", "UNNAMED"} ==> !KeepHeader(name)
    ensures name != "" && name[0] != 'u' && name[0] != 'U' ==> KeepHeader(name)
  {
    name != "" && !StartsWithUnnamed(name)
  }

  /** The positions, from `from` on, of the columns whose stripped names the
      header filter keeps: exactly those, in increasing order. */
  function KeptPositions(columns: seq<string>, from: nat): (ps: seq<nat>)
    requires from <= |columns|
    ensures forall p :: 0 <= p < |ps| ==> from <= ps[p] < |columns| && KeepHeader(Strip(columns[ps[p]]))
    ensures forall p, q :: 0 <= p < q < |ps| ==> ps[p] < ps[q]
    ensures forall i :: from <= i < |columns| && KeepHeader(Strip(columns[i])) ==> i in ps
    decreases |columns| - from
  {
    if from == |columns| then []
    else (if KeepHeader(Strip(columns[from])) then [from] else []) + KeptPositions(columns, from + 1)
  }

  /** The cells of `row` at positions `ps`, in that order (`df.loc[:, mask]`). */
  function Project<T>(row: seq<T>, ps: seq<nat>): (r: seq<T>)
    requires forall p :: 0 <= p < |ps| ==> ps[p] < |row|
    ensures |r| == |ps| && forall p :: 0 <= p < |ps| ==> r[p] == row[ps[p]]
  {
    seq(|ps|, p requires 0 <= p < |ps| => row[ps[p]])
  }

  /** `df.columns = df.columns.str.strip()` followed by
      `df.loc[:, ~df.columns.str.contains('^Unnamed', case=False) & (df.columns.str.strip() != '')]`. */
  function FilterHeader(t: RawTable): (r: RawTable)
    requires RawRectangular(t)
    ensures RawRectangular(r) && |r.rows| == |t.rows|
    ensures var ps := KeptPositions(t.columns, 0);
      |r.columns| == |ps|
      && (forall j :: 0 <= j < |ps| ==> r.columns[j] == Strip(t.columns[ps[j]]))
      && (forall k, j :: 0 <= k < |r.rows| && 0 <= j < |ps| ==> r.rows[k][j] == t.rows[k][ps[j]])
  {
    var ps := KeptPositions(t.columns, 0);
    var cols := seq(|ps|, j requires 0 <= j < |ps| => Strip(t.columns[ps[j]]));
    RawTable(cols, seq(|t.rows|, k requires 0 <= k < |t.rows| => Project(t.rows[k], ps)))
  }

  /** The filtered header holds exactly the stripped names that are non-empty
      and do not start with "Unnamed" in any case, and no others. */
  lemma FilterHeaderNames(t: RawTable, name: string)
    requires RawRectangular(t)
    ensures name in FilterHeader(t).columns <==>
      KeepHeader(name) && exists i :: 0 <= i < |t.columns| && Strip(t.columns[i]) == name
  {
    var ps := KeptPositions(t.columns, 0);
    var r := FilterHeader(t);
    if name in r.columns {
      var j :| 0 <= j < |r.columns| && r.columns[j] == name;
      assert Strip(t.columns[ps[j]]) == name;
    }
    if KeepHeader(name) && exists i :: 0 <= i < |t.columns| && Strip(t.columns[i]) == name {
      var i :| 0 <= i < |t.columns| && Strip(t.columns[i]) == name;
      assert i in ps;
      var j :| 0 <= j < |ps| && ps[j] == i;
      assert r.columns[j] == name;
    }
  }

  /** In a strictly increasing sequence a smaller value sits at a smaller
      position. */
  lemma IncreasingPositions(ps: seq<nat>, j1: nat, j2: nat)
    requires forall p, q :: 0 <= p < q < |ps| ==> ps[p] < ps[q]
    requires j1 < |ps| && j2 < |ps| && ps[j1] < ps[j2]
    ensures j1 < j2
  {
  }

  /** The filtered header repeats a name exactly when two kept columns of
      the input strip to the same name. */
  lemma FilterHeaderRepeats(t: RawTable)
    requires RawRectangular(t)
    ensures !UniqueColumns(FilterHeader(t).columns) <==>
      exists i1, i2 :: 0 <= i1 < i2 < |t.columns| && KeepHeader(Strip(t.columns[i1]))
        && Strip(t.columns[i1]) == Strip(t.columns[i2])
  {
    if exists i1, i2 :: 0 <= i1 < i2 < |t.columns| && KeepHeader(Strip(t.columns[i1]))
        && Strip(t.columns[i1]) == Strip(t.columns[i2]) {
      var i1, i2 :| 0 <= i1 < i2 < |t.columns| && KeepHeader(Strip(t.columns[i1]))
        && Strip(t.columns[i1]) == Strip(t.columns[i2]);
      RepeatedKeptName(t, i1, i2);
    }
    if !UniqueColumns(FilterHeader(t).columns) {
      var i1, i2 := RepeatedNameSource(t);
    }
  }

  /** A name the filtered header repeats comes from two kept columns of the
      input that strip to it. */
  lemma RepeatedNameSource(t: RawTable) returns (i1: nat, i2: nat)
    requires RawRectangular(t) && !UniqueColumns(FilterHeader(t).columns)
    ensures i1 < i2 < |t.columns| && KeepHeader(Strip(t.columns[i1]))
    ensures Strip(t.columns[i1]) == Strip(t.columns[i2])
  {
    var r := FilterHeader(t);
    var ps := KeptPositions(t.columns, 0);
    var j1, j2 :| 0 <= j1 < j2 < |r.columns| && r.columns[j1] == r.columns[j2];
    i1, i2 := ps[j1], ps[j2];
  }

  /** Two kept columns that strip to the same name repeat it in the filtered
      header. */
  lemma RepeatedKeptName(t: RawTable, i1: nat, i2: nat)
    requires RawRectangular(t) && i1 < i2 < |t.columns|
    requires KeepHeader(Strip(t.columns[i1])) && Strip(t.columns[i1]) == Strip(t.columns[i2])
    ensures !UniqueColumns(FilterHeader(t).columns)
  {
    var ps := KeptPositions(t.columns, 0);
    assert KeepHeader(Strip(t.columns[i2]));
    assert i1 in ps && i2 in ps;
    var j1 :| 0 <= j1 < |ps| && ps[j1] == i1;
    var j2 :| 0 <= j2 < |ps| && ps[j2] == i2;
    IncreasingPositions(ps, j1, j2);
    var r := FilterHeader(t);
    assert r.columns[j1] == Strip(t.columns[i1]) && r.columns[j2] == Strip(t.columns[i2]);
  }

  /** The filter keeps the surviving columns in their original order: a
      column before another in the result came before it in the input. */
  lemma FilterHeaderKeepsOrder(t: RawTable, j1: nat, j2: nat)
    requires RawRectangular(t) && j1 < j2 < |FilterHeader(t).columns|
    ensures var ps := KeptPositions(t.columns, 0);
      ps[j1] < ps[j2]
      && FilterHeader(t).columns[j1] == Strip(t.columns[ps[j1]])
      && FilterHeader(t).columns[j2] == Strip(t.columns[ps[j2]])
  {
  }

  // --------------------------------------------------- clean_all_text_columns

  /** `fillna('')`. */
  function FillNa(c: Option<string>): string {
    c.GetOr("")
  }

  /** The table `clean_all_text_columns` returns: missing cells become "",
      every cell is clean, and a present cell becomes its words joined by
      single spaces. */
  function Cleaned(t: RawTable): (r: Table)
    requires RawRectangular(t)
    ensures Rectangular(r) && r.columns == t.columns && |r.rows| == |t.rows|
    ensures forall k, j :: 0 <= k < |r.rows| && 0 <= j < |r.columns| ==>
      IsClean(r.rows[k][j])
      && (t.rows[k][j].None? ==> r.rows[k][j] == "")
      && (t.rows[k][j].Some? ==> r.rows[k][j] == Join(Words(t.rows[k][j].value), " "))
  {
    Table(t.columns, seq(|t.rows|, k requires 0 <= k < |t.rows| =>
      seq(|t.columns|, j requires 0 <= j < |t.columns| => CleanText(FillNa(t.rows[k][j])))))
  }

  /** `df.fillna('')` followed by the loop of `clean_all_text_columns`, which
      reassigns one column at a time. With a repeated name `df[col]` is a data
      frame, which has no `.str`, and the loop raises: the callers report that
      case before cleaning. */
  method CleanAllTextColumns(t: RawTable) returns (r: Table)
    requires RawRectangular(t) && UniqueColumns(t.columns)
    ensures r == Cleaned(t)
  {
    var rows := seq(|t.rows|, k requires 0 <= k < |t.rows| =>
      seq(|t.columns|, j requires 0 <= j < |t.columns| => FillNa(t.rows[k][j])));
    forall k | 0 <= k < |t.rows| ensures rows[k] == PartlyCleaned(t, 0)[k] {
    }
    for i := 0 to |t.columns|
      invariant rows == PartlyCleaned(t, i)
    {
      CleanColumnStep(t, i);
      rows := CleanColumn(rows, i);
    }
    forall k | 0 <= k < |t.rows| ensures rows[k] == Cleaned(t).rows[k] {
    }
    r := Table(t.columns, rows);
  }

  /** `df[col] = df[col].str....` for the column at position `i`. */
  function CleanColumn(rows: seq<Row>, i: nat): seq<Row>
    requires HasPosition(rows, i)
  {
    seq(|rows|, k requires 0 <= k < |rows| => rows[k][i := CleanText(rows[k][i])])
  }

  /** The filled table with its first `i` columns cleaned: the state of the
      cleaning loop after `i` rounds. */
  function PartlyCleaned(t: RawTable, i: nat): seq<Row>
    requires RawRectangular(t)
  {
    seq(|t.rows|, k requires 0 <= k < |t.rows| =>
      seq(|t.columns|, j requires 0 <= j < |t.columns| =>
        if j < i then CleanText(FillNa(t.rows[k][j])) else FillNa(t.rows[k][j])))
  }

  lemma CleanColumnStep(t: RawTable, i: nat)
    requires RawRectangular(t) && i < |t.columns|
    ensures HasPosition(PartlyCleaned(t, i), i)
    ensures CleanColumn(PartlyCleaned(t, i), i) == PartlyCleaned(t, i + 1)
  {
    var before := PartlyCleaned(t, i);
    var after := PartlyCleaned(t, i + 1);
    forall k | 0 <= k < |t.rows| ensures CleanColumn(before, i)[k] == after[k] {
      assert |before[k]| == |after[k]| == |t.columns|;
    }
  }

  /** A text table seen as a sheet with no missing cell. */
  function AsRaw(t: Table): (r: RawTable)
    ensures r.columns == t.columns && |r.rows| == |t.rows|
  {
    RawTable(t.columns, seq(|t.rows|, k requires 0 <= k < |t.rows| =>
      seq(|t.rows[k]|, j requires 0 <= j < |t.rows[k]| => Some(t.rows[k][j]))))
  }

  /** Cleaning an already cleaned table changes nothing. */
  lemma CleanedIdempotent(t: RawTable)
    requires RawRectangular(t)
    ensures RawRectangular(AsRaw(Cleaned(t)))
    ensures Cleaned(AsRaw(Cleaned(t))) == Cleaned(t)
  {
    var c := Cleaned(t);
    var d := Cleaned(AsRaw(c));
    forall k | 0 <= k < |c.rows| ensures d.rows[k] == c.rows[k] {
      forall j | 0 <= j < |c.columns| ensures d.rows[k][j] == c.rows[k][j] {
        CleanTextFixpoints(c.rows[k][j]);
      }
    }
  }

  /** Every cell of `t` is clean (what cleaning guarantees). */
  ghost predicate AllClean(t: Table) {
    forall k, j :: 0 <= k < |t.rows| && 0 <= j < |t.rows[k]| ==> IsClean(t.rows[k][j])
  }

  /** A reported row and the reason it is reported with. */
  datatype Flagged = Flagged(row: Row, reason: string)

  /** The report built from the two lists the loops fill: each row with the
      reason at the same position. */
  function Zip(rows: seq<Row>, reasons: seq<string>): (z: seq<Flagged>)
    requires |rows| == |reasons|
    ensures |z| == |rows| && forall p :: 0 <= p < |z| ==> z[p] == Flagged(rows[p], reasons[p])
  {
    seq(|rows|, p requires 0 <= p < |rows| => Flagged(rows[p], reasons[p]))
  }

  /** Appending a row and its reason appends one entry. */
  lemma ZipAppend(rows: seq<Row>, reasons: seq<string>, row: Row, reason: string)
    requires |rows| == |reasons|
    ensures Zip(rows + [row], reasons + [reason]) == Zip(rows, reasons) + [Flagged(row, reason)]
  {
  }

  // ------------------------------------------------------------ row filters

  /** `df[df[col] != '']`: the rows whose cell at `i` is not empty, in order. */
  function NonEmptyKey(rows: seq<Row>, i: nat): (r: seq<Row>)
    requires HasPosition(rows, i)
    ensures HasPosition(r, i) && |r| <= |rows|
    ensures forall m :: 0 <= m < |r| ==> r[m] in rows && r[m][i] != ""
  {
    if rows == [] then []
    else
      NonEmptyKey(rows[..|rows| - 1], i)
        + (if rows[|rows| - 1][i] != "" then [rows[|rows| - 1]] else [])
  }
  /** A row is kept exactly when it is one of `rows` and its key is not empty. */
  lemma {:induction false} NonEmptyKeyMembers(rows: seq<Row>, i: nat, row: Row)
    requires HasPosition(rows, i)
    ensures row in NonEmptyKey(rows, i) <==> row in rows && row[i] != ""
  {
    if rows != [] {
      var init, last := rows[..|rows| - 1], rows[|rows| - 1];
      assert rows == init + [last];
      NonEmptyKeyMembers(init, i, row);
    }
  }


  /** `df[df[col] != '']` on a whole table: the same columns, and the rows
      whose cell at `i` is not empty. */
  function WithNonEmptyKey(t: Table, i: nat): (r: Table)
    requires Rectangular(t) && i < |t.columns|
    ensures Rectangular(r) && r.columns == t.columns && |r.rows| <= |t.rows|
  {
    var rows := NonEmptyKey(t.rows, i);
    assert forall k :: 0 <= k < |rows| ==> rows[k] in t.rows;
    Table(t.columns, rows)
  }

  /** `df[df[col].isin(keys)]`: the rows whose cell at `i` is one of `keys`,
      in order. */
  function KeyIn(rows: seq<Row>, i: nat, keys: set<string>): (r: seq<Row>)
    requires HasPosition(rows, i)
    ensures HasPosition(r, i) && |r| <= |rows|
    ensures forall m :: 0 <= m < |r| ==> r[m] in rows && r[m][i] in keys
  {
    if rows == [] then []
    else
      KeyIn(rows[..|rows| - 1], i, keys)
        + (if rows[|rows| - 1][i] in keys then [rows[|rows| - 1]] else [])
  }

  /** A row is kept exactly when it is one of `rows` and its key is one of `keys`. */
  lemma {:induction false} KeyInMembers(rows: seq<Row>, i: nat, keys: set<string>, row: Row)
    requires HasPosition(rows, i)
    ensures row in KeyIn(rows, i, keys) <==> row in rows && row[i] in keys
  {
    if rows != [] {
      var init, last := rows[..|rows| - 1], rows[|rows| - 1];
      assert rows == init + [last];
      KeyInMembers(init, i, keys, row);
    }
  }

  /** `df[df[col] == key]`: the rows whose cell at `i` is `key`, in order. */
  function RowsWithKey(rows: seq<Row>, i: nat, key: string): (r: seq<Row>)
    requires HasPosition(rows, i)
    ensures |r| <= |rows|
    ensures forall m :: 0 <= m < |r| ==> r[m] in rows && r[m][i] == key
  {
    if rows == [] then []
    else
      RowsWithKey(rows[..|rows| - 1], i, key)
        + (if rows[|rows| - 1][i] == key then [rows[|rows| - 1]] else [])
  }

  /** Selecting by one key is the `isin` filter for the set of that key. */
  lemma {:induction false} RowsWithKeyIsKeyIn(rows: seq<Row>, i: nat, key: string)
    requires HasPosition(rows, i)
    ensures RowsWithKey(rows, i, key) == KeyIn(rows, i, {key})
  {
    if rows != [] {
      RowsWithKeyIsKeyIn(rows[..|rows| - 1], i, key);
    }
  }

  /** A row is selected by one key exactly when it is a row of the input
      carrying that key. */
  lemma RowsWithKeyMembers(rows: seq<Row>, i: nat, key: string, row: Row)
    requires HasPosition(rows, i)
    ensures row in RowsWithKey(rows, i, key) <==> row in rows && row[i] == key
  {
    RowsWithKeyIsKeyIn(rows, i, key);
    KeyInMembers(rows, i, {key}, row);
  }

  /** `set(df[col])`. */
  function KeySet(rows: seq<Row>, i: nat): (s: set<string>)
    requires HasPosition(rows, i)
    ensures forall key :: key in s <==> exists row :: row in rows && row[i] == key
  {
    set row | row in rows :: row[i]
  }

  /** `set(df[col].astype(str).str.strip())`. */
  function StrippedKeySet(rows: seq<Row>, i: nat): (s: set<string>)
    requires HasPosition(rows, i)
    ensures |s| <= |rows|
  {
    if rows == [] then {}
    else StrippedKeySet(rows[..|rows| - 1], i) + {Strip(rows[|rows| - 1][i])}
  }

  /** A key is in the stripped key set exactly when some row's cell strips to it. */
  lemma {:induction false} StrippedKeySetMembers(rows: seq<Row>, i: nat, key: string)
    requires HasPosition(rows, i)
    ensures key in StrippedKeySet(rows, i) <==> exists row :: row in rows && Strip(row[i]) == key
  {
    if rows != [] {
      var init, last := rows[..|rows| - 1], rows[|rows| - 1];
      assert rows == init + [last];
      StrippedKeySetMembers(init, i, key);
      if key in StrippedKeySet(rows, i) {
        if key == Strip(last[i]) {
          assert last in rows;
        } else {
          var row :| row in init && Strip(row[i]) == key;
          assert row in rows;
        }
      }
      if exists row :: row in rows && Strip(row[i]) == key {
        var row :| row in rows && Strip(row[i]) == key;
        if row != last {
          assert row in init;
        }
      }
    }
  }

  /** The filters keep the input order: filtering a concatenation is the
      concatenation of the filtered parts. */
  lemma {:induction false} KeyInAppend(a: seq<Row>, b: seq<Row>, i: nat, keys: set<string>)
    requires HasPosition(a, i) && HasPosition(b, i)
    ensures HasPosition(a + b, i)
    ensures KeyIn(a + b, i, keys) == KeyIn(a, i, keys) + KeyIn(b, i, keys)
    decreases |b|
  {
    if b == [] {
      assert a + b == a;
    } else {
      var b' := b[..|b| - 1];
      AppendInit(a, b);
      KeyInAppend(a, b', i, keys);
    }
  }

  lemma {:induction false} NonEmptyKeyAppend(a: seq<Row>, b: seq<Row>, i: nat)
    requires HasPosition(a, i) && HasPosition(b, i)
    ensures HasPosition(a + b, i)
    ensures NonEmptyKey(a + b, i) == NonEmptyKey(a, i) + NonEmptyKey(b, i)
    decreases |b|
  {
    if b == [] {
      assert a + b == a;
    } else {
      var b' := b[..|b| - 1];
      AppendInit(a, b);
      NonEmptyKeyAppend(a, b', i);
    }
  }

  /** Filtering by keys that are all non-empty drops the rows with an empty
      key anyway, so dropping them first changes nothing. */
  lemma {:induction false} KeyInNonEmpty(rows: seq<Row>, i: nat, keys: set<string>)
    requires HasPosition(rows, i) && "" !in keys
    ensures KeyIn(NonEmptyKey(rows, i), i, keys) == KeyIn(rows, i, keys)
  {
    if rows != [] {
      var init, last := rows[..|rows| - 1], rows[|rows| - 1];
      var tail := if last[i] != "" then [last] else [];
      KeyInAppend(NonEmptyKey(init, i), tail, i, keys);
      if tail != [] {
        assert tail[..0] == [];
      }
      KeyInNonEmpty(init, i, keys);
    }
  }

  /** A table whose cells are all clean is its own strip, column by column. */
  lemma StrippedKeySetOfClean(rows: seq<Row>, i: nat)
    requires HasPosition(rows, i)
    requires forall k :: 0 <= k < |rows| ==> IsClean(rows[k][i])
    ensures StrippedKeySet(rows, i) == KeySet(rows, i)
  {
    forall key ensures key in StrippedKeySet(rows, i) <==> key in KeySet(rows, i) {
      StrippedKeySetMembers(rows, i, key);
      if key in KeySet(rows, i) {
        var k :| 0 <= k < |rows| && rows[k][i] == key;
        CleanIsStripped(rows[k][i]);
        assert rows[k] in rows;
      }
      if key in StrippedKeySet(rows, i) {
        var row :| row in rows && Strip(row[i]) == key;
        var k :| 0 <= k < |rows| && rows[k] == row;
        CleanIsStripped(rows[k][i]);
      }
    }
  }
}
