/** The three comparisons as the script runs them, from the sheets as read to
    the reports shown: header clean-up, cell cleaning, the lookups of the key
    columns (each of which stops the comparison with an error when the
    column is missing), and the comparison itself. */
module Validations {
  import opened Wrappers
  import opened Text
  import opened Tables
  import opened KeyDifference
  import M = MaceComparison
  import K = KnvpComparison

  /** Why a comparison stops without a report: two columns of a sheet share
      a name once the header is stripped (cleaning raises), or the sheet lacks
      a key column. */
  datatype ColumnError = RepeatedColumn(sheet: string) | MissingColumn(sheet: string, column: string)

  /** The column name the first and third comparisons look for. */
  const CustomerTarget: string := "Customer"

  // ------------------------------------------------------- KNA1 vs KNVV (tab 1)

  /** The three tables the first comparison shows. */
  datatype KeyReport = KeyReport(kna1Only: seq<Row>, knvvOnly: seq<Row>, merged: Table)

  /** Lines 34-41: a sheet of the first and third comparisons with its header
      stripped and filtered and every cell cleaned. */
  function Prepared(t: RawTable): (r: Table)
    requires RawRectangular(t)
    ensures Rectangular(r) && |r.rows| == |t.rows|
  {
    Cleaned(FilterHeader(t))
  }

  /** A prepared sheet keeps only wanted, stripped column names and holds
      only clean cells. */
  lemma PreparedShape(t: RawTable)
    requires RawRectangular(t)
    ensures AllClean(Prepared(t))
    ensures forall j :: 0 <= j < |Prepared(t).columns| ==> KeepHeader(Prepared(t).columns[j])
  {
    var f := FilterHeader(t);
    forall j | 0 <= j < |f.columns| ensures KeepHeader(f.columns[j]) {
      FilterHeaderNames(t, f.columns[j]);
    }
  }

  /** Lines 44-82 on the prepared sheets, given the key columns found: the
      key difference on the rows with a customer, and their left merge. */
  function KeyComparison(kna1: Table, c1: string, knvv: Table, c2: string): (r: KeyReport)
    requires Rectangular(kna1) && Rectangular(knvv) && c1 in kna1.columns && c2 in knvv.columns
    ensures var i1 := IndexOf(kna1.columns, c1); var i2 := IndexOf(knvv.columns, c2);
      && (forall m :: 0 <= m < |r.kna1Only| ==> r.kna1Only[m] in kna1.rows && r.kna1Only[m][i1] !in Keys(knvv.rows, i2))
      && (forall m :: 0 <= m < |r.knvvOnly| ==> r.knvvOnly[m] in knvv.rows && r.knvvOnly[m][i2] !in Keys(kna1.rows, i1))
      && Rectangular(r.merged) && |r.merged.rows| >= |NonEmptyKey(kna1.rows, i1)|
  {
    var i1 := IndexOf(kna1.columns, c1);
    var i2 := IndexOf(knvv.columns, c2);
    var d := DiffByKey(kna1.rows, i1, knvv.rows, i2);
    KeyReport(d.leftOnly, d.rightOnly,
              LeftMerge(WithNonEmptyKey(kna1, i1), i1, WithNonEmptyKey(knvv, i2), i2))
  }

  /** Lines 33-82. Cleaning a sheet whose stripped header repeats a name
      raises (KNA1 is read and cleaned before KNVV). The key column of each
      sheet is the one `find_column` finds; when either lookup fails,
      indexing with `None` raises and the comparison stops. */
  method CompareKna1Knvv(kna1File: RawTable, knvvFile: RawTable) returns (res: Result<KeyReport, ColumnError>)
    requires RawRectangular(kna1File) && RawRectangular(knvvFile)
    ensures var h1 := FilterHeader(kna1File).columns;
      var h2 := FilterHeader(knvvFile).columns;
      && (!UniqueColumns(h1) ==> res == Failure(RepeatedColumn("KNA1")))
      && (UniqueColumns(h1) && !UniqueColumns(h2) ==> res == Failure(RepeatedColumn("KNVV")))
    ensures UniqueColumns(FilterHeader(kna1File).columns) && UniqueColumns(FilterHeader(knvvFile).columns) ==>
      var c1 := FindColumn(Prepared(kna1File).columns, CustomerTarget);
      var c2 := FindColumn(Prepared(knvvFile).columns, CustomerTarget);
      && (c1.None? ==> res == Failure(MissingColumn("KNA1", CustomerTarget)))
      && (c1.Some? && c2.None? ==> res == Failure(MissingColumn("KNVV", CustomerTarget)))
      && (c1.Some? && c2.Some? ==>
            res == Success(KeyComparison(Prepared(kna1File), c1.value, Prepared(knvvFile), c2.value)))
  {
    var kna1Header := FilterHeader(kna1File);
    if !UniqueColumns(kna1Header.columns) {
      return Failure(RepeatedColumn("KNA1"));
    }
    var kna1 := CleanAllTextColumns(kna1Header);
    var knvvHeader := FilterHeader(knvvFile);
    if !UniqueColumns(knvvHeader.columns) {
      return Failure(RepeatedColumn("KNVV"));
    }
    var knvv := CleanAllTextColumns(knvvHeader);
    var customerColKna1 := FindColumn(kna1.columns, CustomerTarget);
    var customerColKnvv := FindColumn(knvv.columns, CustomerTarget);
    if customerColKna1.None? {
      return Failure(MissingColumn("KNA1", CustomerTarget));
    }
    if customerColKnvv.None? {
      return Failure(MissingColumn("KNVV", CustomerTarget));
    }
    res := Success(KeyComparison(kna1, customerColKna1.value, knvv, customerColKnvv.value));
  }

  /** The first comparison's KNA1-only table: exactly the KNA1 rows with a
      customer that KNVV lacks (never a row with an empty customer). */
  lemma Kna1OnlyMeaning(kna1: Table, c1: string, knvv: Table, c2: string, row: Row)
    requires Rectangular(kna1) && Rectangular(knvv) && c1 in kna1.columns && c2 in knvv.columns
    ensures var i1 := IndexOf(kna1.columns, c1);
      row in KeyComparison(kna1, c1, knvv, c2).kna1Only <==>
        row in kna1.rows && row[i1] != "" && row[i1] !in Keys(knvv.rows, IndexOf(knvv.columns, c2))
  {
    DiffLeftOnly(kna1.rows, IndexOf(kna1.columns, c1), knvv.rows, IndexOf(knvv.columns, c2), row);
  }

  /** The first comparison's KNVV-only table: exactly the KNVV rows with a
      customer that KNA1 lacks. */
  lemma KnvvOnlyMeaning(kna1: Table, c1: string, knvv: Table, c2: string, row: Row)
    requires Rectangular(kna1) && Rectangular(knvv) && c1 in kna1.columns && c2 in knvv.columns
    ensures var i2 := IndexOf(knvv.columns, c2);
      row in KeyComparison(kna1, c1, knvv, c2).knvvOnly <==>
        row in knvv.rows && row[i2] != "" && row[i2] !in Keys(kna1.rows, IndexOf(kna1.columns, c1))
  {
    DiffRightOnly(kna1.rows, IndexOf(kna1.columns, c1), knvv.rows, IndexOf(knvv.columns, c2), row);
  }

  /** The first comparison's merged table has, for each KNA1 row with a
      customer, one row per KNVV row with that customer, or one row when
      there is none (so at least one each); it shows no `_KNVV` column. */
  lemma MergedMeaning(kna1: Table, c1: string, knvv: Table, c2: string)
    requires Rectangular(kna1) && Rectangular(knvv) && c1 in kna1.columns && c2 in knvv.columns
    ensures var i1 := IndexOf(kna1.columns, c1);
      var i2 := IndexOf(knvv.columns, c2);
      var m := KeyComparison(kna1, c1, knvv, c2).merged;
      && |m.rows| == MergeCount(NonEmptyKey(kna1.rows, i1), i1, WithNonEmptyKey(knvv, i2), i2)
      && |m.rows| >= |NonEmptyKey(kna1.rows, i1)|
      && forall j :: 0 <= j < |m.columns| ==> !EndsWithKnvv(m.columns[j])
  {
  }

  // ------------------------------------------------- KNA1+KNVV vs MACE (tab 2)

  /** The two tables the second comparison shows. */
  datatype MaceReport = MaceReport(notInMace: seq<Flagged>, notInMerged: seq<Row>)

  /** Lines 99-205. Both sheets are read as they are (no header clean-up,
      so their names stay unique as the reader makes them) and cleaned; a
      MACE sheet without CUSTOMER_NATURAL_ID is refused first, then a merged
      sheet without "Customer" fails where its key column is read. */
  method CompareWithMace(mergedFile: RawTable, maceFile: RawTable, parse: M.NumberParser)
    returns (res: Result<MaceReport, ColumnError>)
    requires RawRectangular(mergedFile) && RawRectangular(maceFile)
    requires UniqueColumns(mergedFile.columns) && UniqueColumns(maceFile.columns)
    ensures var merged := Cleaned(mergedFile);
      var mace := Cleaned(maceFile);
      && (M.NaturalId !in mace.columns ==> res == Failure(MissingColumn("MACE", M.NaturalId)))
      && (M.NaturalId in mace.columns && M.CustomerColumn !in merged.columns ==>
            res == Failure(MissingColumn("KNA1+KNVV", M.CustomerColumn)))
      && (M.Comparable(merged, mace) ==>
            res == Success(MaceReport(M.Report(M.ColumnMapping, merged, mace, merged.rows, parse),
                                      M.MaceOnly(merged, mace))))
  {
    var merged := CleanAllTextColumns(mergedFile);
    var mace := CleanAllTextColumns(maceFile);
    if M.NaturalId !in mace.columns {
      return Failure(MissingColumn("MACE", M.NaturalId));
    }
    if M.CustomerColumn !in merged.columns {
      return Failure(MissingColumn("KNA1+KNVV", M.CustomerColumn));
    }
    var flagged, reasons := M.ReconcileWithMace(merged, mace, parse);
    res := Success(MaceReport(Zip(flagged, reasons), M.MaceOnly(merged, mace)));
  }

  /** On the sheets the second comparison has cleaned, no merged row is
      reported with the generic "Mismatch", and a MACE row is listed as
      missing exactly when no merged row carries its key. */
  lemma MaceReportMeaning(mergedFile: RawTable, maceFile: RawTable, parse: M.NumberParser, row: Row, xrow: Row)
    requires RawRectangular(mergedFile) && RawRectangular(maceFile)
    requires M.Comparable(Cleaned(mergedFile), Cleaned(maceFile))
    requires |row| == |mergedFile.columns|
    ensures var merged := Cleaned(mergedFile);
      var mace := Cleaned(maceFile);
      && M.Verdict(M.ColumnMapping, merged, mace, row, parse) != Some(M.GenericMismatch)
      && (xrow in M.MaceOnly(merged, mace) <==>
            xrow in mace.rows
            && Cell(mace.columns, xrow, M.NaturalId) !in KeySet(merged.rows, IndexOf(merged.columns, M.CustomerColumn)))
  {
    var merged := Cleaned(mergedFile);
    var mace := Cleaned(maceFile);
    M.CleanedNeverGenericMismatch(merged, mace, row, parse);
    M.MaceOnlyOfCleaned(merged, mace, xrow);
  }

  // ---------------------------------------------------- KNVV vs KNVP (tab 3)

  /** Lines 236-298. Header clean-up and cleaning as in the first
      comparison (both headers are filtered before either sheet is cleaned,
      and cleaning raises on a repeated name); when `find_column` fails on
      either sheet, indexing with `None` raises. Each error is shown instead
      of a report. */
  method CompareKnvvKnvp(knvvFile: RawTable, knvpFile: RawTable) returns (res: Result<seq<Flagged>, ColumnError>)
    requires RawRectangular(knvvFile) && RawRectangular(knvpFile)
    ensures var h1 := FilterHeader(knvvFile).columns;
      var h2 := FilterHeader(knvpFile).columns;
      && (!UniqueColumns(h1) ==> res == Failure(RepeatedColumn("KNVV")))
      && (UniqueColumns(h1) && !UniqueColumns(h2) ==> res == Failure(RepeatedColumn("KNVP")))
    ensures UniqueColumns(FilterHeader(knvvFile).columns) && UniqueColumns(FilterHeader(knvpFile).columns) ==>
      var knvv := Prepared(knvvFile);
      var knvp := Prepared(knvpFile);
      var c1 := FindColumn(knvv.columns, CustomerTarget);
      var c2 := FindColumn(knvp.columns, CustomerTarget);
      && (c1.None? ==> res == Failure(MissingColumn("KNVV", CustomerTarget)))
      && (c1.Some? && c2.None? ==> res == Failure(MissingColumn("KNVP", CustomerTarget)))
      && (c1.Some? && c2.Some? ==>
            res == Success(K.Report(knvv, c1.value, knvp, c2.value, K.KnvvWithCustomer(knvv, c1.value))))
  {
    var knvvHeader := FilterHeader(knvvFile);
    var knvpHeader := FilterHeader(knvpFile);
    if !UniqueColumns(knvvHeader.columns) {
      return Failure(RepeatedColumn("KNVV"));
    }
    var knvv := CleanAllTextColumns(knvvHeader);
    if !UniqueColumns(knvpHeader.columns) {
      return Failure(RepeatedColumn("KNVP"));
    }
    var knvp := CleanAllTextColumns(knvpHeader);
    var customerColKnvv := FindColumn(knvv.columns, CustomerTarget);
    var customerColKnvp := FindColumn(knvp.columns, CustomerTarget);
    if customerColKnvv.None? {
      return Failure(MissingColumn("KNVV", CustomerTarget));
    }
    if customerColKnvp.None? {
      return Failure(MissingColumn("KNVP", CustomerTarget));
    }
    var flagged, reasons := K.ReconcileWithKnvp(knvv, customerColKnvv.value, knvp, customerColKnvp.value);
    res := Success(Zip(flagged, reasons));
  }
}
