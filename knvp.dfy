/** The KNVV vs KNVP comparison: KNVP rows are grouped by customer, and each
    KNVV row with a customer is compared as text, on the sales organisation,
    distribution channel and division, with the rows of its group. Rows with
    no group, or with no group row agreeing on all three, are reported. */
module KnvpComparison {
  import opened Wrappers
  import opened Text
  import opened Tables

  /** `comparison_columns`, in order. */
  const ComparisonColumns: seq<string> := ["Sales Org.", "Distr. Channel", "Division"]
  const NotInKnvp: string := "Customer not found in KNVP"

  /** Both sheets rectangular, with the customer columns `cv` (KNVV) and `cp`
      (KNVP) that `find_column` returned. */
  predicate Groupable(knvv: Table, cv: string, knvp: Table, cp: string) {
    Rectangular(knvv) && Rectangular(knvp) && cv in knvv.columns && cp in knvp.columns
  }

  // ---------------------------------------------------- comparing one column

  /** Lines 279-283 for one column: present on both sides, and the stripped
      texts differ. */
  predicate ColumnDiffers(vcols: seq<string>, vrow: Row, pcols: seq<string>, prow: Row, col: string)
    requires |vrow| == |vcols| && |prow| == |pcols|
  {
    col in vcols && col in pcols
    && Strip(Cell(vcols, vrow, col)) != Strip(Cell(pcols, prow, col))
  }

  /** The columns of `cols` that differ, in order: `mismatches` after the
      column loop. */
  function ColumnMismatches(cols: seq<string>, vcols: seq<string>, vrow: Row, pcols: seq<string>, prow: Row): (r: seq<string>)
    requires |vrow| == |vcols| && |prow| == |pcols|
    ensures |r| <= |cols|
  {
    if cols == [] then []
    else
      var col := cols[|cols| - 1];
      ColumnMismatches(cols[..|cols| - 1], vcols, vrow, pcols, prow)
        + (if ColumnDiffers(vcols, vrow, pcols, prow, col) then [col] else [])
  }

  /** A column is listed exactly when it is one of `cols` and differs. */
  lemma {:induction false} ColumnMismatchesListed(cols: seq<string>, vcols: seq<string>, vrow: Row,
                                                  pcols: seq<string>, prow: Row, n: string)
    requires |vrow| == |vcols| && |prow| == |pcols|
    ensures n in ColumnMismatches(cols, vcols, vrow, pcols, prow) <==>
      n in cols && ColumnDiffers(vcols, vrow, pcols, prow, n)
  {
    if cols != [] {
      var init := cols[..|cols| - 1];
      assert cols == init + [cols[|cols| - 1]];
      ColumnMismatchesListed(init, vcols, vrow, pcols, prow, n);
    }
  }

  /** The comparison columns on which a KNVV row and a KNVP row differ. */
  function RowMismatches(knvv: Table, vrow: Row, knvp: Table, prow: Row): seq<string>
    requires |vrow| == |knvv.columns| && |prow| == |knvp.columns|
  {
    ColumnMismatches(ComparisonColumns, knvv.columns, vrow, knvp.columns, prow)
  }

  // ------------------------------------------------------ the per-row verdict

  /** `knvp_grouped.get_group(cust)`: the KNVP rows with a non-empty customer
      equal to `cust`, in KNVP order. */
  function Group(knvp: Table, cp: string, cust: string): (g: seq<Row>)
    requires Rectangular(knvp) && cp in knvp.columns
    ensures forall m :: 0 <= m < |g| ==> |g[m]| == |knvp.columns|
  {
    var ip := IndexOf(knvp.columns, cp);
    if cust == "" then []
    else
      RowsWithKey(knvp.rows, ip, cust)
  }

  /** The group is the part of the rows with a customer that carries `cust`,
      as grouping `df_knvp_clean` by the customer column makes it. */
  lemma GroupOfCleanRows(knvp: Table, cp: string, cust: string)
    requires Rectangular(knvp) && cp in knvp.columns
    ensures var ip := IndexOf(knvp.columns, cp);
      Group(knvp, cp, cust) == KeyIn(NonEmptyKey(knvp.rows, ip), ip, {cust})
  {
    var ip := IndexOf(knvp.columns, cp);
    var g := KeyIn(NonEmptyKey(knvp.rows, ip), ip, {cust});
    if cust == "" && g != [] {
      NonEmptyKeyMembers(knvp.rows, ip, g[0]);
    }
    if cust != "" {
      RowsWithKeyIsKeyIn(knvp.rows, ip, cust);
      KeyInNonEmpty(knvp.rows, ip, {cust});
    }
  }

  /** The group holds exactly the KNVP rows carrying the non-empty `cust`. */
  lemma GroupMembers(knvp: Table, cp: string, cust: string, prow: Row)
    requires Rectangular(knvp) && cp in knvp.columns
    ensures prow in Group(knvp, cp, cust) <==>
      cust != "" && prow in knvp.rows && prow[IndexOf(knvp.columns, cp)] == cust
  {
    if cust != "" {
      RowsWithKeyMembers(knvp.rows, IndexOf(knvp.columns, cp), cust, prow);
    }
  }

  /** Some row of the group agrees with `vrow` on every comparison column,
      found by scanning the group from its first row. */
  predicate HasExactMatch(knvv: Table, vrow: Row, knvp: Table, group: seq<Row>)
    requires |vrow| == |knvv.columns|
    requires forall m :: 0 <= m < |group| ==> |group[m]| == |knvp.columns|
  {
    group != [] && (RowMismatches(knvv, vrow, knvp, group[0]) == [] || HasExactMatch(knvv, vrow, knvp, group[1..]))
  }

  /** The scan finds an agreeing row exactly when the group has one. */
  lemma {:induction false} HasExactMatchIff(knvv: Table, vrow: Row, knvp: Table, group: seq<Row>)
    requires |vrow| == |knvv.columns|
    requires forall m :: 0 <= m < |group| ==> |group[m]| == |knvp.columns|
    ensures HasExactMatch(knvv, vrow, knvp, group) <==>
      exists m :: 0 <= m < |group| && RowMismatches(knvv, vrow, knvp, group[m]) == []
  {
    if group != [] {
      var rest := group[1..];
      HasExactMatchIff(knvv, vrow, knvp, rest);
      if HasExactMatch(knvv, vrow, knvp, rest) {
        var m :| 0 <= m < |rest| && RowMismatches(knvv, vrow, knvp, rest[m]) == [];
        assert rest[m] == group[m + 1];
      }
      if exists m :: 0 <= m < |group| && RowMismatches(knvv, vrow, knvp, group[m]) == [] {
        var m :| 0 <= m < |group| && RowMismatches(knvv, vrow, knvp, group[m]) == [];
        if m > 0 {
          assert group[m] == rest[m - 1];
        }
      }
    }
  }

  /** The stripped customer of a KNVV row. */
  function CustomerOf(knvv: Table, cv: string, row: Row): string
    requires cv in knvv.columns && |row| == |knvv.columns|
  {
    Strip(Cell(knvv.columns, row, cv))
  }

  /** What lines 267-294 do with one KNVV row: None when it is not reported,
      otherwise the reason it is reported with. */
  function Verdict(knvv: Table, cv: string, knvp: Table, cp: string, row: Row): (v: Option<string>)
    requires Groupable(knvv, cv, knvp, cp) && |row| == |knvv.columns|
    ensures var group := Group(knvp, cp, CustomerOf(knvv, cv, row));
      && (group == [] ==> v == Some(NotInKnvp))
      && (v.None? <==> exists m :: 0 <= m < |group| && RowMismatches(knvv, row, knvp, group[m]) == [])
  {
    var group := Group(knvp, cp, CustomerOf(knvv, cv, row));
    HasExactMatchIff(knvv, row, knvp, group);
    if group == [] then Some(NotInKnvp)
    else if HasExactMatch(knvv, row, knvp, group) then None
    else Some(Join(RowMismatches(knvv, row, knvp, group[0]), ", "))
  }

  /** What one row adds to the report: nothing when it is not reported,
      otherwise the row with its reason. */
  function Entry(knvv: Table, cv: string, knvp: Table, cp: string, row: Row): (e: seq<Flagged>)
    requires Groupable(knvv, cv, knvp, cp) && |row| == |knvv.columns|
    ensures |e| <= 1 && (e == [] <==> Verdict(knvv, cv, knvp, cp, row).None?)
    ensures forall p :: 0 <= p < |e| ==> e[p].row == row && Verdict(knvv, cv, knvp, cp, row) == Some(e[p].reason)
  {
    match Verdict(knvv, cv, knvp, cp, row)
    case None => []
    case Some(reason) => [Flagged(row, reason)]
  }

  /** The rows of `rows` that are reported, each with its reason, in order:
      at most one entry per row, each carrying its row's verdict. */
  function Report(knvv: Table, cv: string, knvp: Table, cp: string, rows: seq<Row>): (r: seq<Flagged>)
    requires Groupable(knvv, cv, knvp, cp)
    requires forall k :: 0 <= k < |rows| ==> |rows[k]| == |knvv.columns|
    ensures |r| <= |rows|
    ensures forall p :: 0 <= p < |r| ==>
      |r[p].row| == |knvv.columns| && Verdict(knvv, cv, knvp, cp, r[p].row) == Some(r[p].reason)
  {
    if rows == [] then []
    else Report(knvv, cv, knvp, cp, rows[..|rows| - 1]) + Entry(knvv, cv, knvp, cp, rows[|rows| - 1])
  }

  /** `df_knvv_clean`: the KNVV rows with a non-empty customer. */
  function KnvvWithCustomer(knvv: Table, cv: string): (rows: seq<Row>)
    requires Rectangular(knvv) && cv in knvv.columns
    ensures forall k :: 0 <= k < |rows| ==> |rows[k]| == |knvv.columns|
  {
    var rows := NonEmptyKey(knvv.rows, IndexOf(knvv.columns, cv));
    assert forall k :: 0 <= k < |rows| ==> rows[k] in knvv.rows;
    rows
  }

  /** The rows the loop visits are exactly the KNVV rows with a customer. */
  lemma KnvvWithCustomerMembers(knvv: Table, cv: string, row: Row)
    requires Rectangular(knvv) && cv in knvv.columns
    ensures row in KnvvWithCustomer(knvv, cv) <==> row in knvv.rows && Cell(knvv.columns, row, cv) != ""
  {
    NonEmptyKeyMembers(knvv.rows, IndexOf(knvv.columns, cv), row);
  }

  // ---------------------------------------------------------------- the loops

  /** The column loop of lines 278-283 for one KNVP row. */
  method CompareColumns(knvv: Table, vrow: Row, knvp: Table, prow: Row) returns (mismatches: seq<string>)
    requires |vrow| == |knvv.columns| && |prow| == |knvp.columns|
    ensures mismatches == RowMismatches(knvv, vrow, knvp, prow)
  {
    mismatches := [];
    for j := 0 to |ComparisonColumns|
      invariant mismatches == ColumnMismatches(ComparisonColumns[..j], knvv.columns, vrow, knvp.columns, prow)
    {
      var col := ComparisonColumns[j];
      if col in knvv.columns && col in knvp.columns {
        var valKnvv := Strip(Cell(knvv.columns, vrow, col));
        var valKnvp := Strip(Cell(knvp.columns, prow, col));
        if valKnvv != valKnvp {
          mismatches := mismatches + [col];
        }
      }
      assert ComparisonColumns[..j + 1][..j] == ComparisonColumns[..j];
    }
    assert ComparisonColumns[..|ComparisonColumns|] == ComparisonColumns;
  }

  /** Scanning the group from its `c`-th row: that row agrees, or a later one does. */
  lemma HasExactMatchFrom(knvv: Table, vrow: Row, knvp: Table, group: seq<Row>, c: nat)
    requires |vrow| == |knvv.columns|
    requires forall m :: 0 <= m < |group| ==> |group[m]| == |knvp.columns|
    requires c < |group|
    ensures HasExactMatch(knvv, vrow, knvp, group[c..]) <==>
      RowMismatches(knvv, vrow, knvp, group[c]) == [] || HasExactMatch(knvv, vrow, knvp, group[c + 1..])
  {
    assert group[c..][0] == group[c];
    assert group[c..][1..] == group[c + 1..];
  }

  /** The group loop of lines 276-290: stop at the first group row with no
      mismatch, and otherwise remember the first group row's mismatches. */
  method ScanGroup(knvv: Table, vrow: Row, knvp: Table, group: seq<Row>)
    returns (foundMatch: bool, mismatchFields: seq<string>)
    requires |vrow| == |knvv.columns|
    requires forall m :: 0 <= m < |group| ==> |group[m]| == |knvp.columns|
    ensures foundMatch <==> HasExactMatch(knvv, vrow, knvp, group)
    ensures !foundMatch ==>
      mismatchFields == if group == [] then [] else RowMismatches(knvv, vrow, knvp, group[0])
  {
    foundMatch := false;
    mismatchFields := [];
    var c := 0;
    while c < |group|
      invariant 0 <= c <= |group| && !foundMatch
      invariant HasExactMatch(knvv, vrow, knvp, group) == HasExactMatch(knvv, vrow, knvp, group[c..])
      invariant mismatchFields == if c == 0 then [] else RowMismatches(knvv, vrow, knvp, group[0])
      invariant c > 0 ==> mismatchFields != []
    {
      var mismatches := CompareColumns(knvv, vrow, knvp, group[c]);
      HasExactMatchFrom(knvv, vrow, knvp, group, c);
      if mismatches == [] {
        foundMatch := true;
        break;
      }
      if mismatchFields == [] {
        mismatchFields := mismatches;
      }
      c := c + 1;
    }
  }

  /** The body of the row loop, lines 268-294, for one KNVV row: whether it
      is reported, and with which reason. `groups` is the key set of the
      grouped KNVP rows. */
  method CheckRow(knvv: Table, cv: string, knvp: Table, cp: string, groups: set<string>, row: Row)
    returns (report: bool, reason: string)
    requires Groupable(knvv, cv, knvp, cp) && |row| == |knvv.columns|
    requires groups == KeySet(NonEmptyKey(knvp.rows, IndexOf(knvp.columns, cp)), IndexOf(knvp.columns, cp))
    ensures Entry(knvv, cv, knvp, cp, row) == if report then [Flagged(row, reason)] else []
  {
    var custId := Strip(Cell(knvv.columns, row, cv));
    var foundMatch := false;
    var mismatchFields: seq<string> := [];
    GroupedKeys(knvp, cp, custId);
    if custId in groups {
      var knvpMatches := Group(knvp, cp, custId);
      foundMatch, mismatchFields := ScanGroup(knvv, row, knvp, knvpMatches);
    } else {
      mismatchFields := [NotInKnvp];
      JoinSingle(NotInKnvp, ", ");
    }
    report := !foundMatch;
    reason := Join(mismatchFields, ", ");
  }

  /** The row loop of lines 267-294: `mismatched_rows` and `reasons`. */
  method ReconcileWithKnvp(knvv: Table, cv: string, knvp: Table, cp: string)
    returns (flagged: seq<Row>, reasons: seq<string>)
    requires Groupable(knvv, cv, knvp, cp)
    ensures |flagged| == |reasons|
    ensures Zip(flagged, reasons) == Report(knvv, cv, knvp, cp, KnvvWithCustomer(knvv, cv))
  {
    var ip := IndexOf(knvp.columns, cp);
    var knvvClean := KnvvWithCustomer(knvv, cv);
    var groups := KeySet(NonEmptyKey(knvp.rows, ip), ip);
    flagged, reasons := [], [];
    for i := 0 to |knvvClean|
      invariant |flagged| == |reasons|
      invariant Zip(flagged, reasons) == Report(knvv, cv, knvp, cp, knvvClean[..i])
    {
      flagged, reasons := RecordRow(knvv, cv, knvp, cp, groups, knvvClean, i, flagged, reasons);
    }
    assert knvvClean[..|knvvClean|] == knvvClean;
  }

  /** One turn of the row loop: checks row `i` and appends it, with its
      reason, when it is reported. */
  method RecordRow(knvv: Table, cv: string, knvp: Table, cp: string, groups: set<string>,
                   rows: seq<Row>, i: nat, flagged: seq<Row>, reasons: seq<string>)
    returns (flagged': seq<Row>, reasons': seq<string>)
    requires Groupable(knvv, cv, knvp, cp)
    requires groups == KeySet(NonEmptyKey(knvp.rows, IndexOf(knvp.columns, cp)), IndexOf(knvp.columns, cp))
    requires forall k :: 0 <= k < |rows| ==> |rows[k]| == |knvv.columns|
    requires i < |rows| && |flagged| == |reasons|
    requires Zip(flagged, reasons) == Report(knvv, cv, knvp, cp, rows[..i])
    ensures |flagged'| == |reasons'|
    ensures Zip(flagged', reasons') == Report(knvv, cv, knvp, cp, rows[..i + 1])
  {
    ReportStep(knvv, cv, knvp, cp, rows, i);
    var report, reason := CheckRow(knvv, cv, knvp, cp, groups, rows[i]);
    flagged', reasons' := flagged, reasons;
    if report {
      ZipAppend(flagged, reasons, rows[i], reason);
      flagged', reasons' := flagged + [rows[i]], reasons + [reason];
    }
  }

  /** One more row of the loop adds that row's entry. */
  lemma ReportStep(knvv: Table, cv: string, knvp: Table, cp: string, rows: seq<Row>, i: nat)
    requires Groupable(knvv, cv, knvp, cp)
    requires forall k :: 0 <= k < |rows| ==> |rows[k]| == |knvv.columns|
    requires i < |rows|
    ensures Report(knvv, cv, knvp, cp, rows[..i + 1]) ==
      Report(knvv, cv, knvp, cp, rows[..i]) + Entry(knvv, cv, knvp, cp, rows[i])
  {
    assert rows[..i + 1][..i] == rows[..i];
  }

  // --------------------------------------------------------------- properties

  /** `cust in knvp_grouped.groups` exactly when its group is not empty. */
  lemma GroupedKeys(knvp: Table, cp: string, cust: string)
    requires Rectangular(knvp) && cp in knvp.columns
    ensures var ip := IndexOf(knvp.columns, cp);
      cust in KeySet(NonEmptyKey(knvp.rows, ip), ip) <==> Group(knvp, cp, cust) != []
  {
    var ip := IndexOf(knvp.columns, cp);
    var clean := NonEmptyKey(knvp.rows, ip);
    if cust in KeySet(clean, ip) {
      var row :| row in clean && row[ip] == cust;
      NonEmptyKeyMembers(knvp.rows, ip, row);
      GroupMembers(knvp, cp, cust, row);
    }
    if Group(knvp, cp, cust) != [] {
      var row := Group(knvp, cp, cust)[0];
      GroupMembers(knvp, cp, cust, row);
      NonEmptyKeyMembers(knvp.rows, ip, row);
    }
  }

  /** The report on a non-empty run of rows ends with the last row's entry. */
  lemma ReportLast(knvv: Table, cv: string, knvp: Table, cp: string, rows: seq<Row>)
    requires Groupable(knvv, cv, knvp, cp)
    requires forall k :: 0 <= k < |rows| ==> |rows[k]| == |knvv.columns|
    requires rows != []
    ensures Report(knvv, cv, knvp, cp, rows) ==
      Report(knvv, cv, knvp, cp, rows[..|rows| - 1]) + Entry(knvv, cv, knvp, cp, rows[|rows| - 1])
  {
  }

  /** Rows are reported at most once and in KNVV order. */
  lemma {:induction false} ReportAppend(knvv: Table, cv: string, knvp: Table, cp: string, a: seq<Row>, b: seq<Row>)
    requires Groupable(knvv, cv, knvp, cp)
    requires forall k :: 0 <= k < |a| ==> |a[k]| == |knvv.columns|
    requires forall k :: 0 <= k < |b| ==> |b[k]| == |knvv.columns|
    ensures Report(knvv, cv, knvp, cp, a + b) == Report(knvv, cv, knvp, cp, a) + Report(knvv, cv, knvp, cp, b)
    decreases |b|
  {
    if b == [] {
      assert a + b == a;
    } else {
      var b' := b[..|b| - 1];
      AppendInit(a, b);
      ReportLast(knvv, cv, knvp, cp, a + b);
      ReportLast(knvv, cv, knvp, cp, b);
      ReportAppend(knvv, cv, knvp, cp, a, b');
      AppendAssoc(Report(knvv, cv, knvp, cp, a), Report(knvv, cv, knvp, cp, b'), Entry(knvv, cv, knvp, cp, b[|b| - 1]));
    }
  }

  /** Every reported row is one of the rows given, and so, for the loop's
      rows, a KNVV row with a customer: rows with an empty customer are never
      reported. */
  lemma {:induction false} ReportedRowsFrom(knvv: Table, cv: string, knvp: Table, cp: string, rows: seq<Row>)
    requires Groupable(knvv, cv, knvp, cp)
    requires forall k :: 0 <= k < |rows| ==> |rows[k]| == |knvv.columns|
    ensures forall f :: f in Report(knvv, cv, knvp, cp, rows) ==> f.row in rows
  {
    if rows != [] {
      var init := rows[..|rows| - 1];
      ReportedRowsFrom(knvv, cv, knvp, cp, init);
      forall f | f in Report(knvv, cv, knvp, cp, rows) ensures f.row in rows {
        if f in Report(knvv, cv, knvp, cp, init) {
          assert f.row in init;
        }
      }
    }
  }

  /** A list of differing columns, joined, is neither empty nor the "not
      found" reason: it starts with a comparison column's name. */
  lemma MismatchReason(knvv: Table, vrow: Row, knvp: Table, prow: Row)
    requires |vrow| == |knvv.columns| && |prow| == |knvp.columns|
    requires RowMismatches(knvv, vrow, knvp, prow) != []
    ensures var reason := Join(RowMismatches(knvv, vrow, knvp, prow), ", ");
      reason != "" && reason != NotInKnvp
  {
    var ms := RowMismatches(knvv, vrow, knvp, prow);
    ColumnMismatchesListed(ComparisonColumns, knvv.columns, vrow, knvp.columns, prow, ms[0]);
    assert ms[0] in ComparisonColumns;
    assert ms[0][0] != 'C';
  }

  /** The "not found" reason is given exactly to the rows without a group:
      every other reason starts with a comparison column's name. */
  lemma NotFoundIffNoGroup(knvv: Table, cv: string, knvp: Table, cp: string, row: Row)
    requires Groupable(knvv, cv, knvp, cp) && |row| == |knvv.columns|
    ensures Verdict(knvv, cv, knvp, cp, row) == Some(NotInKnvp) <==>
      Group(knvp, cp, CustomerOf(knvv, cv, row)) == []
  {
    var group := Group(knvp, cp, CustomerOf(knvv, cv, row));
    if group != [] && !HasExactMatch(knvv, row, knvp, group) {
      MismatchReason(knvv, row, knvp, group[0]);
    }
  }

  /** A group row agreeing on every comparison column suppresses the KNVV row. */
  lemma ExactMatchSuppresses(knvv: Table, cv: string, knvp: Table, cp: string, row: Row, prow: Row)
    requires Groupable(knvv, cv, knvp, cp) && |row| == |knvv.columns|
    requires prow in Group(knvp, cp, CustomerOf(knvv, cv, row))
    requires RowMismatches(knvv, row, knvp, prow) == []
    ensures Verdict(knvv, cv, knvp, cp, row) == None
  {
    var group := Group(knvp, cp, CustomerOf(knvv, cv, row));
    var m :| 0 <= m < |group| && group[m] == prow;
    HasExactMatchIff(knvv, row, knvp, group);
  }

  /** With no agreeing group row, the reason lists the columns on which the
      first group row differs, in column order, joined by ", ". */
  lemma FirstGroupRowReason(knvv: Table, cv: string, knvp: Table, cp: string, row: Row)
    requires Groupable(knvv, cv, knvp, cp) && |row| == |knvv.columns|
    requires var group := Group(knvp, cp, CustomerOf(knvv, cv, row));
      group != [] && !HasExactMatch(knvv, row, knvp, group)
    ensures var group := Group(knvp, cp, CustomerOf(knvv, cv, row));
      && RowMismatches(knvv, row, knvp, group[0]) != []
      && Verdict(knvv, cv, knvp, cp, row) == Some(Join(RowMismatches(knvv, row, knvp, group[0]), ", "))
  {
    var group := Group(knvp, cp, CustomerOf(knvv, cv, row));
    assert !(RowMismatches(knvv, row, knvp, group[0]) == []);
  }

  /** Every reason is non-empty. */
  lemma ReasonNeverEmpty(knvv: Table, cv: string, knvp: Table, cp: string, row: Row)
    requires Groupable(knvv, cv, knvp, cp) && |row| == |knvv.columns|
    ensures Verdict(knvv, cv, knvp, cp, row) != Some("")
  {
    var group := Group(knvp, cp, CustomerOf(knvv, cv, row));
    if group != [] && !HasExactMatch(knvv, row, knvp, group) {
      MismatchReason(knvv, row, knvp, group[0]);
    }
  }

  /** The comparison is on text only: "10" against "10.0" in a comparison
      column is a mismatch, unlike in the MACE comparison. */
  lemma TextOnlyComparison(knvv: Table, vrow: Row, knvp: Table, prow: Row, col: string)
    requires |vrow| == |knvv.columns| && |prow| == |knvp.columns|
    requires col in ComparisonColumns && col in knvv.columns && col in knvp.columns
    requires Strip(Cell(knvv.columns, vrow, col)) == "10" && Strip(Cell(knvp.columns, prow, col)) == "10.0"
    ensures col in RowMismatches(knvv, vrow, knvp, prow)
  {
    ColumnMismatchesListed(ComparisonColumns, knvv.columns, vrow, knvp.columns, prow, col);
  }

  /** A comparison column missing from either sheet never contributes. */
  lemma MissingColumnNeverListed(knvv: Table, vrow: Row, knvp: Table, prow: Row, col: string)
    requires |vrow| == |knvv.columns| && |prow| == |knvp.columns|
    requires col !in knvv.columns || col !in knvp.columns
    ensures col !in RowMismatches(knvv, vrow, knvp, prow)
  {
    ColumnMismatchesListed(ComparisonColumns, knvv.columns, vrow, knvp.columns, prow, col);
  }
}
