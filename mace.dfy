/** The KNA1+KNVV vs MACE comparison: each merged row is looked up among the
    MACE rows with the same CUSTOMER_NATURAL_ID and compared field by field
    through the fixed column mapping; rows with no exactly matching MACE row
    are reported with a reason. The MACE rows whose customer the merged sheet
    lacks are reported separately. */
module MaceComparison {
  import opened Wrappers
  import opened Text
  import opened Tables

  /** The MACE column the key is read from; a MACE sheet without it is refused. */
  const NaturalId: string := "CUSTOMER_NATURAL_ID"
  /** The merged-sheet column the key is read from (exact name, any case not accepted). */
  const CustomerColumn: string := "Customer"
  const NotInMace: string := "Customer not found in MACE"
  /** The reason given when the key is a MACE key after stripping but no MACE
      row carries it exactly. */
  const GenericMismatch: string := "Mismatch"

  /** One entry of `column_mapping`: a merged-sheet column and the MACE column
      it is compared with. */
  datatype FieldPair = FieldPair(merged: string, mace: string)

  /** `column_mapping`, in its insertion order (the order reasons list fields in). */
  const ColumnMapping: seq<FieldPair> := [
    FieldPair("Customer", "CUSTOMER_NATURAL_ID"),
    FieldPair("City", "CUSTOMER_CITY_NAME"),
    FieldPair("Ctry/Reg.", "CUSTOMER_COUNTRY_ISO2_CODE"),
    FieldPair("Postal Code", "CUSTOMER_POSTAL_CODE"),
    FieldPair("Street", "CUSTOMER_STREET_NAME"),
    FieldPair("Region", "CUSTOMER_REGION_CODE"),
    FieldPair("Name", "CUSTOMER_NAME"),
    FieldPair("Name2", "CUSTOMER_NAME2"),
    FieldPair("Sales Org.", "CUSTOMER_SALES_ORGANIZATION_CODE"),
    FieldPair("Distr. Channel", "CUSTOMER_SALES_DISTRIBUTION_CHANNEL_CODE"),
    FieldPair("Division", "CUSTOMER_DIVISION_CODE"),
    FieldPair("Currency", "CUSTOMER_CURRENCY"),
    FieldPair("Account group", "CUSTOMER_ACCOUNT_GROUP_CODE"),
    FieldPair("Language", "CUSTOMER_LANGUAGE_KEY"),
    FieldPair("Group", "CUSTOMER_GROUP_KEY")
  ]

  /** A value of Python's `float`: a finite number, an infinity, or NaN
      (`float("NAN")`, `float("+nan")`, ...). */
  datatype Float = Finite(value: real) | Infinite(negative: bool) | NaN

  /** Python's `x != y` on floats: NaN differs from every value, itself
      included; other values differ when they are not the same value. */
  predicate FloatDiffers(x: Float, y: Float) {
    x.NaN? || y.NaN? || x != y
  }

  /** Python's `float(text)`: the value, or None where it raises. */
  type NumberParser = string -> Option<Float>

  /** The two sheets as the comparison needs them: rectangular, and holding
      the two key columns (the script stops before comparing otherwise). */
  predicate Comparable(merged: Table, mace: Table) {
    Rectangular(merged) && Rectangular(mace)
    && CustomerColumn in merged.columns && NaturalId in mace.columns
  }

  // ------------------------------------------------------ comparing one field

  /** A value the comparison skips: empty, or "not found" in any case. */
  predicate Ignored(v: string)
    ensures Ignored(v) ==> v == "" || |v| == 9
    ensures v in {"", "not found", "Not found", "Not Found", "NOT FOUND"} ==> Ignored(v)
  {
    v == "" || EqualsIgnoreCase(v, "not found")
  }

  /** The two-stage comparison of lines 177-182: when both sides are numbers
      they compare as numbers, otherwise as text. */
  predicate ValuesDiffer(a: string, b: string, parse: NumberParser)
    ensures parse(a).None? || parse(b).None? ==> (ValuesDiffer(a, b, parse) <==> a != b)
    ensures parse(a) == Some(NaN) || parse(b) == Some(NaN) ==> ValuesDiffer(a, b, parse)
    ensures parse(a) == parse(b) && parse(a).Some? && !parse(a).value.NaN? ==> !ValuesDiffer(a, b, parse)
  {
    match (parse(a), parse(b))
    case (Some(x), Some(y)) => FloatDiffers(x, y)
    case _ => a != b
  }

  /** Lines 162-182 for one mapped pair: both columns exist, neither stripped
      value is skipped, and the values differ. */
  predicate FieldDiffers(mcols: seq<string>, row: Row, xcols: seq<string>, xrow: Row,
                         f: FieldPair, parse: NumberParser)
    requires |row| == |mcols| && |xrow| == |xcols|
    ensures FieldDiffers(mcols, row, xcols, xrow, f, parse) ==> f.merged in mcols && f.mace in xcols
    ensures f.merged in mcols && f.mace in xcols
      && Strip(Cell(mcols, row, f.merged)) == Strip(Cell(xcols, xrow, f.mace))
      && parse(Strip(Cell(mcols, row, f.merged))) != Some(NaN)
      ==> !FieldDiffers(mcols, row, xcols, xrow, f, parse)
  {
    f.merged in mcols && f.mace in xcols
    && var a := Strip(Cell(mcols, row, f.merged));
       var b := Strip(Cell(xcols, xrow, f.mace));
       !Ignored(a) && !Ignored(b) && ValuesDiffer(a, b, parse)
  }

  /** The merged-side names of the pairs in `fields` that differ, in order:
      `current_mismatch` after the field loop. */
  function Mismatches(fields: seq<FieldPair>, mcols: seq<string>, row: Row, xcols: seq<string>,
                      xrow: Row, parse: NumberParser): (r: seq<string>)
    requires |row| == |mcols| && |xrow| == |xcols|
    ensures |r| <= |fields|
  {
    if fields == [] then []
    else
      var f := fields[|fields| - 1];
      var init := fields[..|fields| - 1];
      assert fields == init + [f];
      Mismatches(init, mcols, row, xcols, xrow, parse)
        + (if FieldDiffers(mcols, row, xcols, xrow, f, parse) then [f.merged] else [])
  }

  /** A name is listed exactly when some pair with that merged-side name differs. */
  lemma {:induction false} MismatchesListed(fields: seq<FieldPair>, mcols: seq<string>, row: Row, xcols: seq<string>,
                                            xrow: Row, parse: NumberParser, n: string)
    requires |row| == |mcols| && |xrow| == |xcols|
    ensures n in Mismatches(fields, mcols, row, xcols, xrow, parse) <==>
      exists f :: f in fields && f.merged == n && FieldDiffers(mcols, row, xcols, xrow, f, parse)
  {
    if fields != [] {
      var init := fields[..|fields| - 1];
      assert fields == init + [fields[|fields| - 1]];
      MismatchesListed(init, mcols, row, xcols, xrow, parse, n);
    }
  }

  // ------------------------------------------------------ the per-row verdict

  /** The stripped key of a merged row (`str(row.get("Customer", "")).strip()`). */
  function CustomerOf(merged: Table, row: Row): string
    requires CustomerColumn in merged.columns && |row| == |merged.columns|
  {
    Strip(Cell(merged.columns, row, CustomerColumn))
  }

  /** `set(df_mace["CUSTOMER_NATURAL_ID"].astype(str).str.strip())`. */
  function MaceKeys(mace: Table): set<string>
    requires Rectangular(mace) && NaturalId in mace.columns
  {
    StrippedKeySet(mace.rows, IndexOf(mace.columns, NaturalId))
  }

  /** `df_mace[df_mace["CUSTOMER_NATURAL_ID"] == cust_id]`: the MACE rows whose
      key cell, unstripped, is `cust`, in MACE order. */
  function Candidates(mace: Table, cust: string): (c: seq<Row>)
    requires Rectangular(mace) && NaturalId in mace.columns
    ensures forall m :: 0 <= m < |c| ==> |c[m]| == |mace.columns|
  {
    RowsWithKey(mace.rows, IndexOf(mace.columns, NaturalId), cust)
  }

  /** The candidates are exactly the MACE rows carrying `cust`. */
  lemma CandidatesMembers(mace: Table, cust: string, row: Row)
    requires Rectangular(mace) && NaturalId in mace.columns
    ensures row in Candidates(mace, cust) <==> row in mace.rows && Cell(mace.columns, row, NaturalId) == cust
  {
    RowsWithKeyMembers(mace.rows, IndexOf(mace.columns, NaturalId), cust, row);
  }

  /** The mapped fields on which `row` and the MACE row `xrow` differ. */
  function RowMismatches(mapping: seq<FieldPair>, merged: Table, row: Row, mace: Table, xrow: Row, parse: NumberParser): seq<string>
    requires |row| == |merged.columns| && |xrow| == |mace.columns|
  {
    Mismatches(mapping, merged.columns, row, mace.columns, xrow, parse)
  }

  /** Some candidate agrees with `row` on every mapped field, found by
      scanning the candidates from the first. */
  predicate HasExactMatch(mapping: seq<FieldPair>, merged: Table, row: Row, mace: Table, cands: seq<Row>, parse: NumberParser)
    requires |row| == |merged.columns|
    requires forall m :: 0 <= m < |cands| ==> |cands[m]| == |mace.columns|
  {
    cands != []
    && (RowMismatches(mapping, merged, row, mace, cands[0], parse) == []
        || HasExactMatch(mapping, merged, row, mace, cands[1..], parse))
  }

  /** The scan finds an agreeing candidate exactly when there is one. */
  lemma {:induction false} HasExactMatchIff(mapping: seq<FieldPair>, merged: Table, row: Row, mace: Table, cands: seq<Row>, parse: NumberParser)
    requires |row| == |merged.columns|
    requires forall m :: 0 <= m < |cands| ==> |cands[m]| == |mace.columns|
    ensures HasExactMatch(mapping, merged, row, mace, cands, parse) <==>
      exists m :: 0 <= m < |cands| && RowMismatches(mapping, merged, row, mace, cands[m], parse) == []
  {
    if cands != [] {
      var rest := cands[1..];
      HasExactMatchIff(mapping, merged, row, mace, rest, parse);
      if HasExactMatch(mapping, merged, row, mace, rest, parse) {
        var m :| 0 <= m < |rest| && RowMismatches(mapping, merged, row, mace, rest[m], parse) == [];
        assert rest[m] == cands[m + 1];
      }
      if exists m :: 0 <= m < |cands| && RowMismatches(mapping, merged, row, mace, cands[m], parse) == [] {
        var m :| 0 <= m < |cands| && RowMismatches(mapping, merged, row, mace, cands[m], parse) == [];
        if m > 0 {
          assert cands[m] == rest[m - 1];
        }
      }
    }
  }

  /** What lines 145-195 do with one merged row: None when it is not
      reported, otherwise the reason it is reported with. */
  function Verdict(mapping: seq<FieldPair>, merged: Table, mace: Table, row: Row, parse: NumberParser): (v: Option<string>)
    requires Comparable(merged, mace) && |row| == |merged.columns|
    ensures var cust := CustomerOf(merged, row);
      var cands := Candidates(mace, cust);
      && (cust !in MaceKeys(mace) ==> v == Some(NotInMace))
      && (v.None? <==>
            cust in MaceKeys(mace)
            && exists m :: 0 <= m < |cands| && RowMismatches(mapping, merged, row, mace, cands[m], parse) == [])
  {
    var cust := CustomerOf(merged, row);
    HasExactMatchIff(mapping, merged, row, mace, Candidates(mace, cust), parse);
    if cust !in MaceKeys(mace) then Some(NotInMace)
    else
      var cands := Candidates(mace, cust);
      if HasExactMatch(mapping, merged, row, mace, cands, parse) then None
      else if cands == [] then Some(GenericMismatch)
      else Some(Join(RowMismatches(mapping, merged, row, mace, cands[0], parse), ", "))
  }

  /** The rows of `rows` that are reported, each with its reason, in order:
      at most one entry per row, each carrying its row's verdict. */
  function Report(mapping: seq<FieldPair>, merged: Table, mace: Table, rows: seq<Row>, parse: NumberParser): (r: seq<Flagged>)
    requires Comparable(merged, mace)
    requires forall k :: 0 <= k < |rows| ==> |rows[k]| == |merged.columns|
    ensures |r| <= |rows|
    ensures forall p :: 0 <= p < |r| ==>
      |r[p].row| == |merged.columns| && Verdict(mapping, merged, mace, r[p].row, parse) == Some(r[p].reason)
  {
    if rows == [] then []
    else Report(mapping, merged, mace, rows[..|rows| - 1], parse) + Entry(mapping, merged, mace, rows[|rows| - 1], parse)
  }

  /** What one row adds to the report: nothing when it is not reported,
      otherwise the row with its reason. */
  function Entry(mapping: seq<FieldPair>, merged: Table, mace: Table, row: Row, parse: NumberParser): (e: seq<Flagged>)
    requires Comparable(merged, mace) && |row| == |merged.columns|
    ensures |e| <= 1 && (e == [] <==> Verdict(mapping, merged, mace, row, parse).None?)
    ensures forall p :: 0 <= p < |e| ==> e[p].row == row && Verdict(mapping, merged, mace, row, parse) == Some(e[p].reason)
  {
    match Verdict(mapping, merged, mace, row, parse)
    case None => []
    case Some(reason) => [Flagged(row, reason)]
  }

  // ---------------------------------------------------------------- the loops

  /** One turn of the field loop (lines 162-182): whether the pair `f` is
      recorded as a mismatch between `row` and the MACE row `xrow`. */
  method CompareField(mcols: seq<string>, row: Row, xcols: seq<string>, xrow: Row, f: FieldPair, parse: NumberParser)
    returns (differs: bool)
    requires |row| == |mcols| && |xrow| == |xcols|
    ensures differs == FieldDiffers(mcols, row, xcols, xrow, f, parse)
  {
    differs := false;
    if f.merged in mcols && f.mace in xcols {
      var valMerged := Strip(Cell(mcols, row, f.merged));
      var valMace := Strip(Cell(xcols, xrow, f.mace));
      if !(valMerged == "" || valMace == ""
           || EqualsIgnoreCase(valMerged, "not found") || EqualsIgnoreCase(valMace, "not found")) {
        match (parse(valMerged), parse(valMace)) {
          case (Some(x), Some(y)) =>
            differs := x.NaN? || y.NaN? || x != y;
          case _ =>
            differs := valMerged != valMace;
        }
      }
    }
  }

  /** The field loop of lines 161-182 for one candidate. */
  method CompareMapped(mapping: seq<FieldPair>, merged: Table, row: Row, mace: Table, xrow: Row, parse: NumberParser)
    returns (current: seq<string>)
    requires |row| == |merged.columns| && |xrow| == |mace.columns|
    ensures current == RowMismatches(mapping, merged, row, mace, xrow, parse)
  {
    current := [];
    for j := 0 to |mapping|
      invariant current == Mismatches(mapping[..j], merged.columns, row, mace.columns, xrow, parse)
    {
      var f := mapping[j];
      var differs := CompareField(merged.columns, row, mace.columns, xrow, f, parse);
      if differs {
        current := current + [f.merged];
      }
      assert mapping[..j + 1][..j] == mapping[..j];
    }
    assert mapping[..|mapping|] == mapping;
  }

  /** Scanning the candidates from the `c`-th: that one agrees, or a later one does. */
  lemma HasExactMatchFrom(mapping: seq<FieldPair>, merged: Table, row: Row, mace: Table, cands: seq<Row>, c: nat,
                          parse: NumberParser)
    requires |row| == |merged.columns|
    requires forall m :: 0 <= m < |cands| ==> |cands[m]| == |mace.columns|
    requires c < |cands|
    ensures HasExactMatch(mapping, merged, row, mace, cands[c..], parse) <==>
      RowMismatches(mapping, merged, row, mace, cands[c], parse) == []
      || HasExactMatch(mapping, merged, row, mace, cands[c + 1..], parse)
  {
    assert cands[c..][0] == cands[c];
    assert cands[c..][1..] == cands[c + 1..];
  }

  /** The candidate loop of lines 155-191: stop at the first candidate with no
      mismatch, and otherwise remember the first candidate's mismatches. */
  method ScanCandidates(mapping: seq<FieldPair>, merged: Table, row: Row, mace: Table, cands: seq<Row>, parse: NumberParser)
    returns (foundMatch: bool, mismatchCols: seq<string>)
    requires |row| == |merged.columns|
    requires forall m :: 0 <= m < |cands| ==> |cands[m]| == |mace.columns|
    ensures foundMatch <==> HasExactMatch(mapping, merged, row, mace, cands, parse)
    ensures !foundMatch ==>
      mismatchCols == if cands == [] then [] else RowMismatches(mapping, merged, row, mace, cands[0], parse)
  {
    foundMatch := false;
    mismatchCols := [];
    var c := 0;
    while c < |cands|
      invariant 0 <= c <= |cands| && !foundMatch
      invariant HasExactMatch(mapping, merged, row, mace, cands, parse) == HasExactMatch(mapping, merged, row, mace, cands[c..], parse)
      invariant mismatchCols == if c == 0 then [] else RowMismatches(mapping, merged, row, mace, cands[0], parse)
      invariant c > 0 ==> mismatchCols != []
    {
      var current := CompareMapped(mapping, merged, row, mace, cands[c], parse);
      HasExactMatchFrom(mapping, merged, row, mace, cands, c, parse);
      if current == [] {
        foundMatch := true;
        break;
      }
      if mismatchCols == [] {
        mismatchCols := current;
      }
      c := c + 1;
    }
  }

  /** The body of the row loop, lines 140-195, for one merged row: whether
      it is reported, and with which reason. `maceCustomers` is the set of
      stripped MACE keys. */
  method CheckRow(merged: Table, mace: Table, maceCustomers: set<string>, row: Row, parse: NumberParser)
    returns (report: bool, reason: string)
    requires Comparable(merged, mace) && |row| == |merged.columns|
    requires maceCustomers == MaceKeys(mace)
    ensures Entry(ColumnMapping, merged, mace, row, parse) == if report then [Flagged(row, reason)] else []
  {
    var custId := Strip(Cell(merged.columns, row, CustomerColumn));
    if custId !in maceCustomers {
      return true, NotInMace;
    }
    var matching := Candidates(mace, custId);
    var foundMatch, mismatchCols := ScanCandidates(ColumnMapping, merged, row, mace, matching, parse);
    report := !foundMatch;
    reason := if mismatchCols != [] then Join(mismatchCols, ", ") else GenericMismatch;
  }

  /** The row loop of lines 139-195: `merged_not_in_mace` and `mismatch_reason`. */
  method ReconcileWithMace(merged: Table, mace: Table, parse: NumberParser)
    returns (flagged: seq<Row>, reasons: seq<string>)
    requires Comparable(merged, mace)
    ensures |flagged| == |reasons|
    ensures Zip(flagged, reasons) == Report(ColumnMapping, merged, mace, merged.rows, parse)
  {
    var maceCustomers := MaceKeys(mace);
    flagged, reasons := [], [];
    for i := 0 to |merged.rows|
      invariant |flagged| == |reasons|
      invariant Zip(flagged, reasons) == Report(ColumnMapping, merged, mace, merged.rows[..i], parse)
    {
      var row := merged.rows[i];
      ReportStep(ColumnMapping, merged, mace, merged.rows, i, parse);
      var report, reason := CheckRow(merged, mace, maceCustomers, row, parse);
      if report {
        ZipAppend(flagged, reasons, row, reason);
        flagged := flagged + [row];
        reasons := reasons + [reason];
      }
    }
    assert merged.rows[..|merged.rows|] == merged.rows;
  }

  /** One more row of the loop adds that row's entry. */
  lemma ReportStep(mapping: seq<FieldPair>, merged: Table, mace: Table, rows: seq<Row>, i: nat, parse: NumberParser)
    requires Comparable(merged, mace)
    requires forall k :: 0 <= k < |rows| ==> |rows[k]| == |merged.columns|
    requires i < |rows|
    ensures Report(mapping, merged, mace, rows[..i + 1], parse) ==
      Report(mapping, merged, mace, rows[..i], parse) + Entry(mapping, merged, mace, rows[i], parse)
  {
    assert rows[..i + 1][..i] == rows[..i];
  }

  // --------------------------------------------------------------- properties

  /** The report on a non-empty run of rows ends with the last row's entry. */
  lemma ReportLast(mapping: seq<FieldPair>, merged: Table, mace: Table, rows: seq<Row>, parse: NumberParser)
    requires Comparable(merged, mace)
    requires forall k :: 0 <= k < |rows| ==> |rows[k]| == |merged.columns|
    requires rows != []
    ensures Report(mapping, merged, mace, rows, parse) ==
      Report(mapping, merged, mace, rows[..|rows| - 1], parse) + Entry(mapping, merged, mace, rows[|rows| - 1], parse)
  {
  }

  /** Every merged row is reported at most once, in merged order: the report
      of two runs of rows is the two reports one after the other, and one row
      is reported exactly when its verdict gives a reason. */
  lemma {:induction false} ReportAppend(mapping: seq<FieldPair>, merged: Table, mace: Table, a: seq<Row>, b: seq<Row>, parse: NumberParser)
    requires Comparable(merged, mace)
    requires forall k :: 0 <= k < |a| ==> |a[k]| == |merged.columns|
    requires forall k :: 0 <= k < |b| ==> |b[k]| == |merged.columns|
    ensures Report(mapping, merged, mace, a + b, parse) == Report(mapping, merged, mace, a, parse) + Report(mapping, merged, mace, b, parse)
    decreases |b|
  {
    if b == [] {
      assert a + b == a;
    } else {
      var b' := b[..|b| - 1];
      AppendInit(a, b);
      ReportLast(mapping, merged, mace, a + b, parse);
      ReportLast(mapping, merged, mace, b, parse);
      ReportAppend(mapping, merged, mace, a, b', parse);
      AppendAssoc(Report(mapping, merged, mace, a, parse), Report(mapping, merged, mace, b', parse),
                  Entry(mapping, merged, mace, b[|b| - 1], parse));
    }
  }

  lemma ReportSingle(mapping: seq<FieldPair>, merged: Table, mace: Table, row: Row, parse: NumberParser)
    requires Comparable(merged, mace) && |row| == |merged.columns|
    ensures Report(mapping, merged, mace, [row], parse) ==
      match Verdict(mapping, merged, mace, row, parse)
      case None => []
      case Some(reason) => [Flagged(row, reason)]
  {
    assert [row][..0] == [];
  }

  /** A row whose key is not a MACE key is reported once, as not found, and
      no field is compared. */
  lemma NotFoundReported(mapping: seq<FieldPair>, merged: Table, mace: Table, row: Row, parse: NumberParser)
    requires Comparable(merged, mace) && |row| == |merged.columns|
    requires CustomerOf(merged, row) !in MaceKeys(mace)
    ensures Report(mapping, merged, mace, [row], parse) == [Flagged(row, NotInMace)]
  {
    ReportSingle(mapping, merged, mace, row, parse);
  }

  /** One exactly matching MACE row suppresses the merged row, wherever it
      stands among the candidates. */
  lemma ExactMatchSuppresses(mapping: seq<FieldPair>, merged: Table, mace: Table, row: Row, xrow: Row, parse: NumberParser)
    requires Comparable(merged, mace) && |row| == |merged.columns|
    requires xrow in mace.rows && Cell(mace.columns, xrow, NaturalId) == CustomerOf(merged, row)
    requires RowMismatches(mapping, merged, row, mace, xrow, parse) == []
    ensures Verdict(mapping, merged, mace, row, parse) == None
    ensures Report(mapping, merged, mace, [row], parse) == []
  {
    var cust := CustomerOf(merged, row);
    var idx := IndexOf(mace.columns, NaturalId);
    StripIdempotent(xrow[idx]);
    StrippedKeySetMembers(mace.rows, idx, cust);
    assert cust in MaceKeys(mace);
    var cands := Candidates(mace, cust);
    CandidatesMembers(mace, cust, xrow);
    var m :| 0 <= m < |cands| && cands[m] == xrow;
    HasExactMatchIff(mapping, merged, row, mace, cands, parse);
    ReportSingle(mapping, merged, mace, row, parse);
  }

  /** With no exactly matching candidate, the reason lists the mismatches of
      the first candidate, in mapping order, joined by ", ". */
  lemma FirstCandidateReason(mapping: seq<FieldPair>, merged: Table, mace: Table, row: Row, parse: NumberParser)
    requires Comparable(merged, mace) && |row| == |merged.columns|
    requires CustomerOf(merged, row) in MaceKeys(mace)
    requires var cands := Candidates(mace, CustomerOf(merged, row));
      cands != [] && !HasExactMatch(mapping, merged, row, mace, cands, parse)
    ensures var cands := Candidates(mace, CustomerOf(merged, row));
      && RowMismatches(mapping, merged, row, mace, cands[0], parse) != []
      && Verdict(mapping, merged, mace, row, parse) == Some(Join(RowMismatches(mapping, merged, row, mace, cands[0], parse), ", "))
  {
    var cands := Candidates(mace, CustomerOf(merged, row));
    assert !(RowMismatches(mapping, merged, row, mace, cands[0], parse) == []);
  }

  /** The numeric stage only forgives, except for NaN: values that differ
      are different texts unless they read as NaN, and a text differs from
      itself exactly when it reads as NaN. */
  lemma ValuesDifferOnlyIfTextsDiffer(a: string, b: string, parse: NumberParser)
    ensures ValuesDiffer(a, b, parse) ==> a != b || parse(a) == Some(NaN)
    ensures ValuesDiffer(a, a, parse) <==> parse(a) == Some(NaN)
  {
  }

  /** "10" and "10.0" agree when both read as the same number; "10" and "11"
      differ when they read as different numbers or as none. */
  lemma NumericEquivalence(parse: NumberParser)
    requires parse("10") == Some(Finite(10.0)) && parse("10.0") == Some(Finite(10.0))
    requires parse("11") != Some(Finite(10.0))
    ensures !ValuesDiffer("10", "10.0", parse)
    ensures ValuesDiffer("10", "11", parse)
  {
  }

  /** No two entries of `mapping` share a merged-side name (a dictionary's keys). */
  predicate DistinctNames(mapping: seq<FieldPair>) {
    forall p, q :: 0 <= p < q < |mapping| ==> mapping[p].merged != mapping[q].merged
  }

  /** A short fingerprint of a name: its length and last character. */
  function NameSignature(n: string): (int, char) {
    if n == [] then (0, ' ') else (|n|, n[|n| - 1])
  }

  /** The script's mapping has distinct merged-side names, and pairs the
      key column with the MACE key column. */
  lemma ColumnMappingShape()
    ensures DistinctNames(ColumnMapping)
    ensures FieldPair(CustomerColumn, NaturalId) in ColumnMapping
  {
    var m := ColumnMapping;
    assert forall p, q :: 0 <= p < q < |m| ==> NameSignature(m[p].merged) != NameSignature(m[q].merged);
    assert m[0] == FieldPair(CustomerColumn, NaturalId);
  }

  /** With distinct names, the only entry that can list `f.merged` is `f`. */
  lemma ListedOnlyBy(mapping: seq<FieldPair>, merged: Table, row: Row, mace: Table, xrow: Row, f: FieldPair, parse: NumberParser)
    requires |row| == |merged.columns| && |xrow| == |mace.columns|
    requires DistinctNames(mapping) && f in mapping
    ensures f.merged in RowMismatches(mapping, merged, row, mace, xrow, parse) <==>
      FieldDiffers(merged.columns, row, mace.columns, xrow, f, parse)
  {
    MismatchesListed(mapping, merged.columns, row, mace.columns, xrow, parse, f.merged);
    if f.merged in RowMismatches(mapping, merged, row, mace, xrow, parse) {
      var g :| g in mapping && g.merged == f.merged && FieldDiffers(merged.columns, row, mace.columns, xrow, g, parse);
      var p :| 0 <= p < |mapping| && mapping[p] == f;
      var q :| 0 <= q < |mapping| && mapping[q] == g;
      assert p == q;
    }
  }

  /** The skip rule: a pair with a missing column, or with an empty or
      "not found" value on either side, never contributes to the reason. */
  lemma SkippedFieldNeverListed(mapping: seq<FieldPair>, merged: Table, row: Row, mace: Table, xrow: Row, f: FieldPair, parse: NumberParser)
    requires |row| == |merged.columns| && |xrow| == |mace.columns|
    requires DistinctNames(mapping) && f in mapping
    requires || f.merged !in merged.columns || f.mace !in mace.columns
             || Ignored(Strip(Cell(merged.columns, row, f.merged)))
             || Ignored(Strip(Cell(mace.columns, xrow, f.mace)))
    ensures f.merged !in RowMismatches(mapping, merged, row, mace, xrow, parse)
  {
    ListedOnlyBy(mapping, merged, row, mace, xrow, f, parse);
  }

  /** A present, unskipped pair is listed exactly when its values differ:
      as numbers when both parse, as text otherwise. */
  lemma ComparedFieldListed(mapping: seq<FieldPair>, merged: Table, row: Row, mace: Table, xrow: Row, f: FieldPair, parse: NumberParser)
    requires |row| == |merged.columns| && |xrow| == |mace.columns|
    requires DistinctNames(mapping) && f in mapping && f.merged in merged.columns && f.mace in mace.columns
    requires !Ignored(Strip(Cell(merged.columns, row, f.merged)))
    requires !Ignored(Strip(Cell(mace.columns, xrow, f.mace)))
    ensures var a := Strip(Cell(merged.columns, row, f.merged));
      var b := Strip(Cell(mace.columns, xrow, f.mace));
      f.merged in RowMismatches(mapping, merged, row, mace, xrow, parse) <==>
        if parse(a).Some? && parse(b).Some? then FloatDiffers(parse(a).value, parse(b).value) else a != b
  {
    ListedOnlyBy(mapping, merged, row, mace, xrow, f, parse);
  }

  /** The key field appears in a reason only through NaN: a candidate
      carries the merged row's key exactly, so "Customer" is listed exactly
      when that key is not skipped and reads as NaN (such as "NAN"), which
      Python's `!=` finds different from itself. */
  lemma KeyFieldListedOnlyIfNan(mapping: seq<FieldPair>, merged: Table, mace: Table, row: Row, xrow: Row, parse: NumberParser)
    requires Comparable(merged, mace) && |row| == |merged.columns|
    requires DistinctNames(mapping) && FieldPair(CustomerColumn, NaturalId) in mapping
    requires xrow in Candidates(mace, CustomerOf(merged, row))
    ensures CustomerColumn in RowMismatches(mapping, merged, row, mace, xrow, parse) <==>
      !Ignored(CustomerOf(merged, row)) && parse(CustomerOf(merged, row)) == Some(NaN)
  {
    var cust := CustomerOf(merged, row);
    StripIdempotent(Cell(merged.columns, row, CustomerColumn));
    CandidatesMembers(mace, cust, xrow);
    assert Strip(Cell(mace.columns, xrow, NaturalId)) == cust;
    ValuesDifferOnlyIfTextsDiffer(cust, cust, parse);
    ListedOnlyBy(mapping, merged, row, mace, xrow, FieldPair(CustomerColumn, NaturalId), parse);
  }

  /** On a cleaned MACE sheet every MACE key is carried exactly by some MACE
      row, so the generic "Mismatch" reason (no candidate at all) is never
      chosen. */
  lemma CleanedKeysHaveCandidates(mace: Table, cust: string)
    requires Rectangular(mace) && NaturalId in mace.columns && AllClean(mace)
    requires cust in MaceKeys(mace)
    ensures Candidates(mace, cust) != []
  {
    var idx := IndexOf(mace.columns, NaturalId);
    StrippedKeySetMembers(mace.rows, idx, cust);
    var xrow :| xrow in mace.rows && Strip(xrow[idx]) == cust;
    var k :| 0 <= k < |mace.rows| && mace.rows[k] == xrow;
    assert IsClean(mace.rows[k][idx]);
    CleanIsStripped(xrow[idx]);
    CandidatesMembers(mace, cust, xrow);
  }

  /** No merged-side name of the script's mapping starts with 'M'. */
  lemma MappingNamesStart(f: FieldPair)
    requires f in ColumnMapping
    ensures f.merged != [] && f.merged[0] != 'M'
  {
  }

  /** With the script's mapping, a list of differing fields, joined, is never
      the generic "Mismatch": it starts with a mapped name. */
  lemma MappedReason(merged: Table, row: Row, mace: Table, xrow: Row, parse: NumberParser)
    requires |row| == |merged.columns| && |xrow| == |mace.columns|
    requires RowMismatches(ColumnMapping, merged, row, mace, xrow, parse) != []
    ensures Join(RowMismatches(ColumnMapping, merged, row, mace, xrow, parse), ", ") != GenericMismatch
  {
    var ms := RowMismatches(ColumnMapping, merged, row, mace, xrow, parse);
    MismatchesListed(ColumnMapping, merged.columns, row, mace.columns, xrow, parse, ms[0]);
    var f :| f in ColumnMapping && f.merged == ms[0] && FieldDiffers(merged.columns, row, mace.columns, xrow, f, parse);
    MappingNamesStart(f);
    assert Join(ms, ", ")[0] != GenericMismatch[0];
  }

  /** With the script's mapping and a cleaned MACE sheet, the reason is never
      the generic "Mismatch": some candidate always exists, and a list of
      mapped names never spells it. */
  lemma CleanedNeverGenericMismatch(merged: Table, mace: Table, row: Row, parse: NumberParser)
    requires Comparable(merged, mace) && |row| == |merged.columns| && AllClean(mace)
    ensures Verdict(ColumnMapping, merged, mace, row, parse) != Some(GenericMismatch)
  {
    var cust := CustomerOf(merged, row);
    if cust in MaceKeys(mace) {
      CleanedKeysHaveCandidates(mace, cust);
      var cands := Candidates(mace, cust);
      if !HasExactMatch(ColumnMapping, merged, row, mace, cands, parse) {
        MappedReason(merged, row, mace, cands[0], parse);
      }
    }
  }

  /** On a MACE sheet that is not cleaned the generic reason is reachable: a
      merged row with an empty customer meets a MACE key cell holding one
      space, which strips to the empty key, yet the exact lookup finds no
      MACE row for it. */
  lemma UncleanKeyGivesGenericMismatch(parse: NumberParser)
    ensures var merged := Table([CustomerColumn], [[""]]);
      var mace := Table([NaturalId], [[" "]]);
      && Comparable(merged, mace)
      && Verdict(ColumnMapping, merged, mace, [""], parse) == Some(GenericMismatch)
  {
    var mace := Table([NaturalId], [[" "]]);
    SpaceIsSpace();
    assert " "[1..] == "";
    assert Strip(" ") == "";
    StrippedKeySetMembers(mace.rows, 0, "");
    assert "" in MaceKeys(mace);
    assert Candidates(mace, "") == [];
  }

  /** Whether a row is suppressed does not depend on the order of the MACE
      rows; only the choice of reason does. */
  lemma SuppressionIgnoresMaceOrder(mapping: seq<FieldPair>, merged: Table, mace: Table, mace': Table, row: Row, parse: NumberParser)
    requires Comparable(merged, mace) && |row| == |merged.columns|
    requires mace'.columns == mace.columns && multiset(mace'.rows) == multiset(mace.rows)
    ensures Comparable(merged, mace')
    ensures Verdict(mapping, merged, mace, row, parse).None? <==> Verdict(mapping, merged, mace', row, parse).None?
  {
    SameRowsReordered(mace, mace');
    var cust := CustomerOf(merged, row);
    MaceKeysReordered(mace, mace', cust);
    var c := Candidates(mace, cust);
    var c' := Candidates(mace', cust);
    forall r ensures r in c <==> r in c' {
      CandidatesMembers(mace, cust, r);
      CandidatesMembers(mace', cust, r);
    }
    ExactMatchReordered(mapping, merged, row, mace, mace', c, c', parse);
  }

  /** Reordering the MACE rows keeps the same rows, and so a rectangular sheet. */
  lemma SameRowsReordered(mace: Table, mace': Table)
    requires Rectangular(mace)
    requires mace'.columns == mace.columns && multiset(mace'.rows) == multiset(mace.rows)
    ensures Rectangular(mace')
    ensures forall r :: r in mace.rows <==> r in mace'.rows
  {
    forall r ensures r in mace.rows <==> r in mace'.rows {
      assert r in mace.rows <==> r in multiset(mace.rows);
      assert r in mace'.rows <==> r in multiset(mace'.rows);
    }
    forall k | 0 <= k < |mace'.rows| ensures |mace'.rows[k]| == |mace'.columns| {
      assert mace'.rows[k] in mace.rows;
    }
  }

  /** Two MACE sheets with the same columns and the same rows have the same
      stripped keys. */
  lemma MaceKeysReordered(mace: Table, mace': Table, key: string)
    requires Rectangular(mace) && Rectangular(mace') && NaturalId in mace.columns
    requires mace'.columns == mace.columns && forall r :: r in mace.rows <==> r in mace'.rows
    ensures key in MaceKeys(mace) <==> key in MaceKeys(mace')
  {
    var idx := IndexOf(mace.columns, NaturalId);
    StrippedKeySetMembers(mace.rows, idx, key);
    StrippedKeySetMembers(mace'.rows, idx, key);
  }

  /** Two candidate lists holding the same rows, in any order and number,
      from two MACE sheets with the same columns, both have an agreeing
      candidate or both lack one. */
  lemma ExactMatchReordered(mapping: seq<FieldPair>, merged: Table, row: Row, mace: Table, mace': Table,
                            c: seq<Row>, c': seq<Row>, parse: NumberParser)
    requires |row| == |merged.columns| && mace'.columns == mace.columns
    requires forall m :: 0 <= m < |c| ==> |c[m]| == |mace.columns|
    requires forall m :: 0 <= m < |c'| ==> |c'[m]| == |mace.columns|
    requires forall r :: r in c <==> r in c'
    ensures HasExactMatch(mapping, merged, row, mace, c, parse) <==> HasExactMatch(mapping, merged, row, mace', c', parse)
  {
    HasExactMatchIff(mapping, merged, row, mace, c, parse);
    HasExactMatchIff(mapping, merged, row, mace', c', parse);
    if HasExactMatch(mapping, merged, row, mace, c, parse) {
      var m :| 0 <= m < |c| && RowMismatches(mapping, merged, row, mace, c[m], parse) == [];
      assert c[m] in c';
      var m' :| 0 <= m' < |c'| && c'[m'] == c[m];
      assert RowMismatches(mapping, merged, row, mace', c'[m'], parse) == [];
    }
    if HasExactMatch(mapping, merged, row, mace', c', parse) {
      var m' :| 0 <= m' < |c'| && RowMismatches(mapping, merged, row, mace', c'[m'], parse) == [];
      assert c'[m'] in c;
      var m :| 0 <= m < |c| && c[m] == c'[m'];
      assert RowMismatches(mapping, merged, row, mace, c[m], parse) == [];
    }
  }

  // ------------------------------------------------- MACE rows not in merged

  /** Lines 203-205: the MACE rows whose key cell is among the stripped MACE
      keys and not among the stripped merged keys. Rows with an empty key are
      not dropped first, unlike the KNA1 vs KNVV comparison. */
  function MaceOnly(merged: Table, mace: Table): (r: seq<Row>)
    requires Comparable(merged, mace)
    ensures |r| <= |mace.rows|
    ensures var idx := IndexOf(mace.columns, NaturalId);
      var cdx := IndexOf(merged.columns, CustomerColumn);
      forall m :: 0 <= m < |r| ==>
        r[m] in mace.rows && r[m][idx] in StrippedKeySet(mace.rows, idx) && r[m][idx] !in StrippedKeySet(merged.rows, cdx)
  {
    var idx := IndexOf(mace.columns, NaturalId);
    var cdx := IndexOf(merged.columns, CustomerColumn);
    KeyIn(mace.rows, idx, StrippedKeySet(mace.rows, idx) - StrippedKeySet(merged.rows, cdx))
  }

  /** On cleaned sheets a MACE row is listed exactly when no merged row has
      its key; an empty key counts like any other. */
  lemma MaceOnlyOfCleaned(merged: Table, mace: Table, xrow: Row)
    requires Comparable(merged, mace) && AllClean(merged) && AllClean(mace)
    ensures var idx := IndexOf(mace.columns, NaturalId);
      var cdx := IndexOf(merged.columns, CustomerColumn);
      xrow in MaceOnly(merged, mace) <==>
        xrow in mace.rows && xrow[idx] !in KeySet(merged.rows, cdx)
  {
    var idx := IndexOf(mace.columns, NaturalId);
    var cdx := IndexOf(merged.columns, CustomerColumn);
    StrippedKeySetOfClean(mace.rows, idx);
    StrippedKeySetOfClean(merged.rows, cdx);
    KeyInMembers(mace.rows, idx, StrippedKeySet(mace.rows, idx) - StrippedKeySet(merged.rows, cdx), xrow);
    if xrow in mace.rows {
      assert xrow[idx] in KeySet(mace.rows, idx);
    }
  }

  /** A MACE row listed as missing from the merged sheet has a key no merged
      row has, and a merged row's key is never listed. */
  lemma MaceOnlyDisjointFromMerged(merged: Table, mace: Table, xrow: Row, row: Row)
    requires Comparable(merged, mace) && AllClean(merged) && AllClean(mace)
    requires xrow in MaceOnly(merged, mace) && row in merged.rows
    ensures Cell(mace.columns, xrow, NaturalId) != Cell(merged.columns, row, CustomerColumn)
  {
    MaceOnlyOfCleaned(merged, mace, xrow);
  }
}
