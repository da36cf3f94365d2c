/** The KNA1 vs KNVV comparison: which customers one sheet has and the other
    lacks (a set difference of key values), and the left merge of the two
    sheets on the customer column. */
module KeyDifference {
  import opened Text
  import opened Tables

  /** The rows of each side whose customer the other side lacks. */
  datatype DiffResult = DiffResult(leftOnly: seq<Row>, rightOnly: seq<Row>)

  /** The non-empty values of the key column at `i`. */
  function Keys(rows: seq<Row>, i: nat): (s: set<string>)
    requires HasPosition(rows, i)
    ensures forall key :: key in s <==> key != "" && exists row :: row in rows && row[i] == key
  {
    forall row | row in rows {
      NonEmptyKeyMembers(rows, i, row);
    }
    KeySet(NonEmptyKey(rows, i), i)
  }

  /** Lines 49-58 of the script: drop the rows with an empty key on each side,
      collect each side's key set, and keep on each side the rows whose key is
      in its own set minus the other's. */
  function DiffByKey(a: seq<Row>, ia: nat, b: seq<Row>, ib: nat): (d: DiffResult)
    requires HasPosition(a, ia) && HasPosition(b, ib)
    ensures HasPosition(d.leftOnly, ia) && |d.leftOnly| <= |a|
    ensures HasPosition(d.rightOnly, ib) && |d.rightOnly| <= |b|
    ensures forall m :: 0 <= m < |d.leftOnly| ==>
      d.leftOnly[m] in a && d.leftOnly[m][ia] != "" && d.leftOnly[m][ia] !in Keys(b, ib)
    ensures forall m :: 0 <= m < |d.rightOnly| ==>
      d.rightOnly[m] in b && d.rightOnly[m][ib] != "" && d.rightOnly[m][ib] !in Keys(a, ia)
  {
    var ca := NonEmptyKey(a, ia);
    var cb := NonEmptyKey(b, ib);
    var sa := KeySet(ca, ia);
    var sb := KeySet(cb, ib);
    DiffResult(KeyIn(ca, ia, sa - sb), KeyIn(cb, ib, sb - sa))
  }

  /** The left-only rows are exactly the rows of `a` with a non-empty key that
      `b` does not have. */
  lemma DiffLeftOnly(a: seq<Row>, ia: nat, b: seq<Row>, ib: nat, row: Row)
    requires HasPosition(a, ia) && HasPosition(b, ib)
    ensures row in DiffByKey(a, ia, b, ib).leftOnly <==>
      row in a && row[ia] != "" && row[ia] !in Keys(b, ib)
  {
    var ca := NonEmptyKey(a, ia);
    KeyInMembers(ca, ia, KeySet(ca, ia) - KeySet(NonEmptyKey(b, ib), ib), row);
    if row in a && row[ia] != "" && row[ia] !in Keys(b, ib) {
      NonEmptyKeyMembers(a, ia, row);
      assert row[ia] in KeySet(ca, ia);
    }
  }

  /** Comparing the other way round swaps the two results. */
  lemma DiffSymmetric(a: seq<Row>, ia: nat, b: seq<Row>, ib: nat)
    requires HasPosition(a, ia) && HasPosition(b, ib)
    ensures DiffByKey(b, ib, a, ia).leftOnly == DiffByKey(a, ia, b, ib).rightOnly
    ensures DiffByKey(b, ib, a, ia).rightOnly == DiffByKey(a, ia, b, ib).leftOnly
  {
  }

  /** The right-only rows are exactly the rows of `b` with a non-empty key
      that `a` does not have. */
  lemma DiffRightOnly(a: seq<Row>, ia: nat, b: seq<Row>, ib: nat, row: Row)
    requires HasPosition(a, ia) && HasPosition(b, ib)
    ensures row in DiffByKey(a, ia, b, ib).rightOnly <==>
      row in b && row[ib] != "" && row[ib] !in Keys(a, ia)
  {
    DiffSymmetric(a, ia, b, ib);
    DiffLeftOnly(b, ib, a, ia, row);
  }

  /** No customer is reported on both sides. */
  lemma DiffKeysDisjoint(a: seq<Row>, ia: nat, b: seq<Row>, ib: nat)
    requires HasPosition(a, ia) && HasPosition(b, ib)
    ensures var d := DiffByKey(a, ia, b, ib);
      KeySet(d.leftOnly, ia) !! KeySet(d.rightOnly, ib)
  {
  }

  /** A customer on exactly one side is reported on that side only; a
      customer on both sides is reported on neither. */
  lemma DiffComplete(a: seq<Row>, ia: nat, b: seq<Row>, ib: nat, key: string)
    requires HasPosition(a, ia) && HasPosition(b, ib)
    ensures var d := DiffByKey(a, ia, b, ib);
      && (key in Keys(a, ia) && key !in Keys(b, ib) ==>
            key in KeySet(d.leftOnly, ia) && key !in KeySet(d.rightOnly, ib))
      && (key in Keys(b, ib) && key !in Keys(a, ia) ==>
            key in KeySet(d.rightOnly, ib) && key !in KeySet(d.leftOnly, ia))
      && (key in Keys(a, ia) && key in Keys(b, ib) ==>
            key !in KeySet(d.leftOnly, ia) && key !in KeySet(d.rightOnly, ib))
  {
    var d := DiffByKey(a, ia, b, ib);
    DiffKeysDisjoint(a, ia, b, ib);
    if key in Keys(a, ia) {
      var row :| row in a && row[ia] == key;
      DiffLeftOnly(a, ia, b, ib, row);
    }
    if key in Keys(b, ib) {
      var row :| row in b && row[ib] == key;
      DiffRightOnly(a, ia, b, ib, row);
    }
    if key in KeySet(d.leftOnly, ia) {
      var row :| row in d.leftOnly && row[ia] == key;
      DiffLeftOnly(a, ia, b, ib, row);
    }
    if key in KeySet(d.rightOnly, ib) {
      var row :| row in d.rightOnly && row[ib] == key;
      DiffRightOnly(a, ia, b, ib, row);
    }
  }

  // -------------------------------------------------------------- left merge

  /** A name the merge drops: one ending in `_KNVV`, which is also what every
      right-hand column whose name the left side already uses becomes. */
  predicate EndsWithKnvv(name: string) {
    |name| >= 5 && name[|name| - 5..] == "_KNVV"
  }

  /** Positions from `from` on of the left columns that survive the merge. */
  function LeftKept(columns: seq<string>, from: nat): (ps: seq<nat>)
    requires from <= |columns|
    ensures forall p :: 0 <= p < |ps| ==> from <= ps[p] < |columns| && !EndsWithKnvv(columns[ps[p]])
    ensures forall i :: from <= i < |columns| && !EndsWithKnvv(columns[i]) ==> i in ps
    decreases |columns| - from
  {
    if from == |columns| then []
    else (if !EndsWithKnvv(columns[from]) then [from] else []) + LeftKept(columns, from + 1)
  }

  /** Positions from `from` on of the right columns that survive the merge:
      those whose names the left side does not use and that do not end in
      `_KNVV`. */
  function RightKept(columns: seq<string>, left: seq<string>, from: nat): (ps: seq<nat>)
    requires from <= |columns|
    ensures forall p :: 0 <= p < |ps| ==>
      from <= ps[p] < |columns| && columns[ps[p]] !in left && !EndsWithKnvv(columns[ps[p]])
    ensures forall i :: from <= i < |columns| && columns[i] !in left && !EndsWithKnvv(columns[i]) ==> i in ps
    decreases |columns| - from
  {
    if from == |columns| then []
    else
      (if columns[from] !in left && !EndsWithKnvv(columns[from]) then [from] else [])
        + RightKept(columns, left, from + 1)
  }

  /** The rows one left row turns into: one per right row with the same key,
      in right-hand order, or a single row with empty right-hand cells when
      there is none. Each starts with the left row's kept cells. */
  function MergedRowsFor(l: Row, lp: seq<nat>, matches: seq<Row>, rp: seq<nat>, width: nat): (out: seq<Row>)
    requires forall p :: 0 <= p < |lp| ==> lp[p] < |l|
    requires forall p :: 0 <= p < |rp| ==> rp[p] < width
    requires forall m :: 0 <= m < |matches| ==> |matches[m]| == width
    ensures |out| == if matches == [] then 1 else |matches|
    ensures forall o :: 0 <= o < |out| ==> |out[o]| == |lp| + |rp| && out[o][..|lp|] == Project(l, lp)
    ensures matches != [] ==> forall o :: 0 <= o < |out| ==> out[o][|lp|..] == Project(matches[o], rp)
    ensures matches == [] ==> forall p :: |lp| <= p < |out[0]| ==> out[0][p] == ""
  {
    if matches == [] then
      [Project(l, lp) + Project(seq(width, _ => ""), rp)]
    else
      seq(|matches|, m requires 0 <= m < |matches| => Project(l, lp) + Project(matches[m], rp))
  }

  /** The number of rows a left join of `ls` gives: for each left row, one
      per right row carrying its key, or one when there is none. */
  function MergeCount(ls: seq<Row>, ia: nat, right: Table, ib: nat): (n: nat)
    requires HasPosition(ls, ia)
    requires Rectangular(right) && ib < |right.columns|
    ensures n >= |ls|
  {
    if ls == [] then 0
    else
      var c := |RowsWithKey(right.rows, ib, ls[|ls| - 1][ia])|;
      MergeCount(ls[..|ls| - 1], ia, right, ib) + (if c == 0 then 1 else c)
  }

  /** The merged rows of the left rows `ls`, in left-hand order: exactly as
      many as the join gives, each as wide as the kept columns. */
  function MergedRows(ls: seq<Row>, ia: nat, lp: seq<nat>, right: Table, ib: nat, rp: seq<nat>): (out: seq<Row>)
    requires forall k :: 0 <= k < |ls| ==> ia < |ls[k]| && forall p :: 0 <= p < |lp| ==> lp[p] < |ls[k]|
    requires Rectangular(right) && ib < |right.columns|
    requires forall p :: 0 <= p < |rp| ==> rp[p] < |right.columns|
    ensures |out| == MergeCount(ls, ia, right, ib)
    ensures forall o :: 0 <= o < |out| ==> |out[o]| == |lp| + |rp|
  {
    if ls == [] then []
    else
      var l := ls[|ls| - 1];
      var matches := RowsWithKey(right.rows, ib, l[ia]);
      MergedRows(ls[..|ls| - 1], ia, lp, right, ib, rp)
        + MergedRowsFor(l, lp, matches, rp, |right.columns|)
  }

  /** `out` is the left row `l` (its kept cells) joined with a right row
      carrying the same key (its kept cells), or, when no right row carries
      the key, with empty right-hand cells. */
  ghost predicate JoinedWith(out: Row, l: Row, ia: nat, lp: seq<nat>, right: Table, ib: nat, rp: seq<nat>)
    requires ia < |l| && forall p :: 0 <= p < |lp| ==> lp[p] < |l|
    requires Rectangular(right) && ib < |right.columns|
    requires forall p :: 0 <= p < |rp| ==> rp[p] < |right.columns|
  {
    |out| == |lp| + |rp| && out[..|lp|] == Project(l, lp)
    && ((exists k :: 0 <= k < |right.rows| && right.rows[k][ib] == l[ia]
                     && out[|lp|..] == Project(right.rows[k], rp))
        || (RowsWithKey(right.rows, ib, l[ia]) == []
            && forall p :: |lp| <= p < |out| ==> out[p] == ""))
  }

  /** Every merged row joins one of the left rows with a right row on the
      key, or with empty cells when that key has no right row. */
  lemma {:induction false} MergedRowsJoin(ls: seq<Row>, ia: nat, lp: seq<nat>, right: Table, ib: nat, rp: seq<nat>, o: nat)
    requires forall k :: 0 <= k < |ls| ==> ia < |ls[k]| && forall p :: 0 <= p < |lp| ==> lp[p] < |ls[k]|
    requires Rectangular(right) && ib < |right.columns|
    requires forall p :: 0 <= p < |rp| ==> rp[p] < |right.columns|
    requires o < |MergedRows(ls, ia, lp, right, ib, rp)|
    ensures exists k :: 0 <= k < |ls| && JoinedWith(MergedRows(ls, ia, lp, right, ib, rp)[o], ls[k], ia, lp, right, ib, rp)
  {
    var init, l := ls[..|ls| - 1], ls[|ls| - 1];
    var front := MergedRows(init, ia, lp, right, ib, rp);
    var matches := RowsWithKey(right.rows, ib, l[ia]);
    var back := MergedRowsFor(l, lp, matches, rp, |right.columns|);
    var out := MergedRows(ls, ia, lp, right, ib, rp);
    assert out == front + back;
    if o < |front| {
      MergedRowsJoin(init, ia, lp, right, ib, rp, o);
      var k :| 0 <= k < |init| && JoinedWith(front[o], init[k], ia, lp, right, ib, rp);
      assert init[k] == ls[k];
      assert out[o] == front[o];
    } else {
      var q := o - |front|;
      assert out[o] == back[q];
      if matches != [] {
        var r := matches[q];
        assert r in right.rows && r[ib] == l[ia];
        var k :| 0 <= k < |right.rows| && right.rows[k] == r;
        assert back[q][|lp|..] == Project(right.rows[k], rp);
      }
      assert JoinedWith(out[o], ls[|ls| - 1], ia, lp, right, ib, rp);
    }
  }

  /** Every pairing of a left row with a right row carrying its key is a
      merged row. */
  lemma {:induction false} MergedRowsComplete(ls: seq<Row>, ia: nat, lp: seq<nat>, right: Table, ib: nat, rp: seq<nat>, k: nat, r: Row)
    requires forall k :: 0 <= k < |ls| ==> ia < |ls[k]| && forall p :: 0 <= p < |lp| ==> lp[p] < |ls[k]|
    requires Rectangular(right) && ib < |right.columns|
    requires forall p :: 0 <= p < |rp| ==> rp[p] < |right.columns|
    requires k < |ls| && r in right.rows && r[ib] == ls[k][ia]
    ensures Project(ls[k], lp) + Project(r, rp) in MergedRows(ls, ia, lp, right, ib, rp)
  {
    var init, l := ls[..|ls| - 1], ls[|ls| - 1];
    var front := MergedRows(init, ia, lp, right, ib, rp);
    var matches := RowsWithKey(right.rows, ib, l[ia]);
    var back := MergedRowsFor(l, lp, matches, rp, |right.columns|);
    assert MergedRows(ls, ia, lp, right, ib, rp) == front + back;
    if k < |ls| - 1 {
      assert init[k] == ls[k];
      MergedRowsComplete(init, ia, lp, right, ib, rp, k, r);
    } else {
      RowsWithKeyMembers(right.rows, ib, l[ia], r);
      var m :| 0 <= m < |matches| && matches[m] == r;
      assert back[m] == back[m][..|lp|] + back[m][|lp|..];
    }
  }

  /** `pd.merge(left, right, how="left", left_on=.., right_on=.., suffixes=('', '_KNVV'))`
      followed by dropping every column whose name ends in `_KNVV`: the left
      join's rows, and no `_KNVV` column. */
  function LeftMerge(left: Table, ia: nat, right: Table, ib: nat): (m: Table)
    requires Rectangular(left) && Rectangular(right)
    requires ia < |left.columns| && ib < |right.columns|
    ensures Rectangular(m)
    ensures |m.rows| == MergeCount(left.rows, ia, right, ib)
    ensures forall j :: 0 <= j < |m.columns| ==> !EndsWithKnvv(m.columns[j])
  {
    var lp := LeftKept(left.columns, 0);
    var rp := RightKept(right.columns, left.columns, 0);
    Table(Project(left.columns, lp) + Project(right.columns, rp),
          MergedRows(left.rows, ia, lp, right, ib, rp))
  }

  /** The merged sheet's columns: the left ones not ending in `_KNVV`, then
      the right ones whose names the left side does not use and that do not
      end in `_KNVV`. */
  lemma LeftMergeColumns(left: Table, ia: nat, right: Table, ib: nat, name: string)
    requires Rectangular(left) && Rectangular(right)
    requires ia < |left.columns| && ib < |right.columns|
    ensures var m := LeftMerge(left, ia, right, ib);
      name in m.columns <==>
        (name in left.columns && !EndsWithKnvv(name))
        || (name in right.columns && name !in left.columns && !EndsWithKnvv(name))
  {
    var lp := LeftKept(left.columns, 0);
    var rp := RightKept(right.columns, left.columns, 0);
    var lc, rc := Project(left.columns, lp), Project(right.columns, rp);
    assert LeftMerge(left, ia, right, ib).columns == lc + rc;
    if name in lc {
      var p :| 0 <= p < |lc| && lc[p] == name;
    }
    if name in rc {
      var p :| 0 <= p < |rc| && rc[p] == name;
    }
    if name in left.columns && !EndsWithKnvv(name) {
      var i :| 0 <= i < |left.columns| && left.columns[i] == name;
      var p :| 0 <= p < |lp| && lp[p] == i;
      assert lc[p] == name;
    }
    if name in right.columns && name !in left.columns && !EndsWithKnvv(name) {
      var i :| 0 <= i < |right.columns| && right.columns[i] == name;
      var p :| 0 <= p < |rp| && rp[p] == i;
      assert rc[p] == name;
    }
  }

  /** The merged sheet's rows are the left join on the key: each joins a
      left row with a right row carrying its key (or with empty cells when
      there is none), and every such pairing is present. */
  lemma LeftMergeRows(left: Table, ia: nat, right: Table, ib: nat, o: nat, k: nat, r: Row)
    requires Rectangular(left) && Rectangular(right)
    requires ia < |left.columns| && ib < |right.columns|
    ensures var m := LeftMerge(left, ia, right, ib);
      var lp := LeftKept(left.columns, 0);
      var rp := RightKept(right.columns, left.columns, 0);
      && (o < |m.rows| ==>
            exists k' :: 0 <= k' < |left.rows| && JoinedWith(m.rows[o], left.rows[k'], ia, lp, right, ib, rp))
      && (k < |left.rows| && r in right.rows && r[ib] == left.rows[k][ia] ==>
            Project(left.rows[k], lp) + Project(r, rp) in m.rows)
  {
    var lp := LeftKept(left.columns, 0);
    var rp := RightKept(right.columns, left.columns, 0);
    if o < |LeftMerge(left, ia, right, ib).rows| {
      MergedRowsJoin(left.rows, ia, lp, right, ib, rp, o);
    }
    if k < |left.rows| && r in right.rows && r[ib] == left.rows[k][ia] {
      MergedRowsComplete(left.rows, ia, lp, right, ib, rp, k, r);
    }
  }

  /** The merge handles the left rows one at a time, in order: merging two
      runs of left rows gives the two merged runs one after the other. */
  lemma {:induction false} MergedRowsAppend(a: seq<Row>, b: seq<Row>, ia: nat, lp: seq<nat>, right: Table, ib: nat, rp: seq<nat>)
    requires forall k :: 0 <= k < |a| ==> ia < |a[k]| && forall p :: 0 <= p < |lp| ==> lp[p] < |a[k]|
    requires forall k :: 0 <= k < |b| ==> ia < |b[k]| && forall p :: 0 <= p < |lp| ==> lp[p] < |b[k]|
    requires Rectangular(right) && ib < |right.columns|
    requires forall p :: 0 <= p < |rp| ==> rp[p] < |right.columns|
    ensures MergedRows(a + b, ia, lp, right, ib, rp)
      == MergedRows(a, ia, lp, right, ib, rp) + MergedRows(b, ia, lp, right, ib, rp)
    decreases |b|
  {
    if b == [] {
      assert a + b == a;
    } else {
      var b', l := b[..|b| - 1], b[|b| - 1];
      AppendInit(a, b);
      MergedRowsAppend(a, b', ia, lp, right, ib, rp);
      AppendAssoc(MergedRows(a, ia, lp, right, ib, rp), MergedRows(b', ia, lp, right, ib, rp),
                  MergedRowsFor(l, lp, RowsWithKey(right.rows, ib, l[ia]), rp, |right.columns|));
    }
  }

  /** A left join keeps every left row and multiplies none when the right
      side has at most one row per key: then the merge has exactly as many
      rows as the left side. */
  lemma {:induction false} MergedRowsUniqueKeys(ls: seq<Row>, ia: nat, lp: seq<nat>, right: Table, ib: nat, rp: seq<nat>)
    requires forall k :: 0 <= k < |ls| ==> ia < |ls[k]| && forall p :: 0 <= p < |lp| ==> lp[p] < |ls[k]|
    requires Rectangular(right) && ib < |right.columns|
    requires forall p :: 0 <= p < |rp| ==> rp[p] < |right.columns|
    requires forall k :: 0 <= k < |ls| ==> |RowsWithKey(right.rows, ib, ls[k][ia])| <= 1
    ensures |MergedRows(ls, ia, lp, right, ib, rp)| == |ls|
  {
    if ls != [] {
      MergedRowsUniqueKeys(ls[..|ls| - 1], ia, lp, right, ib, rp);
    }
  }
}
