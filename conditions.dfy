/**
 * The condition splitter: `separate_by_condition` cuts a table into one sub-table per
 * distinct non-null value of a label column, in order of first appearance.
 */
module Conditions {
  import opened Wrappers
  import opened Frame

  /**
   * `Series.unique()` with the nulls then removed: the distinct non-null labels of `s`,
   * each once, in the order in which they first appear (the order is stated by
   * `ConditionsExact`).
   */
  function Conditions(s: seq<Cell>): (conds: seq<Cell>)
    ensures forall x :: x in conds <==> x in s && x != Missing
    ensures forall i, j :: 0 <= i < j < |conds| ==> conds[i] != conds[j]
  {
    if s == [] then []
    else
      var seen := Conditions(s[..|s| - 1]);
      var x := s[|s| - 1];
      assert s == s[..|s| - 1] + [x];
      if x == Missing || x in seen then seen else seen + [x]
  }

  /** The position of the first occurrence of `x` in `s`. */
  function FirstIndex(s: seq<Cell>, x: Cell): (r: nat)
    requires x in s
    ensures r < |s| && s[r] == x
    ensures forall k :: 0 <= k < r ==> s[k] != x
  {
    if s[0] == x then 0 else 1 + FirstIndex(s[1..], x)
  }

  /**
   * `data[data.iloc[:, label_col] == v]` tagged with `v`: a well-formed table of the same
   * columns, one row per row of `t` labelled `v`, named by `v`.
   */
  function ConditionPart(t: Table, col: nat, v: Cell): (part: Table)
    requires WellFormed(t) && col < |t.columns|
    ensures WellFormed(part) && |part.columns| == |t.columns| && part.name == Some(v)
    ensures |part.index| == |MatchPositions(t.columns[col].cells, v)|
  {
    assert t.columns[col] in t.columns;
    MatchPositionsSpec(t.columns[col].cells, v);
    SelectRowsWellFormed(t, MatchPositions(t.columns[col].cells, v));
    SelectRows(t, MatchPositions(t.columns[col].cells, v)).(name := Some(v))
  }

  /**
   * `separate_by_condition`: for each distinct non-null label, in first-seen order, the rows
   * carrying that label, tagged with it.
   */
  method SeparateByCondition(data: Table, labelCol: int) returns (parts: seq<Table>)
    requires WellFormed(data) && ValidColumnIndex(|data.columns|, labelCol)
    ensures var col := ResolveColumn(|data.columns|, labelCol);
      && |parts| == |Conditions(data.columns[col].cells)|
      && forall j :: 0 <= j < |parts| ==> parts[j] == ConditionPart(data, col, Conditions(data.columns[col].cells)[j])
  {
    var col := ResolveColumn(|data.columns|, labelCol);
    var uniqueConditions := Conditions(data.columns[col].cells);
    parts := [];
    for j := 0 to |uniqueConditions|
      invariant |parts| == j
      invariant forall m :: 0 <= m < j ==> parts[m] == ConditionPart(data, col, uniqueConditions[m])
    {
      var sliced := ConditionPart(data, col, uniqueConditions[j]);
      parts := parts + [sliced];
    }
  }

  // ----- properties -----

  /** First occurrences are unchanged by looking only at a prefix that already holds the value. */
  lemma FirstIndexPrefix(s: seq<Cell>, n: nat, x: Cell)
    requires n <= |s| && x in s[..n]
    ensures x in s && FirstIndex(s, x) == FirstIndex(s[..n], x)
  {
    var a := FirstIndex(s[..n], x);
    assert s[a] == x;
  }

  /**
   * The conditions are exactly the non-null labels, each listed once, ordered by where
   * each first appears.
   */
  lemma {:induction false} ConditionsExact(s: seq<Cell>)
    ensures forall x :: x in Conditions(s) <==> x in s && x != Missing
    ensures forall i, j :: 0 <= i < j < |Conditions(s)| ==> Conditions(s)[i] != Conditions(s)[j]
    ensures forall i, j :: 0 <= i < j < |Conditions(s)| ==>
              FirstIndex(s, Conditions(s)[i]) < FirstIndex(s, Conditions(s)[j])
  {
    if s != [] {
      var init := s[..|s| - 1];
      var x := s[|s| - 1];
      ConditionsExact(init);
      assert s == init + [x];
      var u := Conditions(s);
      forall i | 0 <= i < |Conditions(init)|
        ensures FirstIndex(s, u[i]) == FirstIndex(init, u[i])
      {
        FirstIndexPrefix(s, |s| - 1, u[i]);
      }
      if !(x == Missing || x in Conditions(init)) {
        assert x !in init;
        assert FirstIndex(s, x) == |s| - 1;
      }
    }
  }

  /** Row k lands in the part of condition j exactly when its label is that condition. */
  lemma RowLandsInItsPart(cells: seq<Cell>, conds: seq<Cell>, k: nat)
    requires k < |cells| && conds == Conditions(cells)
    ensures forall j :: 0 <= j < |conds| ==> (k in MatchPositions(cells, conds[j]) <==> conds[j] == cells[k])
  {
    forall j | 0 <= j < |conds|
      ensures k in MatchPositions(cells, conds[j]) <==> conds[j] == cells[k]
    {
      assert conds[j] in conds;
      MatchPositionsSpec(cells, conds[j]);
    }
  }

  /** A row with a non-null label lands in some part; a row with a null label lands in none. */
  lemma LabelledRowLandsInAPart(cells: seq<Cell>, conds: seq<Cell>, k: nat)
    requires k < |cells| && conds == Conditions(cells)
    ensures cells[k] != Missing <==> exists j :: 0 <= j < |conds| && k in MatchPositions(cells, conds[j])
  {
    if cells[k] != Missing {
      assert cells[k] in cells;
      var j :| 0 <= j < |conds| && conds[j] == cells[k];
      MatchPositionsSpec(cells, conds[j]);
      assert k in MatchPositions(cells, conds[j]);
    } else {
      forall j | 0 <= j < |conds|
        ensures k !in MatchPositions(cells, conds[j])
      {
        MatchPositionsSpec(cells, conds[j]);
      }
    }
  }

  /**
   * Each part is a well-formed table of the same columns, its rows in their original order:
   * the rows labelled `v`, all of them. A null `v` matches no row.
   */
  lemma PartShape(t: Table, col: nat, v: Cell)
    requires WellFormed(t) && col < |t.columns|
    ensures var part := ConditionPart(t, col, v);
      && WellFormed(part)
      && part.name == Some(v)
      && |part.columns| == |t.columns|
      && (forall r :: 0 <= r < |part.index| ==> part.columns[col].cells[r] == v)
      && (forall k :: 0 <= k < |t.index| && t.columns[col].cells[k] == v != Missing ==> t.index[k] in part.index)
      && (v == Missing ==> part.index == [])
  {
    assert t.columns[col] in t.columns;
    var ps := MatchPositions(t.columns[col].cells, v);
    MatchPositionsSpec(t.columns[col].cells, v);
    SelectRowsWellFormed(t, ps);
    var part := ConditionPart(t, col, v);
    forall k | 0 <= k < |t.index| && t.columns[col].cells[k] == v != Missing
      ensures t.index[k] in part.index
    {
      var j :| 0 <= j < |ps| && ps[j] == k;
      assert part.index[j] == t.index[k];
    }
  }
}
