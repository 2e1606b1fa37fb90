/**
 * The label window `slice_by_label_col`: the rows from a lead time before the first row
 * carrying a section label to a trail time after the last one.
 */
module LabelWindow {
  import opened Wrappers
  import opened Frame
  import opened Conditions

  const Day: int := 24 * 3_600_000

  /** "6D", the default lead before the first labelled row. */
  const DefaultBaseline: int := 6 * Day

  /** "16D", the default trail after the last labelled row. */
  const DefaultPost: int := 16 * Day

  /** `disrupted_index[0]`: the first row of the mask `cells == v` is the first row holding `v`. */
  lemma FirstMatchIsFirstIndex(cells: seq<Cell>, v: Cell)
    requires v != Missing && v in cells
    ensures MatchPositions(cells, v) != [] && MatchPositions(cells, v)[0] == FirstIndex(cells, v)
  {
    MatchPositionsSpec(cells, v);
    var ps := MatchPositions(cells, v);
    var f := FirstIndex(cells, v);
    assert f in ps;
    var j :| 0 <= j < |ps| && ps[j] == f;
    assert ps[0] <= f;
  }

  /** The position of the last row of the mask `cells == v`: `disrupted_index[-1]`. */
  function LastMatch(cells: seq<Cell>, v: Cell): (k: nat)
    requires v != Missing && v in cells
    ensures k < |cells| && cells[k] == v
    ensures forall j :: k < j < |cells| ==> cells[j] != v
  {
    MatchPositionsSpec(cells, v);
    var hits := MatchPositions(cells, v);
    assert hits != [] by {
      var j :| 0 <= j < |cells| && cells[j] == v;
      assert j in hits;
    }
    var last := hits[|hits| - 1];
    assert forall j :: 0 <= j < |cells| && cells[j] == v ==> j <= last by {
      forall j | 0 <= j < |cells| && cells[j] == v
        ensures j <= last
      {
        assert j in hits;
        var i :| 0 <= i < |hits| && hits[i] == j;
        assert i == |hits| - 1 || hits[i] < last;
      }
    }
    last
  }

  /**
   * `slice_by_label_col`: the rows whose timestamp lies in the closed interval
   * [first labelled timestamp - baseline, last labelled timestamp + post], as a copy (which
   * does not carry the name tag); the lead and the trail default to 6 and 16 days. Fails when
   * no row carries the label, which is always the case for a null label: `== None` and
   * `== NaN` hold on no row.
   */
  function SliceByLabel(data: Table, labelCol: int, sectionLabel: Cell, baseline: Option<int>, post: Option<int>): (r: Result<Table, Failure>)
    requires WellFormed(data) && ValidColumnIndex(|data.columns|, labelCol)
    ensures var cells := data.columns[ResolveColumn(|data.columns|, labelCol)].cells;
      && (r.Err? <==> sectionLabel == Missing || sectionLabel !in cells)
      && (r.Err? ==> r.error == IndexOutOfBounds)
  {
    var col := ResolveColumn(|data.columns|, labelCol);
    assert data.columns[col] in data.columns;
    var cells := data.columns[col].cells;
    var startTimeshift := DurationOr(baseline, DefaultBaseline);
    var endTimeshift := DurationOr(post, DefaultPost);
    var disruptedIndex := MatchPositions(cells, sectionLabel);
    MatchPositionsSpec(cells, sectionLabel);
    MatchPositionsEmpty(cells, sectionLabel);
    if disruptedIndex == [] then
      Err(IndexOutOfBounds)
    else
      var start := data.index[disruptedIndex[0]] - startTimeshift;
      var end := data.index[disruptedIndex[|disruptedIndex| - 1]] + endTimeshift;
      Ok(SliceWindow(data, start, end).(name := None))
  }

  // ----- properties -----

  /**
   * Every row carrying the label lies between the first match and the last match, so the window
   * runs from the earliest to the latest labelled timestamp, widened by the lead and the trail.
   */
  lemma MatchesBracketLabel(cells: seq<Cell>, v: Cell)
    requires v != Missing && v in cells
    ensures forall k :: 0 <= k < |cells| && cells[k] == v ==> FirstIndex(cells, v) <= k <= LastMatch(cells, v)
  {
  }

  /**
   * The slice of a non-null label present in the column is a well-formed copy of the table
   * (same columns, no name tag) holding exactly the rows whose timestamp lies in
   * [first match - baseline, last match + post], in order.
   */
  lemma LabelWindowExact(data: Table, labelCol: int, v: Cell, baseline: Option<int>, post: Option<int>)
    requires WellFormed(data) && ValidColumnIndex(|data.columns|, labelCol)
    requires v != Missing && v in data.columns[ResolveColumn(|data.columns|, labelCol)].cells
    ensures var col := ResolveColumn(|data.columns|, labelCol);
      var cells := data.columns[col].cells;
      var r := SliceByLabel(data, labelCol, v, baseline, post);
      && FirstIndex(cells, v) < |data.index| && LastMatch(cells, v) < |data.index|
      && var start := data.index[FirstIndex(cells, v)] - DurationOr(baseline, DefaultBaseline);
      var end := data.index[LastMatch(cells, v)] + DurationOr(post, DefaultPost);
      && r.Ok?
      && WellFormed(r.value)
      && |r.value.columns| == |data.columns|
      && r.value.name == None
      && (forall x :: x in r.value.index ==> x in data.index && start <= x <= end)
      && (forall k :: 0 <= k < |data.index| && start <= data.index[k] <= end ==> data.index[k] in r.value.index)
  {
    var col := ResolveColumn(|data.columns|, labelCol);
    assert data.columns[col] in data.columns;
    var cells := data.columns[col].cells;
    FirstMatchIsFirstIndex(cells, v);
    var hits := MatchPositions(cells, v);
    assert LastMatch(cells, v) == hits[|hits| - 1];
    var start := data.index[FirstIndex(cells, v)] - DurationOr(baseline, DefaultBaseline);
    var end := data.index[LastMatch(cells, v)] + DurationOr(post, DefaultPost);
    assert SliceByLabel(data, labelCol, v, baseline, post) == Ok(SliceWindow(data, start, end).(name := None));
    SliceWindowExact(data, start, end);
  }

  /**
   * With a non-negative lead and trail, every row from the first labelled row to the last one
   * is in the slice, whatever its own label.
   */
  lemma LabelledStretchKept(data: Table, labelCol: int, v: Cell, baseline: Option<int>, post: Option<int>)
    requires WellFormed(data) && ValidColumnIndex(|data.columns|, labelCol)
    requires v != Missing && v in data.columns[ResolveColumn(|data.columns|, labelCol)].cells
    requires DurationOr(baseline, DefaultBaseline) >= 0 && DurationOr(post, DefaultPost) >= 0
    ensures var col := ResolveColumn(|data.columns|, labelCol);
      var cells := data.columns[col].cells;
      var r := SliceByLabel(data, labelCol, v, baseline, post);
      && r.Ok?
      && LastMatch(cells, v) < |data.index|
      && forall k :: FirstIndex(cells, v) <= k <= LastMatch(cells, v) ==> data.index[k] in r.value.index
  {
    var col := ResolveColumn(|data.columns|, labelCol);
    assert data.columns[col] in data.columns;
    var cells := data.columns[col].cells;
    LabelWindowExact(data, labelCol, v, baseline, post);
    var first, last := FirstIndex(cells, v), LastMatch(cells, v);
    forall k | first <= k <= last
      ensures data.index[k] in SliceByLabel(data, labelCol, v, baseline, post).value.index
    {
      if k != first {
        assert data.index[first] < data.index[k];
      }
      if k != last {
        assert data.index[k] < data.index[last];
      }
    }
  }
}
