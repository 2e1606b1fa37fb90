/**
 * The light-column remap `remap_LDR`: light readings are clipped to 150 and, when asked,
 * inverted (150 - value) so that darkness reads high, over the stretch from the first reading
 * above 150 to the last one.
 */
module Light {
  import opened Wrappers
  import opened Frame

  const LightThreshold: int := 150

  /** `light_data.loc[light_data > 150] = 150`, on one cell. */
  function Clip(c: Cell): Cell {
    if c.Num? && c.v > LightThreshold then Num(LightThreshold) else c
  }

  /** `150 - light_data`, on one cell; a missing value stays missing. */
  function Invert(c: Cell): Cell {
    if c.Num? then Num(LightThreshold - c.v) else c
  }

  /** A cell after the clip and, when `invert` is set, the inversion. */
  function Remapped(c: Cell, invert: bool): Cell {
    if invert then Invert(Clip(c)) else Clip(c)
  }

  /**
   * `cells` with the positions of [lo, hi) replaced by their remapped value: outside the
   * stretch nothing changes; inside, a number is capped at 150, or after the inversion is never
   * negative, and a missing value stays missing.
   */
  function RemapRange(cells: seq<Cell>, lo: nat, hi: nat, invert: bool): (r: seq<Cell>)
    ensures |r| == |cells|
    ensures forall k :: 0 <= k < |cells| && !(lo <= k < hi) ==> r[k] == cells[k]
    ensures forall k :: 0 <= k < |cells| && lo <= k < hi && cells[k].Num? ==>
      r[k].Num? && (if invert then r[k].v >= 0 else r[k].v <= LightThreshold)
    ensures forall k :: 0 <= k < |cells| && lo <= k < hi && !cells[k].Num? ==> r[k] == cells[k]
  {
    seq(|cells|, (k: int) requires 0 <= k < |cells| => if lo <= k < hi then Remapped(cells[k], invert) else cells[k])
  }

  /** A copy of `t` (without its name tag, which a copy does not carry) whose column `col` holds `cells`. */
  function WithColumn(t: Table, col: nat, cells: seq<Cell>): Table
    requires col < |t.columns|
  {
    t.(columns := t.columns[col := t.columns[col].(cells := cells)], name := None)
  }

  predicate NoText(cells: seq<Cell>) {
    forall k :: 0 <= k < |cells| ==> !cells[k].Text?
  }

  /**
   * `remap_LDR`: finds the first and the last reading above 150, and writes the remapped light
   * readings into a copy of the table at the positions from the first up to, but not including,
   * the last. Fails when no reading is above 150.
   */
  method RemapLight(data: Table, ldrCol: int, invert: bool) returns (r: Result<Table, Failure>)
    requires WellFormed(data) && ValidColumnIndex(|data.columns|, ldrCol)
    requires NoText(data.columns[ResolveColumn(|data.columns|, ldrCol)].cells)
    ensures var col := ResolveColumn(|data.columns|, ldrCol);
      var cells := data.columns[col].cells;
      var high := AbovePositions(cells, LightThreshold);
      && (r.Err? <==> high == [])
      && (r.Err? ==> r.error == IndexOutOfBounds)
      && (r.Ok? ==> r.value == WithColumn(data, col, RemapRange(cells, high[0], high[|high| - 1], invert)))
  {
    var col := ResolveColumn(|data.columns|, ldrCol);
    var lightData := data.columns[col].cells;
    var highLightIndex := AbovePositions(lightData, LightThreshold);
    if highLightIndex == [] {
      return Err(IndexOutOfBounds);
    }
    AbovePositionsSpec(lightData, LightThreshold);
    var start := highLightIndex[0];
    var end := highLightIndex[|highLightIndex| - 1];
    var newCells := new Cell[|lightData|](k requires 0 <= k < |lightData| => lightData[k]);
    for k := start to end
      invariant newCells[..] == RemapRange(lightData, start, k, invert)
    {
      newCells[k] := Remapped(lightData[k], invert);
    }
    r := Ok(WithColumn(data, col, newCells[..]));
  }

  /**
   * The intended remap: the same stretch but including the last reading above 150, the one
   * the comment in the source names as the end of the range.
   */
  function RemapLightInclusive(data: Table, ldrCol: int, invert: bool): (r: Result<Table, Failure>)
    requires WellFormed(data) && ValidColumnIndex(|data.columns|, ldrCol)
    ensures var cells := data.columns[ResolveColumn(|data.columns|, ldrCol)].cells;
      r.Err? <==> AbovePositions(cells, LightThreshold) == []
  {
    var col := ResolveColumn(|data.columns|, ldrCol);
    var cells := data.columns[col].cells;
    var high := AbovePositions(cells, LightThreshold);
    if high == [] then Err(IndexOutOfBounds)
    else
      AbovePositionsSpec(cells, LightThreshold);
      Ok(WithColumn(data, col, RemapRange(cells, high[0], high[|high| - 1] + 1, invert)))
  }

  // ----- properties -----

  /**
   * Remapping a stretch of the light column keeps the table well formed and changes nothing
   * else: same index, same columns in the same order, the light column keeps its name and kind,
   * and its readings outside [lo, hi) are untouched; inside, each reading is remapped, and an
   * inverted reading is never negative.
   */
  lemma RemapChangesOnlyTheStretch(data: Table, col: nat, lo: nat, hi: nat, invert: bool)
    requires WellFormed(data) && col < |data.columns| && NoText(data.columns[col].cells)
    ensures var cells := data.columns[col].cells;
      var t := WithColumn(data, col, RemapRange(cells, lo, hi, invert));
      && WellFormed(t)
      && t.index == data.index
      && |t.columns| == |data.columns|
      && (forall j :: 0 <= j < |data.columns| && j != col ==> t.columns[j] == data.columns[j])
      && t.columns[col].name == data.columns[col].name && t.columns[col].kind == data.columns[col].kind
      && (forall k :: 0 <= k < |cells| && !(lo <= k < hi) ==> t.columns[col].cells[k] == cells[k])
      && (forall k :: 0 <= k < |cells| && lo <= k < hi ==> t.columns[col].cells[k] == Remapped(cells[k], invert))
      && (forall k :: 0 <= k < |cells| && lo <= k < hi && invert && cells[k].Num? ==> t.columns[col].cells[k].v >= 0)
  {
    var cells := data.columns[col].cells;
    assert data.columns[col] in data.columns;
    var t := WithColumn(data, col, RemapRange(cells, lo, hi, invert));
    forall c | c in t.columns
      ensures |c.cells| == |t.index|
      ensures c.kind == Numeric ==> forall x :: x in c.cells ==> !x.Text?
    {
      var j :| 0 <= j < |t.columns| && t.columns[j] == c;
      if j != col {
        assert data.columns[j] in data.columns;
      }
    }
  }

  /**
   * As written, the remap stops one short: the last reading above 150 is left as it was, so
   * the light column still holds a reading above 150 after the remap.
   */
  lemma LastBrightReadingKept(data: Table, ldrCol: int, invert: bool, r: Result<Table, Failure>)
    requires WellFormed(data) && ValidColumnIndex(|data.columns|, ldrCol)
    requires var col := ResolveColumn(|data.columns|, ldrCol);
      var cells := data.columns[col].cells;
      var high := AbovePositions(cells, LightThreshold);
      && high != []
      && r == Ok(WithColumn(data, col, RemapRange(cells, high[0], high[|high| - 1], invert)))
    ensures var col := ResolveColumn(|data.columns|, ldrCol);
      var high := AbovePositions(data.columns[col].cells, LightThreshold);
      var last := high[|high| - 1];
      && last < |r.value.columns[col].cells|
      && r.value.columns[col].cells[last] == data.columns[col].cells[last]
      && r.value.columns[col].cells[last].Num?
      && r.value.columns[col].cells[last].v > LightThreshold
  {
    var col := ResolveColumn(|data.columns|, ldrCol);
    AbovePositionsSpec(data.columns[col].cells, LightThreshold);
  }

  /**
   * The intended remap leaves no reading above 150 in the light column: clipped readings are
   * at most 150 everywhere; inverted readings are at most 150, and at least 0 inside the
   * stretch, provided no reading was negative.
   */
  lemma InclusiveRemapCapsLight(data: Table, ldrCol: int, invert: bool)
    requires WellFormed(data) && ValidColumnIndex(|data.columns|, ldrCol)
    requires invert ==> forall c :: c in data.columns[ResolveColumn(|data.columns|, ldrCol)].cells && c.Num? ==> c.v >= 0
    ensures var r := RemapLightInclusive(data, ldrCol, invert);
      var col := ResolveColumn(|data.columns|, ldrCol);
      r.Ok? ==> forall k :: 0 <= k < |r.value.columns[col].cells| && r.value.columns[col].cells[k].Num? ==>
        r.value.columns[col].cells[k].v <= LightThreshold
  {
    var col := ResolveColumn(|data.columns|, ldrCol);
    var cells := data.columns[col].cells;
    var high := AbovePositions(cells, LightThreshold);
    if high != [] {
      AbovePositionsSpec(cells, LightThreshold);
      var lo, hi := high[0], high[|high| - 1] + 1;
      var out := RemapRange(cells, lo, hi, invert);
      forall k | 0 <= k < |out| && out[k].Num?
        ensures out[k].v <= LightThreshold
      {
        if !(lo <= k < hi) {
          OutsideStretchNotBright(cells, k);
        } else if invert {
          assert cells[k] in cells;
        }
      }
    }
  }

  /** A reading outside the stretch from the first to the last reading above 150 is not above 150. */
  lemma OutsideStretchNotBright(cells: seq<Cell>, k: nat)
    requires k < |cells|
    requires var high := AbovePositions(cells, LightThreshold);
      high != [] && AscendingBelow(high, |cells|) && !(high[0] <= k <= high[|high| - 1])
    ensures !(cells[k].Num? && cells[k].v > LightThreshold)
  {
    var high := AbovePositions(cells, LightThreshold);
    AbovePositionsSpec(cells, LightThreshold);
    forall j | 0 <= j < |high|
      ensures high[j] != k
    {
      assert high[0] <= high[j] <= high[|high| - 1];
    }
    assert k !in high;
  }
}
