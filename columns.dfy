/**
 * The column filter: `remove_object_col` drops every object-typed column of a table,
 * keeps the name tag, and can hand back the dropped columns.
 */
module Columns {
  import opened Wrappers
  import opened Frame

  predicate IsObject(c: Column) {
    c.kind == Object
  }

  /** The columns that are not object-typed, in their original order. */
  function NumericColumns(cols: seq<Column>): seq<Column>
  {
    if cols == [] then []
    else NumericColumns(cols[..|cols| - 1]) + (if IsObject(cols[|cols| - 1]) then [] else [cols[|cols| - 1]])
  }

  /** The object-typed columns, in their original order. */
  function ObjectColumns(cols: seq<Column>): seq<Column>
  {
    if cols == [] then []
    else ObjectColumns(cols[..|cols| - 1]) + (if IsObject(cols[|cols| - 1]) then [cols[|cols| - 1]] else [])
  }

  /**
   * `DataFrame.drop(name, axis=1)`: every column carrying that name is removed, and only
   * those; the others keep their order (`DropAppend`).
   */
  function Drop(cols: seq<Column>, name: string): (r: seq<Column>)
    ensures |r| <= |cols|
    ensures forall c :: c in r <==> c in cols && c.name != name
  {
    if cols == [] then []
    else
      assert cols == cols[..|cols| - 1] + [cols[|cols| - 1]];
      Drop(cols[..|cols| - 1], name) + (if cols[|cols| - 1].name == name then [] else [cols[|cols| - 1]])
  }

  /** The name tag a filtered table gets: the input's own, or the text "NaN" when it has none. */
  function NameTag(name: Option<Cell>): Cell {
    if name.Some? then name.value else Text("NaN")
  }

  /**
   * `remove_object_col`: walks the original columns in order; each object-typed one is appended
   * to the dropped list and dropped by name from the current table. The current table is then
   * tagged with the name. The dropped list is returned only when `returnCols` is set.
   */
  method RemoveObjectColumns(data: Table, returnCols: bool) returns (kept: Table, dropped: Option<seq<Column>>)
    requires DistinctNames(data.columns)
    ensures kept == Table(data.index, NumericColumns(data.columns), Some(NameTag(data.name)))
    ensures dropped == if returnCols then Some(ObjectColumns(data.columns)) else None
  {
    var cols := data.columns;
    var name := NameTag(data.name);
    var current := data;
    var droppedCols: seq<Column> := [];
    for i := 0 to |cols|
      invariant current.index == data.index && current.name == data.name
      invariant current.columns == NumericColumns(cols[..i]) + cols[i..]
      invariant droppedCols == ObjectColumns(cols[..i])
    {
      var column := cols[i];
      FilterStep(cols, i);
      if IsObject(column) {
        droppedCols := droppedCols + [column];
        DropUnique(cols, i);
        current := current.(columns := Drop(current.columns, column.name));
      }
    }
    assert cols[..|cols|] == cols;
    kept := current.(name := Some(name));
    dropped := if returnCols then Some(droppedCols) else None;
  }

  /** One step of the loop: column i moves to the kept or to the dropped side. */
  lemma FilterStep(cols: seq<Column>, i: nat)
    requires i < |cols|
    ensures !IsObject(cols[i]) ==> NumericColumns(cols[..i]) + cols[i..] == NumericColumns(cols[..i + 1]) + cols[i + 1..]
    ensures IsObject(cols[i]) ==> NumericColumns(cols[..i + 1]) == NumericColumns(cols[..i])
    ensures ObjectColumns(cols[..i + 1]) == ObjectColumns(cols[..i]) + (if IsObject(cols[i]) then [cols[i]] else [])
  {
    assert cols[..i + 1][..i] == cols[..i];
    assert cols[i..] == [cols[i]] + cols[i + 1..];
  }

  /** With distinct names, dropping the name of column i removes that column and nothing else. */
  lemma DropUnique(cols: seq<Column>, i: nat)
    requires DistinctNames(cols) && i < |cols|
    ensures Drop(NumericColumns(cols[..i]) + cols[i..], cols[i].name) == NumericColumns(cols[..i]) + cols[i + 1..]
  {
    var kept := NumericColumns(cols[..i]);
    var later := cols[i + 1..];
    EarlierNamesDiffer(cols, i);
    LaterNamesDiffer(cols, i, later);
    assert cols[i..] == [cols[i]] + later;
    assert kept + cols[i..] == kept + [cols[i]] + later;
    DropOnly(kept, cols[i], later);
  }

  /** Dropping the name of `x` from a + [x] + b removes x alone when no other column carries it. */
  lemma DropOnly(a: seq<Column>, x: Column, b: seq<Column>)
    requires forall k :: 0 <= k < |a| ==> NameAt(a, k) != x.name
    requires forall k :: 0 <= k < |b| ==> NameAt(b, k) != x.name
    ensures Drop(a + [x] + b, x.name) == a + b
  {
    DropAbsent(a, x.name);
    DropAbsent(b, x.name);
    DropAppend(a, [x], x.name);
    assert Drop([x], x.name) == [] by {
      assert [x][..0] == [];
    }
    assert a + [] == a;
    assert Drop(a + [x], x.name) == a;
    DropAppend(a + [x], b, x.name);
  }

  /** No column kept before position i carries the name of column i. */
  lemma EarlierNamesDiffer(cols: seq<Column>, i: nat)
    requires DistinctNames(cols) && i < |cols|
    ensures forall k :: 0 <= k < |NumericColumns(cols[..i])| ==> NameAt(NumericColumns(cols[..i]), k) != NameAt(cols, i)
  {
    var kept := NumericColumns(cols[..i]);
    forall k | 0 <= k < |kept|
      ensures NameAt(kept, k) != NameAt(cols, i)
    {
      KeptComeFromInput(cols[..i], kept[k]);
      var j :| 0 <= j < i && cols[..i][j] == kept[k];
      assert NameAt(cols, j) != NameAt(cols, i);
    }
  }

  /** No column after position i carries the name of column i. */
  lemma LaterNamesDiffer(cols: seq<Column>, i: nat, later: seq<Column>)
    requires DistinctNames(cols) && i < |cols| && later == cols[i + 1..]
    ensures forall k :: 0 <= k < |later| ==> NameAt(later, k) != NameAt(cols, i)
  {
    forall k | 0 <= k < |later|
      ensures NameAt(later, k) != NameAt(cols, i)
    {
      assert later[k] == cols[i + 1 + k];
      assert NameAt(cols, i) != NameAt(cols, i + 1 + k);
    }
  }

  lemma {:induction false} KeptComeFromInput(cols: seq<Column>, c: Column)
    requires c in NumericColumns(cols)
    ensures c in cols
  {
    var init := cols[..|cols| - 1];
    if c in NumericColumns(init) {
      KeptComeFromInput(init, c);
    }
  }

  lemma {:induction false} DropAppend(a: seq<Column>, b: seq<Column>, name: string)
    ensures Drop(a + b, name) == Drop(a, name) + Drop(b, name)
    decreases |b|
  {
    if b == [] {
      assert a + b == a;
    } else {
      assert (a + b)[..|a + b| - 1] == a + b[..|b| - 1];
      DropAppend(a, b[..|b| - 1], name);
    }
  }

  lemma {:induction false} DropAbsent(a: seq<Column>, name: string)
    requires forall k :: 0 <= k < |a| ==> NameAt(a, k) != name
    ensures Drop(a, name) == a
  {
    if a != [] {
      var init := a[..|a| - 1];
      forall k | 0 <= k < |init|
        ensures NameAt(init, k) != name
      {
        assert NameAt(a, k) != name;
      }
      DropAbsent(init, name);
      assert NameAt(a, |a| - 1) != name;
      assert init + [a[|a| - 1]] == a;
    }
  }

  /**
   * The filter splits the columns in two: every column is kept or dropped, never both,
   * the kept ones are exactly the non-object columns and the dropped ones exactly the
   * object columns, so nothing is lost or duplicated.
   */
  lemma {:induction false} FilterSplitsColumns(cols: seq<Column>)
    ensures |NumericColumns(cols)| + |ObjectColumns(cols)| == |cols|
    ensures multiset(NumericColumns(cols)) + multiset(ObjectColumns(cols)) == multiset(cols)
    ensures forall c :: c in NumericColumns(cols) <==> c in cols && !IsObject(c)
    ensures forall c :: c in ObjectColumns(cols) <==> c in cols && IsObject(c)
  {
    if cols != [] {
      var init := cols[..|cols| - 1];
      FilterSplitsColumns(init);
      assert cols == init + [cols[|cols| - 1]];
      forall c | c in cols
        ensures c in NumericColumns(cols) || c in ObjectColumns(cols)
      {
        if c != cols[|cols| - 1] {
          assert c in init;
        }
      }
    }
  }

  /** Filtering a filtered table again changes nothing. */
  lemma {:induction false} FilterIdempotent(cols: seq<Column>)
    ensures NumericColumns(NumericColumns(cols)) == NumericColumns(cols)
    ensures ObjectColumns(NumericColumns(cols)) == []
  {
    if cols != [] {
      var init := cols[..|cols| - 1];
      FilterIdempotent(init);
      if !IsObject(cols[|cols| - 1]) {
        var r := NumericColumns(cols);
        assert r == NumericColumns(init) + [cols[|cols| - 1]];
        assert r[..|r| - 1] == NumericColumns(init);
        assert NumericColumns(r) == NumericColumns(NumericColumns(init)) + [cols[|cols| - 1]];
        assert ObjectColumns(r) == ObjectColumns(NumericColumns(init));
      } else {
        assert NumericColumns(cols) == NumericColumns(init);
      }
    }
  }
}
